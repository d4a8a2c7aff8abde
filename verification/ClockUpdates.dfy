/** The two ways a clock grows: a coordinator's bump, and the join of sibling clocks. */
module ClockUpdates {
  import opened Words
  import opened Seqs
  import opened Clocks
  import opened ClockLaws
  import opened Siblings

  /** The next 64-bit counter value; the top wraps around to 0. */
  function Next(version: nat): Word64 {
    (version + 1) % TWO_64
  }

  lemma NextValue(version: Word64)
    ensures version == TWO_64 - 1 ==> Next(version) == 0
    ensures version < TWO_64 - 1 ==> Next(version) == version + 1
  {
  }

  function BumpStamp(x: Stamp, server: string): Stamp {
    if x.server == server then Stamp(x.server, Next(x.version)) else x
  }

  function BumpStamps(c: Clock, server: string): (r: Clock)
    ensures |r| == |c|
  {
    seq(|c|, i requires 0 <= i < |c| => BumpStamp(c[i], server))
  }

  function Bumped(c: Clock, server: string): Clock {
    BumpStamps(c, server) + if server in Servers(c) then [] else [Stamp(server, 1)]
  }

  method UpdateVersion(original: Clock, server: string) returns (updated: Clock)
    ensures updated == Bumped(original, server)
  {
    updated := [];
    var recordExists := false;
    for i := 0 to |original|
      invariant |updated| == i
      invariant forall k :: 0 <= k < i ==> updated[k] == BumpStamp(original[k], server)
      invariant recordExists <==> exists k :: 0 <= k < i && original[k].server == server
    {
      if original[i].server == server {
        recordExists := true;
        updated := updated + [Stamp(original[i].server, Next(original[i].version))];
      } else {
        updated := updated + [original[i]];
      }
    }
    assert updated == BumpStamps(original, server);
    if !recordExists {
      updated := updated + [Stamp(server, 1)];
    }
  }

  lemma BumpServers(c: Clock, server: string)
    requires DistinctServers(c)
    ensures DistinctServers(Bumped(c, server))
    ensures Servers(Bumped(c, server)) == Servers(c) + {server}
  {
    var r := Bumped(c, server);
    assert forall i :: 0 <= i < |c| ==> r[i].server == c[i].server && c[i].server in Servers(c);
    forall s | s in Servers(c) ensures s in Servers(r) {
      var i :| 0 <= i < |c| && c[i].server == s;
      assert r[i].server == s && r[i] in r;
    }
    if server !in Servers(c) {
      assert r[|c|] == Stamp(server, 1) && r[|c|] in r;
    }
  }

  /** A map whose servers are those of the clock and whose entries are its stamps is its map. */
  lemma MapOfStamps(c: Clock, m: Versions)
    requires DistinctServers(c) && m.Keys == Servers(c)
    requires forall s :: s in m ==> Stamp(s, m[s]) in c
    ensures AsMap(c) == m
  {
    forall s | s in m ensures AsMap(c)[s] == m[s] {
      assert Stamp(s, m[s]) in c;
    }
  }

  /** A bump changes the map at one server only, and names every server once. */
  lemma BumpAsMap(c: Clock, server: string)
    requires DistinctServers(c)
    ensures DistinctServers(Bumped(c, server))
    ensures AsMap(Bumped(c, server)) == AsMap(c)[server := Next(VersionOf(AsMap(c), server))]
  {
    BumpServers(c, server);
    var r, m := Bumped(c, server), AsMap(c)[server := Next(VersionOf(AsMap(c), server))];
    forall s | s in m ensures Stamp(s, m[s]) in r {
      if s in Servers(c) {
        var i :| 0 <= i < |c| && c[i] == StampOf(c, s);
        assert r[i] == BumpStamp(c[i], server) == Stamp(s, m[s]);
      } else {
        assert r[|c|] == Stamp(server, 1);
      }
    }
    MapOfStamps(r, m);
  }

  /** The server's counter is at the top of its 64-bit range. */
  ghost predicate Saturated(c: Clock, server: string) {
    Stamp(server, TWO_64 - 1) in c
  }

  /** Every stamp of c is matched or exceeded in j. */
  ghost predicate Within(c: Clock, j: Clock) {
    forall x :: x in c ==> exists y :: y in j && y.server == x.server && x.version <= y.version
  }

  /** At every stamp within j the bumped clock stands at least as high, at the server higher. */
  lemma BumpExceeds(j: Clock, server: string, x: Stamp, z: Stamp)
    requires DistinctServers(j) && !Saturated(j, server)
    requires Within([x], j)
    requires z in Bumped(j, server) && z.server == x.server
    ensures x.version <= z.version && (x.server == server ==> x.version < z.version)
  {
    BumpAsMap(j, server);
    assert x in [x];
    var y :| y in j && y.server == x.server && x.version <= y.version;
    assert AsMap(Bumped(j, server))[z.server] == z.version;
    assert y == Stamp(y.server, y.version);
    NextValue(y.version);
  }

  /** Short of saturation a bump is newer than every clock that lies within the bumped one. */
  lemma BumpIsNewer(j: Clock, server: string, c: Clock)
    requires DistinctServers(j) && !Saturated(j, server) && Within(c, j)
    ensures Newer(Bumped(j, server), c)
  {
    var r := Bumped(j, server);
    BumpServers(j, server);
    forall x, z | x in c && z in r && z.server == x.server
      ensures x.version <= z.version && (x.server == server ==> x.version < z.version)
    {
      BumpExceeds(j, server, x, z);
    }
    assert server in Servers(r);
    if server in Servers(c) {
      var x, z := StampOf(c, server), StampOf(r, server);
      assert x.version < z.version;
    }
  }

  ghost predicate NewerThanAllWithin(r: Clock, j: Clock) {
    forall c: Clock :: Within(c, j) ==> Newer(r, c)
  }

  lemma SaturatedStepsBack(j: Clock, server: string, c: Clock)
    requires DistinctServers(j) && Saturated(j, server) && Saturated(c, server)
    ensures !Newer(Bumped(j, server), c)
  {
    BumpAsMap(j, server);
    var r, x := Bumped(j, server), Stamp(server, TWO_64 - 1);
    assert AsMap(j)[server] == x.version;
    NextValue(x.version);
    var z := StampOf(r, server);
    assert z.version == AsMap(r)[server] == 0;
    assert x in c && z in r && z.version < x.version;
  }

  /** Saturation is the only obstacle: a wrapped counter makes the bumped clock step back. */
  lemma BumpIsNewerExactly(j: Clock, server: string)
    requires DistinctServers(j)
    ensures NewerThanAllWithin(Bumped(j, server), j) <==> !Saturated(j, server)
    ensures Newer(Bumped(j, server), j) <==> !Saturated(j, server)
  {
    assert Within(j, j);
    if Saturated(j, server) {
      SaturatedStepsBack(j, server, j);
    } else {
      forall c: Clock | Within(c, j) ensures Newer(Bumped(j, server), c) {
        BumpIsNewer(j, server, c);
      }
    }
  }

  /** The clock after one bump by every coordinator of the list in turn. */
  function BumpAll(c: Clock, servers: seq<string>): Clock {
    if servers == [] then c
    else Bumped(BumpAll(c, servers[..|servers| - 1]), servers[|servers| - 1])
  }

  ghost predicate NoOverflow(c: Clock, servers: seq<string>)
    requires DistinctServers(c)
  {
    forall s :: s in servers ==> VersionOf(AsMap(c), s) + multiset(servers)[s] < TWO_64
  }

  lemma NoOverflowSplit(c: Clock, front: seq<string>, last: string)
    requires DistinctServers(c)
    ensures NoOverflow(c, front + [last]) <==>
            NoOverflow(c, front) && VersionOf(AsMap(c), last) + multiset(front)[last] + 1 < TWO_64
  {
    assert multiset(front + [last]) == multiset(front) + multiset{last};
    assert forall s :: s in front ==> s in front + [last];
    assert last in front + [last];
  }

  lemma OneMoreBump(c: Clock, server: string)
    requires DistinctServers(c) && VersionOf(AsMap(c), server) + 1 < TWO_64
    ensures DistinctServers(Bumped(c, server))
    ensures Servers(Bumped(c, server)) == Servers(c) + {server}
    ensures forall s :: VersionOf(AsMap(Bumped(c, server)), s) == VersionOf(AsMap(c), s) + multiset{server}[s]
  {
    BumpServers(c, server);
    BumpAsMap(c, server);
    NextValue(VersionOf(AsMap(c), server));
  }

  /** Every server's counter has grown by the number of its bumps. */
  lemma {:induction false} BumpsAreCounted(c: Clock, servers: seq<string>)
    requires DistinctServers(c) && NoOverflow(c, servers)
    ensures DistinctServers(BumpAll(c, servers))
    ensures forall s :: VersionOf(AsMap(BumpAll(c, servers)), s) == VersionOf(AsMap(c), s) + multiset(servers)[s]
    ensures Servers(BumpAll(c, servers)) == Servers(c) + ToSet(servers)
  {
    if servers != [] {
      var front, last := servers[..|servers| - 1], servers[|servers| - 1];
      assert servers == front + [last];
      NoOverflowSplit(c, front, last);
      BumpsAreCounted(c, front);
      OneMoreBump(BumpAll(c, front), last);
      assert multiset(servers) == multiset(front) + multiset{last};
      assert ToSet(servers) == ToSet(front) + {last};
      assert BumpAll(c, servers) == Bumped(BumpAll(c, front), last);
    }
  }

  ghost predicate EachBumpIsNewer(c: Clock, servers: seq<string>) {
    if servers == [] then true
    else
      var front := servers[..|servers| - 1];
      EachBumpIsNewer(c, front) && Newer(BumpAll(c, servers), BumpAll(c, front))
  }

  lemma SaturatedAsMap(c: Clock, server: string)
    requires DistinctServers(c)
    ensures Saturated(c, server) <==> VersionOf(AsMap(c), server) == TWO_64 - 1
  {
    if server in AsMap(c) {
      assert StampOf(c, server) == Stamp(server, AsMap(c)[server]);
    }
  }

  /** A history of bumps is a chain exactly when no counter runs over. */
  lemma {:induction false} HistoryIsChainExactly(c: Clock, servers: seq<string>)
    requires DistinctServers(c)
    ensures EachBumpIsNewer(c, servers) <==> NoOverflow(c, servers)
  {
    if servers != [] {
      var front, last := servers[..|servers| - 1], servers[|servers| - 1];
      assert servers == front + [last];
      NoOverflowSplit(c, front, last);
      HistoryIsChainExactly(c, front);
      if NoOverflow(c, front) {
        BumpsAreCounted(c, front);
        BumpIsNewerExactly(BumpAll(c, front), last);
        SaturatedAsMap(BumpAll(c, front), last);
      }
    }
  }

  /** So a replica that missed any number of intermediate writes still accepts the latest. */
  lemma {:induction false} LaterInHistoryIsNewer(c: Clock, servers: seq<string>, i: nat)
    requires DistinctServers(c) && NoOverflow(c, servers)
    requires i < |servers|
    ensures Newer(BumpAll(c, servers), BumpAll(c, servers[..i]))
  {
    var front, last := servers[..|servers| - 1], servers[|servers| - 1];
    assert servers == front + [last];
    HistoryIsChainExactly(c, servers);
    if i < |front| {
      NoOverflowSplit(c, front, last);
      LaterInHistoryIsNewer(c, front, i);
      assert front[..i] == servers[..i];
      NewerTransitive(BumpAll(c, servers), BumpAll(c, front), BumpAll(c, front[..i]));
    }
  }

  /** A nonempty history leads above everything that lies within its start. */
  lemma {:induction false} HistoryIsNewerThanAllWithin(c: Clock, servers: seq<string>, low: Clock)
    requires DistinctServers(c) && NoOverflow(c, servers) && servers != [] && Within(low, c)
    ensures Newer(BumpAll(c, servers), low)
  {
    var front, last := servers[..|servers| - 1], servers[|servers| - 1];
    assert servers == front + [last];
    NoOverflowSplit(c, front, last);
    if front == [] {
      SaturatedAsMap(c, last);
      BumpIsNewer(c, last, low);
    } else {
      HistoryIsNewerThanAllWithin(c, front, low);
      LaterInHistoryIsNewer(c, servers, |front|);
      NewerTransitive(BumpAll(c, servers), BumpAll(c, front), low);
    }
  }

  /**
   Two branches of one history: one clock is newer than the other exactly if its bumps strictly
   include the other's, however they are ordered, and the same if they are the same bumps.
   */
  lemma BranchesCompareExactly(c: Clock, mine: seq<string>, theirs: seq<string>)
    requires DistinctServers(c) && NoOverflow(c, mine) && NoOverflow(c, theirs)
    requires c != [] || theirs != []
    ensures Newer(BumpAll(c, mine), BumpAll(c, theirs)) <==> multiset(theirs) < multiset(mine)
    ensures Verdict(BumpAll(c, mine), BumpAll(c, theirs)) == SAME <==> multiset(theirs) == multiset(mine)
  {
    BumpsAreCounted(c, mine);
    BumpsAreCounted(c, theirs);
    var a, b := BumpAll(c, mine), BumpAll(c, theirs);
    assert AsMap(b) != map[] by {
      if c != [] { assert c[0].server in AsMap(b); } else { assert theirs[0] in AsMap(b); }
    }
    CountersCompare(c, a, multiset(mine), b, multiset(theirs));
  }

  /** These counters are the base's, raised by so many bumps each. */
  ghost predicate RaisedBy(base: Versions, raised: Versions, bumps: multiset<string>) {
    && (forall s :: s in raised <==> s in base || s in bumps)
    && forall s :: VersionOf(raised, s) == VersionOf(base, s) + bumps[s]
  }

  lemma IncludedExactly(base: Versions, a: Versions, mine: multiset<string>, b: Versions, theirs: multiset<string>)
    requires RaisedBy(base, a, mine) && RaisedBy(base, b, theirs)
    ensures theirs <= mine <==> b.Keys <= a.Keys && forall s :: s in b ==> b[s] <= a[s]
  {
    if theirs <= mine {
      forall s | s in b ensures s in a && b[s] <= a[s] {
        assert theirs[s] <= mine[s];
        assert VersionOf(b, s) <= VersionOf(a, s);
      }
    }
    if b.Keys <= a.Keys && forall s :: s in b ==> b[s] <= a[s] {
      forall s ensures theirs[s] <= mine[s] {
        assert VersionOf(b, s) <= VersionOf(a, s);
      }
    }
  }

  lemma CountersCompare(c: Clock, a: Clock, mine: multiset<string>, b: Clock, theirs: multiset<string>)
    requires DistinctServers(c) && DistinctServers(a) && DistinctServers(b)
    requires RaisedBy(AsMap(c), AsMap(a), mine) && RaisedBy(AsMap(c), AsMap(b), theirs) && AsMap(b) != map[]
    ensures Newer(a, b) <==> theirs < mine
    ensures Verdict(a, b) == SAME <==> theirs == mine
  {
    ExactClassification(a, b);
    IncludedExactly(AsMap(c), AsMap(a), mine, AsMap(b), theirs);
    IncludedExactly(AsMap(c), AsMap(b), theirs, AsMap(a), mine);
    SameExactly(AsMap(a), AsMap(b));
    assert theirs == mine <==> theirs <= mine && mine <= theirs;
  }

  lemma SameExactly(a: Versions, b: Versions)
    ensures a == b <==> && b.Keys <= a.Keys && (forall s :: s in b ==> b[s] <= a[s])
                        && a.Keys <= b.Keys && (forall s :: s in a ==> a[s] <= b[s])
  {
    if && b.Keys <= a.Keys && (forall s :: s in b ==> b[s] <= a[s])
       && a.Keys <= b.Keys && (forall s :: s in a ==> a[s] <= b[s])
    {
      assert forall s :: s in a ==> a[s] == b[s];
    }
  }

  function Total(c: Clock): nat {
    if c == [] then 0 else Total(c[..|c| - 1]) + c[|c| - 1].version
  }

  lemma TotalAppend(c: Clock, x: Stamp)
    ensures Total(c + [x]) == Total(c) + x.version
  {
    assert (c + [x])[..|c|] == c;
  }

  lemma BumpStampsAppend(c: Clock, x: Stamp, server: string)
    ensures BumpStamps(c + [x], server) == BumpStamps(c, server) + [BumpStamp(x, server)]
  {
  }

  lemma BumpStampGain(x: Stamp, server: string)
    requires x != Stamp(server, TWO_64 - 1)
    ensures BumpStamp(x, server).version == x.version + if x.server == server then 1 else 0
  {
    NextValue(x.version);
  }

  lemma FrontOfClock(front: Clock, last: Stamp, server: string)
    requires DistinctServers(front + [last]) && !Saturated(front + [last], server)
    ensures DistinctServers(front) && !Saturated(front, server)
    ensures last.server !in Servers(front) && last != Stamp(server, TWO_64 - 1)
  {
    var c := front + [last];
    assert last in c && forall x :: x in front ==> x in c;
    assert c[|front|] == last && forall i :: 0 <= i < |front| ==> c[i] == front[i];
  }

  lemma {:induction false} BumpedStampsTotal(c: Clock, server: string)
    requires DistinctServers(c) && !Saturated(c, server)
    ensures Total(BumpStamps(c, server)) == Total(c) + if server in Servers(c) then 1 else 0
  {
    if c != [] {
      var front, last := c[..|c| - 1], c[|c| - 1];
      assert c == front + [last];
      FrontOfClock(front, last, server);
      BumpedStampsTotal(front, server);
      BumpStampsAppend(front, last, server);
      TotalAppend(front, last);
      TotalAppend(BumpStamps(front, server), BumpStamp(last, server));
      BumpStampGain(last, server);
      ServersAppend(front, last);
    }
  }

  lemma BumpAddsOne(c: Clock, server: string)
    requires DistinctServers(c) && !Saturated(c, server)
    ensures Total(Bumped(c, server)) == Total(c) + 1
  {
    BumpedStampsTotal(c, server);
    if server in Servers(c) {
      assert Bumped(c, server) == BumpStamps(c, server);
    } else {
      TotalAppend(BumpStamps(c, server), Stamp(server, 1));
    }
  }

  lemma {:induction false} HistoryTotal(c: Clock, servers: seq<string>)
    requires DistinctServers(c) && NoOverflow(c, servers)
    ensures Total(BumpAll(c, servers)) == Total(c) + |servers|
  {
    if servers != [] {
      var front, last := servers[..|servers| - 1], servers[|servers| - 1];
      assert servers == front + [last];
      NoOverflowSplit(c, front, last);
      BumpsAreCounted(c, front);
      HistoryTotal(c, front);
      SaturatedAsMap(BumpAll(c, front), last);
      BumpAddsOne(BumpAll(c, front), last);
    }
  }

  /** All the siblings' stamps, one clock after the other. */
  ghost function AllStamps(siblings: seq<Versioned>): seq<Stamp> {
    if siblings == [] then [] else AllStamps(siblings[..|siblings| - 1]) + siblings[|siblings| - 1].clock
  }

  ghost predicate IsMaximum(m: Versions, stamps: seq<Stamp>) {
    && (forall x :: x in stamps ==> x.server in m && x.version <= m[x.server])
    && (forall s :: s in m ==> Stamp(s, m[s]) in stamps)
  }

  /** j names each server once, contains every sibling, and has no stamp that no sibling has. */
  ghost predicate IsJoin(j: Clock, siblings: seq<Versioned>) {
    && DistinctServers(j)
    && (forall sibling :: sibling in siblings ==> Within(sibling.clock, j))
    && (forall y :: y in j ==> exists sibling :: sibling in siblings && y in sibling.clock)
  }

  method MaximumOf(siblings: seq<Versioned>) returns (mapping: Versions)
    ensures IsMaximum(mapping, AllStamps(siblings))
  {
    var existing: set<string> := {};
    mapping := map[];
    for i := 0 to |siblings|
      invariant existing == mapping.Keys && IsMaximum(mapping, AllStamps(siblings[..i]))
    {
      ghost var before := AllStamps(siblings[..i]);
      var clock := siblings[i].clock;
      for k := 0 to |clock|
        invariant existing == mapping.Keys && IsMaximum(mapping, before + clock[..k])
      {
        var x := clock[k];
        assert before + clock[..k + 1] == before + clock[..k] + [x];
        if x.server !in existing {
          existing := existing + {x.server};
          mapping := mapping[x.server := x.version];
        } else {
          var known := mapping[x.server];
          mapping := mapping[x.server := if known < x.version then x.version else known];
        }
      }
      assert clock[..|clock|] == clock && siblings[..i + 1][..i] == siblings[..i];
    }
    assert siblings[..|siblings|] == siblings;
  }

  lemma {:induction false} AllStampsMembers(siblings: seq<Versioned>, x: Stamp)
    ensures x in AllStamps(siblings) <==> exists sibling :: sibling in siblings && x in sibling.clock
  {
    if siblings != [] {
      var front, last := siblings[..|siblings| - 1], siblings[|siblings| - 1];
      assert siblings == front + [last];
      AllStampsMembers(front, x);
    }
  }

  lemma MaximumIsJoin(j: Clock, m: Versions, siblings: seq<Versioned>)
    requires IsMaximum(m, AllStamps(siblings)) && DistinctServers(j) && AsMap(j) == m
    ensures IsJoin(j, siblings)
  {
    forall sibling | sibling in siblings
      ensures Within(sibling.clock, j)
    {
      forall x | x in sibling.clock
        ensures exists y :: y in j && y.server == x.server && x.version <= y.version
      {
        AllStampsMembers(siblings, x);
        var y := StampOf(j, x.server);
        assert m[x.server] == y.version;
      }
    }
    forall y | y in j
      ensures exists sibling :: sibling in siblings && y in sibling.clock
    {
      AllStampsMembers(siblings, y);
      assert Stamp(y.server, m[y.server]) == y;
    }
  }

  lemma ServersAppend(c: Clock, x: Stamp)
    ensures Servers(c + [x]) == Servers(c) + {x.server}
  {
    assert forall y :: y in c + [x] <==> y in c || y == x;
    assert x in c + [x];
  }

  method ReconcileVersion(siblings: seq<Versioned>) returns (joined: Clock)
    ensures IsJoin(joined, siblings)
  {
    var mapping := MaximumOf(siblings);
    joined := [];
    var rest := mapping.Keys;
    while rest != {}
      invariant rest <= mapping.Keys
      invariant DistinctServers(joined)
      invariant Servers(joined) == mapping.Keys - rest
      invariant forall x :: x in joined ==> x.server in mapping && x.version == mapping[x.server]
      decreases rest
    {
      var server :| server in rest;
      assert server !in Servers(joined);
      assert Servers(joined + [Stamp(server, mapping[server])]) == Servers(joined) + {server} by {
        ServersAppend(joined, Stamp(server, mapping[server]));
      }
      joined := joined + [Stamp(server, mapping[server])];
      rest := rest - {server};
    }
    MaximumIsJoin(joined, mapping, siblings);
  }

  /** The join is the least clock that contains all the siblings. */
  lemma JoinIsLeast(j: Clock, siblings: seq<Versioned>, u: Clock)
    requires IsJoin(j, siblings)
    ensures (forall sibling :: sibling in siblings ==> Within(sibling.clock, u)) <==> Within(j, u)
  {
    if Within(j, u) {
      forall sibling, x | sibling in siblings && x in sibling.clock
        ensures exists y :: y in u && y.server == x.server && x.version <= y.version
      {
        var y :| y in j && y.server == x.server && x.version <= y.version;
        var z :| z in u && z.server == y.server && y.version <= z.version;
      }
    }
    if forall sibling :: sibling in siblings ==> Within(sibling.clock, u) {
      forall y | y in j
        ensures exists z :: z in u && z.server == y.server && y.version <= z.version
      {
        var sibling :| sibling in siblings && y in sibling.clock;
      }
    }
  }

  lemma JoinSaturates(j: Clock, siblings: seq<Versioned>, server: string)
    requires IsJoin(j, siblings)
    ensures Saturated(j, server) <==> exists sibling :: sibling in siblings && Saturated(sibling.clock, server)
  {
    if sibling :| sibling in siblings && Saturated(sibling.clock, server) {
      assert Within(sibling.clock, j);
      var y :| y in j && y.server == server && TWO_64 - 1 <= y.version;
      assert y == Stamp(server, TWO_64 - 1);
    }
  }

  ghost predicate NewerThanEverySibling(c: Clock, siblings: seq<Versioned>) {
    forall sibling :: sibling in siblings ==> Newer(c, sibling.clock)
  }

  /**
   A merged write is accepted over every sibling and over everything within the join,
   whichever coordinator bumps it, exactly when no sibling has that coordinator's counter
   at its top.
   */
  lemma MergedWriteIsNewerExactly(j: Clock, siblings: seq<Versioned>, coordinator: string)
    requires IsJoin(j, siblings)
    ensures NewerThanEverySibling(Bumped(j, coordinator), siblings)
            <==> forall sibling :: sibling in siblings ==> !Saturated(sibling.clock, coordinator)
    ensures NewerThanAllWithin(Bumped(j, coordinator), j)
            <==> forall sibling :: sibling in siblings ==> !Saturated(sibling.clock, coordinator)
  {
    BumpIsNewerExactly(j, coordinator);
    JoinSaturates(j, siblings, coordinator);
    if sibling :| sibling in siblings && Saturated(sibling.clock, coordinator) {
      SaturatedStepsBack(j, coordinator, sibling.clock);
    } else {
      forall sibling | sibling in siblings ensures Newer(Bumped(j, coordinator), sibling.clock) {
        BumpIsNewer(j, coordinator, sibling.clock);
      }
    }
  }
}
