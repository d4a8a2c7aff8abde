/** Sibling versions of one key, and the pruning a read applies to the replies it collected. */
module Siblings {
  import opened Words
  import opened Seqs
  import opened Clocks
  import opened ClockLaws

  datatype Versioned = Versioned(value: string, clock: Clock)

  method RemoveDuplicateData(versions: seq<Versioned>) returns (unique: seq<Versioned>)
    ensures unique == Distinct(versions)
  {
    unique := [];
    for i := 0 to |versions|
      invariant unique == Distinct(versions[..i])
    {
      var isDuplicate := false;
      for j := 0 to |unique|
        invariant !isDuplicate
        invariant versions[i] !in unique[..j]
      {
        if versions[i] == unique[j] {
          isDuplicate := true;
          break;
        }
      }
      assert versions[..i + 1] == versions[..i] + [versions[i]];
      DistinctAppend(versions[..i], versions[i]);
      if !isDuplicate { unique := unique + [versions[i]]; }
    }
    assert versions[..|versions|] == versions;
  }

  /** Some version of `all` makes x old data. */
  ghost predicate Beaten(x: Versioned, all: seq<Versioned>) {
    exists y :: y in all && Older(x.clock, y.clock)
  }

  ghost function Unbeaten(all: seq<Versioned>): set<Versioned> {
    set x | x in all && !Beaten(x, all)
  }

  /** The inner loop: is the i-th version old data against some other one? */
  method ScanForNewer(original: seq<Versioned>, i: nat) returns (isOld: bool)
    requires i < |original|
    ensures isOld <==> Beaten(original[i], original)
  {
    isOld := false;
    for j := 0 to |original|
      invariant !isOld
      invariant forall k :: 0 <= k < j ==> !Older(original[i].clock, original[k].clock)
    {
      if i != j {
        var res := CheckConflictVersion(original[i].clock, original[j].clock);
        if res < 0 {
          isOld := true;
          break;
        }
      } else {
        OlderIrreflexive(original[i].clock);
      }
    }
  }

  method RemoveUnconflictData(original: seq<Versioned>) returns (kept: seq<Versioned>)
    ensures kept == Keep(original, Unbeaten(original))
  {
    kept := [];
    for i := 0 to |original|
      invariant kept == Keep(original[..i], Unbeaten(original))
    {
      var isOld := ScanForNewer(original, i);
      assert original[..i + 1] == original[..i] + [original[i]];
      KeepAppend(original[..i], original[i], Unbeaten(original));
      if !isOld { kept := kept + [original[i]]; }
    }
    assert original[..|original|] == original;
  }

  ghost function Latest(versions: seq<Versioned>): seq<Versioned> {
    Keep(Distinct(versions), Unbeaten(Distinct(versions)))
  }

  method GetLatestData(original: seq<Versioned>) returns (latest: seq<Versioned>)
    ensures latest == Latest(original)
  {
    latest := RemoveDuplicateData(original);
    latest := RemoveUnconflictData(latest);
  }

  /** Membership of the pruned result depends on the replies as a set. */
  lemma LatestMembers(versions: seq<Versioned>, x: Versioned)
    ensures x in Latest(versions) <==> x in versions && !Beaten(x, versions)
  {
    assert Beaten(x, versions) <==> Beaten(x, Distinct(versions));
  }

  /** Whatever is dropped is reported older than something that is kept. */
  lemma {:induction false} DroppedIsOlderThanKept(versions: seq<Versioned>, x: Versioned)
    requires x in versions
    ensures x in Latest(versions) || exists y :: y in Latest(versions) && Older(x.clock, y.clock)
    decreases set y | y in versions && Older(x.clock, y.clock)
  {
    LatestMembers(versions, x);
    if x !in Latest(versions) {
      var y :| y in versions && Older(x.clock, y.clock);
      forall z | z in versions && Older(y.clock, z.clock)
        ensures Older(x.clock, z.clock)
      {
        OlderTransitive(x.clock, y.clock, z.clock);
      }
      OlderIrreflexive(y.clock);
      var above := set z | z in versions && Older(x.clock, z.clock);
      assert y in above && y !in set z | z in versions && Older(y.clock, z.clock);
      DroppedIsOlderThanKept(versions, y);
      if y !in Latest(versions) {
        var z :| z in Latest(versions) && Older(y.clock, z.clock);
        OlderTransitive(x.clock, y.clock, z.clock);
      }
    }
  }

  lemma NonemptyStaysNonempty(versions: seq<Versioned>)
    ensures Latest(versions) == [] <==> versions == []
  {
    if versions != [] {
      DroppedIsOlderThanKept(versions, versions[0]);
    }
  }

  lemma PruningIsIdempotent(versions: seq<Versioned>)
    ensures Latest(Latest(versions)) == Latest(versions)
  {
    var kept := Latest(versions);
    KeepNoDuplicates(Distinct(versions), Unbeaten(Distinct(versions)));
    DistinctIsIdentity(kept);
    forall x | x in kept ensures x in Unbeaten(kept) {
      assert !Beaten(x, Distinct(versions));
    }
    KeepAll(kept, Unbeaten(kept));
  }

  /** The order in which replicas answer, and repeated answers, do not change the result as a set. */
  lemma ReplyOrderIsIrrelevant(a: seq<Versioned>, b: seq<Versioned>)
    requires ToSet(a) == ToSet(b)
    ensures ToSet(Latest(a)) == ToSet(Latest(b))
  {
    assert forall x :: x in a <==> x in ToSet(a);
    assert forall x :: x in b <==> x in ToSet(b);
    forall x ensures x in Latest(a) <==> x in Latest(b) {
      LatestMembers(a, x);
      LatestMembers(b, x);
      assert Beaten(x, a) <==> Beaten(x, b);
    }
  }

  /** No reply's server set is a nonempty strict part of another's. */
  ghost predicate NoSmallerServerSet(versions: seq<Versioned>) {
    forall x, y :: x in versions && y in versions && y.clock != [] && Servers(y.clock) <= Servers(x.clock)
      ==> x.clock == [] || Servers(x.clock) == Servers(y.clock)
  }

  /** a holds everything b holds: the same clock, or a newer one. */
  ghost predicate Covers(a: Clock, b: Clock) {
    a == b || Newer(a, b)
  }

  /** Under that condition a dropped version is not merely "older": a kept one covers it. */
  lemma KeptCoversDropped(versions: seq<Versioned>, x: Versioned) returns (y: Versioned)
    requires NoSmallerServerSet(versions) && x in versions
    ensures y in Latest(versions) && Covers(y.clock, x.clock)
  {
    DroppedIsOlderThanKept(versions, x);
    if x in Latest(versions) {
      y := x;
    } else {
      y :| y in Latest(versions) && Older(x.clock, y.clock);
      LatestMembers(versions, y);
      NewerVersusOlder(x.clock, y.clock);
    }
  }

  /** Pruning leaves a version that covers each of these. */
  ghost predicate AllCovered(versions: seq<Versioned>) {
    forall x :: x in versions ==> exists y :: y in Latest(versions) && Covers(y.clock, x.clock)
  }

  /** The i-th clock names exactly the servers of the i-th set, each once. */
  ghost predicate Over(versions: seq<Versioned>, sets: seq<set<string>>) {
    && |versions| == |sets|
    && forall i :: 0 <= i < |sets| ==> DistinctServers(versions[i].clock) && Servers(versions[i].clock) == sets[i]
  }

  /** None of the sets is a nonempty strict part of another. */
  ghost predicate NoNesting(sets: seq<set<string>>) {
    forall i, j :: 0 <= i < |sets| && 0 <= j < |sets| ==> NotNested(sets[i], sets[j])
  }

  /**
   The condition is exact for lists of any length: all versions over these server sets are
   covered after pruning if and only if no set is a nonempty strict part of another.
   */
  lemma CoverIsLostExactlyToSmallerServerSets(sets: seq<set<string>>)
    ensures (forall versions :: Over(versions, sets) ==> AllCovered(versions)) <==> NoNesting(sets)
  {
    if NoNesting(sets) {
      forall versions | Over(versions, sets) ensures AllCovered(versions) {
        NoNestingIsNoSmallerSet(versions, sets);
        forall x: Versioned | x in versions ensures exists y :: y in Latest(versions) && Covers(y.clock, x.clock) {
          var y := KeptCoversDropped(versions, x);
        }
      }
    } else {
      var m, n :| 0 <= m < |sets| && 0 <= n < |sets| && !NotNested(sets[m], sets[n]);
      var i, j := if sets[n] < sets[m] then m else n, if sets[n] < sets[m] then n else m;
      var versions := Losing(sets, i);
      NestedIsUncovered(sets, i, j);
      assert Over(versions, sets) && versions[i] in versions && !AllCovered(versions);
    }
  }

  lemma NoNestingIsNoSmallerSet(versions: seq<Versioned>, sets: seq<set<string>>)
    requires Over(versions, sets) && NoNesting(sets)
    ensures NoSmallerServerSet(versions)
  {
    forall x, y | x in versions && y in versions && y.clock != [] && Servers(y.clock) <= Servers(x.clock)
      ensures Servers(x.clock) == Servers(y.clock)
    {
      var i :| 0 <= i < |versions| && versions[i] == x;
      var j :| 0 <= j < |versions| && versions[j] == y;
      assert y.clock[0].server in sets[j];
    }
  }

  /** A clock that names these servers, each once and with one version. */
  ghost function Level(servers: set<string>, version: Word64): (c: Clock)
    ensures DistinctServers(c) && Servers(c) == servers && forall stamp :: stamp in c ==> stamp.version == version
  {
    if servers == {} then []
    else
      var s :| s in servers;
      var rest := Level(servers - {s}, version);
      OneMoreServer(rest, Stamp(s, version));
      rest + [Stamp(s, version)]
  }

  lemma OneMoreServer(c: Clock, x: Stamp)
    requires DistinctServers(c) && x.server !in Servers(c)
    ensures DistinctServers(c + [x]) && Servers(c + [x]) == Servers(c) + {x.server}
  {
    assert forall y :: y in c + [x] <==> y in c || y == x;
    assert x in c + [x];
    assert forall i :: 0 <= i < |c| ==> c[i] in c;
  }

  /**
   Versions over the sets of which the i-th gets lost: it stands above every version that names
   its servers, and below all the others. No version is 0, which only a wrapped counter is.
   */
  ghost function Losing(sets: seq<set<string>>, i: nat): (versions: seq<Versioned>)
    requires i < |sets|
    ensures Over(versions, sets)
  {
    seq(|sets|, k requires 0 <= k < |sets| =>
      Versioned("", Level(sets[k], if k == i then 2 else if sets[i] <= sets[k] then 1 else 3)))
  }

  lemma HigherLevelIsAhead(low: Clock, high: Clock)
    requires high != [] && Servers(high) <= Servers(low)
    requires forall x, y :: x in low && y in high ==> x.version < y.version
    ensures Behind(low, high) && !Behind(high, low)
  {
    var y := high[0];
    assert y.server in Servers(high);
    var x := StampOf(low, y.server);
    assert x.version < y.version;
  }

  lemma NestedIsUncovered(sets: seq<set<string>>, i: nat, j: nat)
    requires i < |sets| && j < |sets| && sets[j] != {} && sets[j] < sets[i]
    ensures forall y :: y in Latest(Losing(sets, i)) ==> !Covers(y.clock, Losing(sets, i)[i].clock)
  {
    var versions := Losing(sets, i);
    var x, z := versions[i], versions[j];
    HigherLevelIsAhead(x.clock, z.clock);
    assert Older(x.clock, z.clock) && z in versions;
    forall y | y in Latest(versions) ensures !Covers(y.clock, x.clock) {
      LatestMembers(versions, y);
      var k :| 0 <= k < |versions| && versions[k] == y;
      LosingIsUncoveredBy(sets, i, k);
    }
  }

  /** Nothing but the lost version itself covers it. */
  lemma LosingIsUncoveredBy(sets: seq<set<string>>, i: nat, k: nat)
    requires i < |sets| && k < |sets| && sets[i] != {}
    ensures Covers(Losing(sets, i)[k].clock, Losing(sets, i)[i].clock) ==> k == i
  {
    var x, y := Losing(sets, i)[i], Losing(sets, i)[k];
    if k != i && sets[i] <= sets[k] {
      HigherLevelIsAhead(y.clock, x.clock);
    }
  }

  /** All clocks name the same servers, each once. */
  ghost predicate OneServerSet(versions: seq<Versioned>, servers: set<string>) {
    forall x :: x in versions ==> DistinctServers(x.clock) && Servers(x.clock) == servers
  }

  ghost predicate Dominated(x: Versioned, all: seq<Versioned>)
    requires forall y :: y in all ==> DistinctServers(y.clock)
    requires DistinctServers(x.clock)
  {
    exists y :: y in all && StrictlyBelow(AsMap(x.clock), AsMap(y.clock))
  }

  /**
   Over one nonempty server set pruning is the textbook one: exactly the versions that no
   other strictly dominates survive, each once and in order of first occurrence.
   */
  lemma TextbookPruning(versions: seq<Versioned>, servers: set<string>)
    requires OneServerSet(versions, servers) && servers != {}
    ensures forall x :: x in Latest(versions) <==> x in versions && !Dominated(x, versions)
    ensures NoDuplicates(Latest(versions))
  {
    KeepNoDuplicates(Distinct(versions), Unbeaten(Distinct(versions)));
    forall x | x in versions
      ensures Beaten(x, versions) <==> Dominated(x, versions)
    {
      forall y | y in versions
        ensures Older(x.clock, y.clock) <==> StrictlyBelow(AsMap(x.clock), AsMap(y.clock))
      {
        VerdictOfMaps(x.clock, y.clock);
        AgreeOnOneServerSet(AsMap(x.clock), AsMap(y.clock));
      }
    }
    forall x ensures x in Latest(versions) <==> x in versions && !Beaten(x, versions) {
      LatestMembers(versions, x);
    }
  }

  /** The place of the first occurrence. */
  ghost function FirstIndex(s: seq<Versioned>, x: Versioned): (i: nat)
    requires x in s
    ensures i < |s| && s[i] == x && x !in s[..i]
  {
    if s[0] == x then 0 else 1 + FirstIndex(s[1..], x)
  }

  ghost predicate InOrderOfFirstOccurrence(r: seq<Versioned>, s: seq<Versioned>) {
    && (forall x :: x in r ==> x in s)
    && forall i, j :: 0 <= i < j < |r| ==> FirstIndex(s, r[i]) < FirstIndex(s, r[j])
  }

  lemma FirstIndexUnique(s: seq<Versioned>, x: Versioned, i: nat)
    requires i < |s| && s[i] == x && x !in s[..i]
    ensures FirstIndex(s, x) == i
  {
    var k := FirstIndex(s, x);
    assert forall j :: 0 <= j < i ==> s[..i][j] == s[j];
    assert forall j :: 0 <= j < k ==> s[..k][j] == s[j];
  }

  /** A reply appended at the end keeps the order; a new one comes last. */
  lemma OrderGrows(r: seq<Versioned>, s: seq<Versioned>, last: Versioned)
    requires InOrderOfFirstOccurrence(r, s)
    ensures InOrderOfFirstOccurrence(r, s + [last])
    ensures last !in s ==> InOrderOfFirstOccurrence(r + [last], s + [last])
  {
    forall x | x in s ensures FirstIndex(s + [last], x) == FirstIndex(s, x) {
      var i := FirstIndex(s, x);
      assert (s + [last])[..i] == s[..i];
      FirstIndexUnique(s + [last], x, i);
    }
    if last !in s {
      assert (s + [last])[..|s|] == s;
      FirstIndexUnique(s + [last], last, |s|);
    }
  }

  /** Both filters leave the survivors in the order in which they first came in. */
  lemma {:induction false} SurvivorsKeepOrder(s: seq<Versioned>, keep: set<Versioned>)
    ensures InOrderOfFirstOccurrence(Keep(Distinct(s), keep), s)
  {
    if s != [] {
      var front, last := s[..|s| - 1], s[|s| - 1];
      assert s == front + [last];
      SurvivorsKeepOrder(front, keep);
      OrderGrows(Keep(Distinct(front), keep), front, last);
      DistinctAppend(front, last);
      KeepAppend(Distinct(front), last, keep);
    }
  }

  lemma LatestKeepsOrder(versions: seq<Versioned>)
    ensures InOrderOfFirstOccurrence(Latest(versions), versions)
  {
    SurvivorsKeepOrder(versions, Unbeaten(Distinct(versions)));
  }
}
