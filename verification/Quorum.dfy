/** Which replicas a quorum loop reaches, and when a read is sure to meet a write. */
module Quorum {
  import opened Seqs
  import opened Clocks
  import opened Siblings
  import opened Storage
  import opened RingSpec
  import opened Heartbeats
  import opened Replication

  const REPLICA_N := 3
  const W_COUNT := 2
  const R_COUNT := 2

  /** A remote call fails before it is carried out, or only its answer is lost, or it succeeds. */
  datatype Delivery = Lost | ReplyLost | Arrived

  type Network = NodeId -> Delivery

  type Stores = map<NodeId, Contents>

  /**
   The eligible servers a loop contacts: it stops behind the third only if the third one
   answers; otherwise the test for the third is never made again and the loop runs to the end.
   */
  function Contacted(eligible: seq<NodeId>, oks: set<NodeId>): seq<NodeId> {
    if |eligible| >= REPLICA_N && eligible[REPLICA_N - 1] in oks then eligible[..REPLICA_N] else eligible
  }

  function Acked(eligible: seq<NodeId>, oks: set<NodeId>): seq<NodeId> {
    Keep(Contacted(eligible, oks), oks)
  }

  /** How many of the first three eligible servers do not answer. */
  function Misses(eligible: seq<NodeId>, oks: set<NodeId>): nat {
    |ToSet(Take(eligible, REPLICA_N)) - oks|
  }

  ghost predicate Share(eligible: seq<NodeId>, writers: set<NodeId>, readers: set<NodeId>) {
    exists n :: n in Acked(eligible, writers) && n in Acked(eligible, readers)
  }

  /** A quorum write and a quorum read over one eligible list, with so many misses each. */
  ghost predicate BothSucceed(eligible: seq<NodeId>, writers: set<NodeId>, readers: set<NodeId>, a: nat, b: nat) {
    && NoDuplicates(eligible)
    && Misses(eligible, writers) <= a && Misses(eligible, readers) <= b
    && |Acked(eligible, writers)| >= W_COUNT && |Acked(eligible, readers)| >= R_COUNT
  }

  lemma FirstAnswersCount(eligible: seq<NodeId>, oks: set<NodeId>)
    requires NoDuplicates(eligible) && |eligible| >= REPLICA_N
    ensures var first := ToSet(eligible[..REPLICA_N]);
      |first * oks| == REPLICA_N - Misses(eligible, oks) && forall n :: n in first * oks ==> n in Acked(eligible, oks)
  {
    var first := ToSet(eligible[..REPLICA_N]);
    NoDuplicatesCount(eligible[..REPLICA_N]);
    assert Take(eligible, REPLICA_N) == eligible[..REPLICA_N];
    assert first == (first * oks) + (first - oks);
  }

  lemma AllAnswer(eligible: seq<NodeId>, oks: set<NodeId>)
    requires NoDuplicates(eligible) && |eligible| < REPLICA_N && |Acked(eligible, oks)| >= 2
    ensures |eligible| == 2 && eligible[0] in Acked(eligible, oks)
  {
    var acked := Acked(eligible, oks);
    KeepNoDuplicates(eligible, oks);
    NoDuplicatesCount(acked);
    NoDuplicatesCount(eligible);
    assert ToSet(acked) <= ToSet(eligible);
    if eligible[0] !in acked {
      assert ToSet(acked) <= ToSet(eligible) - {eligible[0]};
      SubsetCount(ToSet(acked), ToSet(eligible) - {eligible[0]});
      assert false;
    }
  }

  lemma QuorumsShare(eligible: seq<NodeId>, writers: set<NodeId>, readers: set<NodeId>, a: nat, b: nat)
    requires BothSucceed(eligible, writers, readers, a, b) && a + b <= 2
    ensures Share(eligible, writers, readers)
  {
    if |eligible| < REPLICA_N {
      AllAnswer(eligible, writers);
      AllAnswer(eligible, readers);
    } else {
      var first := ToSet(eligible[..REPLICA_N]);
      NoDuplicatesCount(eligible[..REPLICA_N]);
      FirstAnswersCount(eligible, writers);
      FirstAnswersCount(eligible, readers);
      var w, r := first * writers, first * readers;
      if w * r == {} {
        assert |w + r| == |w| + |r|;
        SubsetCount(w + r, first);
        assert false;
      }
      var n :| n in w * r;
    }
  }

  lemma TwoAcks(eligible: seq<NodeId>, oks: set<NodeId>, x: NodeId, y: NodeId)
    requires x != y && x in Contacted(eligible, oks) && y in Contacted(eligible, oks) && x in oks && y in oks
    ensures |Acked(eligible, oks)| >= 2
  {
    var acked := Acked(eligible, oks);
    assert x in acked && y in acked;
    var i :| 0 <= i < |acked| && acked[i] == x;
    var j :| 0 <= j < |acked| && acked[j] == y;
    assert i != j;
  }

  /** Two different contacted servers acknowledge. */
  ghost predicate TwoAcknowledge(contacted: seq<NodeId>, oks: set<NodeId>) {
    exists m, n :: m in contacted && n in contacted && m != n && m in oks && n in oks
  }

  lemma TwoAcksExactly(eligible: seq<NodeId>, oks: set<NodeId>)
    requires NoDuplicates(eligible)
    ensures |Acked(eligible, oks)| >= 2 <==> TwoAcknowledge(Contacted(eligible, oks), oks)
  {
    var contacted, acked := Contacted(eligible, oks), Acked(eligible, oks);
    KeepNoDuplicates(contacted, oks);
    if |acked| >= 2 {
      assert acked[0] in acked && acked[1] in acked && acked[0] != acked[1];
    }
    if m, n :| m in contacted && n in contacted && m != n && m in oks && n in oks {
      TwoAcks(eligible, oks, m, n);
    }
  }

  /** If at most one of the first three does not acknowledge, two servers do. */
  lemma OneMayFail(eligible: seq<NodeId>, oks: set<NodeId>, failing: NodeId)
    requires NoDuplicates(eligible) && |eligible| >= 3
    requires forall n :: n in eligible[..3] && n != failing ==> n in oks
    ensures TwoAcknowledge(Contacted(eligible, oks), oks)
  {
    var contacted := Contacted(eligible, oks);
    assert contacted[0] == eligible[..3][0] && contacted[1] == eligible[..3][1] && contacted[2] == eligible[..3][2];
    assert contacted[0] in contacted && contacted[1] in contacted && contacted[2] in contacted;
    if contacted[0] == failing {
      assert contacted[1] in oks && contacted[2] in oks;
    } else if contacted[1] == failing {
      assert contacted[0] in oks && contacted[2] in oks;
    }
  }

  lemma MissesOfFive(five: seq<NodeId>, oks: set<NodeId>)
    requires |five| == 5
    ensures Misses(five, oks) == |{five[0], five[1], five[2]} - oks|
  {
    assert Take(five, REPLICA_N) == [five[0], five[1], five[2]];
    assert ToSet(Take(five, REPLICA_N)) == {five[0], five[1], five[2]};
  }

  /** Five servers, told apart by who answers the write and who answers the read. */
  lemma DisjointQuorums(five: seq<NodeId>, writers: set<NodeId>, readers: set<NodeId>, a: nat, b: nat)
    requires NoDuplicates(five) && |five| == 5 && writers !! readers
    requires Misses(five, writers) <= a && Misses(five, readers) <= b
    requires |Acked(five, writers)| >= 2 && |Acked(five, readers)| >= 2
    ensures BothSucceed(five, writers, readers, a, b) && !Share(five, writers, readers)
  {
  }

  /** The first three answer one loop; the other gets through to the last two. */
  lemma AllThreeMissed(five: seq<NodeId>) returns (first: set<NodeId>, last: set<NodeId>)
    requires NoDuplicates(five) && |five| == 5
    ensures first !! last && Misses(five, first) == 0 && Misses(five, last) <= 3
    ensures |Acked(five, first)| >= 2 && |Acked(five, last)| >= 2
  {
    first, last := {five[0], five[1], five[2]}, {five[3], five[4]};
    MissesOfFive(five, first);
    MissesOfFive(five, last);
    SubsetCount({five[0], five[1], five[2]} - last, {five[0], five[1], five[2]});
    assert five[2] in first && five[2] !in last;
    assert five[..3][0] == five[0] && five[..3][1] == five[1];
    TwoAcks(five, first, five[0], five[1]);
    TwoAcks(five, last, five[3], five[4]);
  }

  /** One loop misses the first server only, the other the second and third. */
  lemma OneAndTwoMissed(five: seq<NodeId>) returns (p: set<NodeId>, q: set<NodeId>)
    requires NoDuplicates(five) && |five| == 5
    ensures p !! q && Misses(five, p) <= 1 && Misses(five, q) <= 2
    ensures |Acked(five, p)| >= 2 && |Acked(five, q)| >= 2
  {
    p, q := {five[1], five[2]}, {five[0], five[3], five[4]};
    MissesOfFive(five, p);
    MissesOfFive(five, q);
    assert {five[0], five[1], five[2]} - p == {five[0]};
    assert {five[0], five[1], five[2]} - q == {five[1], five[2]};
    assert five[2] in p && five[2] !in q;
    assert five[..3][1] == five[1] && five[..3][2] == five[2];
    TwoAcks(five, p, five[1], five[2]);
    TwoAcks(five, q, five[3], five[4]);
  }

  /** With three misses altogether a write and a read can succeed on different replicas. */
  lemma ThreeMissesCanSeparate(five: seq<NodeId>, a: nat, b: nat)
    requires NoDuplicates(five) && |five| == 5 && a + b > 2
    ensures exists writers: set<NodeId>, readers: set<NodeId> ::
      BothSucceed(five, writers, readers, a, b) && !Share(five, writers, readers)
  {
    var first, last := AllThreeMissed(five);
    var p, q := OneAndTwoMissed(five);
    if a == 0 {
      DisjointQuorums(five, first, last, a, b);
    } else if a == 1 {
      DisjointQuorums(five, p, q, a, b);
    } else if a == 2 {
      DisjointQuorums(five, q, p, a, b);
    } else {
      DisjointQuorums(five, last, first, a, b);
    }
  }

  /**
   Quorum intersection, exactly: a successful write with at most a misses among the first three
   and a successful read with at most b share a replica in all cases if and only if a + b <= 2.
   */
  lemma QuorumsShareExactly(a: nat, b: nat)
    ensures (forall eligible: seq<NodeId>, writers: set<NodeId>, readers: set<NodeId> ::
               BothSucceed(eligible, writers, readers, a, b) ==> Share(eligible, writers, readers))
            <==> a + b <= 2
  {
    if a + b <= 2 {
      forall eligible: seq<NodeId>, writers: set<NodeId>, readers: set<NodeId>
        | BothSucceed(eligible, writers, readers, a, b)
        ensures Share(eligible, writers, readers)
      {
        QuorumsShare(eligible, writers, readers, a, b);
      }
    } else {
      ThreeMissesCanSeparate(["a", "b", "c", "d", "e"], a, b);
    }
  }

  // ----- what the two loops do to, and read from, the stores -----

  function LiveSet(servers: seq<NodeId>, self: NodeId, beats: Beats, now: int): set<NodeId> {
    set n | n in servers && (n == self || Alive(now, Beat(beats, n)))
  }

  /** The servers a coordinator may contact: itself, and those it takes for alive. */
  function Eligible(servers: seq<NodeId>, self: NodeId, beats: Beats, now: int): seq<NodeId> {
    Keep(servers, LiveSet(servers, self, beats, now))
  }

  /** A server is live within ten seconds of its last known heartbeat; the coordinator always is. */
  lemma LiveExactly(servers: seq<NodeId>, self: NodeId, beats: Beats, now: int, n: NodeId)
    ensures n in LiveSet(servers, self, beats, now)
       <==> n in servers && (n == self || now - Beat(beats, n) < 10_000_000_000)
  {
    AliveExactly(now, Beat(beats, n));
  }

  /** How many live servers stand before the i-th. */
  function LiveBefore(servers: seq<NodeId>, i: nat, live: set<NodeId>): nat
    requires i <= |servers|
  {
    |ToSet(servers[..i]) * live|
  }

  /** The i-th server, if it is live, stands in the eligible list behind the live ones before it. */
  lemma EligibleAt(servers: seq<NodeId>, i: nat, live: set<NodeId>)
    requires NoDuplicates(servers) && i < |servers| && servers[i] in live
    ensures LiveBefore(servers, i, live) < |Keep(servers, live)|
    ensures Keep(servers, live)[LiveBefore(servers, i, live)] == servers[i]
  {
    var front := Keep(servers[..i], live);
    KeepNoDuplicates(servers[..i], live);
    NoDuplicatesCount(front);
    assert ToSet(front) == ToSet(servers[..i]) * live;
    assert servers[..i + 1] == servers[..i] + [servers[i]];
    KeepAppend(servers[..i], servers[i], live);
    KeepPrefix(servers[..i + 1], servers, live);
    assert Keep(servers[..i + 1], live)[|front|] == servers[i];
  }

  /** The third live server is there and answers. */
  ghost predicate ThirdAnswers(servers: seq<NodeId>, live: set<NodeId>, oks: set<NodeId>) {
    exists i :: 0 <= i < |servers| && servers[i] in live * oks && LiveBefore(servers, i, live) == 2
  }

  lemma ThirdIsThird(servers: seq<NodeId>, live: set<NodeId>, oks: set<NodeId>)
    requires NoDuplicates(servers)
    ensures ThirdAnswers(servers, live, oks) <==> |Keep(servers, live)| >= 3 && Keep(servers, live)[2] in oks
  {
    var eligible := Keep(servers, live);
    KeepNoDuplicates(servers, live);
    if i :| 0 <= i < |servers| && servers[i] in live * oks && LiveBefore(servers, i, live) == 2 {
      EligibleAt(servers, i, live);
    }
    if |eligible| >= 3 && eligible[2] in oks {
      assert eligible[2] in eligible;
      var i :| 0 <= i < |servers| && servers[i] == eligible[2];
      EligibleAt(servers, i, live);
      assert LiveBefore(servers, i, live) == 2;
    }
  }

  /**
   Which servers a loop contacts, told from the list: the live ones with fewer than three live
   ones before them, and the others too if there is no third or it does not answer.
   */
  lemma ContactedExactly(servers: seq<NodeId>, live: set<NodeId>, oks: set<NodeId>, i: nat)
    requires NoDuplicates(servers) && i < |servers|
    ensures servers[i] in Contacted(Keep(servers, live), oks) <==>
      servers[i] in live && (LiveBefore(servers, i, live) < 3 || !ThirdAnswers(servers, live, oks))
  {
    var eligible, contacted := Keep(servers, live), Contacted(Keep(servers, live), oks);
    KeepNoDuplicates(servers, live);
    ThirdIsThird(servers, live, oks);
    assert contacted <= eligible;
    if servers[i] in live {
      EligibleAt(servers, i, live);
      var k := LiveBefore(servers, i, live);
      assert eligible[k] == servers[i];
      if k < |contacted| {
        assert contacted[k] == servers[i];
      } else {
        assert forall j :: 0 <= j < |contacted| ==> contacted[j] == eligible[j] && j != k;
      }
    }
  }

  /** Looking heartbeats up leaves the live servers the same. */
  lemma SameLive(servers: seq<NodeId>, self: NodeId, before: Beats, after: Beats, touched: set<NodeId>, now: int)
    requires OnlyTouched(before, after, touched)
    ensures LiveSet(servers, self, after, now) == LiveSet(servers, self, before, now)
  {
    TouchedTwice(before, after, after, touched, {});
  }

  /**
   The servers that would acknowledge the write: the coordinator always, a peer if it applies
   it and its answer arrives.
   */
  ghost function Writers(stores: Stores, self: NodeId, key: string, write: Versioned, network: Network): set<NodeId> {
    set n | n in stores &&
      (n == self || (network(n) == Arrived && Newer(write.clock, Read(stores[n], key).clock)))
  }

  function Readers(stores: Stores, self: NodeId, network: Network): set<NodeId> {
    set n | n in stores && (n == self || network(n) == Arrived)
  }

  /** What one contacted server holds afterwards; the coordinator writes to itself unconditionally. */
  ghost function Written(contents: Contents, server: NodeId, self: NodeId, key: string, write: Versioned,
                         network: Network): Contents
  {
    if server == self then contents[key := write]
    else if network(server) == Lost then contents
    else Delivered(contents, key, write)
  }

  ghost function AfterPut(stores: Stores, contacted: set<NodeId>, self: NodeId, key: string, write: Versioned,
                          network: Network): Stores
  {
    map n | n in stores :: if n in contacted then Written(stores[n], n, self, key, write, network) else stores[n]
  }

  /** The live ones among the first i servers. */
  function Visited(servers: seq<NodeId>, i: nat, live: set<NodeId>): seq<NodeId>
    requires i <= |servers|
  {
    Keep(servers[..i], live)
  }

  /** A loop that has visited these and not stopped yet: its counters, and why it has not stopped. */
  ghost predicate Counting(visited: seq<NodeId>, oks: set<NodeId>, tries: int, successes: int) {
    && tries == |visited| && successes == |Keep(visited, oks)|
    && (tries >= REPLICA_N ==> visited[REPLICA_N - 1] !in oks)
  }

  /** A loop that has stopped behind the i-th server has contacted what it should. */
  ghost predicate Stopped(servers: seq<NodeId>, i: nat, live: set<NodeId>, oks: set<NodeId>, successes: int)
    requires i <= |servers|
  {
    && Contacted(Keep(servers, live), oks) == Visited(servers, i, live)
    && |Acked(Keep(servers, live), oks)| == successes
  }

  lemma VisitedGrows(servers: seq<NodeId>, i: nat, live: set<NodeId>) returns (next: seq<NodeId>)
    requires i < |servers| && NoDuplicates(servers)
    ensures next == Visited(servers, i + 1, live)
    ensures next == if servers[i] in live then Visited(servers, i, live) + [servers[i]] else Visited(servers, i, live)
    ensures next <= Keep(servers, live) && servers[i] !in Visited(servers, i, live)
  {
    next := Visited(servers, i + 1, live);
    assert servers[..i + 1] == servers[..i] + [servers[i]];
    KeepAppend(servers[..i], servers[i], live);
    KeepPrefix(servers[..i + 1], servers, live);
    assert servers[i] !in servers[..i];
  }

  /** One more live server is counted; the loop stops behind it exactly if it is the third and answers. */
  lemma CountOneMore(visited: seq<NodeId>, server: NodeId, eligible: seq<NodeId>, oks: set<NodeId>, tries: int,
                     successes: int)
    requires Counting(visited, oks, tries, successes) && visited + [server] <= eligible
    ensures var next, more := visited + [server], successes + if server in oks then 1 else 0;
      if server in oks && tries + 1 == REPLICA_N
      then Contacted(eligible, oks) == next && |Acked(eligible, oks)| == more
      else Counting(next, oks, tries + 1, more)
  {
    KeepAppend(visited, server, oks);
  }

  /**
   One turn of either loop: a server that is not live changes nothing; a live one is counted
   and may be the last.
   */
  lemma QuorumTurn(servers: seq<NodeId>, i: nat, live: set<NodeId>, oks: set<NodeId>, tries: int, successes: int)
    returns (next: seq<NodeId>)
    requires i < |servers| && NoDuplicates(servers)
    requires Counting(Visited(servers, i, live), oks, tries, successes)
    ensures next == Visited(servers, i + 1, live)
    ensures servers[i] !in Visited(servers, i, live)
    ensures next == if servers[i] in live then Visited(servers, i, live) + [servers[i]] else Visited(servers, i, live)
    ensures var more := successes + if servers[i] in oks then 1 else 0;
      if servers[i] !in live then Counting(next, oks, tries, successes)
      else if servers[i] in oks && tries + 1 == REPLICA_N then
        Contacted(Keep(servers, live), oks) == next && |Acked(Keep(servers, live), oks)| == more
      else Counting(next, oks, tries + 1, more)
  {
    var visited := Visited(servers, i, live);
    next := VisitedGrows(servers, i, live);
    if servers[i] in live {
      CountOneMore(visited, servers[i], Keep(servers, live), oks, tries, successes);
    }
  }

  lemma QuorumEnd(servers: seq<NodeId>, live: set<NodeId>, oks: set<NodeId>, tries: int, successes: int)
    requires Counting(Visited(servers, |servers|, live), oks, tries, successes)
    ensures Stopped(servers, |servers|, live, oks, successes)
  {
    assert servers[..|servers|] == servers;
  }

  /** Writing to a server that was not contacted before. */
  lemma AfterPutOneMore(stores: Stores, visited: seq<NodeId>, server: NodeId, self: NodeId, key: string,
                        write: Versioned, network: Network)
    requires server in stores && server !in visited
    ensures var before := AfterPut(stores, ToSet(visited), self, key, write, network);
      && before[server] == stores[server]
      && (server in Writers(before, self, key, write, network)
          <==> server in Writers(stores, self, key, write, network))
      && AfterPut(stores, ToSet(visited + [server]), self, key, write, network)
         == before[server := Written(stores[server], server, self, key, write, network)]
  {
    ToSetAppend(visited, server);
  }

  function Replies(stores: Stores, servers: seq<NodeId>, key: string): seq<Versioned>
    requires forall n :: n in servers ==> n in stores
  {
    seq(|servers|, i requires 0 <= i < |servers| => Read(stores[servers[i]], key))
  }

  /** What the servers that answer among the visited ones reply, in the order of the visits. */
  ghost predicate Collected(stores: Stores, visited: seq<NodeId>, oks: set<NodeId>, key: string,
                            replies: seq<Versioned>)
  {
    oks <= stores.Keys && replies == Replies(stores, Keep(visited, oks), key)
  }

  /** What the get loop comes to: the replies of the acknowledging servers, and their number. */
  function Gathered(stores: Stores, eligible: seq<NodeId>, oks: set<NodeId>, key: string): (seq<Versioned>, int)
    requires oks <= stores.Keys
  {
    var replies := Replies(stores, Acked(eligible, oks), key);
    (replies, |replies|)
  }

  /** What a loop that is over has collected is what the acknowledging servers reply. */
  lemma CollectedAll(stores: Stores, servers: seq<NodeId>, i: nat, live: set<NodeId>, oks: set<NodeId>, key: string,
                     successes: int, replies: seq<Versioned>)
    requires i <= |servers| && Stopped(servers, i, live, oks, successes)
    requires Collected(stores, Visited(servers, i, live), oks, key, replies)
    ensures oks <= stores.Keys && (replies, successes) == Gathered(stores, Keep(servers, live), oks, key)
  {
  }

  lemma CollectOneMore(stores: Stores, visited: seq<NodeId>, server: NodeId, oks: set<NodeId>, key: string,
                       replies: seq<Versioned>)
    requires Collected(stores, visited, oks, key, replies) && server in stores
    ensures Collected(stores, visited + [server], oks, key,
                      if server in oks then replies + [Read(stores[server], key)] else replies)
  {
    KeepAppend(visited, server, oks);
  }

  /** One turn of the get loop, for its counters and its results: no try, a silent server, or one more reply. */
  lemma ReplyStep(servers: seq<NodeId>, i: nat, key: string, tries: int, successes: int, results: seq<Versioned>,
                  stores: Stores, live: set<NodeId>, oks: set<NodeId>)
    requires i < |servers| && NoDuplicates(servers) && (servers[i] in live ==> servers[i] in stores)
    requires Counting(Visited(servers, i, live), oks, tries, successes)
    requires Collected(stores, Visited(servers, i, live), oks, key, results)
    ensures var next := Visited(servers, i + 1, live);
      if servers[i] !in live then
        Counting(next, oks, tries, successes) && Collected(stores, next, oks, key, results)
      else if servers[i] !in oks then
        Counting(next, oks, tries + 1, successes) && Collected(stores, next, oks, key, results)
      else
        var more := results + [Read(stores[servers[i]], key)];
        && Collected(stores, next, oks, key, more)
        && if tries + 1 == REPLICA_N
           then (more, successes + 1) == Gathered(stores, Keep(servers, live), oks, key)
           else Counting(next, oks, tries + 1, successes + 1)
  {
    var next := QuorumTurn(servers, i, live, oks, tries, successes);
    if servers[i] in live {
      CollectOneMore(stores, Visited(servers, i, live), servers[i], oks, key, results);
      if servers[i] in oks && tries + 1 == REPLICA_N {
        CollectedAll(stores, servers, i + 1, live, oks, key, successes + 1, results + [Read(stores[servers[i]], key)]);
      }
    }
  }
}
