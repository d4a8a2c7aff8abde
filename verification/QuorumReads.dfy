/** What a quorum read returns after a quorum write and any run of peer writes. */
module QuorumReads {
  import opened Seqs
  import opened Clocks
  import opened ClockLaws
  import opened Siblings
  import opened ClockUpdates
  import opened Storage
  import opened RingSpec
  import opened Replication
  import opened Quorum

  /** Any run of peer writes to any replicas. */
  datatype PeerWrite = PeerWrite(server: NodeId, message: Message)

  ghost function AfterPeerWrites(stores: Stores, writes: seq<PeerWrite>): Stores {
    if writes == [] then stores
    else
      var before, last := AfterPeerWrites(stores, writes[..|writes| - 1]), writes[|writes| - 1];
      if last.server in before
      then before[last.server := Delivered(before[last.server], last.message.key, last.message.write)]
      else before
  }

  lemma {:induction false} PeerWritesOnlyMoveUp(stores: Stores, writes: seq<PeerWrite>, server: NodeId, key: string)
    requires server in stores
    ensures AfterPeerWrites(stores, writes).Keys == stores.Keys
    ensures var before, after := Read(stores[server], key), Read(AfterPeerWrites(stores, writes)[server], key);
      Covers(after.clock, before.clock)
  {
    if writes != [] {
      var front, last := writes[..|writes| - 1], writes[|writes| - 1];
      PeerWritesOnlyMoveUp(stores, front, server, key);
      var middle := AfterPeerWrites(stores, front);
      if last.server == server && last.message.key == key
         && Newer(last.message.write.clock, Read(middle[server], key).clock)
         && Read(middle[server], key).clock != Read(stores[server], key).clock {
        NewerTransitive(last.message.write.clock, Read(middle[server], key).clock, Read(stores[server], key).clock);
      }
    }
  }

  /** The replies a read collects after a write and any run of peer writes. */
  ghost function LaterReplies(stores: Stores, eligible: seq<NodeId>, writer: NodeId, reader: NodeId, key: string,
                              write: Versioned, putNetwork: Network, between: seq<PeerWrite>,
                              getNetwork: Network): seq<Versioned>
    requires forall n :: n in eligible ==> n in stores
  {
    var writers := Writers(stores, writer, key, write, putNetwork);
    var later := AfterPeerWrites(AfterPut(stores, ToSet(Contacted(eligible, writers)), writer, key, write, putNetwork),
                                 between);
    LaterKeys(stores, ToSet(Contacted(eligible, writers)), writer, key, write, putNetwork, between);
    Replies(later, Acked(eligible, Readers(later, reader, getNetwork)), key)
  }

  lemma {:induction false} PeerWritesKeepServers(stores: Stores, writes: seq<PeerWrite>)
    ensures AfterPeerWrites(stores, writes).Keys == stores.Keys
  {
    if writes != [] {
      PeerWritesKeepServers(stores, writes[..|writes| - 1]);
    }
  }

  lemma LaterKeys(stores: Stores, contacted: set<NodeId>, self: NodeId, key: string, write: Versioned,
                  network: Network, between: seq<PeerWrite>)
    ensures AfterPeerWrites(AfterPut(stores, contacted, self, key, write, network), between).Keys == stores.Keys
  {
    PeerWritesKeepServers(AfterPut(stores, contacted, self, key, write, network), between);
  }

  /** A common replica answers the read with the written clock or a newer one. */
  lemma SharedReplyCovers(stores: Stores, eligible: seq<NodeId>, writer: NodeId, reader: NodeId, key: string,
                          write: Versioned, putNetwork: Network, between: seq<PeerWrite>, getNetwork: Network)
    returns (reply: Versioned)
    requires forall n :: n in eligible ==> n in stores
    requires Share(eligible, Writers(stores, writer, key, write, putNetwork), Readers(stores, reader, getNetwork))
    ensures reply in LaterReplies(stores, eligible, writer, reader, key, write, putNetwork, between, getNetwork)
    ensures Covers(reply.clock, write.clock)
  {
    var writers := Writers(stores, writer, key, write, putNetwork);
    var contacted := ToSet(Contacted(eligible, writers));
    var written := AfterPut(stores, contacted, writer, key, write, putNetwork);
    var later := AfterPeerWrites(written, between);
    LaterKeys(stores, contacted, writer, key, write, putNetwork, between);
    var readers := Readers(later, reader, getNetwork);
    assert readers == Readers(stores, reader, getNetwork);
    var n :| n in Acked(eligible, writers) && n in Acked(eligible, readers);
    assert Read(written[n], key) == write;
    PeerWritesOnlyMoveUp(written, between, n, key);
    var servers := Acked(eligible, readers);
    var i :| 0 <= i < |servers| && servers[i] == n;
    reply := Read(later[n], key);
    assert Replies(later, servers, key)[i] == reply;
  }

  /** Nothing both clocks name stands higher in the written one. */
  ghost predicate NotAhead(written: Clock, returned: Clock) {
    !Behind(returned, written)
  }

  lemma OlderIsNotAhead(written: Clock, reply: Clock, kept: Clock)
    requires Covers(reply, written) && Older(reply, kept)
    ensures NotAhead(written, kept)
  {
    if reply == [] {
      assert written == [];
    } else if written != [] {
      if reply == written {
        NewerThanItself(written);
      } else {
        forall x, y | x in kept && y in written && x.server == y.server ensures y.version <= x.version {
          assert y.server in Servers(written);
          var z := StampOf(reply, y.server);
          assert y.version <= z.version <= x.version;
        }
      }
    }
  }

  /**
   How the answer accounts for the write: by a clock that covers it, or by one that was rated
   above a reply covering it and stands behind the write on no server that both name.
   */
  ghost predicate AccountsFor(answer: Versioned, write: Versioned, replies: seq<Versioned>) {
    || Covers(answer.clock, write.clock)
    || (NotAhead(write.clock, answer.clock)
        && exists reply :: reply in replies && Covers(reply.clock, write.clock) && Older(reply.clock, answer.clock))
  }

  /**
   The quorum theorem: after a successful write and any run of peer writes, a successful read
   over the same eligible list, with at most two misses among the first three in both loops
   together, returns a version that accounts for the write; and one that covers it if no
   reply's server set is a nonempty strict part of another's.
   */
  lemma QuorumReadSeesQuorumWrite(stores: Stores, eligible: seq<NodeId>, writer: NodeId, reader: NodeId, key: string,
                                  write: Versioned, putNetwork: Network, between: seq<PeerWrite>, getNetwork: Network,
                                  a: nat, b: nat)
    requires forall n :: n in eligible ==> n in stores
    requires a + b <= 2
    requires BothSucceed(eligible, Writers(stores, writer, key, write, putNetwork),
                         Readers(stores, reader, getNetwork), a, b)
    ensures var replies := LaterReplies(stores, eligible, writer, reader, key, write, putNetwork, between, getNetwork);
      && (exists y :: y in Latest(replies) && AccountsFor(y, write, replies))
      && (NoSmallerServerSet(replies) ==> exists y :: y in Latest(replies) && Covers(y.clock, write.clock))
  {
    var replies := LaterReplies(stores, eligible, writer, reader, key, write, putNetwork, between, getNetwork);
    QuorumsShare(eligible, Writers(stores, writer, key, write, putNetwork), Readers(stores, reader, getNetwork), a, b);
    var reply := SharedReplyCovers(stores, eligible, writer, reader, key, write, putNetwork, between, getNetwork);
    DroppedIsOlderThanKept(replies, reply);
    if reply in Latest(replies) {
      assert AccountsFor(reply, write, replies);
    } else {
      var y :| y in Latest(replies) && Older(reply.clock, y.clock);
      OlderIsNotAhead(write.clock, reply.clock, y.clock);
      assert AccountsFor(y, write, replies);
    }
    if NoSmallerServerSet(replies) {
      var y := KeptCoversDropped(replies, reply);
      if y.clock != reply.clock && reply.clock != write.clock {
        NewerTransitive(y.clock, reply.clock, write.clock);
      }
    }
  }

  /** Without failures both loops succeed: three servers that answer, and a write newer than what they hold. */
  lemma NoFailureSucceeds(stores: Stores, eligible: seq<NodeId>, writer: NodeId, reader: NodeId, key: string,
                          write: Versioned, network: Network)
    requires |eligible| == REPLICA_N && NoDuplicates(eligible) && forall n :: n in eligible ==> n in stores
    requires forall n :: n in eligible ==> network(n) == Arrived && Newer(write.clock, Read(stores[n], key).clock)
    ensures BothSucceed(eligible, Writers(stores, writer, key, write, network), Readers(stores, reader, network), 0, 0)
  {
    AllThreeAnswer(eligible, Writers(stores, writer, key, write, network));
    AllThreeAnswer(eligible, Readers(stores, reader, network));
  }

  lemma AllThreeAnswer(eligible: seq<NodeId>, oks: set<NodeId>)
    requires |eligible| == REPLICA_N && forall n :: n in eligible ==> n in oks
    ensures Acked(eligible, oks) == eligible && Misses(eligible, oks) == 0
  {
    assert eligible[..REPLICA_N] == eligible;
    assert eligible[REPLICA_N - 1] in eligible;
    KeepAll(eligible, oks);
    assert ToSet(eligible) - oks == {};
  }

  // ----- when the answer is sure to cover the write -----

  /** The clock is empty or names exactly the servers of one of these sets. */
  ghost predicate ClockOver(c: Clock, family: set<set<string>>) {
    c == [] || Servers(c) in family
  }

  /** So is every clock the key has: the written one, the stored ones, and those of the peer writes in between. */
  ghost predicate KeyOver(stores: Stores, eligible: seq<NodeId>, key: string, write: Versioned, between: seq<PeerWrite>,
                          family: set<set<string>>)
    requires forall n :: n in eligible ==> n in stores
  {
    && ClockOver(write.clock, family)
    && (forall n :: n in eligible ==> ClockOver(Read(stores[n], key).clock, family))
    && (forall w :: w in between && w.message.key == key ==> ClockOver(w.message.write.clock, family))
  }

  lemma {:induction false} PeerWritesStayOver(stores: Stores, writes: seq<PeerWrite>, server: NodeId, key: string,
                                              family: set<set<string>>)
    requires server in stores && ClockOver(Read(stores[server], key).clock, family)
    requires forall w :: w in writes && w.message.key == key ==> ClockOver(w.message.write.clock, family)
    ensures server in AfterPeerWrites(stores, writes)
    ensures ClockOver(Read(AfterPeerWrites(stores, writes)[server], key).clock, family)
  {
    if writes != [] {
      var front, last := writes[..|writes| - 1], writes[|writes| - 1];
      assert writes == front + [last] && last in writes;
      PeerWritesStayOver(stores, front, server, key, family);
    }
  }

  ghost predicate AllOver(replies: seq<Versioned>, family: set<set<string>>) {
    forall x :: x in replies ==> ClockOver(x.clock, family)
  }

  /** What a later read collects is the written clock, a stored one, or one of those in between. */
  lemma LaterRepliesStayOver(stores: Stores, eligible: seq<NodeId>, writer: NodeId, reader: NodeId, key: string,
                             write: Versioned, putNetwork: Network, between: seq<PeerWrite>, getNetwork: Network,
                             family: set<set<string>>)
    requires (forall n :: n in eligible ==> n in stores) && KeyOver(stores, eligible, key, write, between, family)
    ensures AllOver(LaterReplies(stores, eligible, writer, reader, key, write, putNetwork, between, getNetwork), family)
  {
    var contacted := ToSet(Contacted(eligible, Writers(stores, writer, key, write, putNetwork)));
    var written := AfterPut(stores, contacted, writer, key, write, putNetwork);
    LaterKeys(stores, contacted, writer, key, write, putNetwork, between);
    var later := AfterPeerWrites(written, between);
    var servers := Acked(eligible, Readers(later, reader, getNetwork));
    forall n | n in servers ensures ClockOver(Read(later[n], key).clock, family) {
      assert n in eligible;
      PeerWritesStayOver(written, between, n, key, family);
    }
    RepliesStayOver(later, servers, key, family);
  }

  lemma RepliesStayOver(stores: Stores, servers: seq<NodeId>, key: string, family: set<set<string>>)
    requires forall n :: n in servers ==> n in stores && ClockOver(Read(stores[n], key).clock, family)
    ensures AllOver(Replies(stores, servers, key), family)
  {
    forall x | x in Replies(stores, servers, key) ensures ClockOver(x.clock, family) {
      var i :| 0 <= i < |servers| && Replies(stores, servers, key)[i] == x;
      assert servers[i] in servers;
    }
  }

  /** None of the sets is a nonempty strict part of another. */
  ghost predicate Unnested(family: set<set<string>>) {
    forall A, B :: A in family && B in family ==> NotNested(A, B)
  }

  lemma UnnestedRepliesSuffice(replies: seq<Versioned>, family: set<set<string>>)
    requires Unnested(family) && AllOver(replies, family)
    ensures NoSmallerServerSet(replies)
  {
    forall x, y | x in replies && y in replies && y.clock != [] && Servers(y.clock) <= Servers(x.clock) && x.clock != []
      ensures Servers(x.clock) == Servers(y.clock)
    {
      assert NotNested(Servers(x.clock), Servers(y.clock));
      assert y.clock[0].server in Servers(y.clock);
    }
  }

  /**
   The quorum theorem under a condition on the key's clocks alone: if their server sets are
   not nested in each other, the read returns a version that covers the write.
   */
  lemma QuorumReadCoversQuorumWrite(stores: Stores, eligible: seq<NodeId>, writer: NodeId, reader: NodeId, key: string,
                                    write: Versioned, putNetwork: Network, between: seq<PeerWrite>, getNetwork: Network,
                                    a: nat, b: nat, family: set<set<string>>)
    requires (forall n :: n in eligible ==> n in stores) && a + b <= 2
    requires BothSucceed(eligible, Writers(stores, writer, key, write, putNetwork),
                         Readers(stores, reader, getNetwork), a, b)
    requires KeyOver(stores, eligible, key, write, between, family) && Unnested(family)
    ensures exists y :: y in Latest(LaterReplies(stores, eligible, writer, reader, key, write, putNetwork, between,
                                                 getNetwork))
                        && Covers(y.clock, write.clock)
  {
    LaterRepliesStayOver(stores, eligible, writer, reader, key, write, putNetwork, between, getNetwork, family);
    UnnestedRepliesSuffice(LaterReplies(stores, eligible, writer, reader, key, write, putNetwork, between, getNetwork),
                           family);
    QuorumReadSeesQuorumWrite(stores, eligible, writer, reader, key, write, putNetwork, between, getNetwork, a, b);
  }

  /** A put, any run of peer writes, and a get over one eligible list. */
  datatype Run = Run(stores: Stores, eligible: seq<NodeId>, writer: NodeId, reader: NodeId, key: string,
                     write: Versioned, putNetwork: Network, between: seq<PeerWrite>, getNetwork: Network)

  /** The clocks there are while no counter has wrapped around: each server once, no version 0. */
  ghost predicate Sound(c: Clock) {
    DistinctServers(c) && forall stamp :: stamp in c ==> 1 <= stamp.version
  }

  /** The coordinator is one of the servers, and writes what it has bumped; all the key's clocks are sound. */
  ghost predicate Coordinated(r: Run)
    requires forall n :: n in r.eligible ==> n in r.stores
  {
    && r.writer in r.eligible
    && (exists sent :: Sound(sent) && !Saturated(sent, r.writer) && r.write.clock == Bumped(sent, r.writer))
    && (forall n :: n in r.eligible ==> Sound(Read(r.stores[n], r.key).clock))
    && (forall w :: w in r.between && w.message.key == r.key ==> Sound(w.message.write.clock))
  }

  /** Both succeed, with at most two misses together, and all the key's clocks are over the family. */
  ghost predicate RunOver(r: Run, family: set<set<string>>) {
    var writers := Writers(r.stores, r.writer, r.key, r.write, r.putNetwork);
    var readers := Readers(r.stores, r.reader, r.getNetwork);
    var a, b := Misses(r.eligible, writers), Misses(r.eligible, readers);
    && (forall n :: n in r.eligible ==> n in r.stores) && Coordinated(r)
    && a + b <= 2 && BothSucceed(r.eligible, writers, readers, a, b)
    && KeyOver(r.stores, r.eligible, r.key, r.write, r.between, family)
  }

  ghost predicate ReadCovers(r: Run)
    requires forall n :: n in r.eligible ==> n in r.stores
  {
    exists y :: y in Latest(LaterReplies(r.stores, r.eligible, r.writer, r.reader, r.key, r.write,
                                         r.putNetwork, r.between, r.getNetwork))
                && Covers(y.clock, r.write.clock)
  }

  function Always(d: Delivery): Network {
    (_: NodeId) => d
  }

  /** Three replicas; the first two hold nothing, the third has a version that turns the write down. */
  ghost predicate Opposed(a: NodeId, b: NodeId, c: NodeId, stores: Stores, key: string, write: Versioned,
                          higher: Versioned)
  {
    && a != b && b != c && a != c && stores.Keys == {a, b, c}
    && Read(stores[a], key).clock == [] && Read(stores[b], key).clock == [] && Read(stores[c], key) == higher
    && Older(write.clock, higher.clock) && !Covers(higher.clock, write.clock)
  }

  lemma OpposedWriters(a: NodeId, b: NodeId, c: NodeId, stores: Stores, key: string, write: Versioned,
                       higher: Versioned)
    requires Opposed(a, b, c, stores, key, write, higher)
    ensures Writers(stores, a, key, write, Always(Arrived)) == {a, b}
    ensures Readers(stores, a, Always(Arrived)) == {a, b, c}
  {
  }

  lemma TwoOfThree(a: NodeId, b: NodeId, c: NodeId)
    requires a != b && b != c && a != c
    ensures BothSucceed([a, b, c], {a, b}, {a, b, c}, 1, 0)
    ensures Contacted([a, b, c], {a, b}) == [a, b, c] == Acked([a, b, c], {a, b, c})
  {
    var three, writers := [a, b, c], {a, b};
    assert three[0] == a && three[1] == b && three[2] == c;
    AllThreeAnswer(three, {a, b, c});
    TwoAcks(three, writers, a, b);
    assert Take(three, REPLICA_N) == three;
    assert ToSet(three) - writers == {c};
  }

  lemma RepliesOfThree(stores: Stores, a: NodeId, b: NodeId, c: NodeId, key: string)
    requires a in stores && b in stores && c in stores
    ensures Replies(stores, [a, b, c], key) == [Read(stores[a], key), Read(stores[b], key), Read(stores[c], key)]
  {
  }

  /** A peer that is reached takes a newer write and keeps what it has from any other. */
  lemma WriteMeets(contents: Contents, server: NodeId, self: NodeId, key: string, write: Versioned)
    requires server != self
    ensures Read(Written(contents, server, self, key, write, Always(Arrived)), key)
         == Settled(Read(contents, key), write)
  {
  }

  lemma OpposedReplies(a: NodeId, b: NodeId, c: NodeId, stores: Stores, key: string, write: Versioned,
                       higher: Versioned)
    requires Opposed(a, b, c, stores, key, write, higher)
    ensures LaterReplies(stores, [a, b, c], a, a, key, write, Always(Arrived), [],
                         Always(Arrived)) == [write, write, higher]
  {
    OpposedWriters(a, b, c, stores, key, write, higher);
    TwoOfThree(a, b, c);
    NoWritesBetween(stores, [a, b, c], a, a, key, write, Always(Arrived), Always(Arrived));
    OpposedStores(a, b, c, stores, key, write, higher);
    RepliesOfThree(AfterPut(stores, ToSet([a, b, c]), a, key, write, Always(Arrived)), a, b, c, key);
  }

  /** If nothing comes in between, the read collects what the put has left. */
  lemma NoWritesBetween(stores: Stores, eligible: seq<NodeId>, writer: NodeId, reader: NodeId, key: string,
                        write: Versioned, putNetwork: Network, getNetwork: Network)
    requires forall n :: n in eligible ==> n in stores
    ensures var contacted := ToSet(Contacted(eligible, Writers(stores, writer, key, write, putNetwork)));
      LaterReplies(stores, eligible, writer, reader, key, write, putNetwork, [], getNetwork)
      == Replies(AfterPut(stores, contacted, writer, key, write, putNetwork),
                 Acked(eligible, Readers(stores, reader, getNetwork)), key)
  {
    var contacted := ToSet(Contacted(eligible, Writers(stores, writer, key, write, putNetwork)));
    var written := AfterPut(stores, contacted, writer, key, write, putNetwork);
    assert Readers(written, reader, getNetwork) == Readers(stores, reader, getNetwork);
  }

  lemma OpposedStores(a: NodeId, b: NodeId, c: NodeId, stores: Stores, key: string, write: Versioned, higher: Versioned)
    requires Opposed(a, b, c, stores, key, write, higher)
    ensures var written := AfterPut(stores, ToSet([a, b, c]), a, key, write, Always(Arrived));
      Read(written[a], key) == write && Read(written[b], key) == write && Read(written[c], key) == higher
  {
    assert ToSet([a, b, c]) == {a, b, c};
    WriteMeets(stores[b], b, a, key, write);
    WriteMeets(stores[c], c, a, key, write);
  }

  lemma HigherDropsWrite(write: Versioned, higher: Versioned)
    requires Older(write.clock, higher.clock) && !Covers(higher.clock, write.clock)
    ensures forall y :: y in Latest([write, write, higher]) ==> !Covers(y.clock, write.clock)
  {
    var replies := [write, write, higher];
    assert higher in replies;
    forall y | y in Latest(replies) ensures y == higher {
      LatestMembers(replies, y);
    }
  }

  lemma OpposedOver(a: NodeId, b: NodeId, c: NodeId, stores: Stores, key: string, write: Versioned, higher: Versioned,
                    family: set<set<string>>)
    requires Opposed(a, b, c, stores, key, write, higher)
    requires ClockOver(write.clock, family) && ClockOver(higher.clock, family)
    ensures (forall n :: n in [a, b, c] ==> n in stores) && KeyOver(stores, [a, b, c], key, write, [], family)
  {
    forall n | n in [a, b, c] ensures ClockOver(Read(stores[n], key).clock, family) {
      assert n == a || n == b || n == c;
    }
  }

  function OpposedRun(a: NodeId, b: NodeId, c: NodeId, stores: Stores, key: string, write: Versioned): Run {
    Run(stores, [a, b, c], a, a, key, write, Always(Arrived), [], Always(Arrived))
  }

  lemma OpposedSucceeds(a: NodeId, b: NodeId, c: NodeId, stores: Stores, key: string, write: Versioned,
                        higher: Versioned, family: set<set<string>>)
    requires Opposed(a, b, c, stores, key, write, higher)
    requires ClockOver(write.clock, family) && ClockOver(higher.clock, family)
    requires forall n :: n in [a, b, c] ==> n in stores
    requires Coordinated(OpposedRun(a, b, c, stores, key, write))
    ensures RunOver(OpposedRun(a, b, c, stores, key, write), family)
  {
    OpposedWriters(a, b, c, stores, key, write, higher);
    TwoOfThree(a, b, c);
    OpposedOver(a, b, c, stores, key, write, higher, family);
  }

  lemma OpposedCoordinated(a: NodeId, b: NodeId, c: NodeId, stores: Stores, key: string, write: Versioned,
                           higher: Versioned, sent: Clock)
    requires Opposed(a, b, c, stores, key, write, higher) && Sound(higher.clock)
    requires Sound(sent) && !Saturated(sent, a) && write.clock == Bumped(sent, a)
    ensures forall n :: n in [a, b, c] ==> n in stores
    ensures Coordinated(OpposedRun(a, b, c, stores, key, write))
  {
    assert [a, b, c][0] == a;
    forall n | n in [a, b, c] ensures Sound(Read(stores[n], key).clock) {
      assert n == a || n == b || n == c;
    }
  }

  lemma OpposedLoses(a: NodeId, b: NodeId, c: NodeId, stores: Stores, key: string, write: Versioned, higher: Versioned)
    requires Opposed(a, b, c, stores, key, write, higher)
    requires forall n :: n in [a, b, c] ==> n in stores
    ensures !ReadCovers(OpposedRun(a, b, c, stores, key, write))
  {
    OpposedReplies(a, b, c, stores, key, write, higher);
    HigherDropsWrite(write, higher);
  }

  /** A first bump of a level 1 clock is a level 1 clock of one more server. */
  lemma FirstBump(servers: set<string>, a: string)
    requires a !in servers
    ensures var c := Bumped(Level(servers, 1), a);
      Servers(c) == servers + {a} && forall stamp :: stamp in c ==> stamp.version == 1
  {
    var base := Level(servers, 1);
    BumpServers(base, a);
    forall stamp | stamp in Bumped(base, a) ensures stamp.version == 1 {
      if stamp in BumpStamps(base, a) {
        var i :| 0 <= i < |base| && BumpStamps(base, a)[i] == stamp;
        assert base[i] in base;
      }
    }
  }

  /** A first write over the large set, and a higher version over the small one that drops it. */
  lemma NestedClocks(small: set<string>, large: set<string>, a: NodeId) returns (sent: Clock, higher: Clock)
    requires small != {} && small < large && a in large
    ensures Sound(sent) && !Saturated(sent, a) && Servers(Bumped(sent, a)) == large
    ensures Sound(higher) && Servers(higher) == small
    ensures Older(Bumped(sent, a), higher) && !Covers(higher, Bumped(sent, a))
  {
    sent, higher := Level(large - {a}, 1), Level(small, 2);
    FirstBump(large - {a}, a);
    assert (large - {a}) + {a} == large;
    HigherLevelIsAhead(Bumped(sent, a), higher);
  }

  lemma OpposedBy(a: NodeId, b: NodeId, c: NodeId, key: string, write: Versioned, higher: Versioned)
    returns (stores: Stores)
    requires a != b && b != c && a != c && Older(write.clock, higher.clock) && !Covers(higher.clock, write.clock)
    ensures Opposed(a, b, c, stores, key, write, higher)
  {
    stores := map[a := map[], b := map[], c := map[key := higher]];
  }

  /**
   One of the large set's servers coordinates its first write; another replica takes it, and a
   third, which already has a higher version over the small set, turns it down. The read drops
   the write for that version.
   */
  lemma NestedRun(small: set<string>, large: set<string>, family: set<set<string>>, a: NodeId, b: NodeId, c: NodeId)
    returns (r: Run)
    requires small != {} && small < large && small in family && large in family
    requires a in large && a != b && b != c && a != c
    ensures RunOver(r, family) && !ReadCovers(r)
  {
    var sent, high := NestedClocks(small, large, a);
    var key, write, higher := "k", Versioned("new", Bumped(sent, a)), Versioned("old", high);
    var stores := OpposedBy(a, b, c, key, write, higher);
    r := OpposedRun(a, b, c, stores, key, write);
    OpposedCoordinated(a, b, c, stores, key, write, higher, sent);
    OpposedSucceeds(a, b, c, stores, key, write, higher, family);
    OpposedLoses(a, b, c, stores, key, write, higher);
  }

  /** The condition is exact: every such read covers the write if and only if no two server sets are nested. */
  lemma ReadsCoverExactly(family: set<set<string>>)
    ensures (forall r: Run :: RunOver(r, family) ==> ReadCovers(r)) <==> Unnested(family)
  {
    if Unnested(family) {
      forall r: Run | RunOver(r, family) ensures ReadCovers(r) {
        QuorumReadCoversQuorumWrite(r.stores, r.eligible, r.writer, r.reader, r.key, r.write, r.putNetwork, r.between,
                                    r.getNetwork,
                                    Misses(r.eligible, Writers(r.stores, r.writer, r.key, r.write, r.putNetwork)),
                                    Misses(r.eligible, Readers(r.stores, r.reader, r.getNetwork)), family);
      }
    } else {
      var A, B :| A in family && B in family && !NotNested(A, B);
      var small, large := if A < B then A else B, if A < B then B else A;
      var a :| a in large;
      assert (a + "b")[|a|] == 'b' && (a + "c")[|a|] == 'c';
      var r := NestedRun(small, large, family, a, a + "b", a + "c");
    }
  }

  /** Both loops of the run succeed with so many misses each, at coordinators that are among the servers. */
  ghost predicate RunSucceeds(r: Run, a: nat, b: nat) {
    && (forall n :: n in r.eligible ==> n in r.stores) && Coordinated(r) && r.reader in r.eligible
    && BothSucceed(r.eligible, Writers(r.stores, r.writer, r.key, r.write, r.putNetwork),
                   Readers(r.stores, r.reader, r.getNetwork), a, b)
  }

  ghost predicate RunShares(r: Run) {
    Share(r.eligible, Writers(r.stores, r.writer, r.key, r.write, r.putNetwork),
          Readers(r.stores, r.reader, r.getNetwork))
  }

  function Reaching(oks: set<NodeId>): Network {
    (n: NodeId) => if n in oks then Arrived else Lost
  }

  function EmptyStores(eligible: seq<NodeId>): Stores {
    map n | n in eligible :: map[]
  }

  /** On empty stores exactly the servers that are reached answer, for any sets that hold their coordinators. */
  lemma ReachedAnswer(eligible: seq<NodeId>, self: NodeId, oks: set<NodeId>, key: string, write: Versioned)
    requires self in oks
    ensures Writers(EmptyStores(eligible), self, key, write, Reaching(oks)) == oks * ToSet(eligible)
    ensures Readers(EmptyStores(eligible), self, Reaching(oks)) == oks * ToSet(eligible)
  {
  }

  /** Servers that are not listed do not matter to a loop. */
  lemma OnlyListedCount(eligible: seq<NodeId>, oks: set<NodeId>)
    ensures Acked(eligible, oks * ToSet(eligible)) == Acked(eligible, oks)
    ensures Misses(eligible, oks * ToSet(eligible)) == Misses(eligible, oks)
  {
    var listed := oks * ToSet(eligible);
    assert Contacted(eligible, listed) == Contacted(eligible, oks);
    KeepSame(Contacted(eligible, oks), listed, oks);
    assert ToSet(Take(eligible, REPLICA_N)) - listed == ToSet(Take(eligible, REPLICA_N)) - oks;
  }

  function FirstWrite(eligible: seq<NodeId>, writer: NodeId, reader: NodeId, puts: Network, gets: Network): Run {
    Run(EmptyStores(eligible), eligible, writer, reader, "k", Versioned("v", Bumped([], writer)), puts, [], gets)
  }

  lemma FirstWriteIsCoordinated(eligible: seq<NodeId>, writer: NodeId, reader: NodeId, puts: Network, gets: Network)
    requires writer in eligible
    ensures Coordinated(FirstWrite(eligible, writer, reader, puts, gets))
  {
    var sent: Clock := [];
    assert Sound(sent) && !Saturated(sent, writer);
  }

  /** A first write on empty stores, with these servers answering the put and those the get. */
  lemma RunWith(eligible: seq<NodeId>, writers: set<NodeId>, readers: set<NodeId>, a: nat, b: nat) returns (r: Run)
    requires BothSucceed(eligible, writers, readers, a, b)
    ensures RunSucceeds(r, a, b) && (RunShares(r) <==> Share(eligible, writers, readers))
  {
    var writer, reader := Acked(eligible, writers)[0], Acked(eligible, readers)[0];
    assert writer in Acked(eligible, writers) && reader in Acked(eligible, readers);
    r := FirstWrite(eligible, writer, reader, Reaching(writers), Reaching(readers));
    FirstWriteIsCoordinated(eligible, writer, reader, Reaching(writers), Reaching(readers));
    ReachedAnswer(eligible, writer, writers, r.key, r.write);
    ReachedAnswer(eligible, reader, readers, r.key, r.write);
    OnlyListedCount(eligible, writers);
    OnlyListedCount(eligible, readers);
  }

  /** The number of misses is exact for runs, too: they always share a replica if and only if a + b <= 2. */
  lemma RunsShareExactly(a: nat, b: nat)
    ensures (forall r: Run :: RunSucceeds(r, a, b) ==> RunShares(r)) <==> a + b <= 2
  {
    if a + b <= 2 {
      forall r: Run | RunSucceeds(r, a, b) ensures RunShares(r) {
        QuorumsShare(r.eligible, Writers(r.stores, r.writer, r.key, r.write, r.putNetwork),
                     Readers(r.stores, r.reader, r.getNetwork), a, b);
      }
    } else {
      var five := ["a", "b", "c", "d", "e"];
      ThreeMissesCanSeparate(five, a, b);
      var writers: set<NodeId>, readers: set<NodeId> :|
        BothSucceed(five, writers, readers, a, b) && !Share(five, writers, readers);
      var r := RunWith(five, writers, readers, a, b);
    }
  }

  /** In particular for a key whose clocks are all empty or over one common server set. */
  lemma OneServerSetSuffices(servers: set<string>)
    ensures Unnested({servers})
  {
  }

  /** Without it the written stamp can disappear from the answer: {A:1, B:1} is dropped for {A:2}. */
  lemma WriteCanVanish(written: Versioned, other: Versioned)
    requires written.clock == [Stamp("A", 1), Stamp("B", 1)] && other.clock == [Stamp("A", 2)]
    ensures forall y :: y in Latest([written, other]) <==> y == other
    ensures !Covers(other.clock, written.clock) && Servers(other.clock) < Servers(written.clock)
  {
    var x, y, z := written.clock[0], other.clock[0], written.clock[1];
    assert x in written.clock && z in written.clock && y in other.clock;
    assert Servers(written.clock) == {"A", "B"} && Servers(other.clock) == {"A"};
    assert "B" in Servers(written.clock) && "B" !in Servers(other.clock);
    assert Behind(written.clock, other.clock) && !Behind(other.clock, written.clock);
    assert Older(written.clock, other.clock);
    OlderIrreflexive(other.clock);
    forall v ensures v in Latest([written, other]) <==> v == other {
      LatestMembers([written, other], v);
      assert other in [written, other];
    }
  }
}
