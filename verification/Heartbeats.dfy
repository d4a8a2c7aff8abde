/**
 Heartbeat maps, their merging by gossip, and the failure detector built on them: over all
 runs with one global clock and arbitrarily delayed and repeated messages.
 */
module Heartbeats {
  import opened Seqs
  import opened RingSpec

  /** Node to the time of its last known heartbeat, in nanoseconds. */
  type Beats = map<NodeId, int>

  const CHECK_ALIVE_INTERVAL := 10000
  const NANOS_PER_MILLI := 1_000_000
  const SILENCE := 10_000_000_000

  /** An absent entry is created as epoch 0 when it is looked up. */
  function Beat(beats: Beats, node: NodeId): int {
    if node in beats then beats[node] else 0
  }

  function Touch(beats: Beats, node: NodeId): Beats {
    if node in beats then beats else beats[node := 0]
  }

  function TouchAll(beats: Beats, nodes: set<NodeId>): Beats {
    (map n | n in nodes :: 0) + beats
  }

  lemma TouchOneMore(beats: Beats, nodes: set<NodeId>, node: NodeId)
    ensures Touch(TouchAll(beats, nodes), node) == TouchAll(beats, nodes + {node})
  {
  }

  /** A look-up creates the entries that are missing, as epoch 0, and no others. */
  lemma TouchedExactly(beats: Beats, nodes: set<NodeId>)
    ensures TouchAll(beats, nodes).Keys == beats.Keys + nodes
    ensures forall n :: n in beats ==> TouchAll(beats, nodes)[n] == beats[n]
    ensures forall n :: n in nodes && n !in beats ==> TouchAll(beats, nodes)[n] == 0
  {
  }

  /** Looking entries up changes no beat; it may add epoch entries for some of these nodes. */
  ghost predicate OnlyTouched(before: Beats, after: Beats, nodes: set<NodeId>) {
    && (forall n :: n in before ==> n in after && after[n] == before[n])
    && (forall n :: n in after ==> n in before || (n in nodes && after[n] == 0))
  }

  lemma TouchedTwice(a: Beats, b: Beats, c: Beats, nodes: set<NodeId>, more: set<NodeId>)
    requires OnlyTouched(a, b, nodes) && OnlyTouched(b, c, more) && more <= nodes
    ensures OnlyTouched(a, c, nodes)
    ensures forall n :: Beat(c, n) == Beat(a, n)
  {
  }

  /** Nanoseconds to milliseconds, truncated towards zero. */
  function ToMillis(nanos: int): int {
    if nanos >= 0 then nanos / NANOS_PER_MILLI else -((-nanos) / NANOS_PER_MILLI)
  }

  predicate Alive(now: int, beat: int) {
    ToMillis(now - beat) < CHECK_ALIVE_INTERVAL
  }

  /** Ten seconds, exactly: the truncation loses nothing at the boundary. */
  lemma AliveExactly(now: int, beat: int)
    ensures Alive(now, beat) <==> now - beat < 10_000_000_000
  {
    if now < beat {
      assert (beat - now) / NANOS_PER_MILLI >= 0;
    }
  }

  datatype Beacon = Beacon(node: NodeId, time: int)

  function Later(a: int, b: int): int {
    if a > b then a else b
  }

  function MergeOne(beats: Beats, beacon: Beacon): Beats {
    beats[beacon.node := if beacon.node in beats then Later(beacon.time, beats[beacon.node]) else beacon.time]
  }

  function Merge(beats: Beats, message: seq<Beacon>): Beats {
    if message == [] then beats
    else MergeOne(Merge(beats, message[..|message| - 1]), message[|message| - 1])
  }

  /** The map's own entries as beacons. */
  ghost function Entries(beats: Beats): set<Beacon> {
    set n | n in beats :: Beacon(n, beats[n])
  }

  /** The pointwise maximum of a set of beacons: above all of them, and attained by one of them. */
  ghost predicate IsPointwiseMaximum(beats: Beats, sources: set<Beacon>) {
    && (forall b :: b in sources ==> b.node in beats && b.time <= beats[b.node])
    && (forall n :: n in beats ==> Beacon(n, beats[n]) in sources)
  }

  lemma MaximumIsUnique(a: Beats, b: Beats, sources: set<Beacon>)
    requires IsPointwiseMaximum(a, sources) && IsPointwiseMaximum(b, sources)
    ensures a == b
  {
    forall n | n in a ensures n in b && a[n] == b[n] {
      assert Beacon(n, a[n]) in sources;
      assert Beacon(n, b[n]) in sources;
    }
    forall n | n in b ensures n in a {
      assert Beacon(n, b[n]) in sources;
    }
  }

  /** A delivery sets the map to the pointwise maximum of its own entries and the message. */
  lemma {:induction false} MergeIsMaximum(beats: Beats, message: seq<Beacon>)
    ensures IsPointwiseMaximum(Merge(beats, message), Entries(beats) + ToSet(message))
  {
    if message != [] {
      var front, last := message[..|message| - 1], message[|message| - 1];
      assert message == front + [last];
      MergeIsMaximum(beats, front);
      ToSetAppend(front, last);
      MergeOneIsMaximum(Merge(beats, front), Entries(beats) + ToSet(front), last);
      assert Entries(beats) + ToSet(message) == Entries(beats) + ToSet(front) + {last};
    }
  }

  lemma MergeOneIsMaximum(beats: Beats, sources: set<Beacon>, last: Beacon)
    requires IsPointwiseMaximum(beats, sources)
    ensures IsPointwiseMaximum(MergeOne(beats, last), sources + {last})
  {
    var merged := MergeOne(beats, last);
    forall n | n in merged ensures Beacon(n, merged[n]) in sources + {last} {
      if n in beats { assert Beacon(n, beats[n]) in sources; }
    }
  }

  function MergeAll(beats: Beats, messages: seq<seq<Beacon>>): Beats {
    if messages == [] then beats
    else Merge(MergeAll(beats, messages[..|messages| - 1]), messages[|messages| - 1])
  }

  ghost function AllBeacons(messages: seq<seq<Beacon>>): set<Beacon> {
    set m, b | m in messages && b in m :: b
  }

  lemma {:induction false} MergeAllIsMaximum(beats: Beats, messages: seq<seq<Beacon>>)
    ensures IsPointwiseMaximum(MergeAll(beats, messages), Entries(beats) + AllBeacons(messages))
  {
    if messages != [] {
      var front, last := messages[..|messages| - 1], messages[|messages| - 1];
      assert messages == front + [last];
      MergeAllIsMaximum(beats, front);
      var middle := MergeAll(beats, front);
      MergeIsMaximum(middle, last);
      assert AllBeacons(messages) == AllBeacons(front) + ToSet(last) by {
        assert forall m :: m in messages <==> m in front || m == last;
      }
      MaximumOfMaximum(Merge(middle, last), middle, Entries(beats) + AllBeacons(front), ToSet(last));
      assert Entries(beats) + AllBeacons(messages) == Entries(beats) + AllBeacons(front) + ToSet(last);
    }
  }

  lemma MaximumOfMaximum(top: Beats, middle: Beats, sources: set<Beacon>, more: set<Beacon>)
    requires IsPointwiseMaximum(middle, sources) && IsPointwiseMaximum(top, Entries(middle) + more)
    ensures IsPointwiseMaximum(top, sources + more)
  {
    forall b | b in sources + more ensures b.node in top && b.time <= top[b.node] {
      if b in sources { assert Beacon(b.node, middle[b.node]) in Entries(middle); }
    }
    forall n | n in top ensures Beacon(n, top[n]) in sources + more {
      assert Beacon(n, top[n]) in Entries(middle) + more;
      if Beacon(n, top[n]) in Entries(middle) {
        assert n in middle && middle[n] == top[n];
      }
    }
  }

  /** Reordered, repeated or repackaged deliveries of the same beacons leave equal maps. */
  lemma GossipIsAJoin(beats: Beats, a: seq<seq<Beacon>>, b: seq<seq<Beacon>>)
    requires AllBeacons(a) == AllBeacons(b)
    ensures MergeAll(beats, a) == MergeAll(beats, b)
    ensures forall n :: n in beats ==> n in MergeAll(beats, a) && beats[n] <= MergeAll(beats, a)[n]
  {
    MergeAllIsMaximum(beats, a);
    MergeAllIsMaximum(beats, b);
    MaximumIsUnique(MergeAll(beats, a), MergeAll(beats, b), Entries(beats) + AllBeacons(a));
    forall n | n in beats ensures n in MergeAll(beats, a) && beats[n] <= MergeAll(beats, a)[n] {
      assert Beacon(n, beats[n]) in Entries(beats);
    }
  }

  /** The first node of the list that the map treats as alive; the empty name if there is none. */
  function FirstAlive(nodes: seq<NodeId>, beats: Beats, now: int): NodeId {
    if nodes == [] then ""
    else if Alive(now, Beat(beats, nodes[0])) then nodes[0]
    else FirstAlive(nodes[1..], beats, now)
  }

  /** The nodes that are looked up on the way to the first live one. */
  function Asked(nodes: seq<NodeId>, beats: Beats, now: int): set<NodeId> {
    if nodes == [] then {}
    else if Alive(now, Beat(beats, nodes[0])) then {nodes[0]}
    else {nodes[0]} + Asked(nodes[1..], beats, now)
  }

  lemma {:induction false} AskedAreListed(nodes: seq<NodeId>, beats: Beats, now: int)
    ensures Asked(nodes, beats, now) <= ToSet(nodes)
  {
    if nodes != [] {
      AskedAreListed(nodes[1..], beats, now);
      assert forall n :: n in nodes[1..] ==> n in nodes;
    }
  }

  ghost predicate NoneAlive(nodes: seq<NodeId>, beats: Beats, now: int) {
    forall n :: n in nodes ==> !Alive(now, Beat(beats, n))
  }

  /** Exactly those that have no live one before them. */
  lemma {:induction false} AskedExactly(nodes: seq<NodeId>, beats: Beats, now: int, n: NodeId)
    ensures n in Asked(nodes, beats, now) <==>
      exists i :: 0 <= i < |nodes| && nodes[i] == n && NoneAlive(nodes[..i], beats, now)
  {
    if nodes != [] {
      var rest := nodes[1..];
      AskedExactly(rest, beats, now, n);
      assert nodes[..0] == [] && forall i :: 0 <= i < |rest| ==> nodes[..i + 1] == [nodes[0]] + rest[..i];
      if n in Asked(nodes, beats, now) && n != nodes[0] {
        var i :| 0 <= i < |rest| && rest[i] == n && NoneAlive(rest[..i], beats, now);
        assert nodes[i + 1] == n;
      }
      if i :| 0 < i < |nodes| && nodes[i] == n && NoneAlive(nodes[..i], beats, now) {
        assert nodes[..i] == [nodes[0]] + rest[..i - 1] && rest[i - 1] == n;
        assert nodes[0] in nodes[..i];
      }
    }
  }

  /** A listed live node before which no other is alive; or the empty name, and none is alive. */
  ghost predicate IsFirstAlive(c: NodeId, nodes: seq<NodeId>, beats: Beats, now: int) {
    || (c == "" && NoneAlive(nodes, beats, now))
    || (Alive(now, Beat(beats, c))
        && exists i :: 0 <= i < |nodes| && nodes[i] == c && NoneAlive(nodes[..i], beats, now))
  }

  lemma {:induction false} FirstAliveIsFirst(nodes: seq<NodeId>, beats: Beats, now: int)
    ensures IsFirstAlive(FirstAlive(nodes, beats, now), nodes, beats, now)
  {
    if nodes != [] {
      var c, rest := FirstAlive(nodes, beats, now), nodes[1..];
      if Alive(now, Beat(beats, nodes[0])) {
        assert nodes[0] == c && nodes[..0] == [];
      } else {
        FirstAliveIsFirst(rest, beats, now);
        if i :| 0 <= i < |rest| && rest[i] == c && NoneAlive(rest[..i], beats, now) {
          assert nodes[..i + 1] == [nodes[0]] + rest[..i];
          assert nodes[i + 1] == c;
        }
      }
    }
  }
}
