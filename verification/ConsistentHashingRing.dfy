/** The ring object and its three clockwise walks. */
module RingWalks {
  import opened Words
  import opened Seqs
  import opened Decimal
  import opened RingSpec

  /** The owners met from one occupied position up to another, the latter excluded. */
  ghost function Walked(ring: Ring, begin: Word64, p: Word64): seq<NodeId> {
    if begin <= p then Arc(ring, begin, p) else Arc(ring, begin, TWO_64) + Arc(ring, 0, p)
  }

  /** How far the walk still has to go until it is back at its beginning. */
  function Remaining(begin: Word64, p: Word64): nat {
    if begin <= p then TWO_64 - p + begin else begin - p
  }

  /** Where the walk stands after position p; the position behind the last one is 0. */
  function Successor(ring: Ring, p: Word64): (q: Word64)
    requires p in ring
    ensures q in ring
  {
    Next(ring, (p + 1) % TWO_64)
  }

  lemma SuccessorIsNextOrFirst(ring: Ring, p: Word64)
    requires p in ring
    ensures var q := Successor(ring, p);
      if p < q then forall r :: r in ring ==> !(p < r < q)
      else forall r :: r in ring ==> q <= r <= p
  {
    if p < TWO_64 - 1 {
      assert (p + 1) % TWO_64 == p + 1;
    } else {
      assert (p + 1) % TWO_64 == 0;
    }
  }

  lemma WalkedIsPrefix(ring: Ring, begin: Word64, p: Word64)
    ensures Walked(ring, begin, p) <= Circle(ring, begin)
  {
    if begin <= p {
      ArcConcat(ring, begin, p, TWO_64);
    } else {
      ArcConcat(ring, 0, p, begin);
    }
  }

  /** One step of the walk meets one more owner and comes closer to the beginning, or completes the turn. */
  lemma WalkStep(ring: Ring, begin: Word64, p: Word64)
    requires begin in ring && p in ring
    ensures var q := Successor(ring, p);
      if q == begin then Circle(ring, begin) == Walked(ring, begin, p) + [ring[p]]
      else Walked(ring, begin, q) == Walked(ring, begin, p) + [ring[p]] && Remaining(begin, q) < Remaining(begin, p)
  {
    var q := Successor(ring, p);
    SuccessorIsNextOrFirst(ring, p);
    if p < q {
      ArcStep(ring, p, q);
      if begin <= p {
        ArcConcat(ring, begin, p, q);
      } else {
        ArcConcat(ring, 0, p, q);
      }
    } else {
      ArcStep(ring, p, TWO_64);
      ArcConcat(ring, begin, p, TWO_64);
      EmptyArc(ring, 0, q);
    }
  }

  /** The turn is the same whether it starts at the key or at the first occupied position behind it. */
  lemma StartAtOccupied(ring: Ring, start: Word64)
    requires ring != map[]
    ensures Circle(ring, start) == Circle(ring, Next(ring, start))
  {
    var b := Next(ring, start);
    if start <= b {
      ArcConcat(ring, start, b, TWO_64);
      EmptyArc(ring, start, b);
      ArcConcat(ring, 0, start, b);
      assert Arc(ring, start, TWO_64) == Arc(ring, b, TWO_64) && Arc(ring, 0, b) == Arc(ring, 0, start);
    } else {
      EmptyArc(ring, start, TWO_64);
      ArcConcat(ring, b, start, TWO_64);
      ArcConcat(ring, 0, b, start);
      EmptyArc(ring, 0, b);
      assert Arc(ring, b, TWO_64) == Arc(ring, b, start) && Arc(ring, 0, start) == Arc(ring, b, start);
    }
  }

  lemma FirstOwner(ring: Ring, begin: Word64)
    requires begin in ring
    ensures Owners(ring, begin) != [] && Owners(ring, begin)[0] == ring[begin]
  {
    ArcStep(ring, begin, begin + 1);
    ArcConcat(ring, begin, begin + 1, TWO_64);
    var circle := Circle(ring, begin);
    assert circle == [ring[begin]] + circle[1..];
    DistinctPrefix([ring[begin]], circle[1..]);
    DistinctAppend([], ring[begin]);
    assert [] + [ring[begin]] == [ring[begin]];
  }

  /** A do-while loop visits at least one owner, whatever the bound. */
  function AtLeastOne(n: nat): nat {
    if n == 0 then 1 else n
  }

  lemma WalkEnds(circle: seq<NodeId>, walked: seq<NodeId>, found: seq<NodeId>, bound: nat)
    requires walked <= circle && found == Distinct(walked) && |found| <= bound
    ensures |found| == bound || walked == circle ==> found == Take(Distinct(circle), bound)
    ensures forall x :: x in found ==> x in Take(Distinct(circle), bound)
  {
    assert circle == walked + circle[|walked|..];
    DistinctPrefix(walked, circle[|walked|..]);
    assert found <= Take(Distinct(circle), bound);
  }

  /** The bound of the list walk: an unsigned size, cut by the node count. */
  function ListBound(nodeCount: int, asked: int): nat {
    AtLeastOne(AsSize(Min(nodeCount, asked)))
  }

  /** The bound of the membership walk. */
  function MemberBound(asked: int): nat {
    AtLeastOne(AsSize(asked))
  }

  /** What an int is as the bound of a walk: 0 counts as 1, and a negative number is a huge one. */
  function ReadAsBound(i: int): int {
    if i < 0 then TWO_64 + i else if i == 0 then 1 else i
  }

  lemma BoundOf(i: int)
    requires IsInt32(i)
    ensures AtLeastOne(AsSize(i)) == ReadAsBound(i)
  {
    if i < 0 {
      SizeOfNegative(i);
    } else {
      SizeOfSmall(i);
    }
  }

  /**
   How long the list walk's result is: the least of the node count, the number asked for and the
   number of owners. Of a node count and a number asked for that are not both positive, 0 counts
   as 1, and the lower one, if negative, as a huge number.
   */
  ghost predicate HasListLength(length: nat, nodeCount: int, asked: int, owners: nat) {
    if nodeCount >= 1 && asked >= 1 then IsLeast(length, {nodeCount, asked, owners})
    else if nodeCount >= 0 && asked >= 0 then IsLeast(length, {1, owners})
    else if nodeCount < asked then IsLeast(length, {TWO_64 + nodeCount, owners})
    else IsLeast(length, {TWO_64 + asked, owners})
  }

  lemma LengthOfBound(nodeCount: int, asked: int, owners: nat)
    requires IsInt32(nodeCount) && IsInt32(asked)
    ensures HasListLength(Min(ReadAsBound(Min(nodeCount, asked)), owners), nodeCount, asked, owners)
  {
  }

  /** The list that the list walk returns. */
  ghost function Listed(ring: Ring, start: Word64, nodeCount: int, asked: int): seq<NodeId> {
    Replicas(ring, start, ListBound(nodeCount, asked))
  }

  /** The list is the front of the owner list, of this length. */
  lemma ListedExactly(ring: Ring, start: Word64, nodeCount: int, asked: int)
    ensures Listed(ring, start, nodeCount, asked) <= Owners(ring, start)
    ensures IsInt32(nodeCount) && IsInt32(asked) ==>
      HasListLength(|Listed(ring, start, nodeCount, asked)|, nodeCount, asked, |ring.Values|)
  {
    OwnersCount(ring, start);
    var bound := ListBound(nodeCount, asked);
    assert |Listed(ring, start, nodeCount, asked)| == Min(bound, |ring.Values|);
    if IsInt32(nodeCount) && IsInt32(asked) {
      BoundOf(Min(nodeCount, asked));
      LengthOfBound(nodeCount, asked, |ring.Values|);
    }
  }

  /** The node stands at one of the first n places. */
  ghost predicate AmongFirst(owners: seq<NodeId>, node: NodeId, n: int) {
    exists i :: 0 <= i < |owners| && i < n && owners[i] == node
  }

  lemma BelongsExactly(ring: Ring, start: Word64, node: NodeId, asked: int)
    ensures IsInt32(asked) ==>
      (node in Replicas(ring, start, MemberBound(asked)) <==> AmongFirst(Owners(ring, start), node, ReadAsBound(asked)))
  {
    if !IsInt32(asked) { return; }
    BoundOf(asked);
    var owners, listed := Owners(ring, start), Replicas(ring, start, MemberBound(asked));
    if i :| 0 <= i < |owners| && i < ReadAsBound(asked) && owners[i] == node {
      assert listed[i] == node;
    }
  }

  function Noted(found: seq<NodeId>, owner: NodeId): seq<NodeId> {
    if owner in found then found else found + [owner]
  }

  /** What the do-while loops keep: the distinct owners met so far, still fewer than the bound. */
  ghost predicate Walking(ring: Ring, begin: Word64, it: Word64, found: seq<NodeId>, limit: nat) {
    && begin in ring && it in ring && |found| < AtLeastOne(limit)
    && found == Distinct(Walked(ring, begin, it))
  }

  lemma WalkStarts(ring: Ring, begin: Word64, limit: nat)
    requires begin in ring
    ensures Walking(ring, begin, begin, [], limit)
  {
  }

  /** One turn of the do-while loop: it goes on with one more position visited, or the walk is complete. */
  lemma LoopTurn(ring: Ring, begin: Word64, it: Word64, found: seq<NodeId>, limit: nat)
    requires Walking(ring, begin, it, found, limit)
    ensures var more, q := Noted(found, ring[it]), Successor(ring, it);
      if |ToSet(more)| < limit && q != begin
      then Walking(ring, begin, q, more, limit) && Remaining(begin, q) < Remaining(begin, it)
      else more == Take(Owners(ring, begin), AtLeastOne(limit))
    ensures forall x :: x in Noted(found, ring[it]) ==> x in Take(Owners(ring, begin), AtLeastOne(limit))
  {
    var more, q := Noted(found, ring[it]), Successor(ring, it);
    var walked := Walked(ring, begin, it) + [ring[it]];
    WalkStep(ring, begin, it);
    DistinctAppend(Walked(ring, begin, it), ring[it]);
    assert more == Distinct(walked);
    NoDuplicatesCount(more);
    if q != begin {
      WalkedIsPrefix(ring, begin, q);
    }
    WalkEnds(Circle(ring, begin), walked, more, AtLeastOne(limit));
  }

  /** The walk from a key is the walk from the first occupied position. */
  lemma WalkFromKey(ring: Ring, start: Word64, bound: nat)
    requires ring != map[]
    ensures Replicas(ring, start, bound) == Take(Owners(ring, Next(ring, start)), bound)
  {
    StartAtOccupied(ring, start);
  }

  class ConsistentHashingRing {
    const myself: NodeId
    const hash: HashFunction
    const virtualNodes: int
    var ring: Ring
    var nodeCount: int

    constructor (myself: NodeId, hash: HashFunction, virtualNodes: int)
      ensures this.myself == myself && this.hash == hash && this.virtualNodes == virtualNodes
      ensures ring == map[] && nodeCount == 0
    {
      this.myself, this.hash, this.virtualNodes := myself, hash, virtualNodes;
      ring, nodeCount := map[], 0;
    }

    constructor Copy(other: ConsistentHashingRing)
      ensures myself == other.myself && hash == other.hash && virtualNodes == other.virtualNodes
      ensures ring == other.ring && nodeCount == other.nodeCount
    {
      myself, hash, virtualNodes := other.myself, other.hash, other.virtualNodes;
      ring, nodeCount := other.ring, other.nodeCount;
    }

    method AddNode(node: NodeId)
      modifies this
      ensures ring == Claim(old(ring), Slots(hash, node, virtualNodes), node)
      ensures nodeCount == old(nodeCount) + 1
    {
      nodeCount := nodeCount + 1;
      var i := 0;
      while i < virtualNodes
        invariant 0 <= i && (i <= virtualNodes || i == 0)
        invariant ring == Claim(old(ring), Slots(hash, node, i), node)
        invariant nodeCount == old(nodeCount) + 1
      {
        SlotsGrow(hash, node, i);
        ClaimOneMore(old(ring), Slots(hash, node, i), hash(node + ToString(i)), node);
        ring := ring[hash(node + ToString(i)) := node];
        i := i + 1;
      }
      assert Slots(hash, node, i) == Slots(hash, node, virtualNodes) by { SlotsAtExit(hash, node, i, virtualNodes); }
    }

    method RemoveNode(node: NodeId)
      modifies this
      ensures ring == Release(old(ring), Slots(hash, node, virtualNodes))
      ensures nodeCount == old(nodeCount) - 1
    {
      nodeCount := nodeCount - 1;
      var i := 0;
      while i < virtualNodes
        invariant 0 <= i && (i <= virtualNodes || i == 0)
        invariant ring == Release(old(ring), Slots(hash, node, i))
        invariant nodeCount == old(nodeCount) - 1
      {
        SlotsGrow(hash, node, i);
        ring := ring - {hash(node + ToString(i))};
        i := i + 1;
      }
      assert Slots(hash, node, i) == Slots(hash, node, virtualNodes) by { SlotsAtExit(hash, node, i, virtualNodes); }
    }

    /** The owner of the first position clockwise from the key; the empty name on an empty ring. */
    method GetNode(key: string) returns (node: NodeId)
      ensures ring == map[] ==> node == ""
      ensures ring != map[] ==> [node] == Replicas(ring, hash(key), 1)
      ensures ring != map[] ==> exists p :: p in ring && ring[p] == node && IsNearest(ring, hash(key), p)
    {
      if ring == map[] { return ""; }
      var it := Next(ring, hash(key));
      StartAtOccupied(ring, hash(key));
      FirstOwner(ring, it);
      return ring[it];
    }

    method GetReplicasNodes(key: string, numReplicas: int) returns (nodes: seq<NodeId>)
      ensures nodes == Listed(ring, hash(key), nodeCount, numReplicas)
      ensures nodes <= Owners(ring, hash(key))
      ensures IsInt32(nodeCount) && IsInt32(numReplicas) ==>
        HasListLength(|nodes|, nodeCount, numReplicas, |ring.Values|)
    {
      nodes := [];
      var positions, start := ring, hash(key);
      var limit := AsSize(if nodeCount < numReplicas then nodeCount else numReplicas);
      assert ListBound(nodeCount, numReplicas) == AtLeastOne(limit);
      ListedExactly(positions, start, nodeCount, numReplicas);
      if positions == map[] {
        EmptyRingHasNoOwners(start);
        return;
      }
      var nodesSet: set<NodeId> := {};
      var begin := Next(positions, start);
      var it := begin;
      WalkFromKey(positions, start, AtLeastOne(limit));
      WalkStarts(positions, begin, limit);
      while true
        invariant Walking(positions, begin, it, nodes, limit) && nodesSet == ToSet(nodes)
        decreases Remaining(begin, it)
      {
        var owner, next := positions[it], Successor(positions, it);
        ghost var more := Noted(nodes, owner);
        LoopTurn(positions, begin, it, nodes, limit);
        ToSetAppend(nodes, owner);
        if owner !in nodesSet {
          nodesSet := nodesSet + {owner};
          nodes := nodes + [owner];
        }
        assert nodes == more;
        it := next;
        if !(|nodesSet| < limit && it != begin) { return; }
      }
    }

    /** Is the node among the first owners? This walk is not cut by the node count. */
    method CheckDataBelonging(key: string, node: NodeId, numReplicas: int) returns (belongs: bool)
      ensures belongs <==> node in Replicas(ring, hash(key), MemberBound(numReplicas))
      ensures IsInt32(numReplicas) ==>
        (belongs <==> AmongFirst(Owners(ring, hash(key)), node, ReadAsBound(numReplicas)))
    {
      var positions, start, limit := ring, hash(key), AsSize(numReplicas);
      BelongsExactly(positions, start, node, numReplicas);
      if positions == map[] {
        EmptyRingHasNoOwners(start);
        return false;
      }
      var nodesSet: set<NodeId> := {};
      var begin := Next(positions, start);
      var it := begin;
      WalkFromKey(positions, start, AtLeastOne(limit));
      WalkStarts(positions, begin, limit);
      ghost var nodes := [];
      while true
        invariant Walking(positions, begin, it, nodes, limit) && nodesSet == ToSet(nodes)
        invariant node !in nodes
        decreases Remaining(begin, it)
      {
        var owner, next := positions[it], Successor(positions, it);
        LoopTurn(positions, begin, it, nodes, limit);
        ToSetAppend(nodes, owner);
        nodes := Noted(nodes, owner);
        if owner !in nodesSet {
          if owner == node { return true; }
          nodesSet := nodesSet + {owner};
        }
        it := next;
        if !(|nodesSet| < limit && it != begin) { return false; }
      }
    }
  }

  lemma EmptyRingHasNoOwners(start: Word64)
    ensures Owners(map[], start) == []
  {
    EmptyArc(map[], start, TWO_64);
    EmptyArc(map[], 0, start);
  }

  lemma ClaimOneMore(ring: Ring, slots: set<Word64>, p: Word64, node: NodeId)
    ensures Claim(ring, slots + {p}, node) == Claim(ring, slots, node)[p := node]
  {
  }

  lemma SlotsAtExit(hash: HashFunction, node: NodeId, i: nat, virtualNodes: int)
    requires virtualNodes <= i && (i <= virtualNodes || i == 0)
    ensures Slots(hash, node, i) == Slots(hash, node, virtualNodes)
  {
    if i != virtualNodes {
      assert Slots(hash, node, i) == {};
      assert Slots(hash, node, virtualNodes) == {};
    }
  }

  lemma SlotsGrow(hash: HashFunction, node: NodeId, i: nat)
    ensures Slots(hash, node, i + 1) == Slots(hash, node, i) + {hash(node + ToString(i))}
  {
  }
}
