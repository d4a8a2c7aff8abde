/** Whole runs of additions and removals: what the ring is after them. */
module RingMembership {
  import opened Words
  import opened Decimal
  import opened RingSpec
  import opened RingWalks
  import opened RingLaws

  datatype RingOp = Add(node: NodeId) | Remove(node: NodeId)

  /** No position belongs to virtual nodes of two different physical nodes. */
  ghost predicate NoCollisions(hash: HashFunction, virtualNodes: int, nodes: set<NodeId>) {
    forall x, y :: x in nodes && y in nodes && x != y ==>
      Slots(hash, x, virtualNodes) !! Slots(hash, y, virtualNodes)
  }

  function Mentioned(ops: seq<RingOp>): set<NodeId> {
    set op | op in ops :: op.node
  }

  /** The ring after a run that starts with the empty one. */
  function RingAfter(hash: HashFunction, virtualNodes: int, ops: seq<RingOp>): Ring {
    if ops == [] then map[]
    else
      var before := RingAfter(hash, virtualNodes, ops[..|ops| - 1]);
      match ops[|ops| - 1]
      case Add(x) => Claim(before, Slots(hash, x, virtualNodes), x)
      case Remove(x) => Release(before, Slots(hash, x, virtualNodes))
  }

  function CountAfter(ops: seq<RingOp>): int {
    if ops == [] then 0
    else CountAfter(ops[..|ops| - 1]) + if ops[|ops| - 1].Add? then 1 else -1
  }

  /** The nodes whose last operation was an addition. */
  function Members(ops: seq<RingOp>): (members: set<NodeId>)
    ensures forall x :: x in members ==> x in Mentioned(ops)
  {
    if ops == [] then {}
    else
      var front, last := ops[..|ops| - 1], ops[|ops| - 1];
      assert ops == front + [last];
      assert last in ops && forall op :: op in front ==> op in ops;
      if last.Add? then Members(front) + {last.node} else Members(front) - {last.node}
  }

  /** The ring that a set of members has: every member at all its positions, nobody else anywhere. */
  ghost predicate IsRingOf(ring: Ring, hash: HashFunction, virtualNodes: int, members: set<NodeId>) {
    && (forall x, p :: x in members && p in Slots(hash, x, virtualNodes) ==> p in ring && ring[p] == x)
    && (forall p :: p in ring ==> ring[p] in members && p in Slots(hash, ring[p], virtualNodes))
  }

  lemma FewerNodesNoCollisions(hash: HashFunction, virtualNodes: int, nodes: set<NodeId>, fewer: set<NodeId>)
    requires NoCollisions(hash, virtualNodes, nodes) && fewer <= nodes
    ensures NoCollisions(hash, virtualNodes, fewer)
  {
  }

  lemma AddedRing(ring: Ring, hash: HashFunction, virtualNodes: int, members: set<NodeId>, x: NodeId)
    requires IsRingOf(ring, hash, virtualNodes, members)
    requires NoCollisions(hash, virtualNodes, members + {x})
    ensures IsRingOf(Claim(ring, Slots(hash, x, virtualNodes), x), hash, virtualNodes, members + {x})
  {
    var grown := Claim(ring, Slots(hash, x, virtualNodes), x);
    forall y, p | y in members + {x} && p in Slots(hash, y, virtualNodes)
      ensures p in grown && grown[p] == y
    {
      if y != x {
        assert p !in Slots(hash, x, virtualNodes) by {
          assert Slots(hash, x, virtualNodes) !! Slots(hash, y, virtualNodes);
        }
      }
    }
  }

  lemma RemovedRing(ring: Ring, hash: HashFunction, virtualNodes: int, members: set<NodeId>, x: NodeId)
    requires IsRingOf(ring, hash, virtualNodes, members)
    requires NoCollisions(hash, virtualNodes, members + {x})
    ensures IsRingOf(Release(ring, Slots(hash, x, virtualNodes)), hash, virtualNodes, members - {x})
  {
    var rest := Release(ring, Slots(hash, x, virtualNodes));
    forall y, p | y in members - {x} && p in Slots(hash, y, virtualNodes)
      ensures p in rest && rest[p] == y
    {
      assert Slots(hash, x, virtualNodes) !! Slots(hash, y, virtualNodes);
    }
  }

  /** Whatever the run, the ring is the one its members have. */
  lemma {:induction false} RunGivesRingOfMembers(hash: HashFunction, virtualNodes: int, ops: seq<RingOp>)
    requires NoCollisions(hash, virtualNodes, Mentioned(ops))
    ensures IsRingOf(RingAfter(hash, virtualNodes, ops), hash, virtualNodes, Members(ops))
  {
    if ops != [] {
      var front, last := ops[..|ops| - 1], ops[|ops| - 1];
      assert ops == front + [last] && last in ops;
      assert Mentioned(front) <= Mentioned(ops) && last.node in Mentioned(ops);
      FewerNodesNoCollisions(hash, virtualNodes, Mentioned(ops), Mentioned(front));
      RunGivesRingOfMembers(hash, virtualNodes, front);
      FewerNodesNoCollisions(hash, virtualNodes, Mentioned(ops), Members(front) + {last.node});
      if last.Add? {
        AddedRing(RingAfter(hash, virtualNodes, front), hash, virtualNodes, Members(front), last.node);
      } else {
        RemovedRing(RingAfter(hash, virtualNodes, front), hash, virtualNodes, Members(front), last.node);
      }
    }
  }

  lemma RingOfIsUnique(a: Ring, b: Ring, hash: HashFunction, virtualNodes: int, members: set<NodeId>)
    requires IsRingOf(a, hash, virtualNodes, members) && IsRingOf(b, hash, virtualNodes, members)
    ensures a == b
  {
    forall p ensures p in a <==> p in b {
    }
  }

  /**
   Order is irrelevant: nodes that saw different runs but the same members have the same ring,
   and so the same replica list for every key.
   */
  lemma SameMembersSameReplicas(hash: HashFunction, virtualNodes: int, a: seq<RingOp>, b: seq<RingOp>, start: Word64,
                                n: nat)
    requires NoCollisions(hash, virtualNodes, Mentioned(a)) && NoCollisions(hash, virtualNodes, Mentioned(b))
    requires Members(a) == Members(b)
    ensures RingAfter(hash, virtualNodes, a) == RingAfter(hash, virtualNodes, b)
    ensures Replicas(RingAfter(hash, virtualNodes, a), start, n) == Replicas(RingAfter(hash, virtualNodes, b), start, n)
  {
    RunGivesRingOfMembers(hash, virtualNodes, a);
    RunGivesRingOfMembers(hash, virtualNodes, b);
    RingOfIsUnique(RingAfter(hash, virtualNodes, a), RingAfter(hash, virtualNodes, b), hash, virtualNodes, Members(a));
  }

  /** Every removal takes out a node that is in. */
  ghost predicate RemovesOnlyMembers(ops: seq<RingOp>) {
    if ops == [] then true
    else
      var front, last := ops[..|ops| - 1], ops[|ops| - 1];
      RemovesOnlyMembers(front) && (last.Remove? ==> last.node in Members(front))
  }

  /** Every addition also brings in a node that is out. */
  ghost predicate AddsOnlyStrangers(ops: seq<RingOp>) {
    if ops == [] then true
    else
      var front, last := ops[..|ops| - 1], ops[|ops| - 1];
      AddsOnlyStrangers(front) && (last.Add? ==> last.node !in Members(front))
  }

  lemma {:induction false} CountCoversMembers(ops: seq<RingOp>)
    requires RemovesOnlyMembers(ops)
    ensures CountAfter(ops) >= |Members(ops)|
    ensures CountAfter(ops) == |Members(ops)| <==> AddsOnlyStrangers(ops)
  {
    if ops != [] {
      var front, last := ops[..|ops| - 1], ops[|ops| - 1];
      CountCoversMembers(front);
      MembersCount(Members(front), last.node);
    }
  }

  lemma MembersCount(members: set<NodeId>, node: NodeId)
    ensures |members + {node}| == if node in members then |members| else |members| + 1
    ensures |members - {node}| == if node in members then |members| - 1 else |members|
  {
    if node in members {
      assert members + {node} == members && members == (members - {node}) + {node};
    } else {
      assert members - {node} == members;
    }
  }

  lemma ValuesAreMembers(ring: Ring, hash: HashFunction, virtualNodes: int, members: set<NodeId>)
    requires IsRingOf(ring, hash, virtualNodes, members)
    ensures ring.Values <= members
    ensures virtualNodes >= 1 ==> ring.Values == members
  {
    if virtualNodes >= 1 {
      forall x | x in members ensures x in ring.Values {
        assert hash(x + ToString(0)) in Slots(hash, x, virtualNodes);
        assert ring[hash(x + ToString(0))] == x;
      }
    }
  }

  /** The list the walk returns after the run. */
  ghost function ListAfter(hash: HashFunction, virtualNodes: int, ops: seq<RingOp>, start: Word64, n: int): seq<NodeId>
  {
    Listed(RingAfter(hash, virtualNodes, ops), start, CountAfter(ops), n)
  }

  /** What the list has to be: the first min(n, members) owners. */
  ghost predicate IsFull(hash: HashFunction, virtualNodes: int, ops: seq<RingOp>, start: Word64, n: int)
    requires 1 <= n
  {
    var list := ListAfter(hash, virtualNodes, ops, start, n);
    list == Replicas(RingAfter(hash, virtualNodes, ops), start, n) && IsLeast(|list|, {n, |Members(ops)|})
  }

  /**
   After any run a key's list is full exactly when the node count covers what is asked for or
   all members; a count that has become negative is a huge bound, which returns all members.
   */
  lemma ListIsFullExactly(hash: HashFunction, virtualNodes: int, ops: seq<RingOp>, start: Word64, n: int)
    requires NoCollisions(hash, virtualNodes, Mentioned(ops)) && virtualNodes >= 1
    requires 1 <= n < TWO_31 && -TWO_31 <= CountAfter(ops) < TWO_31
    ensures IsFull(hash, virtualNodes, ops, start, n) <==>
      var count, members := CountAfter(ops), |Members(ops)|;
      if count < 0 then members <= n else ReadAsBound(count) >= n || ReadAsBound(count) >= members
  {
    var ring := RingAfter(hash, virtualNodes, ops);
    RunGivesRingOfMembers(hash, virtualNodes, ops);
    ValuesAreMembers(ring, hash, virtualNodes, Members(ops));
    ListIsWholeExactly(ring, start, CountAfter(ops), n);
  }

  /** So after a run that removes only members all lists are full. */
  lemma RunReturnsFullLists(hash: HashFunction, virtualNodes: int, ops: seq<RingOp>, start: Word64, n: int)
    requires NoCollisions(hash, virtualNodes, Mentioned(ops)) && RemovesOnlyMembers(ops)
    requires virtualNodes >= 1 && 1 <= n < TWO_64
    ensures IsFull(hash, virtualNodes, ops, start, n)
  {
    RunGivesRingOfMembers(hash, virtualNodes, ops);
    ValuesAreMembers(RingAfter(hash, virtualNodes, ops), hash, virtualNodes, Members(ops));
    CountCoversMembers(ops);
    ListLength(RingAfter(hash, virtualNodes, ops), start, CountAfter(ops), n);
  }

  lemma OneMoreOp(ops: seq<RingOp>, op: RingOp)
    ensures CountAfter(ops + [op]) == CountAfter(ops) + if op.Add? then 1 else -1
    ensures Members(ops + [op]) == if op.Add? then Members(ops) + {op.node} else Members(ops) - {op.node}
    ensures Mentioned(ops + [op]) == Mentioned(ops) + {op.node}
  {
    assert (ops + [op])[..|ops|] == ops;
    assert op in ops + [op] && forall o :: o in ops ==> o in ops + [op];
  }

  /** Two additions and the removal of a stranger: two members, a count of one. */
  lemma StrangerRemoved(ops: seq<RingOp>)
    requires ops == [] + [Add("a")] + [Add("b")] + [Remove("c")]
    ensures Members(ops) == {"a", "b"} && CountAfter(ops) == 1 && Mentioned(ops) == {"a", "b", "c"}
  {
    OneMoreOp([], Add("a"));
    OneMoreOp([] + [Add("a")], Add("b"));
    OneMoreOp([] + [Add("a")] + [Add("b")], Remove("c"));
  }

  /** For one, a list of three is cut to one of two members when a stranger has been removed. */
  lemma RemovingStrangerCutsLists(hash: HashFunction, ops: seq<RingOp>, start: Word64)
    requires NoCollisions(hash, 1, {"a", "b", "c"})
    requires ops == [] + [Add("a")] + [Add("b")] + [Remove("c")]
    ensures |Members(ops)| == 2 && !IsFull(hash, 1, ops, start, 3)
  {
    StrangerRemoved(ops);
    ListIsFullExactly(hash, 1, ops, start, 3);
  }

  /** Adding and removing a node restores the ring exactly when its positions were free before. */
  lemma AddThenRemoveRestoresExactly(ring: Ring, slots: set<Word64>, x: NodeId)
    ensures Release(Claim(ring, slots, x), slots) == ring <==> slots !! ring.Keys
  {
    var back := Release(Claim(ring, slots, x), slots);
    assert back.Keys == ring.Keys - slots;
    if slots !! ring.Keys {
      assert back == ring;
    }
  }

  /** Two different nodes give one of their virtual nodes the same name. */
  ghost predicate SharedName(x: NodeId, i: nat, y: NodeId, j: nat, virtualNodes: int) {
    x != y && i < virtualNodes && j < virtualNodes && x + ToString(i) == y + ToString(j)
  }

  /** Names are shared exactly if there are more than ten virtual nodes: then by the tenth of x and the first of x1. */
  lemma NamesCollideExactly(virtualNodes: int)
    ensures (exists x, i: nat, y, j: nat :: SharedName(x, i, y, j, virtualNodes)) <==> virtualNodes > 10
  {
    if virtualNodes > 10 {
      TenthMeetsFirst("a");
      assert SharedName("a", 10, "a" + "1", 0, virtualNodes);
    } else {
      forall x, i: nat, y, j: nat ensures !SharedName(x, i, y, j, virtualNodes) {
        if i < virtualNodes && j < virtualNodes && x + ToString(i) == y + ToString(j) {
          assert x == (x + ToString(i))[..|x|] && y == (y + ToString(j))[..|y|];
        }
      }
    }
  }

  lemma TenthMeetsFirst(x: NodeId)
    ensures x + ToString(10) == (x + "1") + ToString(0)
  {
    assert ToString(10) == "10" && ToString(0) == "0";
  }

  /** With more than ten virtual nodes no hash function keeps x and x1 apart. */
  lemma NamesCollide(hash: HashFunction, x: NodeId, virtualNodes: int)
    requires virtualNodes > 10
    ensures !NoCollisions(hash, virtualNodes, {x, x + "1"})
  {
    var y := x + "1";
    TenthMeetsFirst(x);
    var p := hash(x + ToString(10));
    assert p in Slots(hash, x, virtualNodes) && p in Slots(hash, y, virtualNodes);
    assert |x| != |y|;
  }

  /** The hash gives different names of different nodes different positions. */
  ghost predicate HashSeparates(hash: HashFunction, virtualNodes: int, nodes: set<NodeId>) {
    forall x, y, i: nat, j: nat ::
      (x in nodes && y in nodes && x != y && i < virtualNodes && j < virtualNodes && x + ToString(i) != y + ToString(j))
      ==> hash(x + ToString(i)) != hash(y + ToString(j))
  }

  /** With at most ten, positions are shared exactly if the hash itself fails to separate names. */
  lemma OnlyTheHashCollides(hash: HashFunction, virtualNodes: int, nodes: set<NodeId>)
    requires virtualNodes <= 10
    ensures NoCollisions(hash, virtualNodes, nodes) <==> HashSeparates(hash, virtualNodes, nodes)
  {
    NamesCollideExactly(virtualNodes);
    if NoCollisions(hash, virtualNodes, nodes) {
      forall x, y, i: nat, j: nat | x in nodes && y in nodes && x != y && i < virtualNodes && j < virtualNodes
        ensures hash(x + ToString(i)) != hash(y + ToString(j))
      {
        assert hash(x + ToString(i)) in Slots(hash, x, virtualNodes);
        assert hash(y + ToString(j)) in Slots(hash, y, virtualNodes);
      }
    }
    if HashSeparates(hash, virtualNodes, nodes) {
      forall x, y, i: nat, j: nat | x in nodes && y in nodes && x != y && i < virtualNodes && j < virtualNodes
        ensures hash(x + ToString(i)) != hash(y + ToString(j))
      {
        assert !SharedName(x, i, y, j, virtualNodes);
      }
    }
  }
}
