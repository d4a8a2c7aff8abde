/**
 The ring as a map from 64-bit positions to owners, and what a clockwise walk means: read
 the circle position by position, starting at the key, and keep first occurrences.
 */
module RingSpec {
  import opened Words
  import opened Seqs
  import opened Decimal

  type NodeId = string
  type Ring = map<Word64, NodeId>
  type HashFunction = string -> Word64

  function OwnerAt(ring: Ring, p: Word64): seq<NodeId> {
    if p in ring then [ring[p]] else []
  }

  /** The owners of the occupied positions lo, lo + 1, ..., hi - 1. */
  ghost function Arc(ring: Ring, lo: nat, hi: nat): seq<NodeId>
    requires hi <= TWO_64
    decreases hi - lo
  {
    if hi <= lo then []
    else Arc(ring, lo, hi - 1) + OwnerAt(ring, hi - 1)
  }

  /** How far a position is from the start of a turn, clockwise. */
  function Distance(start: Word64, p: Word64): nat {
    if start <= p then p - start else TWO_64 - start + p
  }

  /** No occupied position is nearer. */
  ghost predicate IsNearest(ring: Ring, start: Word64, p: Word64) {
    forall q :: q in ring ==> Distance(start, p) <= Distance(start, q)
  }

  /** The owners met on one full turn that starts at a position. */
  ghost function Circle(ring: Ring, start: Word64): seq<NodeId> {
    Arc(ring, start, TWO_64) + Arc(ring, 0, start)
  }

  /** The distinct owners in the order in which they are met. */
  ghost function Owners(ring: Ring, start: Word64): seq<NodeId> {
    Distinct(Circle(ring, start))
  }

  /** The first n distinct owners clockwise from a position. */
  ghost function Replicas(ring: Ring, start: Word64, n: nat): seq<NodeId> {
    Take(Owners(ring, start), n)
  }

  lemma {:induction false} ArcConcat(ring: Ring, lo: nat, mid: nat, hi: nat)
    requires lo <= mid <= hi <= TWO_64
    ensures Arc(ring, lo, hi) == Arc(ring, lo, mid) + Arc(ring, mid, hi)
    decreases hi
  {
    if mid < hi {
      ArcConcat(ring, lo, mid, hi - 1);
    }
  }

  lemma {:induction false} EmptyArc(ring: Ring, lo: nat, hi: nat)
    requires hi <= TWO_64
    requires forall p :: p in ring ==> !(lo <= p < hi)
    ensures Arc(ring, lo, hi) == []
    decreases hi
  {
    if lo < hi {
      EmptyArc(ring, lo, hi - 1);
    }
  }

  /** From an occupied position, the arc up to the next occupied one holds one owner. */
  lemma ArcStep(ring: Ring, p: Word64, q: nat)
    requires p in ring && p < q <= TWO_64
    requires forall r :: r in ring ==> !(p < r < q)
    ensures Arc(ring, p, q) == [ring[p]]
  {
    ArcConcat(ring, p, p + 1, q);
    EmptyArc(ring, p + 1, q);
    assert Arc(ring, p, p) == [];
  }

  lemma {:induction false} ArcMembers(ring: Ring, lo: nat, hi: nat, x: NodeId)
    requires hi <= TWO_64
    ensures x in Arc(ring, lo, hi) <==> exists p :: p in ring && lo <= p < hi && ring[p] == x
    decreases hi
  {
    if lo < hi {
      ArcMembers(ring, lo, hi - 1, x);
    }
  }

  /** A turn of the circle meets every owner. */
  lemma OwnersAreTheValues(ring: Ring, start: Word64, x: NodeId)
    ensures x in Owners(ring, start) <==> x in ring.Values
  {
    ArcMembers(ring, start, TWO_64, x);
    ArcMembers(ring, 0, start, x);
  }

  lemma OwnersCount(ring: Ring, start: Word64)
    ensures |Owners(ring, start)| == |ring.Values|
  {
    NoDuplicatesCount(Owners(ring, start));
    forall x ensures x in ToSet(Owners(ring, start)) <==> x in ring.Values {
      OwnersAreTheValues(ring, start, x);
    }
    assert ToSet(Owners(ring, start)) == ring.Values;
  }

  /** The positions at which a node's virtual nodes sit. */
  function Slots(hash: HashFunction, node: NodeId, virtualNodes: int): set<Word64> {
    set i: int | 0 <= i < virtualNodes :: hash(node + ToString(i))
  }

  function Claim(ring: Ring, slots: set<Word64>, node: NodeId): Ring {
    ring + map p | p in slots :: node
  }

  function Release(ring: Ring, slots: set<Word64>): Ring {
    ring - slots
  }

  /** A position at or behind i, none occupied in between. */
  ghost predicate IsLowerBound(ring: Ring, i: nat, p: Word64) {
    p in ring && i <= p && forall q :: q in ring && i <= q ==> p <= q
  }

  lemma {:induction false} LowerBoundExists(ring: Ring, i: nat, some: Word64)
    requires some in ring && i <= some
    ensures exists p :: IsLowerBound(ring, i, p)
    decreases some
  {
    if q :| q in ring && i <= q < some {
      LowerBoundExists(ring, i, q);
    } else {
      assert IsLowerBound(ring, i, some);
    }
  }

  /** The ordered map's own lookup: the first occupied position not below i. */
  function LowerBound(ring: Ring, i: nat): (r: Option<Word64>)
    ensures r == None <==> forall q :: q in ring ==> q < i
    ensures r != None ==> IsLowerBound(ring, i, r.value)
  {
    if exists q :: q in ring && i <= q then
      ghost var some :| some in ring && i <= some;
      LowerBoundExists(ring, i, some);
      var p :| p in ring && i <= p && forall q :: q in ring && i <= q ==> p <= q;
      Some(p)
    else None
  }

  /** The lookup with the wrap to the first position when it runs off the end. */
  function Next(ring: Ring, i: nat): (p: Word64)
    requires ring != map[]
    ensures p in ring
    ensures IsLowerBound(ring, i, p) || ((forall q :: q in ring ==> q < i) && IsLowerBound(ring, 0, p))
  {
    if LowerBound(ring, i) != None then LowerBound(ring, i).value
    else
      assert exists q :: q in ring by { var q :| q in ring.Keys; }
      LowerBound(ring, 0).value
  }
}
