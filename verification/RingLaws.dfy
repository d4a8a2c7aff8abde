/** What adding and removing nodes does to the replica lists of all keys. */
module RingLaws {
  import opened Words
  import opened Seqs
  import opened RingSpec
  import opened RingWalks

  // ----- rings that differ only in what one node owns -----

  /** Both rings give the same positions to every node but x. */
  ghost predicate AgreeApartFrom(a: Ring, b: Ring, x: NodeId) {
    && (forall p :: p in a && a[p] != x ==> p in b && b[p] == a[p])
    && (forall p :: p in b && b[p] != x ==> p in a && a[p] == b[p])
  }

  ghost function Others(a: Ring, b: Ring, x: NodeId): set<NodeId> {
    a.Values + b.Values - {x}
  }

  /** Of the ring's owners exactly x is not kept. */
  ghost predicate KeepsAllBut(ring: Ring, x: NodeId, keep: set<NodeId>) {
    forall p :: p in ring ==> (ring[p] in keep <==> ring[p] != x)
  }

  lemma OwnerAtAgrees(a: Ring, b: Ring, x: NodeId, keep: set<NodeId>, p: Word64)
    requires AgreeApartFrom(a, b, x) && KeepsAllBut(a, x, keep) && KeepsAllBut(b, x, keep)
    ensures Keep(OwnerAt(a, p), keep) == Keep(OwnerAt(b, p), keep)
  {
    if p in a {
      KeepAppend([], a[p], keep);
      assert [] + [a[p]] == OwnerAt(a, p);
    }
    if p in b {
      KeepAppend([], b[p], keep);
      assert [] + [b[p]] == OwnerAt(b, p);
    }
  }

  lemma KeepAgrees(s: seq<NodeId>, s': seq<NodeId>, t: seq<NodeId>, t': seq<NodeId>, keep: set<NodeId>)
    ensures Keep(s, keep) == Keep(t, keep) && Keep(s', keep) == Keep(t', keep) ==>
            Keep(s + s', keep) == Keep(t + t', keep)
  {
    KeepConcat(s, s', keep);
    KeepConcat(t, t', keep);
  }

  lemma ArcAppend(ring: Ring, keep: set<NodeId>, lo: nat, hi: nat, p: Word64)
    requires lo <= p && hi == p + 1
    ensures Keep(Arc(ring, lo, hi), keep) == Keep(Arc(ring, lo, p), keep) + Keep(OwnerAt(ring, p), keep)
  {
    assert Arc(ring, lo, hi) == Arc(ring, lo, p) + OwnerAt(ring, p);
    KeepConcat(Arc(ring, lo, p), OwnerAt(ring, p), keep);
  }

  lemma {:induction false} ArcsAgree(a: Ring, b: Ring, x: NodeId, keep: set<NodeId>, lo: nat, hi: nat)
    requires AgreeApartFrom(a, b, x) && KeepsAllBut(a, x, keep) && KeepsAllBut(b, x, keep) && hi <= TWO_64
    ensures Keep(Arc(a, lo, hi), keep) == Keep(Arc(b, lo, hi), keep)
    decreases hi - lo
  {
    if lo < hi {
      var p: Word64 := hi - 1;
      ArcsAgree(a, b, x, keep, lo, p);
      OwnerAtAgrees(a, b, x, keep, p);
      ArcAppend(a, keep, lo, hi, p);
      ArcAppend(b, keep, lo, hi, p);
    }
  }

  /** Every key's owners agree, in order, once x is left out. */
  lemma OwnersAgree(a: Ring, b: Ring, x: NodeId, start: Word64)
    requires AgreeApartFrom(a, b, x)
    ensures Keep(Owners(a, start), Others(a, b, x)) == Keep(Owners(b, start), Others(a, b, x))
  {
    var keep := Others(a, b, x);
    assert KeepsAllBut(a, x, keep) && KeepsAllBut(b, x, keep);
    ArcsAgree(a, b, x, keep, start, TWO_64);
    ArcsAgree(a, b, x, keep, 0, start);
    KeepAgrees(Arc(a, start, TWO_64), Arc(a, 0, start), Arc(b, start, TWO_64), Arc(b, 0, start), keep);
    DistinctKeep(Circle(a, start), keep);
    DistinctKeep(Circle(b, start), keep);
  }

  /** The kept elements of a prefix of length n are among the first n kept ones. */
  lemma KeepOfTake(s: seq<NodeId>, n: nat, keep: set<NodeId>)
    ensures forall y :: y in Take(s, n) && y in keep ==> y in Take(Keep(s, keep), n)
  {
    KeepPrefix(Take(s, n), s, keep);
    assert Keep(Take(s, n), keep) <= Take(Keep(s, keep), n);
  }

  /** If the first n elements are all kept they are exactly the first n kept ones. */
  lemma TakeOfKeep(s: seq<NodeId>, n: nat, keep: set<NodeId>)
    requires forall y :: y in Take(s, n) ==> y in keep
    ensures Take(Keep(s, keep), n) == Take(s, n) || Take(s, n) == s
    ensures forall y :: y in Take(Keep(s, keep), n) ==> y in Take(s, n)
  {
    KeepAll(Take(s, n), keep);
    KeepPrefix(Take(s, n), s, keep);
  }

  /** A node loses a key only if x itself takes a place among the key's first owners. */
  lemma DisplacedOnlyByX(a: Ring, b: Ring, x: NodeId, start: Word64, n: nat, y: NodeId)
    requires AgreeApartFrom(a, b, x) && y != x
    requires y in Replicas(a, start, n) && y !in Replicas(b, start, n)
    ensures x in Replicas(b, start, n)
  {
    var keep := Others(a, b, x);
    OwnersAgree(a, b, x, start);
    OwnersAreTheValues(a, start, y);
    KeepOfTake(Owners(a, start), n, keep);
    if x !in Replicas(b, start, n) {
      forall z | z in Replicas(b, start, n) ensures z in keep {
        OwnersAreTheValues(b, start, z);
      }
      TakeOfKeep(Owners(b, start), n, keep);
      assert false;
    }
  }

  // ----- adding a node -----

  /** The positions the node wants are free or its own already. */
  ghost predicate FreeOrOwn(ring: Ring, slots: set<Word64>, x: NodeId) {
    forall p :: p in slots && p in ring ==> ring[p] == x
  }

  lemma ClaimAgrees(ring: Ring, slots: set<Word64>, x: NodeId)
    requires FreeOrOwn(ring, slots, x)
    ensures AgreeApartFrom(ring, Claim(ring, slots, x), x)
  {
  }

  function InsertAt(s: seq<NodeId>, i: nat, x: NodeId): seq<NodeId>
    requires i <= |s|
  {
    s[..i] + [x] + s[i..]
  }

  lemma AbsentStaysOut(ring: Ring, b: Ring, x: NodeId, start: Word64)
    requires x !in ring.Values
    ensures Keep(Owners(ring, start), Others(ring, b, x)) == Owners(ring, start)
  {
    forall y | y in Owners(ring, start) ensures y in Others(ring, b, x) {
      OwnersAreTheValues(ring, start, y);
    }
    KeepAll(Owners(ring, start), Others(ring, b, x));
  }

  lemma KeepCutsOut(s: seq<NodeId>, x: NodeId, keep: set<NodeId>) returns (i: nat)
    requires NoDuplicates(s) && x in s
    requires forall y :: y in s ==> (y in keep <==> y != x)
    ensures i < |s| && s[i] == x
    ensures Keep(s, keep) == s[..i] + s[i + 1..]
  {
    i :| 0 <= i < |s| && s[i] == x;
    assert s == s[..i] + [x] + s[i + 1..];
    assert forall y :: y in s[..i] || y in s[i + 1..] ==> y in s && y != x;
    KeepAround(s[..i], x, s[i + 1..], keep);
  }

  lemma CutThenInsert(s: seq<NodeId>, i: nat)
    requires i < |s|
    ensures InsertAt(s[..i] + s[i + 1..], i, s[i]) == s
  {
  }

  /** An added absent node enters every key's owner list at one place; the rest keeps its order. */
  lemma AddInsertsOnce(ring: Ring, slots: set<Word64>, x: NodeId, start: Word64) returns (i: nat)
    requires x !in ring.Values && slots !! ring.Keys && slots != {}
    ensures i <= |Owners(ring, start)|
    ensures Owners(Claim(ring, slots, x), start) == InsertAt(Owners(ring, start), i, x)
  {
    var grown := Claim(ring, slots, x);
    var before, after := Owners(ring, start), Owners(grown, start);
    ClaimAgrees(ring, slots, x);
    OwnersAgree(ring, grown, x, start);
    AbsentStaysOut(ring, grown, x, start);
    var p :| p in slots;
    assert grown[p] == x && x in grown.Values;
    OwnersAreTheValues(grown, start, x);
    forall y | y in after ensures y in Others(ring, grown, x) <==> y != x {
      OwnersAreTheValues(grown, start, y);
    }
    i := KeepCutsOut(after, x, Others(ring, grown, x));
    CutThenInsert(after, i);
  }

  lemma InsertIntoFront(front: seq<NodeId>, back: seq<NodeId>, i: nat, x: NodeId)
    requires i <= |front|
    ensures InsertAt(front + back, i, x) == InsertAt(front, i, x) + back
  {
    assert (front + back)[..i] == front[..i];
    assert (front + back)[i..] == front[i..] + back;
  }

  lemma InsertIntoBack(front: seq<NodeId>, back: seq<NodeId>, i: nat, x: NodeId)
    requires |front| <= i <= |front| + |back|
    ensures front <= InsertAt(front + back, i, x)
  {
    assert (front + back)[..i] == front + back[..i - |front|];
  }

  lemma TakeOfPrefix(s: seq<NodeId>, t: seq<NodeId>, n: nat)
    requires t <= s && n <= |t|
    ensures Take(s, n) == t[..n]
  {
  }

  lemma TakeOfInsert(s: seq<NodeId>, i: nat, x: NodeId, n: nat)
    requires i <= |s|
    ensures Take(InsertAt(s, i, x), n) == Take(InsertAt(Take(s, n), Min(i, |Take(s, n)|), x), n)
  {
    if n < |s| {
      var front, back := s[..n], s[n..];
      assert s == front + back;
      if i <= n {
        InsertIntoFront(front, back, i, x);
        TakeOfPrefix(InsertAt(s, i, x), InsertAt(front, i, x), n);
      } else {
        InsertIntoBack(front, back, i, x);
        InsertIntoBack(front, [], n, x);
        assert front + [] == front;
        TakeOfPrefix(InsertAt(s, i, x), front, n);
        TakeOfPrefix(InsertAt(front, n, x), front, n);
      }
    }
  }

  /**
   Minimal disruption: for every length n the new replica list is the old one with x put in
   at one place and cut to n.
   */
  lemma MinimalDisruptionOnAdd(ring: Ring, slots: set<Word64>, x: NodeId, start: Word64, n: nat)
    returns (i: nat)
    requires x !in ring.Values && slots !! ring.Keys && slots != {}
    ensures i <= |Replicas(ring, start, n)|
    ensures Replicas(Claim(ring, slots, x), start, n) == Take(InsertAt(Replicas(ring, start, n), i, x), n)
  {
    var j := AddInsertsOnce(ring, slots, x, start);
    i := Min(j, |Replicas(ring, start, n)|);
    TakeOfInsert(Owners(ring, start), j, x, n);
  }

  lemma InsertDisplaces(s: seq<NodeId>, i: nat, x: NodeId, n: nat, y: NodeId)
    requires NoDuplicates(s) && |s| <= n && i <= |s|
    requires x !in s && y in s
    ensures y !in Take(InsertAt(s, i, x), n) <==> |s| == n && y == s[n - 1] && x in Take(InsertAt(s, i, x), n)
  {
    var longer := InsertAt(s, i, x);
    var first := Take(longer, n);
    assert forall j :: 0 <= j < i ==> longer[j] == s[j];
    assert longer[i] == x && forall j :: i < j < |longer| ==> longer[j] == s[j - 1];
    var k :| 0 <= k < |s| && s[k] == y;
    var place := if k < i then k else k + 1;
    assert longer[place] == y && forall j :: 0 <= j < |longer| && j != place ==> longer[j] != y;
    if place < n {
      assert first[place] == y;
    } else {
      assert first[i] == x;
    }
  }

  /** Exactly the last of a full list is displaced, and only if x comes in. */
  lemma DisplacedExactly(ring: Ring, slots: set<Word64>, x: NodeId, start: Word64, n: nat, y: NodeId)
    requires x !in ring.Values && slots !! ring.Keys && slots != {}
    requires y in Replicas(ring, start, n)
    ensures var before, after := Replicas(ring, start, n), Replicas(Claim(ring, slots, x), start, n);
      y !in after <==> |before| == n && y == before[n - 1] && x in after
  {
    var i := MinimalDisruptionOnAdd(ring, slots, x, start, n);
    OwnersAreTheValues(ring, start, x);
    InsertDisplaces(Replicas(ring, start, n), i, x, n, y);
  }

  // ----- removing a node -----

  /** The node owns exactly these positions. */
  ghost predicate OwnsExactly(ring: Ring, slots: set<Word64>, x: NodeId) {
    forall p :: p in ring ==> (p in slots <==> ring[p] == x)
  }

  lemma ReleaseAgrees(ring: Ring, slots: set<Word64>, x: NodeId)
    requires OwnsExactly(ring, slots, x)
    ensures AgreeApartFrom(ring, Release(ring, slots), x)
    ensures x !in Release(ring, slots).Values
  {
  }

  lemma ReleaseKeepsOthers(ring: Ring, slots: set<Word64>, x: NodeId, start: Word64)
    requires OwnsExactly(ring, slots, x)
    ensures Owners(Release(ring, slots), start) == Keep(Owners(ring, start), Others(ring, Release(ring, slots), x))
  {
    var rest := Release(ring, slots);
    ReleaseAgrees(ring, slots, x);
    OwnersAgree(ring, rest, x, start);
    forall y | y in Owners(rest, start) ensures y in Others(ring, rest, x) {
      OwnersAreTheValues(rest, start, y);
    }
    KeepAll(Owners(rest, start), Others(ring, rest, x));
  }

  /** A removed node leaves every key's owner list; the rest keeps its order. */
  lemma RemoveCutsOnce(ring: Ring, slots: set<Word64>, x: NodeId, start: Word64) returns (i: nat)
    requires OwnsExactly(ring, slots, x) && x in ring.Values
    ensures i < |Owners(ring, start)| && Owners(ring, start)[i] == x
    ensures Owners(Release(ring, slots), start) == Owners(ring, start)[..i] + Owners(ring, start)[i + 1..]
  {
    ReleaseKeepsOthers(ring, slots, x, start);
    OwnersAreTheValues(ring, start, x);
    var keep := Others(ring, Release(ring, slots), x);
    forall y | y in Owners(ring, start) ensures y in keep <==> y != x {
      OwnersAreTheValues(ring, start, y);
    }
    i := KeepCutsOut(Owners(ring, start), x, keep);
  }

  lemma TakeOfCut(s: seq<NodeId>, i: nat, n: nat)
    requires NoDuplicates(s) && i < |s|
    ensures var cut := s[..i] + s[i + 1..];
      && (n <= i ==> Take(cut, n) == Take(s, n))
      && (i < n ==> Take(cut, n) == Take(s, n + 1)[..i] + Take(s, n + 1)[i + 1..])
  {
  }

  /** Minimal disruption, the dual: x drops out and the (n + 1)-th owner, if there is one, moves up. */
  lemma MinimalDisruptionOnRemove(ring: Ring, slots: set<Word64>, x: NodeId, start: Word64, n: nat)
    requires OwnsExactly(ring, slots, x)
    ensures var before, wider, after :=
        Replicas(ring, start, n), Replicas(ring, start, n + 1), Replicas(Release(ring, slots), start, n);
      if x !in before then after == before
      else exists i :: 0 <= i < |wider| && wider[i] == x && after == wider[..i] + wider[i + 1..]
  {
    if x in ring.Values {
      var owners := Owners(ring, start);
      var i := RemoveCutsOnce(ring, slots, x, start);
      TakeOfCut(owners, i, n);
      if i < n {
        assert Take(owners, n)[i] == x;
        var wider := Replicas(ring, start, n + 1);
        assert wider[i] == x;
        assert Replicas(Release(ring, slots), start, n) == wider[..i] + wider[i + 1..];
      } else {
        assert forall k :: 0 <= k < |Take(owners, n)| ==> Take(owners, n)[k] == owners[k] && k < i;
      }
    } else {
      NothingToRelease(ring, slots, x);
      if x in Replicas(ring, start, n) {
        OwnersAreTheValues(ring, start, x);
      }
    }
  }

  lemma NothingToRelease(ring: Ring, slots: set<Word64>, x: NodeId)
    requires OwnsExactly(ring, slots, x) && x !in ring.Values
    ensures Release(ring, slots) == ring
  {
    forall p | p in ring ensures p !in slots {
      assert ring[p] in ring.Values;
    }
  }

  /** The heir of a key: the (n + 1)-th owner, when the leaver was among the first n. */
  ghost predicate IsHeir(ring: Ring, x: NodeId, start: Word64, n: nat, y: NodeId) {
    x in Replicas(ring, start, n) && n < |Owners(ring, start)| && y == Owners(ring, start)[n]
  }

  /** A removal makes nobody but the heir newly responsible for a key, and the heir always. */
  lemma OneHeirExactly(ring: Ring, slots: set<Word64>, x: NodeId, start: Word64, n: nat, y: NodeId)
    requires OwnsExactly(ring, slots, x)
    ensures y !in Replicas(ring, start, n) && y in Replicas(Release(ring, slots), start, n)
            <==> IsHeir(ring, x, start, n, y)
  {
    if x !in ring.Values {
      NothingToRelease(ring, slots, x);
      OwnersAreTheValues(ring, start, x);
    } else {
      var owners := Owners(ring, start);
      var i := RemoveCutsOnce(ring, slots, x, start);
      assert i < n ==> Take(owners, n)[i] == x;
      CutPromotes(owners, i, n, y);
    }
  }

  lemma CutPromotes(s: seq<NodeId>, i: nat, n: nat, y: NodeId)
    requires NoDuplicates(s) && i < |s|
    ensures y !in Take(s, n) && y in Take(s[..i] + s[i + 1..], n) <==> i < n < |s| && y == s[n]
  {
    var cut := s[..i] + s[i + 1..];
    assert forall k :: 0 <= k < |cut| ==> cut[k] == s[if k < i then k else k + 1];
    if i < n < |s| {
      assert Take(cut, n)[n - 1] == s[n];
      assert forall k :: 0 <= k < n - 1 ==> Take(cut, n)[k] == Take(s, n)[if k < i then k else k + 1];
    } else if i < n {
      assert Take(s, n) == s;
    } else {
      assert Take(cut, n) == Take(s, n);
    }
  }

  // ----- the order of the owners -----

  /** The owners met on the way to a position are those of the nearer positions. */
  lemma WalkedMembers(ring: Ring, start: Word64, p: Word64, x: NodeId)
    ensures x in Walked(ring, start, p) <==>
      exists q :: q in ring && ring[q] == x && Distance(start, q) < Distance(start, p)
  {
    if start <= p {
      ArcMembers(ring, start, p, x);
    } else {
      ArcMembers(ring, start, TWO_64, x);
      ArcMembers(ring, 0, p, x);
    }
  }

  lemma {:induction false} NearestOf(ring: Ring, start: Word64, p: Word64) returns (nearest: Word64)
    requires p in ring
    ensures nearest in ring && ring[nearest] == ring[p]
    ensures forall q :: q in ring && ring[q] == ring[p] ==> Distance(start, nearest) <= Distance(start, q)
    decreases Distance(start, p)
  {
    if q :| q in ring && ring[q] == ring[p] && Distance(start, q) < Distance(start, p) {
      nearest := NearestOf(ring, start, q);
    } else {
      nearest := p;
    }
  }

  /** An element of a front has all earlier ones in that front. */
  lemma FrontHasEarlier(front: seq<NodeId>, s: seq<NodeId>, i: nat, j: nat)
    requires front <= s && NoDuplicates(s) && i < j < |s|
    ensures s[j] in front ==> s[i] in front
  {
    if s[j] in front {
      var k :| 0 <= k < |front| && front[k] == s[j];
      assert k == j && front[i] == s[i];
    }
  }

  lemma DistinctWalkedIsFront(ring: Ring, start: Word64, p: Word64)
    ensures Distinct(Walked(ring, start, p)) <= Owners(ring, start)
  {
    var walked, circle := Walked(ring, start, p), Circle(ring, start);
    WalkedIsPrefix(ring, start, p);
    assert circle == walked + circle[|walked|..];
    DistinctPrefix(walked, circle[|walked|..]);
  }

  /** Some position of x is nearer than every position of y. */
  ghost predicate IsNearer(ring: Ring, start: Word64, x: NodeId, y: NodeId) {
    exists p :: p in ring && ring[p] == x && NearerThanAll(ring, start, p, y)
  }

  ghost predicate NearerThanAll(ring: Ring, start: Word64, p: Word64, y: NodeId) {
    forall q :: q in ring && ring[q] == y ==> Distance(start, p) < Distance(start, q)
  }

  /** The owner list has the nearest owner first: of any two the earlier one has a nearer position. */
  lemma OwnersAreNearestFirst(ring: Ring, start: Word64, i: nat, j: nat)
    requires i < j < |Owners(ring, start)|
    ensures IsNearer(ring, start, Owners(ring, start)[i], Owners(ring, start)[j])
  {
    var owners := Owners(ring, start);
    var x, y := owners[i], owners[j];
    assert x in owners;
    OwnersAreTheValues(ring, start, x);
    var some :| some in ring && ring[some] == x;
    var p := NearestOf(ring, start, some);
    WalkedMembers(ring, start, p, x);
    WalkedMembers(ring, start, p, y);
    DistinctWalkedIsFront(ring, start, p);
    FrontHasEarlier(Distinct(Walked(ring, start, p)), owners, i, j);
    assert NearerThanAll(ring, start, p, y);
  }

  // ----- the three walks -----

  lemma SameMembersOfTakes(s: seq<NodeId>, a: nat, b: nat)
    requires NoDuplicates(s)
    ensures (forall x :: x in Take(s, a) <==> x in Take(s, b)) <==> Min(a, |s|) == Min(b, |s|)
  {
    if a < b && a < |s| {
      assert Take(s, b)[a] == s[a];
      assert s[a] !in Take(s, a);
    } else if b < a && b < |s| {
      assert Take(s, a)[b] == s[b];
      assert s[b] !in Take(s, b);
    }
  }

  lemma SameTakes(s: seq<NodeId>, a: nat, b: nat)
    ensures Take(s, a) == Take(s, b) <==> Min(a, |s|) == Min(b, |s|)
    ensures |Take(s, a)| == Min(a, |s|)
  {
  }

  /**
   The membership walk agrees with the list walk, whatever number of replicas is asked for and
   whatever the node count, exactly when their bounds are the same or neither bound is below
   the number of owners. A negative number is a huge bound; 0 is as good as 1.
   */
  lemma WalksAgreeExactly(ring: Ring, start: Word64, nodeCount: int, n: int)
    ensures var asked, limit := MemberBound(n), ListBound(nodeCount, n);
      (forall x :: x in Replicas(ring, start, asked) <==> x in Listed(ring, start, nodeCount, n))
      <==> asked == limit || (|ring.Values| <= asked && |ring.Values| <= limit)
  {
    var owners, asked, limit := Owners(ring, start), MemberBound(n), ListBound(nodeCount, n);
    OwnersCount(ring, start);
    assert Replicas(ring, start, asked) == Take(owners, asked);
    assert Listed(ring, start, nodeCount, n) == Take(owners, limit);
    SameMembersOfTakes(owners, asked, limit);
  }

  /** So for a positive number the node count must cover it, or all the owners. */
  lemma WalksAgreeOnPositive(ring: Ring, start: Word64, nodeCount: int, n: int)
    requires 1 <= n < TWO_31 && 0 <= nodeCount < TWO_31
    ensures var covered := if nodeCount == 0 then 1 else nodeCount;
      (forall x :: AmongFirst(Owners(ring, start), x, n) <==> x in Listed(ring, start, nodeCount, n))
      <==> covered >= n || covered >= |ring.Values|
  {
    BoundOf(n);
    BoundOf(Min(nodeCount, n));
    WalksAgreeExactly(ring, start, nodeCount, n);
    forall x ensures AmongFirst(Owners(ring, start), x, n) <==> x in Replicas(ring, start, MemberBound(n)) {
      BelongsExactly(ring, start, x, n);
    }
  }

  /** Then the list has exactly as many entries as asked for, or as there are owners. */
  lemma ListLength(ring: Ring, start: Word64, nodeCount: int, n: int)
    requires 1 <= n < TWO_64 && |ring.Values| <= nodeCount
    ensures Listed(ring, start, nodeCount, n) == Replicas(ring, start, n)
    ensures IsLeast(|Listed(ring, start, nodeCount, n)|, {n, |ring.Values|})
  {
    SizeOfSmall(Min(nodeCount, n));
    OwnersCount(ring, start);
  }

  /** The list is the one asked for exactly if the count covers the number or all owners. */
  lemma ListIsWholeExactly(ring: Ring, start: Word64, nodeCount: int, n: int)
    requires 1 <= n < TWO_31 && IsInt32(nodeCount)
    ensures Listed(ring, start, nodeCount, n) == Replicas(ring, start, n) <==>
      if nodeCount < 0 then |ring.Values| <= n
      else ReadAsBound(nodeCount) >= n || ReadAsBound(nodeCount) >= |ring.Values|
    ensures IsLeast(|Replicas(ring, start, n)|, {n, |ring.Values|})
  {
    OwnersCount(ring, start);
    BoundOf(Min(nodeCount, n));
    SameTakes(Owners(ring, start), ReadAsBound(Min(nodeCount, n)), n);
  }

  /** Longer lists extend shorter ones. */
  lemma ReplicasGrow(ring: Ring, start: Word64, n: nat, m: nat)
    requires n <= m
    ensures Replicas(ring, start, n) <= Replicas(ring, start, m)
    ensures NoDuplicates(Replicas(ring, start, m))
    ensures ring != map[] && 1 <= n ==>
      Replicas(ring, start, n) != [] && Replicas(ring, start, n)[..1] == Replicas(ring, start, 1)
  {
    OwnersCount(ring, start);
    if ring != map[] {
      var p :| p in ring.Keys;
      assert ring[p] in ring.Values;
    }
  }
}
