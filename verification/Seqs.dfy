/**
 Two filters on sequences that the whole model is phrased with: keeping the first
 occurrence of every element, and keeping the elements of a given set.
 */
module Seqs {

  ghost predicate NoDuplicates<T>(s: seq<T>) {
    forall i, j :: 0 <= i < j < |s| ==> s[i] != s[j]
  }

  function ToSet<T>(s: seq<T>): set<T> {
    set x | x in s
  }

  function Take<T>(s: seq<T>, n: nat): seq<T> {
    if n < |s| then s[..n] else s
  }

  /** The first occurrence of every element, in order. */
  function Distinct<T(==,!new)>(s: seq<T>): (r: seq<T>)
    ensures forall x :: x in r <==> x in s
    ensures NoDuplicates(r)
  {
    if s == [] then []
    else
      var r := Distinct(s[..|s| - 1]);
      var last := s[|s| - 1];
      if last in r then r else r + [last]
  }

  /** The elements that lie in `keep`, in order, repetitions included. */
  function Keep<T(==,!new)>(s: seq<T>, keep: set<T>): (r: seq<T>)
    ensures forall x :: x in r <==> x in s && x in keep
    ensures |r| <= |s|
  {
    if s == [] then []
    else
      var r := Keep(s[..|s| - 1], keep);
      var last := s[|s| - 1];
      if last in keep then r + [last] else r
  }

  lemma DistinctAppend<T(!new)>(s: seq<T>, x: T)
    ensures Distinct(s + [x]) == if x in s then Distinct(s) else Distinct(s) + [x]
  {
    assert (s + [x])[..|s|] == s;
  }

  lemma ToSetAppend<T>(s: seq<T>, x: T)
    ensures ToSet(s + [x]) == ToSet(s) + {x}
    ensures x in ToSet(s) <==> x in s
  {
    assert x in s + [x];
  }

  lemma PrefixOneMore<T>(s: seq<T>, i: nat)
    requires NoDuplicates(s) && i < |s|
    ensures s[..i + 1] == s[..i] + [s[i]] && s[i] !in s[..i]
    ensures ToSet(s[..i + 1]) == ToSet(s[..i]) + {s[i]} && s[i] !in ToSet(s[..i])
  {
    assert s[..i + 1] == s[..i] + [s[i]];
    ToSetAppend(s[..i], s[i]);
  }

  lemma KeepAppend<T(!new)>(s: seq<T>, x: T, keep: set<T>)
    ensures Keep(s + [x], keep) == if x in keep then Keep(s, keep) + [x] else Keep(s, keep)
  {
    assert (s + [x])[..|s|] == s;
  }

  lemma {:induction false} KeepConcat<T(!new)>(a: seq<T>, b: seq<T>, keep: set<T>)
    ensures Keep(a + b, keep) == Keep(a, keep) + Keep(b, keep)
  {
    if b == [] {
      assert a + b == a;
    } else {
      var front, last := b[..|b| - 1], b[|b| - 1];
      assert a + b == (a + front) + [last] && b == front + [last];
      KeepConcat(a, front, keep);
      KeepAppend(a + front, last, keep);
      KeepAppend(front, last, keep);
    }
  }

  lemma {:induction false} DistinctPrefix<T(!new)>(a: seq<T>, b: seq<T>)
    ensures Distinct(a) <= Distinct(a + b)
  {
    if b == [] {
      assert a + b == a;
    } else {
      var front, last := b[..|b| - 1], b[|b| - 1];
      assert a + b == (a + front) + [last];
      DistinctPrefix(a, front);
      DistinctAppend(a + front, last);
    }
  }

  /** What is kept depends on the members only. */
  lemma {:induction false} KeepSame<T(!new)>(s: seq<T>, a: set<T>, b: set<T>)
    requires forall x :: x in s ==> (x in a <==> x in b)
    ensures Keep(s, a) == Keep(s, b)
  {
    if s != [] {
      KeepSame(s[..|s| - 1], a, b);
    }
  }

  lemma {:induction false} KeepAll<T(!new)>(s: seq<T>, keep: set<T>)
    requires forall x :: x in s ==> x in keep
    ensures Keep(s, keep) == s
  {
    if s != [] {
      KeepAll(s[..|s| - 1], keep);
    }
  }

  lemma {:induction false} DistinctIsIdentity<T(!new)>(s: seq<T>)
    requires NoDuplicates(s)
    ensures Distinct(s) == s
  {
    if s != [] {
      DistinctIsIdentity(s[..|s| - 1]);
    }
  }

  lemma {:induction false} KeepNoDuplicates<T(!new)>(s: seq<T>, keep: set<T>)
    requires NoDuplicates(s)
    ensures NoDuplicates(Keep(s, keep))
  {
    if s != [] {
      KeepNoDuplicates(s[..|s| - 1], keep);
    }
  }

  /** The two filters commute. */
  lemma {:induction false} DistinctKeep<T(!new)>(s: seq<T>, keep: set<T>)
    ensures Distinct(Keep(s, keep)) == Keep(Distinct(s), keep)
  {
    if s != [] {
      var front, last := s[..|s| - 1], s[|s| - 1];
      assert s == front + [last];
      DistinctKeep(front, keep);
      KeepAppend(Distinct(front), last, keep);
      DistinctAppend(Keep(front, keep), last);
    }
  }

  lemma {:induction false} KeepPrefix<T(!new)>(s: seq<T>, t: seq<T>, keep: set<T>)
    requires s <= t
    ensures Keep(s, keep) <= Keep(t, keep)
  {
    assert t == s + t[|s|..];
    KeepConcat(s, t[|s|..], keep);
  }

  /** A sequence without repetitions has as many elements as its set. */
  lemma {:induction false} NoDuplicatesCount<T>(s: seq<T>)
    requires NoDuplicates(s)
    ensures |ToSet(s)| == |s|
  {
    if s != [] {
      var front, last := s[..|s| - 1], s[|s| - 1];
      NoDuplicatesCount(front);
      assert s == front + [last];
      assert last !in front;
      assert ToSet(s) == ToSet(front) + {last};
    }
  }

  lemma SubsetCount<T>(a: set<T>, b: set<T>)
    requires a <= b
    ensures |a| <= |b|
  {
    assert b == a + (b - a);
  }

  /** Deleting the one element in the middle that is not kept. */
  lemma KeepAround<T(!new)>(a: seq<T>, x: T, b: seq<T>, keep: set<T>)
    requires forall y :: y in a || y in b ==> y in keep
    requires x !in keep
    ensures Keep(a + [x] + b, keep) == a + b
  {
    KeepConcat(a + [x], b, keep);
    KeepAppend(a, x, keep);
    KeepAll(a, keep);
    KeepAll(b, keep);
  }
}
