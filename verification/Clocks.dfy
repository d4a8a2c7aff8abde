/**
 Vector clocks and the verdict that compares two of them. The verdict is computed by
 nested loops over lists with early exits; `Verdict` says what those loops decide, for
 every pair of lists, whether or not a list names a server twice.
 */
module Clocks {
  import opened Words

  datatype Stamp = Stamp(server: string, version: Word64)

  type Clock = seq<Stamp>

  function Servers(c: Clock): set<string> {
    set stamp | stamp in c :: stamp.server
  }

  /** Some server stands lower in a than in b. */
  ghost predicate Behind(a: Clock, b: Clock) {
    exists x, y :: x in a && y in b && x.server == y.server && x.version < y.version
  }

  const NEWER := 1
  const SAME := 0
  const OLDER := -1
  const CONFLICT := 2

  ghost function Verdict(incoming: Clock, existing: Clock): int {
    if existing == [] then NEWER
    else if incoming == [] then OLDER
    else if !(Servers(existing) <= Servers(incoming)) then CONFLICT
    else if Behind(incoming, existing) then
      if Behind(existing, incoming) then CONFLICT else OLDER
    else if Behind(existing, incoming) then NEWER
    else if Servers(incoming) <= Servers(existing) then SAME
    else NEWER
  }

  ghost predicate Newer(a: Clock, b: Clock) {
    Verdict(a, b) == NEWER
  }

  ghost predicate Older(a: Clock, b: Clock) {
    Verdict(a, b) == OLDER
  }

  lemma BehindAppendLeft(a: Clock, x: Stamp, b: Clock)
    ensures Behind(a + [x], b) <==> Behind(a, b) || Behind([x], b)
  {
    if Behind(a + [x], b) && !Behind(a, b) {
      var u, y :| u in a + [x] && y in b && u.server == y.server && u.version < y.version;
      assert u in [x];
    }
    if Behind(a, b) {
      var u, y :| u in a && y in b && u.server == y.server && u.version < y.version;
      assert u in a + [x];
    }
    if Behind([x], b) {
      var u, y :| u in [x] && y in b && u.server == y.server && u.version < y.version;
      assert u in a + [x];
    }
  }

  lemma BehindAppendRight(a: Clock, b: Clock, y: Stamp)
    ensures Behind(a, b + [y]) <==> Behind(a, b) || Behind(a, [y])
  {
    if Behind(a, b + [y]) && !Behind(a, b) {
      var x, u :| x in a && u in b + [y] && x.server == u.server && x.version < u.version;
      assert u in [y];
    }
    if Behind(a, b) {
      var x, u :| x in a && u in b && x.server == u.server && x.version < u.version;
      assert u in b + [y];
    }
    if Behind(a, [y]) {
      var x, u :| x in a && u in [y] && x.server == u.server && x.version < u.version;
      assert u in b + [y];
    }
  }

  lemma BehindPrefix(a: Clock, i: nat, b: Clock)
    requires i <= |a|
    ensures Behind(a[..i], b) ==> Behind(a, b)
    ensures Behind(b, a[..i]) ==> Behind(b, a)
  {
    if Behind(a[..i], b) {
      var x, y :| x in a[..i] && y in b && x.server == y.server && x.version < y.version;
      assert x in a;
    }
    if Behind(b, a[..i]) {
      var x, y :| x in b && y in a[..i] && x.server == y.server && x.version < y.version;
      assert y in a;
    }
  }

  /** Behind, restricted to the pairs visited before pair (i, j) of the nested loops. */
  ghost predicate LowerSoFar(a: Clock, b: Clock, i: nat, j: nat)
    requires i < |a| && j <= |b|
  {
    Behind(a[..i], b) || Behind([a[i]], b[..j])
  }

  ghost predicate HigherSoFar(a: Clock, b: Clock, i: nat, j: nat)
    requires i < |a| && j <= |b|
  {
    Behind(b, a[..i]) || Behind(b[..j], [a[i]])
  }

  /** What the pair (i, j) adds to the comparison. */
  lemma OnePair(a: Clock, b: Clock, i: nat, j: nat)
    requires i < |a| && j < |b|
    ensures LowerSoFar(a, b, i, j + 1) <==>
            LowerSoFar(a, b, i, j) || (a[i].server == b[j].server && a[i].version < b[j].version)
    ensures HigherSoFar(a, b, i, j + 1) <==>
            HigherSoFar(a, b, i, j) || (a[i].server == b[j].server && a[i].version > b[j].version)
  {
    var x, y := a[i], b[j];
    assert b[..j + 1] == b[..j] + [y];
    BehindAppendRight([x], b[..j], y);
    BehindAppendLeft(b[..j], y, [x]);
    assert x in [x] && y in [y];
  }

  lemma OneRow(a: Clock, b: Clock, i: nat)
    requires i < |a|
    ensures LowerSoFar(a, b, i, 0) == Behind(a[..i], b)
    ensures HigherSoFar(a, b, i, 0) == Behind(b, a[..i])
    ensures LowerSoFar(a, b, i, |b|) == Behind(a[..i + 1], b)
    ensures HigherSoFar(a, b, i, |b|) == Behind(b, a[..i + 1])
  {
    assert a[..i + 1] == a[..i] + [a[i]];
    assert b[..|b|] == b;
    BehindAppendLeft(a[..i], a[i], b);
    BehindAppendRight(b, a[..i], a[i]);
  }

  lemma BothWaysIsConflict(a: Clock, b: Clock, i: nat, j: nat)
    requires i < |a| && j <= |b|
    requires LowerSoFar(a, b, i, j) && HigherSoFar(a, b, i, j)
    ensures Verdict(a, b) == CONFLICT
  {
    assert Behind(a, b) && Behind(b, a) by {
      BehindPrefix(a, i, b);
      BehindPrefix(b, j, [a[i]]);
      OneRow(a, b, i);
      BehindPrefix(a, i + 1, b);
    }
  }

  /** The automaton's state: it never holds both directions at once. */
  ghost predicate Tracks(res: int, lower: bool, higher: bool) {
    && !(lower && higher)
    && res == if lower then OLDER else if higher then NEWER else SAME
  }

  /** One row of the nested loops: the i-th incoming stamp against every existing one. */
  method CompareRow(incoming: Clock, existing: Clock, incomingSet: set<string>, i: nat, start: int)
    returns (res: int)
    requires i < |incoming| && incomingSet == Servers(incoming)
    requires Tracks(start, Behind(incoming[..i], existing), Behind(existing, incoming[..i]))
    ensures res == CONFLICT ==> Verdict(incoming, existing) == CONFLICT
    ensures res != CONFLICT ==>
      && Servers(existing) <= incomingSet
      && Tracks(res, Behind(incoming[..i + 1], existing), Behind(existing, incoming[..i + 1]))
  {
    res := start;
    OneRow(incoming, existing, i);
    for j := 0 to |existing|
      invariant forall k :: 0 <= k < j ==> existing[k].server in incomingSet
      invariant Tracks(res, LowerSoFar(incoming, existing, i, j), HigherSoFar(incoming, existing, i, j))
    {
      var x, y := incoming[i], existing[j];
      OnePair(incoming, existing, i, j);
      if y.server !in incomingSet {
        assert y.server in Servers(existing);
        return CONFLICT;
      }
      res := ComparePair(x, y, res, LowerSoFar(incoming, existing, i, j), HigherSoFar(incoming, existing, i, j));
      if res == CONFLICT {
        BothWaysIsConflict(incoming, existing, i, j + 1);
        return CONFLICT;
      }
    }
  }

  /** One pair moves the automaton, unless the other direction has been seen before. */
  method ComparePair(x: Stamp, y: Stamp, start: int, ghost lower: bool, ghost higher: bool) returns (res: int)
    requires Tracks(start, lower, higher)
    ensures var lower', higher' := lower || (x.server == y.server && x.version < y.version),
                                   higher || (x.server == y.server && x.version > y.version);
      if lower' && higher' then res == CONFLICT else Tracks(res, lower', higher')
  {
    res := start;
    if x.server == y.server && x.version < y.version {
      if res == NEWER { return CONFLICT; }
      res := OLDER;
    }
    if x.server == y.server && x.version > y.version {
      if res == OLDER { return CONFLICT; }
      res := NEWER;
    }
  }

  method CheckConflictVersion(incoming: Clock, existing: Clock) returns (res: int)
    ensures res == Verdict(incoming, existing)
  {
    if |existing| == 0 { return NEWER; }
    if |incoming| == 0 { return OLDER; }
    res := SAME;
    var incomingSet, existingSet := Servers(incoming), Servers(existing);
    for i := 0 to |incoming|
      invariant i > 0 ==> Servers(existing) <= incomingSet
      invariant Tracks(res, Behind(incoming[..i], existing), Behind(existing, incoming[..i]))
    {
      res := CompareRow(incoming, existing, incomingSet, i, res);
      if res == CONFLICT { return; }
    }
    assert incoming[..|incoming|] == incoming;
    if res == SAME {
      var rest := incomingSet;
      while rest != {}
        invariant rest <= incomingSet
        invariant res == if incomingSet - rest <= existingSet then SAME else NEWER
        decreases rest
      {
        var server :| server in rest;
        if server !in existingSet { res := NEWER; }
        rest := rest - {server};
      }
    }
  }
}
