/**
 What the verdict means and which order laws it keeps. It is not the textbook order on
 vector clocks, yet "newer" and "older" are each transitive on all lists.
 */
module ClockLaws {
  import opened Words
  import opened Seqs
  import opened Clocks

  type Versions = map<string, Word64>

  ghost predicate DistinctServers(c: Clock) {
    forall i, j :: 0 <= i < j < |c| ==> c[i].server != c[j].server
  }

  /** A stamp of c for a server that c names. */
  ghost function StampOf(c: Clock, server: string): (stamp: Stamp)
    requires server in Servers(c)
    ensures stamp in c && stamp.server == server
  {
    var stamp :| stamp in c && stamp.server == server;
    stamp
  }

  /** The clock as a map from servers to versions. */
  ghost function AsMap(c: Clock): (m: Versions)
    requires DistinctServers(c)
    ensures m.Keys == Servers(c)
    ensures forall stamp :: stamp in c ==> m[stamp.server] == stamp.version
  {
    map s | s in Servers(c) :: StampOf(c, s).version
  }

  ghost predicate LowerSomewhere(a: Versions, b: Versions) {
    exists s :: s in a && s in b && a[s] < b[s]
  }

  /** The verdict, recovered as a function of the two maps. */
  ghost function MapVerdict(a: Versions, b: Versions): int {
    if b == map[] then NEWER
    else if a == map[] then OLDER
    else if !(b.Keys <= a.Keys) then CONFLICT
    else if LowerSomewhere(a, b) then
      if LowerSomewhere(b, a) then CONFLICT else OLDER
    else if a == b then SAME
    else NEWER
  }

  lemma BehindIsLower(a: Clock, b: Clock)
    requires DistinctServers(a) && DistinctServers(b)
    ensures Behind(a, b) <==> LowerSomewhere(AsMap(a), AsMap(b))
  {
    var ma, mb := AsMap(a), AsMap(b);
    if Behind(a, b) {
      var x, y :| x in a && y in b && x.server == y.server && x.version < y.version;
      assert x.server in ma && x.server in mb && ma[x.server] < mb[x.server];
    }
    if LowerSomewhere(ma, mb) {
      var s :| s in ma && s in mb && ma[s] < mb[s];
      var x :| x in a && x.server == s;
      var y :| y in b && y.server == s;
      assert x.version < y.version;
    }
  }

  /** The nested loops see two maps: neither the order of a list nor its layout matters. */
  lemma VerdictOfMaps(a: Clock, b: Clock)
    requires DistinctServers(a) && DistinctServers(b)
    ensures Verdict(a, b) == MapVerdict(AsMap(a), AsMap(b))
  {
    BehindIsLower(a, b);
    BehindIsLower(b, a);
    assert b != [] ==> b[0].server in AsMap(b);
    assert a != [] ==> a[0].server in AsMap(a);
  }

  /** All four verdicts, each by an exact condition on the two maps. */
  lemma ExactClassification(a: Clock, b: Clock)
    requires DistinctServers(a) && DistinctServers(b)
    ensures Verdict(a, b) in {1, 0, -1, 2}
    ensures var ma, mb := AsMap(a), AsMap(b);
      && (Verdict(a, b) == 1 <==>
          mb == map[] || (mb.Keys <= ma.Keys && (forall s :: s in mb ==> mb[s] <= ma[s]) && ma != mb))
      && (Verdict(a, b) == 0 <==> mb != map[] && ma == mb)
      && (Verdict(a, b) == -1 <==>
          mb != map[] && (ma == map[] || (mb.Keys <= ma.Keys && (forall s :: s in mb ==> ma[s] <= mb[s])
                                          && exists s :: s in mb && ma[s] < mb[s])))
      && (Verdict(a, b) == 2 <==>
          && ma != map[] && mb != map[]
          && (!(mb.Keys <= ma.Keys) ||
              ((exists s :: s in mb && s in ma && ma[s] < mb[s]) && (exists s :: s in mb && s in ma && mb[s] < ma[s]))))
  {
    VerdictOfMaps(a, b);
  }

  lemma SameStamps(a: Clock, a': Clock, b: Clock, b': Clock)
    requires ToSet(a) == ToSet(a') && ToSet(b) == ToSet(b')
    ensures Behind(a, b) ==> Behind(a', b')
    ensures Servers(a) <= Servers(a')
    ensures a == [] ==> a' == []
  {
    assert forall x :: x in a ==> x in ToSet(a');
    assert forall x :: x in b ==> x in ToSet(b');
    if a' != [] {
      assert a'[0] in ToSet(a);
    }
    if Behind(a, b) {
      var x, y :| x in a && y in b && x.server == y.server && x.version < y.version;
      assert x in a' && y in b';
    }
  }

  /** On arbitrary lists too, only the set of stamps matters. */
  lemma OrderOfStampsIsIrrelevant(a: Clock, a': Clock, b: Clock, b': Clock)
    requires ToSet(a) == ToSet(a') && ToSet(b) == ToSet(b')
    ensures Verdict(a, b) == Verdict(a', b')
  {
    SameStamps(a, a', b, b');
    SameStamps(a', a, b', b);
    SameStamps(b, b', a, a');
    SameStamps(b', b, a', a);
  }

  /** "Nowhere behind" composes when every server the ends share is named in the middle. */
  lemma NotBehindTransitive(a: Clock, b: Clock, c: Clock)
    requires !Behind(a, b) && !Behind(b, c)
    requires forall x, y :: x in a && y in c && x.server == y.server ==> x.server in Servers(b)
    ensures !Behind(a, c)
  {
    forall x, y | x in a && y in c && x.server == y.server
      ensures y.version <= x.version
    {
      var z := StampOf(b, x.server);
      assert y.version <= z.version <= x.version;
    }
  }

  /** A strict step followed by a weak one is strict. */
  lemma BehindThenNotAhead(a: Clock, b: Clock, c: Clock)
    requires Behind(a, b) && !Behind(c, b)
    requires Servers(b) <= Servers(c)
    ensures Behind(a, c)
  {
    var x, y :| x in a && y in b && x.server == y.server && x.version < y.version;
    assert y.server in Servers(b);
    var z := StampOf(c, y.server);
    assert x.version < z.version;
  }

  /** A weak step followed by a strict one is strict. */
  lemma NotAheadThenBehind(a: Clock, b: Clock, c: Clock)
    requires !Behind(b, a) && Behind(b, c)
    requires Servers(b) <= Servers(a)
    ensures Behind(a, c)
  {
    var x, y :| x in b && y in c && x.server == y.server && x.version < y.version;
    assert x.server in Servers(b);
    var z := StampOf(a, x.server);
    assert z.version < y.version;
  }

  lemma NewerTransitive(a: Clock, b: Clock, c: Clock)
    requires Newer(a, b) && Newer(b, c)
    ensures Newer(a, c)
  {
    if c != [] {
      assert !Behind(a, c) by {
        assert forall y :: y in c ==> y.server in Servers(c);
        NotBehindTransitive(a, b, c);
      }
      if Behind(c, b) {
        BehindThenNotAhead(c, b, a);
      } else if Behind(b, a) && Servers(b) <= Servers(c) {
        NotAheadThenBehind(c, b, a);
      }
    }
  }

  /** A clock is newer than itself only when it is empty. */
  lemma NewerThanItself(a: Clock)
    ensures Newer(a, a) <==> a == []
  {
    if Behind(a, a) {
      var x, y :| x in a && y in a && x.server == y.server && x.version < y.version;
      assert Verdict(a, a) == CONFLICT;
    }
  }

  lemma OlderIrreflexive(a: Clock)
    ensures !Older(a, a)
  {
    if Behind(a, a) {
      assert Behind(a, a) && Behind(a, a);
    }
  }

  lemma OlderTransitive(a: Clock, b: Clock, c: Clock)
    requires Older(a, b) && Older(b, c)
    ensures Older(a, c)
  {
    if a != [] {
      assert Behind(a, c) by {
        NotAheadThenBehind(a, b, c);
      }
      assert !Behind(c, a) by {
        assert forall x :: x in c ==> x.server in Servers(c);
        NotBehindTransitive(c, b, a);
      }
    }
  }

  /** "b is newer than a" and "a is older than b" differ exactly by the server sets. */
  lemma NewerVersusOlder(a: Clock, b: Clock)
    ensures Newer(b, a) ==> (Older(a, b) <==> b != [] && (a == [] || Servers(b) <= Servers(a)))
    ensures Older(a, b) ==> (Newer(b, a) <==> Servers(a) <= Servers(b))
  {
    if Newer(b, a) && b != [] && a != [] && Servers(b) <= Servers(a) {
      assert Behind(a, b);
    }
    if Older(a, b) && a == [] {
      assert Servers(a) == {};
    }
    if a != [] {
      assert a[0].server in Servers(a);
    }
  }

  /** The textbook order: an unnamed server counts as version 0. */
  function VersionOf(m: Versions, s: string): nat {
    if s in m then m[s] else 0
  }

  ghost predicate StrictlyBelow(a: Versions, b: Versions) {
    && (forall s :: VersionOf(a, s) <= VersionOf(b, s))
    && (exists s :: VersionOf(a, s) < VersionOf(b, s))
  }

  ghost predicate AgreeOnOlder(a: Versions, b: Versions) {
    MapVerdict(a, b) == OLDER <==> StrictlyBelow(a, b)
  }

  ghost predicate AtLeast(m: Versions, least: nat) {
    forall s :: s in m ==> least <= m[s]
  }

  /** Neither set is a nonempty strict part of the other. */
  predicate NotNested(A: set<string>, B: set<string>) {
    (A == {} || !(A < B)) && (B == {} || !(B < A))
  }

  /**
   The "older" verdict is the textbook order for all versions over two given server sets
   exactly when neither set is a nonempty strict part of the other. That is for versions of
   at least 1; a counter that has wrapped around to 0 spoils it for all sets that differ.
   */
  lemma TextbookExactlyUnlessNested(A: set<string>, B: set<string>, least: nat)
    requires least + 1 < TWO_64
    ensures (forall a: Versions, b: Versions ::
               a.Keys == A && b.Keys == B && AtLeast(a, least) && AtLeast(b, least) ==> AgreeOnOlder(a, b))
            <==> A == B || B == {} || (1 <= least && NotNested(A, B))
  {
    if A == B || B == {} {
      forall a: Versions, b: Versions | a.Keys == A && b.Keys == B
        ensures AgreeOnOlder(a, b)
      {
        AgreeOnOneServerSet(a, b);
      }
    } else if 1 <= least && NotNested(A, B) {
      forall a: Versions, b: Versions | a.Keys == A && b.Keys == B && AtLeast(a, 1) && AtLeast(b, 1)
        ensures AgreeOnOlder(a, b)
      {
        AgreeOnUnnested(a, b);
      }
    } else if B <= A {
      DisagreeOnExtraServer(A, B, least);
    } else {
      DisagreeOnMissingServer(A, B, least);
    }
  }

  lemma AgreeOnUnnested(a: Versions, b: Versions)
    requires a.Keys != b.Keys && b.Keys != {} && NotNested(a.Keys, b.Keys) && AtLeast(a, 1) && AtLeast(b, 1)
    ensures AgreeOnOlder(a, b)
  {
    assert b != map[] && (a == map[] <==> a.Keys == {});
    if a.Keys == {} {
      var s :| s in b;
      assert VersionOf(a, s) < VersionOf(b, s);
    } else {
      assert !(b.Keys <= a.Keys) && !(a.Keys <= b.Keys);
      var s :| s in a && s !in b;
      assert VersionOf(b, s) < VersionOf(a, s);
    }
  }

  lemma AgreeOnOneServerSet(a: Versions, b: Versions)
    requires a.Keys == b.Keys || b.Keys == {}
    ensures AgreeOnOlder(a, b)
  {
    assert b == map[] <==> b.Keys == {};
    assert a == map[] <==> a.Keys == {};
    if MapVerdict(a, b) == OLDER {
      var s :| s in a && s in b && a[s] < b[s];
      assert VersionOf(a, s) < VersionOf(b, s);
      forall t ensures VersionOf(a, t) <= VersionOf(b, t) {
        assert t in a && t in b ==> a[t] <= b[t];
      }
    }
    if StrictlyBelow(a, b) {
      var s :| VersionOf(a, s) < VersionOf(b, s);
      assert s in a && s in b && a[s] < b[s];
      forall t | t in a && t in b
        ensures a[t] <= b[t]
      {
        assert VersionOf(a, t) <= VersionOf(b, t);
      }
    }
  }

  /** Versions over a server set: one number on a part of it, another on the rest. */
  ghost function Filled(servers: set<string>, part: set<string>, inside: Word64, outside: Word64): (m: Versions)
    ensures m.Keys == servers
  {
    map s | s in servers :: if s in part then inside else outside
  }

  /** An incoming clock with a server of its own is called older though the textbook calls it concurrent. */
  lemma DisagreeOnExtraServer(A: set<string>, B: set<string>, least: nat)
    requires B <= A && A != B && B != {} && least + 1 < TWO_64
    ensures exists a: Versions, b: Versions ::
      a.Keys == A && b.Keys == B && AtLeast(a, least) && AtLeast(b, least) && !AgreeOnOlder(a, b)
  {
    var a, b := Filled(A, B, least, least + 1), Filled(B, B, least + 1, least + 1);
    var s :| s in B;
    assert s in a && s in b && a[s] < b[s];
    assert a != map[] && b != map[];
    assert !(A <= B);
    var t :| t in A && t !in B;
    assert VersionOf(a, t) == least + 1 && VersionOf(b, t) == 0;
    assert MapVerdict(a, b) == OLDER && !StrictlyBelow(a, b);
    assert !AgreeOnOlder(a, b);
  }

  /** An incoming clock that lacks a server is called conflicting (or older) against the textbook. */
  lemma DisagreeOnMissingServer(A: set<string>, B: set<string>, least: nat)
    requires !(B <= A) && (least == 0 || (A != {} && A <= B)) && least + 1 < TWO_64
    ensures exists a: Versions, b: Versions ::
      a.Keys == A && b.Keys == B && AtLeast(a, least) && AtLeast(b, least) && !AgreeOnOlder(a, b)
  {
    var t :| t in B && t !in A;
    if A == {} {
      var a, b := Filled(A, A, 0, 0), Filled(B, B, 0, 0);
      assert t in b;
      assert a == map[] && b != map[];
      assert MapVerdict(a, b) == OLDER && !StrictlyBelow(a, b);
      assert !AgreeOnOlder(a, b);
    } else {
      var a, b := Filled(A, A, least, least), Filled(B, B, least + 1, least + 1);
      assert t in b;
      var s :| s in A;
      assert s in a;
      assert a != map[] && b != map[];
      assert VersionOf(a, t) < VersionOf(b, t);
      assert MapVerdict(a, b) == CONFLICT && StrictlyBelow(a, b);
      assert !AgreeOnOlder(a, b);
    }
  }

  /**
   Verdict 1 is the textbook order, whatever the two server sets, except that the empty clock
   is newer than itself.
   */
  lemma NewerIsTextbook(a: Versions, b: Versions)
    requires AtLeast(a, 1) && AtLeast(b, 1)
    ensures MapVerdict(a, b) == NEWER <==> StrictlyBelow(b, a) || (a == map[] && b == map[])
  {
    if MapVerdict(a, b) == NEWER && b != map[] {
      forall s ensures VersionOf(b, s) <= VersionOf(a, s) {
        assert s in a && s in b ==> b[s] <= a[s];
      }
      var s :| s in a && (s !in b || b[s] != a[s]);
      assert VersionOf(b, s) < VersionOf(a, s);
    }
    if MapVerdict(a, b) == NEWER && b == map[] && a != map[] {
      var s :| s in a;
      assert VersionOf(b, s) < VersionOf(a, s);
    }
    if StrictlyBelow(b, a) {
      AboveIsNewer(a, b);
    }
  }

  lemma AboveIsNewer(a: Versions, b: Versions)
    requires AtLeast(b, 1) && StrictlyBelow(b, a)
    ensures MapVerdict(a, b) == NEWER
  {
    var s :| VersionOf(b, s) < VersionOf(a, s);
    assert s in a && a != b;
    forall t | t in b ensures t in a && b[t] <= a[t] {
      assert VersionOf(b, t) <= VersionOf(a, t);
    }
  }

  /** Verdict 0 is textbook equality, with the same exception. */
  lemma SameIsTextbook(a: Versions, b: Versions)
    requires AtLeast(a, 1) && AtLeast(b, 1)
    ensures MapVerdict(a, b) == SAME <==> b != map[] && forall s :: VersionOf(a, s) == VersionOf(b, s)
  {
    if forall s :: VersionOf(a, s) == VersionOf(b, s) {
      forall s ensures s in a <==> s in b {
        assert VersionOf(a, s) == VersionOf(b, s);
      }
      assert forall s :: s in a ==> VersionOf(a, s) == VersionOf(b, s);
      assert a == b;
    }
  }

  /** Each of the two is ahead somewhere. */
  ghost predicate Concurrent(a: Versions, b: Versions) {
    (exists s :: VersionOf(a, s) < VersionOf(b, s)) && (exists s :: VersionOf(b, s) < VersionOf(a, s))
  }

  ghost predicate AgreeOnConflict(a: Versions, b: Versions) {
    MapVerdict(a, b) == CONFLICT <==> Concurrent(a, b)
  }

  /** Verdict 2 is textbook concurrency under the same condition as verdict -1: neither set nested in the other. */
  lemma ConflictExactlyUnlessNested(A: set<string>, B: set<string>)
    ensures (forall a: Versions, b: Versions ::
               a.Keys == A && b.Keys == B && AtLeast(a, 1) && AtLeast(b, 1) ==> AgreeOnConflict(a, b))
            <==> NotNested(A, B)
  {
    if NotNested(A, B) {
      forall a: Versions, b: Versions | a.Keys == A && b.Keys == B && AtLeast(a, 1) && AtLeast(b, 1)
        ensures AgreeOnConflict(a, b)
      {
        ConflictIsTextbook(a, b);
      }
    } else if A < B {
      var a, b := Filled(A, A, 1, 1), Filled(B, B, 1, 1);
      NestedConflict(a, b);
    } else {
      var a, b := Filled(A, A, 1, 1), Filled(B, B, 2, 2);
      NestedConcurrent(a, b);
    }
  }

  /** Level clocks over a smaller and a larger set: a conflict, though the textbook orders them. */
  lemma NestedConflict(a: Versions, b: Versions)
    requires a.Keys != {} && a.Keys < b.Keys && forall s :: s in a ==> a[s] == 1 && b[s] == 1
    ensures !AgreeOnConflict(a, b)
  {
    assert a != map[] && b != map[];
  }

  /** A larger set of low versions under a smaller one of high versions: concurrent, though the verdict is "older". */
  lemma NestedConcurrent(a: Versions, b: Versions)
    requires b.Keys != {} && b.Keys < a.Keys && AtLeast(a, 1) && forall s :: s in b ==> a[s] < b[s]
    ensures !AgreeOnConflict(a, b)
  {
    var s :| s in b;
    var t :| t in a && t !in b;
    assert VersionOf(a, s) < VersionOf(b, s) && VersionOf(b, t) < VersionOf(a, t);
    assert a != map[] && b != map[];
  }

  lemma ConflictIsTextbook(a: Versions, b: Versions)
    requires NotNested(a.Keys, b.Keys) && AtLeast(a, 1) && AtLeast(b, 1)
    ensures AgreeOnConflict(a, b)
  {
    assert (a == map[] <==> a.Keys == {}) && (b == map[] <==> b.Keys == {});
    if a.Keys == b.Keys {
      if MapVerdict(a, b) == CONFLICT {
        var s :| s in a && s in b && a[s] < b[s];
        var t :| t in a && t in b && b[t] < a[t];
        assert VersionOf(a, s) < VersionOf(b, s) && VersionOf(b, t) < VersionOf(a, t);
      }
      if Concurrent(a, b) {
        var s :| VersionOf(a, s) < VersionOf(b, s);
        var t :| VersionOf(b, t) < VersionOf(a, t);
        assert s in a && t in a && a[s] < b[s] && b[t] < a[t];
      }
    } else if a.Keys != {} && b.Keys != {} {
      var s :| s in b && s !in a;
      var t :| t in a && t !in b;
      assert VersionOf(a, s) < VersionOf(b, s) && VersionOf(b, t) < VersionOf(a, t);
    }
  }
}
