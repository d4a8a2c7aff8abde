/** What a replica holds after any run of peer writes, in any order and with any repetition. */
module Replication {
  import opened Seqs
  import opened Clocks
  import opened ClockLaws
  import opened Siblings
  import opened Storage

  /** A peer write is applied only if its clock is newer than the stored one. */
  ghost function Settled(stored: Versioned, write: Versioned): Versioned {
    if Newer(write.clock, stored.clock) then write else stored
  }

  ghost function Delivered(contents: Contents, key: string, write: Versioned): Contents {
    if Newer(write.clock, Read(contents, key).clock) then contents[key := write] else contents
  }

  ghost function SettleAll(stored: Versioned, writes: seq<Versioned>): Versioned {
    if writes == [] then stored
    else Settled(SettleAll(stored, writes[..|writes| - 1]), writes[|writes| - 1])
  }

  datatype Message = Message(key: string, write: Versioned)

  ghost function DeliverAll(contents: Contents, messages: seq<Message>): Contents {
    if messages == [] then contents
    else
      var last := messages[|messages| - 1];
      Delivered(DeliverAll(contents, messages[..|messages| - 1]), last.key, last.write)
  }

  function WritesTo(key: string, messages: seq<Message>): seq<Versioned> {
    if messages == [] then []
    else
      var front, last := WritesTo(key, messages[..|messages| - 1]), messages[|messages| - 1];
      if last.key == key then front + [last.write] else front
  }

  /** Writes to other keys do not matter. */
  lemma {:induction false} KeysDoNotInterfere(contents: Contents, messages: seq<Message>, key: string)
    ensures Read(DeliverAll(contents, messages), key) == SettleAll(Read(contents, key), WritesTo(key, messages))
  {
    if messages != [] {
      var front, last := messages[..|messages| - 1], messages[|messages| - 1];
      KeysDoNotInterfere(contents, front, key);
      if last.key == key {
        SettleAppend(Read(contents, key), WritesTo(key, front), last.write);
      }
    }
  }

  lemma SettleAppend(stored: Versioned, writes: seq<Versioned>, write: Versioned)
    ensures SettleAll(stored, writes + [write]) == Settled(SettleAll(stored, writes), write)
  {
    assert (writes + [write])[..|writes|] == writes;
  }

  /** The stored version only moves up: it is untouched or strictly newer than it was. */
  lemma {:induction false} OnlyMovesUp(stored: Versioned, writes: seq<Versioned>)
    ensures var after := SettleAll(stored, writes); after == stored || Newer(after.clock, stored.clock)
    ensures SettleAll(stored, writes) == stored || SettleAll(stored, writes) in writes
  {
    if writes != [] {
      var front, last := writes[..|writes| - 1], writes[|writes| - 1];
      assert writes == front + [last];
      OnlyMovesUp(stored, front);
      var before := SettleAll(stored, front);
      if Newer(last.clock, before.clock) && before != stored {
        NewerTransitive(last.clock, before.clock, stored.clock);
      }
    }
  }

  /** A nonempty clock, once stored, is never replaced by the empty one. */
  lemma {:induction false} EndsEmptyExactly(stored: Versioned, writes: seq<Versioned>)
    ensures SettleAll(stored, writes).clock == [] <==> stored.clock == [] && forall w :: w in writes ==> w.clock == []
  {
    if writes != [] {
      var front, last := writes[..|writes| - 1], writes[|writes| - 1];
      assert writes == front + [last];
      EndsEmptyExactly(stored, front);
      assert forall w :: w in writes <==> w in front || w == last;
    }
  }

  lemma {:induction false} NoNonemptyIsNewer(stored: Versioned, writes: seq<Versioned>, write: Versioned)
    requires write in writes && write.clock != []
    ensures !Newer(write.clock, SettleAll(stored, writes).clock)
  {
    var front, last := writes[..|writes| - 1], writes[|writes| - 1];
    assert writes == front + [last];
    var before, after := SettleAll(stored, front), SettleAll(stored, writes);
    if write in front {
      NoNonemptyIsNewer(stored, front, write);
    }
    if Newer(write.clock, after.clock) && Newer(last.clock, before.clock) {
      NewerTransitive(write.clock, last.clock, before.clock);
    }
    NewerThanItself(write.clock);
  }

  /**
   At the end no delivered write is newer than what is stored. The one exception is a replica
   that has never had a nonempty clock: the empty clock is newer than itself.
   */
  lemma NoDeliveredIsNewer(stored: Versioned, writes: seq<Versioned>, write: Versioned)
    requires write in writes
    ensures Newer(write.clock, SettleAll(stored, writes).clock)
      <==> stored.clock == [] && forall w :: w in writes ==> w.clock == []
  {
    EndsEmptyExactly(stored, writes);
    if write.clock != [] {
      NoNonemptyIsNewer(stored, writes, write);
    }
  }

  /** A write that nothing delivered is newer than, delivered first, stays. */
  lemma {:induction false} FirstMaximalStays(write: Versioned, writes: seq<Versioned>)
    requires forall w :: w in writes ==> !Newer(w.clock, write.clock)
    ensures SettleAll(write, writes) == write
  {
    if writes != [] {
      FirstMaximalStays(write, writes[..|writes| - 1]);
    }
  }

  ghost function NewerOnes(writes: seq<Versioned>, x: Versioned): set<Versioned> {
    set w | w in writes && Newer(w.clock, x.clock)
  }

  /** Above every write with a nonempty clock there is one that nothing is newer than. */
  lemma {:induction false} MaximalAbove(writes: seq<Versioned>, x: Versioned) returns (top: Versioned)
    requires x in writes && x.clock != []
    ensures top in writes && top.clock != [] && Covers(top.clock, x.clock)
    ensures forall w :: w in writes ==> !Newer(w.clock, top.clock)
    decreases NewerOnes(writes, x)
  {
    if y :| y in writes && Newer(y.clock, x.clock) {
      forall z | z in writes && Newer(z.clock, y.clock) ensures Newer(z.clock, x.clock) {
        NewerTransitive(z.clock, y.clock, x.clock);
      }
      NewerThanItself(y.clock);
      assert NewerOnes(writes, y) < NewerOnes(writes, x) by {
        assert y in NewerOnes(writes, x) && y !in NewerOnes(writes, y);
      }
      top := MaximalAbove(writes, y);
      if top.clock != y.clock {
        NewerTransitive(top.clock, y.clock, x.clock);
      }
    } else {
      top := x;
    }
  }

  ghost predicate EndsAt(start: Versioned, order: seq<Versioned>, clock: Clock) {
    SettleAll(start, order).clock == clock
  }

  /**
   Every replica that starts here and receives exactly these writes, however ordered and
   repeated, ends at the clock.
   */
  ghost predicate AllReplicasEndAt(start: Versioned, writes: seq<Versioned>, clock: Clock) {
    forall order: seq<Versioned> :: ToSet(order) == ToSet(writes) ==> EndsAt(start, order, clock)
  }

  /** Among the writes that are newer than the start, if there are any, one covers all the others. */
  ghost predicate HasGreatest(start: Versioned, writes: seq<Versioned>) {
    || (forall w :: w in writes ==> !Newer(w.clock, start.clock))
    || (exists g :: IsGreatest(start, writes, g))
  }

  ghost predicate IsGreatest(start: Versioned, writes: seq<Versioned>, g: Versioned) {
    && g in writes && Newer(g.clock, start.clock)
    && forall w :: w in writes && Newer(w.clock, start.clock) ==> Covers(g.clock, w.clock)
  }

  lemma MaximalFirstOrder(start: Versioned, writes: seq<Versioned>, top: Versioned, clock: Clock)
    requires AllReplicasEndAt(start, writes, clock) && top in writes && Newer(top.clock, start.clock)
    requires forall w :: w in writes ==> !Newer(w.clock, top.clock)
    ensures clock == top.clock
  {
    var order := [top] + writes;
    assert ToSet(order) == ToSet(writes) by {
      assert forall w :: w in order <==> w in writes;
    }
    SettleFirst(start, top, writes);
    FirstMaximalStays(top, writes);
    assert EndsAt(start, order, clock);
  }

  lemma {:induction false} SettleFirst(stored: Versioned, first: Versioned, rest: seq<Versioned>)
    ensures SettleAll(stored, [first] + rest) == SettleAll(Settled(stored, first), rest)
  {
    if rest == [] {
      assert [first] + rest == [] + [first];
      SettleAppend(stored, [], first);
    } else {
      var front, last := rest[..|rest| - 1], rest[|rest| - 1];
      assert rest == front + [last] && [first] + rest == ([first] + front) + [last];
      SettleFirst(stored, first, front);
      SettleAppend(stored, [first] + front, last);
      SettleAppend(Settled(stored, first), front, last);
    }
  }

  /** A greatest write is where every run ends. */
  lemma GreatestWriteWins(start: Versioned, writes: seq<Versioned>, g: Versioned)
    requires IsGreatest(start, writes, g)
    ensures SettleAll(start, writes).clock == g.clock
  {
    OnlyMovesUp(start, writes);
    if g.clock == [] {
      EndsEmptyExactly(start, writes);
    } else {
      NoNonemptyIsNewer(start, writes, g);
    }
  }

  lemma GreatestMeansConvergence(start: Versioned, writes: seq<Versioned>) returns (clock: Clock)
    requires HasGreatest(start, writes)
    ensures AllReplicasEndAt(start, writes, clock)
  {
    if g :| IsGreatest(start, writes, g) {
      clock := g.clock;
      forall order: seq<Versioned> | ToSet(order) == ToSet(writes) ensures EndsAt(start, order, clock) {
        assert forall w :: w in order <==> w in ToSet(writes);
        assert IsGreatest(start, order, g);
        GreatestWriteWins(start, order, g);
      }
    } else {
      clock := start.clock;
      forall order: seq<Versioned> | ToSet(order) == ToSet(writes) ensures EndsAt(start, order, clock) {
        assert forall w :: w in order ==> w in ToSet(writes);
        FirstMaximalStays(start, order);
      }
    }
  }

  /** Every replica could receive a maximal write first, and would end at its clock. */
  lemma EndIsMaximalAbove(start: Versioned, writes: seq<Versioned>, clock: Clock, x: Versioned) returns (top: Versioned)
    requires AllReplicasEndAt(start, writes, clock)
    requires x in writes && x.clock != [] && Newer(x.clock, start.clock)
    ensures top in writes && top.clock == clock && Covers(top.clock, x.clock) && Newer(top.clock, start.clock)
  {
    top := MaximalAbove(writes, x);
    if top.clock != x.clock {
      NewerTransitive(top.clock, x.clock, start.clock);
    }
    MaximalFirstOrder(start, writes, top, clock);
  }

  lemma ConvergenceMeansGreatest(start: Versioned, writes: seq<Versioned>, clock: Clock)
    requires AllReplicasEndAt(start, writes, clock)
    ensures HasGreatest(start, writes)
  {
    if x :| x in writes && x.clock != [] && Newer(x.clock, start.clock) {
      var g := EndIsMaximalAbove(start, writes, clock, x);
      forall w | w in writes && Newer(w.clock, start.clock) ensures Covers(g.clock, w.clock) {
        if w.clock != [] {
          var top := EndIsMaximalAbove(start, writes, clock, w);
        }
      }
      assert IsGreatest(start, writes, g);
    } else if x :| x in writes && Newer(x.clock, start.clock) {
      assert IsGreatest(start, writes, x);
    }
  }

  /**
   Convergence, exactly: replicas that start with the same version and receive the same writes
   in whatever order end at one clock if and only if, of the writes newer than the start, one
   covers all the others or there is none.
   */
  lemma ReplicasConvergeExactly(start: Versioned, writes: seq<Versioned>)
    ensures (exists clock :: AllReplicasEndAt(start, writes, clock)) <==> HasGreatest(start, writes)
  {
    if HasGreatest(start, writes) {
      var clock := GreatestMeansConvergence(start, writes);
    }
    if clock :| AllReplicasEndAt(start, writes, clock) {
      ConvergenceMeansGreatest(start, writes, clock);
    }
  }

  /** Any two of the clocks are equal or one is newer. */
  ghost predicate IsChain(writes: seq<Versioned>) {
    forall x, y :: x in writes && y in writes ==> Covers(x.clock, y.clock) || Covers(y.clock, x.clock)
  }

  /** In particular a causal chain of writes brings all replicas to one clock, wherever they start. */
  lemma ChainHasGreatest(start: Versioned, writes: seq<Versioned>)
    requires IsChain(writes)
    ensures HasGreatest(start, writes)
  {
    if x :| x in writes && x.clock != [] && Newer(x.clock, start.clock) {
      var g := MaximalAbove(writes, x);
      if g.clock != x.clock {
        NewerTransitive(g.clock, x.clock, start.clock);
      }
      assert IsGreatest(start, writes, g);
    } else if x :| x in writes && Newer(x.clock, start.clock) {
      assert IsGreatest(start, writes, x);
    }
  }
}
