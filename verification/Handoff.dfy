/** Keys changing hands when a node joins or leaves. */
module Handoff {
  import opened Words
  import opened Seqs
  import opened Clocks
  import opened ClockLaws
  import opened Siblings
  import opened Storage
  import opened RingSpec
  import opened RingLaws
  import opened Replication
  import opened Quorum

  /** One remote write. */
  datatype Tried = Tried(contents: Contents, ok: bool)

  ghost function Attempt(contents: Contents, key: string, write: Versioned, delivery: Delivery): Tried {
    Tried(if delivery == Lost then contents else Delivered(contents, key, write),
          delivery == Arrived && Newer(write.clock, Read(contents, key).clock))
  }

  /** One key given to a peer: the peer's attempt, and the giver's removal if it was accepted. */
  ghost function AfterGive(stores: Stores, self: NodeId, peer: NodeId, key: string, tried: Tried): Stores
    requires self in stores
  {
    stores[peer := tried.contents][self := if tried.ok then stores[self] - {key} else stores[self]]
  }

  lemma GivenExactly(stores: Stores, self: NodeId, peer: NodeId, key: string, tried: Tried)
    requires self in stores && peer in stores && self != peer
    ensures var offered := stores[peer := tried.contents];
      AfterGive(stores, self, peer, key, tried) == if tried.ok then offered[self := offered[self] - {key}] else offered
  {
  }

  lemma GiveOneMore(stores: Stores, self: NodeId, peer: NodeId, received: Contents, gone: set<string>, key: string,
                    tried: Tried)
    requires self in stores && peer in stores && self != peer
    ensures AfterGive(stores[peer := received][self := stores[self] - gone], self, peer, key, tried)
         == stores[peer := tried.contents][self := stores[self] - if tried.ok then gone + {key} else gone]
  {
    assert stores[self] - (gone + {key}) == (stores[self] - gone) - {key};
  }

  // ----- join -----

  type KeyNetwork = string -> Delivery

  /** The keys that a node does not own on the ring. */
  ghost function NotOwned(contents: Contents, ring: Ring, hash: HashFunction, self: NodeId): set<string> {
    set k | k in contents && self !in Replicas(ring, hash(k), REPLICA_N)
  }

  /** Of the keys offered, those that the receiver applies, and those whose acceptance is also heard of. */
  ghost function Applied(contents: Contents, keys: set<string>, receiver: Contents, network: KeyNetwork): set<string> {
    set k | k in keys && k in contents && network(k) != Lost && Newer(contents[k].clock, Read(receiver, k).clock)
  }

  ghost function Acknowledged(contents: Contents, keys: set<string>, receiver: Contents,
                              network: KeyNetwork): set<string>
  {
    set k | k in Applied(contents, keys, receiver, network) && network(k) == Arrived
  }

  /** The receiver with the offered keys that it applies. */
  ghost function Received(contents: Contents, keys: set<string>, receiver: Contents, network: KeyNetwork): Contents {
    Overlay(receiver, contents, Applied(contents, keys, receiver, network))
  }

  function Overlay(under: Contents, over: Contents, keys: set<string>): Contents {
    under + map k | k in keys && k in over :: over[k]
  }

  lemma OverlayOneMore(under: Contents, over: Contents, keys: set<string>, key: string)
    requires key in over
    ensures Overlay(under, over, keys + {key}) == Overlay(under, over, keys)[key := over[key]]
  {
  }

  lemma AppliedOneMore(contents: Contents, done: set<string>, key: string, receiver: Contents, network: KeyNetwork)
    requires key in contents
    ensures Applied(contents, done + {key}, receiver, network) == Applied(contents, done, receiver, network)
      + (if network(key) != Lost && Newer(contents[key].clock, Read(receiver, key).clock) then {key} else {})
  {
  }

  lemma AcknowledgedOneMore(contents: Contents, done: set<string>, key: string, receiver: Contents, network: KeyNetwork)
    requires key in contents
    ensures Acknowledged(contents, done + {key}, receiver, network) == Acknowledged(contents, done, receiver, network)
      + (if network(key) == Arrived && Newer(contents[key].clock, Read(receiver, key).clock) then {key} else {})
  {
  }

  /** What an earlier offer did to the receiver does not show under another key. */
  lemma OtherKeysUnread(contents: Contents, done: set<string>, key: string, receiver: Contents, network: KeyNetwork)
    requires key !in done
    ensures Read(Received(contents, done, receiver, network), key) == Read(receiver, key)
    ensures key !in Acknowledged(contents, done, receiver, network)
  {
    assert key !in Applied(contents, done, receiver, network);
  }

  /** Offering one more key: it is dealt with on its own. */
  lemma OfferOneMore(contents: Contents, done: set<string>, key: string, receiver: Contents, network: KeyNetwork)
    requires key in contents && key !in done
    ensures Attempt(Received(contents, done, receiver, network), key, contents[key], network(key)).contents
         == Received(contents, done + {key}, receiver, network)
  {
    var before, applied := Received(contents, done, receiver, network), Applied(contents, done, receiver, network);
    var write, delivery := contents[key], network(key);
    OtherKeysUnread(contents, done, key, receiver, network);
    AppliedOneMore(contents, done, key, receiver, network);
    OverlayOneMore(receiver, contents, applied, key);
    if delivery != Lost && Newer(write.clock, Read(before, key).clock) {
      assert Attempt(before, key, write, delivery).contents == before[key := write];
    } else {
      assert Attempt(before, key, write, delivery).contents == before;
      assert applied + {} == applied;
    }
  }

  lemma AnswerOneMore(contents: Contents, done: set<string>, key: string, receiver: Contents, network: KeyNetwork)
    requires key in contents && key !in done
    ensures Acknowledged(contents, done + {key}, receiver, network)
         == if Attempt(Received(contents, done, receiver, network), key, contents[key], network(key)).ok
            then Acknowledged(contents, done, receiver, network) + {key}
            else Acknowledged(contents, done, receiver, network)
  {
    OtherKeysUnread(contents, done, key, receiver, network);
    AcknowledgedOneMore(contents, done, key, receiver, network);
    assert Acknowledged(contents, done, receiver, network) + {} == Acknowledged(contents, done, receiver, network);
  }

  /** All stores after the join handler has offered some of its keys. */
  ghost function AfterOffers(stores: Stores, self: NodeId, joiner: NodeId, keys: set<string>,
                             network: KeyNetwork): Stores
    requires self in stores && joiner in stores
  {
    stores[joiner := Received(stores[self], keys, stores[joiner], network)]
          [self := stores[self] - Acknowledged(stores[self], keys, stores[joiner], network)]
  }

  lemma NoOffers(stores: Stores, self: NodeId, joiner: NodeId, network: KeyNetwork)
    requires self in stores && joiner in stores && self != joiner
    ensures AfterOffers(stores, self, joiner, {}, network) == stores
    ensures Acknowledged(stores[self], {}, stores[joiner], network) == {}
  {
    assert Applied(stores[self], {}, stores[joiner], network) == {};
    assert Overlay(stores[joiner], stores[self], {}) == stores[joiner];
    assert Acknowledged(stores[self], {}, stores[joiner], network) == {};
    assert stores[self] - {} == stores[self];
  }

  lemma OneMoreOffer(stores: Stores, self: NodeId, joiner: NodeId, done: set<string>, key: string, network: KeyNetwork)
    requires self in stores && joiner in stores && self != joiner && key in stores[self] && key !in done
    ensures var now := AfterOffers(stores, self, joiner, done, network);
      && key in now[self] && now[self][key] == stores[self][key]
      && var tried := Attempt(now[joiner], key, now[self][key], network(key));
         AfterGive(now, self, joiner, key, tried) == AfterOffers(stores, self, joiner, done + {key}, network)
         && (Acknowledged(stores[self], done + {key}, stores[joiner], network) == done + {key}
             <==> Acknowledged(stores[self], done, stores[joiner], network) == done && tried.ok)
  {
    var mine, theirs := stores[self], stores[joiner];
    var now := AfterOffers(stores, self, joiner, done, network);
    OfferOneMore(mine, done, key, theirs, network);
    AnswerOneMore(mine, done, key, theirs, network);
    OtherKeysUnread(mine, done, key, theirs, network);
    var tried := Attempt(now[joiner], key, mine[key], network(key));
    var acked := Acknowledged(mine, done, theirs, network);
    assert acked <= done;
    GiveOneMore(stores, self, joiner, Received(mine, done, theirs, network), acked, key, tried);
  }

  /**
   What the join handler does with every key, whatever it holds: a key that it does not own it
   offers once; the joiner takes it if the call gets through and the clock is newer, and the
   handler drops it if it hears so. Every other key of both stays as it was.
   */
  lemma HandlerOffersUnowned(stores: Stores, ring: Ring, hash: HashFunction, self: NodeId, x: NodeId,
                             network: KeyNetwork, k: string)
    requires self in stores && x in stores && self != x
    ensures var after := AfterOffers(stores, self, x, NotOwned(stores[self], ring, hash, self), network);
      var offered := k in stores[self] && !(self in Take(Owners(ring, hash(k)), 3));
      var taken := offered && network(k) != Lost && Newer(stores[self][k].clock, Read(stores[x], k).clock);
      && (if taken then k in after[x] && after[x][k] == stores[self][k] else SameAt(after[x], stores[x], k))
      && (if taken && network(k) == Arrived then k !in after[self] else SameAt(after[self], stores[self], k))
      && forall n :: n in stores && n != self && n != x ==> n in after && after[n] == stores[n]
  {
  }

  /** Where a key of the handler is after the join: still here, or with the joiner, who owns it. */
  ghost predicate ConservedByJoin(before: Contents, after: Contents, joinerAfter: Contents, k: string, joinerOwns: bool)
  {
    && k in before
    && (|| (k in after && after[k] == before[k])
        || (k !in after && k in joinerAfter && joinerAfter[k] == before[k] && joinerOwns))
  }

  lemma NotOwnedWithout(contents: Contents, gone: set<string>, ring: Ring, hash: HashFunction, self: NodeId)
    ensures NotOwned(contents - gone, ring, hash, self) == NotOwned(contents, ring, hash, self) - gone
  {
  }

  /** What one offer makes of a key. */
  lemma OfferConserves(contents: Contents, joiner: Contents, moving: set<string>, network: KeyNetwork, k: string)
    ensures var after := contents - Acknowledged(contents, moving, joiner, network);
      var joinerAfter := Received(contents, moving, joiner, network);
      && (k in contents ==> ConservedByJoin(contents, after, joinerAfter, k, k in moving))
      && (k !in contents ==> k !in after && Read(joinerAfter, k) == Read(joiner, k))
      && Covers(Read(joinerAfter, k).clock, Read(joiner, k).clock)
  {
  }

  /**
   Join hand-off conserves data and ownership: if the handler owned all its keys, then each is
   unchanged here, or removed, held by the joiner with exactly this value and clock, and owned
   by the joiner on the new ring. The joiner's other keys are untouched.
   */
  lemma JoinConserves(contents: Contents, joiner: Contents, ring: Ring, slots: set<Word64>, hash: HashFunction,
                      self: NodeId, x: NodeId, network: KeyNetwork)
    requires FreeOrOwn(ring, slots, x) && self != x
    requires NotOwned(contents, ring, hash, self) == {}
    ensures var grown := Claim(ring, slots, x);
      var moving := NotOwned(contents, grown, hash, self);
      var after := contents - Acknowledged(contents, moving, joiner, network);
      var joinerAfter := Received(contents, moving, joiner, network);
      && (forall k :: k in contents ==>
            ConservedByJoin(contents, after, joinerAfter, k, x in Replicas(grown, hash(k), REPLICA_N)))
      && (forall k :: k !in contents ==> k !in after && Read(joinerAfter, k) == Read(joiner, k))
      && (forall k :: Covers(Read(joinerAfter, k).clock, Read(joiner, k).clock))
      && NotOwned(after, grown, hash, self) == moving - Acknowledged(contents, moving, joiner, network)
  {
    var grown := Claim(ring, slots, x);
    ClaimAgrees(ring, slots, x);
    forall k | k in contents && self !in Replicas(grown, hash(k), REPLICA_N)
      ensures x in Replicas(grown, hash(k), REPLICA_N)
    {
      assert k !in NotOwned(contents, ring, hash, self);
      DisplacedOnlyByX(ring, grown, x, hash(k), REPLICA_N, self);
    }
    var moving := NotOwned(contents, grown, hash, self);
    NotOwnedWithout(contents, Acknowledged(contents, moving, joiner, network), grown, hash, self);
    forall k {
      OfferConserves(contents, joiner, moving, network, k);
    }
  }

  /** Of all handlers that owned a key at most one gives it up to a new node: the last of the first three. */
  lemma OneHandlerGivesUpAKey(ring: Ring, slots: set<Word64>, x: NodeId, start: Word64, p: NodeId, q: NodeId)
    requires x !in ring.Values && slots !! ring.Keys && slots != {}
    requires p in Replicas(ring, start, REPLICA_N) && p !in Replicas(Claim(ring, slots, x), start, REPLICA_N)
    requires q in Replicas(ring, start, REPLICA_N) && q !in Replicas(Claim(ring, slots, x), start, REPLICA_N)
    ensures |Replicas(ring, start, REPLICA_N)| == REPLICA_N && p == q == Replicas(ring, start, REPLICA_N)[REPLICA_N - 1]
  {
    DisplacedExactly(ring, slots, x, start, REPLICA_N, p);
    DisplacedExactly(ring, slots, x, start, REPLICA_N, q);
  }

  // ----- retried writes -----

  const ATTEMPTS := 5

  type RetryNetwork = nat -> Delivery

  /** A contacted peer of the put loop gets exactly one attempt. */
  lemma AttemptIsWritten(stores: Stores, server: NodeId, self: NodeId, key: string, write: Versioned, network: Network)
    requires server in stores && server != self
    ensures var tried := Attempt(stores[server], key, write, network(server));
      && tried.contents == Written(stores[server], server, self, key, write, network)
      && (tried.ok <==> server in Writers(stores, self, key, write, network))
  {
  }

  /** At most n attempts, the first success being the last one. */
  ghost function TryPut(contents: Contents, key: string, write: Versioned, network: RetryNetwork, n: nat): Tried {
    if n == 0 then Tried(contents, false)
    else
      var before := TryPut(contents, key, write, network, n - 1);
      if before.ok then before else Attempt(before.contents, key, write, network(n - 1))
  }

  /** One of the first n attempts is answered, and for a nonempty clock none before it got through. */
  ghost predicate AnsweredInTime(write: Versioned, network: RetryNetwork, n: nat) {
    exists i: nat :: i < n && network(i) == Arrived && (write.clock == [] || AllLost(network, i))
  }

  ghost predicate AllLost(network: RetryNetwork, n: nat) {
    forall i: nat :: i < n ==> network(i) == Lost
  }

  /**
   What retrying can achieve: a write counts as accepted exactly when it is newer than what is
   stored and the first attempt that gets through at all is also answered; once an answer is
   lost, every retry is turned down. Only the empty clock, newer than itself, may be retried.
   */
  lemma {:induction false} RetryExactly(contents: Contents, key: string, write: Versioned, network: RetryNetwork,
                                        n: nat)
    ensures var r := TryPut(contents, key, write, network, n);
      && (r.ok <==> Newer(write.clock, Read(contents, key).clock) && AnsweredInTime(write, network, n))
      && r.contents == if AllLost(network, n) then contents else Delivered(contents, key, write)
  {
    if n > 0 {
      RetryExactly(contents, key, write, network, n - 1);
      NewerThanItself(write.clock);
      OneMoreAttempt(write, network, n);
      if !AllLost(network, n - 1) {
        DeliveredTwice(contents, key, write);
      }
    }
  }

  /** A first answer at the fifth attempt still takes the key; at the sixth it would come too late. */
  lemma FifthAttemptIsLast(contents: Contents, key: string, write: Versioned, network: RetryNetwork)
    requires Newer(write.clock, Read(contents, key).clock)
    ensures AllLost(network, 4) && network(4) == Arrived ==>
      TryPut(contents, key, write, network, ATTEMPTS) == Tried(contents[key := write], true)
    ensures AllLost(network, 5) ==> TryPut(contents, key, write, network, ATTEMPTS) == Tried(contents, false)
  {
    RetryExactly(contents, key, write, network, ATTEMPTS);
    if AllLost(network, 4) && network(4) == Arrived {
      assert AnsweredInTime(write, network, ATTEMPTS);
    }
  }

  lemma OneMoreAttempt(write: Versioned, network: RetryNetwork, n: nat)
    requires n > 0
    ensures AllLost(network, n) <==> AllLost(network, n - 1) && network(n - 1) == Lost
    ensures AnsweredInTime(write, network, n) <==>
      || AnsweredInTime(write, network, n - 1)
      || (network(n - 1) == Arrived && (write.clock == [] || AllLost(network, n - 1)))
  {
    if AnsweredInTime(write, network, n - 1) {
      var i: nat :| i < n - 1 && network(i) == Arrived && (write.clock == [] || AllLost(network, i));
      assert i < n;
    }
    if network(n - 1) == Arrived && (write.clock == [] || AllLost(network, n - 1)) {
      var i := n - 1;
      assert i < n && network(i) == Arrived && (write.clock == [] || AllLost(network, i));
    }
  }

  /** A second copy is turned down, or leaves what the first one left. */
  lemma DeliveredTwice(contents: Contents, key: string, write: Versioned)
    ensures Delivered(Delivered(contents, key, write), key, write) == Delivered(contents, key, write)
    ensures Newer(write.clock, Read(Delivered(contents, key, write), key).clock)
       <==> write.clock == [] && Read(contents, key).clock == []
  {
    NewerThanItself(write.clock);
  }

  /** The two stores hold the same under the key, or both nothing. */
  ghost predicate SameAt(a: Contents, b: Contents, key: string) {
    (key in a <==> key in b) && (key in a ==> a[key] == b[key])
  }

  /** An offer looks at, and changes, its own key only. */
  lemma {:induction false} TryPutIsLocal(a: Contents, b: Contents, key: string, write: Versioned,
                                         network: RetryNetwork, n: nat)
    requires SameAt(a, b, key)
    ensures SameAt(TryPut(a, key, write, network, n).contents, TryPut(b, key, write, network, n).contents, key)
    ensures TryPut(a, key, write, network, n).ok == TryPut(b, key, write, network, n).ok
    ensures TryPut(a, key, write, network, n).ok ==>
      key in TryPut(a, key, write, network, n).contents && TryPut(a, key, write, network, n).contents[key] == write
  {
    if n > 0 {
      TryPutIsLocal(a, b, key, write, network, n - 1);
    }
  }

  lemma NextTry(contents: Contents, key: string, write: Versioned, network: RetryNetwork, n: nat) returns (next: Tried)
    requires !TryPut(contents, key, write, network, n).ok
    ensures next == TryPut(contents, key, write, network, n + 1)
         == Attempt(TryPut(contents, key, write, network, n).contents, key, write, network(n))
  {
    next := TryPut(contents, key, write, network, n + 1);
  }

  lemma TriesAreOver(contents: Contents, key: string, write: Versioned, network: RetryNetwork, n: nat, m: nat)
    requires n <= m && (TryPut(contents, key, write, network, n).ok || n == m)
    ensures TryPut(contents, key, write, network, m) == TryPut(contents, key, write, network, n)
  {
    if n < m {
      TryPutStops(contents, key, write, network, n, m);
    }
  }

  /** After a success there are no more attempts. */
  lemma {:induction false} TryPutStops(contents: Contents, key: string, write: Versioned, network: RetryNetwork,
                                       n: nat, m: nat)
    requires n <= m && TryPut(contents, key, write, network, n).ok
    ensures TryPut(contents, key, write, network, m) == TryPut(contents, key, write, network, n)
    decreases m - n
  {
    if n < m {
      TryPutStops(contents, key, write, network, n, m - 1);
    }
  }

  lemma {:induction false} TryPutElsewhere(contents: Contents, key: string, write: Versioned, network: RetryNetwork,
                                           n: nat, other: string)
    requires other != key
    ensures SameAt(TryPut(contents, key, write, network, n).contents, contents, other)
  {
    if n > 0 {
      TryPutElsewhere(contents, key, write, network, n - 1, other);
    }
  }

  /** Equal under every key is equal. */
  lemma SameEverywhere(a: Contents, b: Contents)
    requires forall k :: SameAt(a, b, k)
    ensures a == b
  {
    forall k ensures k in a <==> k in b {
      assert SameAt(a, b, k);
    }
    forall k | k in a ensures a[k] == b[k] {
      assert SameAt(a, b, k);
    }
  }

  // ----- the peers that a join or leave has served -----

  /** The list enumerates these peers, all of which have a store. */
  ghost predicate Lists(peers: seq<NodeId>, members: set<NodeId>, stores: Stores) {
    NoDuplicates(peers) && ToSet(peers) == members && members <= stores.Keys
  }

  lemma ListOneMore(peers: seq<NodeId>, all: set<NodeId>, rest: set<NodeId>, peer: NodeId, stores: Stores)
    requires Lists(peers, all - rest, stores) && peer in rest && rest <= all <= stores.Keys
    ensures Lists(peers + [peer], all - (rest - {peer}), stores) && peer !in peers
    ensures forall p :: p in peers + [peer] ==> p in stores
  {
    assert forall p :: p in peers ==> p in ToSet(peers);
    ToSetAppend(peers, peer);
    assert all - (rest - {peer}) == (all - rest) + {peer};
  }

  // ----- how many owners hold a write -----

  /** The owners whose stored version covers the write. */
  ghost function Holders(stores: Stores, owners: seq<NodeId>, key: string, write: Versioned): set<NodeId> {
    set n | n in owners && n in stores && Covers(Read(stores[n], key).clock, write.clock)
  }

  lemma SwapCount(before: set<NodeId>, after: set<NodeId>, leaves: NodeId, enters: NodeId)
    requires leaves in before && enters !in before && enters in after && before - {leaves} <= after
    ensures |before| <= |after|
  {
    assert |before - {leaves} + {enters}| == |before|;
    SubsetCount(before - {leaves} + {enters}, after);
  }
}
