/** A whole leave: the leaver's turn with every peer, in any order. */
module Leaving {
  import opened Words
  import opened Seqs
  import opened Clocks
  import opened Siblings
  import opened Storage
  import opened RingSpec
  import opened RingLaws
  import opened Quorum
  import opened Handoff

  /** The keys that the removal makes the peer newly responsible for. */
  ghost function HeirKeys(contents: Contents, before: Ring, after: Ring, hash: HashFunction, peer: NodeId): set<string>
  {
    set k | k in contents
      && peer !in Replicas(before, hash(k), REPLICA_N) && peer in Replicas(after, hash(k), REPLICA_N)
  }

  type LeaveNetwork = NodeId -> Delivery
  type PutNetwork = NodeId -> string -> nat -> Delivery

  ghost function Offer(contents: Contents, key: string, receiver: Contents, network: string -> nat -> Delivery): Tried
    requires key in contents
  {
    TryPut(receiver, key, contents[key], network(key), ATTEMPTS)
  }

  ghost function GivenUp(contents: Contents, keys: set<string>, receiver: Contents,
                         network: string -> nat -> Delivery): set<string>
  {
    set k | k in keys && k in contents && Offer(contents, k, receiver, network).ok
  }

  /** Each offered key is dealt with on its own. */
  ghost function Inherited(contents: Contents, keys: set<string>, receiver: Contents,
                           network: string -> nat -> Delivery): Contents
  {
    map k | k in receiver.Keys + keys
      && k in (if k in keys && k in contents then Offer(contents, k, receiver, network).contents else receiver)
      :: (if k in keys && k in contents then Offer(contents, k, receiver, network).contents else receiver)[k]
  }

  /** The leaver's turn with one peer: nothing if the leave request is not answered. */
  ghost function AfterLeavePeer(stores: Stores, self: NodeId, peer: NodeId, before: Ring, after: Ring,
                                hash: HashFunction, leaves: LeaveNetwork, puts: PutNetwork): Stores
    requires self in stores && peer in stores
  {
    if leaves(peer) != Arrived then stores
    else
      var keys := HeirKeys(stores[self], before, after, hash, peer);
      stores[peer := Inherited(stores[self], keys, stores[peer], puts(peer))]
            [self := stores[self] - GivenUp(stores[self], keys, stores[peer], puts(peer))]
  }

  ghost function AfterLeave(stores: Stores, self: NodeId, peers: seq<NodeId>, before: Ring, after: Ring,
                            hash: HashFunction, leaves: LeaveNetwork, puts: PutNetwork): (r: Stores)
    requires self in stores && forall p :: p in peers ==> p in stores
    ensures r.Keys == stores.Keys
  {
    if peers == [] then stores
    else
      var last := peers[|peers| - 1];
      AfterLeavePeer(AfterLeave(stores, self, peers[..|peers| - 1], before, after, hash, leaves, puts),
                     self, last, before, after, hash, leaves, puts)
  }

  lemma OneMorePeer(stores: Stores, self: NodeId, peers: seq<NodeId>, peer: NodeId, before: Ring, after: Ring,
                    hash: HashFunction, leaves: LeaveNetwork, puts: PutNetwork)
    requires self in stores && peer in stores && forall p :: p in peers ==> p in stores
    ensures forall p :: p in peers + [peer] ==> p in stores
    ensures AfterLeave(stores, self, peers + [peer], before, after, hash, leaves, puts)
         == AfterLeavePeer(AfterLeave(stores, self, peers, before, after, hash, leaves, puts), self, peer, before,
                           after, hash, leaves, puts)
  {
    assert (peers + [peer])[..|peers|] == peers;
  }

  /** Peers never compete for a key. */
  lemma HeirKeysAreDisjoint(contents: Contents, ring: Ring, slots: set<Word64>, x: NodeId, hash: HashFunction,
                            p: NodeId, q: NodeId)
    requires OwnsExactly(ring, slots, x) && p != q
    ensures HeirKeys(contents, ring, Release(ring, slots), hash, p)
         !! HeirKeys(contents, ring, Release(ring, slots), hash, q)
  {
    var rest := Release(ring, slots);
    forall k | k in HeirKeys(contents, ring, rest, hash, p) ensures k !in HeirKeys(contents, ring, rest, hash, q) {
      OneHeirExactly(ring, slots, x, hash(k), REPLICA_N, p);
      OneHeirExactly(ring, slots, x, hash(k), REPLICA_N, q);
    }
  }

  /** The peer was reached by the leave request and is the key's heir. */
  ghost predicate Inherits(stores: Stores, self: NodeId, peer: NodeId, before: Ring, after: Ring, hash: HashFunction,
                           leaves: LeaveNetwork, key: string)
    requires self in stores
  {
    leaves(peer) == Arrived && key in HeirKeys(stores[self], before, after, hash, peer)
  }

  lemma InheritedAt(contents: Contents, keys: set<string>, receiver: Contents, network: string -> nat -> Delivery,
                    k: string)
    ensures SameAt(Inherited(contents, keys, receiver, network),
                   if k in keys && k in contents then Offer(contents, k, receiver, network).contents else receiver, k)
  {
  }

  /** Offering one more key of a turn: it is dealt with on its own. */
  lemma InheritOneMore(contents: Contents, done: set<string>, key: string, receiver: Contents,
                       network: string -> nat -> Delivery)
    requires key in contents && key !in done
    ensures var tried := TryPut(Inherited(contents, done, receiver, network), key, contents[key], network(key),
                                ATTEMPTS);
      tried.contents == Inherited(contents, done + {key}, receiver, network)
      && tried.ok == Offer(contents, key, receiver, network).ok
  {
    var now := Inherited(contents, done, receiver, network);
    var next := TryPut(now, key, contents[key], network(key), ATTEMPTS).contents;
    InheritedAt(contents, done, receiver, network, key);
    TryPutIsLocal(now, receiver, key, contents[key], network(key), ATTEMPTS);
    forall k ensures SameAt(next, Inherited(contents, done + {key}, receiver, network), k) {
      InheritedAt(contents, done, receiver, network, k);
      InheritedAt(contents, done + {key}, receiver, network, k);
      if k != key {
        TryPutElsewhere(now, key, contents[key], network(key), ATTEMPTS, k);
      }
    }
    SameEverywhere(next, Inherited(contents, done + {key}, receiver, network));
  }

  lemma GiveUpOneMore(contents: Contents, done: set<string>, key: string, receiver: Contents,
                      network: string -> nat -> Delivery)
    requires key in contents && key !in done
    ensures GivenUp(contents, done + {key}, receiver, network)
         == if Offer(contents, key, receiver, network).ok
            then GivenUp(contents, done, receiver, network) + {key} else GivenUp(contents, done, receiver, network)
    ensures key !in GivenUp(contents, done, receiver, network)
  {
  }

  /** All stores in the middle of the leaver's turn with a peer. */
  ghost function MidTurn(stores: Stores, self: NodeId, peer: NodeId, keys: set<string>,
                         network: string -> nat -> Delivery): Stores
    requires self in stores && peer in stores
  {
    stores[peer := Inherited(stores[self], keys, stores[peer], network)]
          [self := stores[self] - GivenUp(stores[self], keys, stores[peer], network)]
  }

  lemma TurnStarts(stores: Stores, self: NodeId, peer: NodeId, network: string -> nat -> Delivery)
    requires self in stores && peer in stores && self != peer
    ensures MidTurn(stores, self, peer, {}, network) == stores
  {
    assert Inherited(stores[self], {}, stores[peer], network) == stores[peer];
    assert GivenUp(stores[self], {}, stores[peer], network) == {};
    assert stores[self] - {} == stores[self];
  }

  lemma TurnGoesOn(stores: Stores, self: NodeId, peer: NodeId, done: set<string>, key: string,
                   network: string -> nat -> Delivery)
    requires self in stores && peer in stores && self != peer && key in stores[self] && key !in done
    ensures var now := MidTurn(stores, self, peer, done, network);
      && key in now[self] && now[self][key] == stores[self][key]
      && AfterGive(now, self, peer, key, TryPut(now[peer], key, now[self][key], network(key), ATTEMPTS))
         == MidTurn(stores, self, peer, done + {key}, network)
  {
    var mine, theirs := stores[self], stores[peer];
    var now := MidTurn(stores, self, peer, done, network);
    InheritOneMore(mine, done, key, theirs, network);
    GiveUpOneMore(mine, done, key, theirs, network);
    var tried := TryPut(now[peer], key, mine[key], network(key), ATTEMPTS);
    var given := GivenUp(mine, done, theirs, network);
    GiveOneMore(stores, self, peer, Inherited(mine, done, theirs, network), given, key, tried);
  }

  /** Where a key stands, at the leaver and at every peer, after the leaver's turns with some of the peers. */
  ghost predicate LeaveState(stores: Stores, now: Stores, self: NodeId, done: seq<NodeId>, before: Ring, after: Ring,
                             hash: HashFunction, leaves: LeaveNetwork, puts: PutNetwork, key: string)
    requires self in stores && now.Keys == stores.Keys
  {
    && (key !in stores[self] ==> key !in now[self])
    && (key in stores[self] && key in now[self] ==> now[self][key] == stores[self][key])
    && (key in stores[self] ==>
          (key !in now[self] <==>
           exists p :: p in done && p in stores && Inherits(stores, self, p, before, after, hash, leaves, key)
                       && Offer(stores[self], key, stores[p], puts(p)).ok))
    && (forall p :: p in stores && p != self ==>
          if p in done && Inherits(stores, self, p, before, after, hash, leaves, key)
          then SameAt(now[p], Offer(stores[self], key, stores[p], puts(p)).contents, key)
          else SameAt(now[p], stores[p], key))
  }

  /** What one turn does to one key. */
  lemma TurnAtKey(now: Stores, self: NodeId, peer: NodeId, before: Ring, after: Ring, hash: HashFunction,
                  leaves: LeaveNetwork, puts: PutNetwork, key: string)
    requires self in now && peer in now && peer != self
    ensures var next := AfterLeavePeer(now, self, peer, before, after, hash, leaves, puts);
      && next.Keys == now.Keys
      && (forall p :: p in now && p != self && p != peer ==> next[p] == now[p])
      && (if Inherits(now, self, peer, before, after, hash, leaves, key) then
            var offer := Offer(now[self], key, now[peer], puts(peer));
            && SameAt(next[peer], offer.contents, key)
            && (if offer.ok then key !in next[self] else SameAt(next[self], now[self], key))
          else SameAt(next[peer], now[peer], key) && SameAt(next[self], now[self], key))
  {
    var next := AfterLeavePeer(now, self, peer, before, after, hash, leaves, puts);
    if leaves(peer) == Arrived {
      var keys := HeirKeys(now[self], before, after, hash, peer);
      var given := GivenUp(now[self], keys, now[peer], puts(peer));
      assert next[self] == now[self] - given;
      assert next[peer] == Inherited(now[self], keys, now[peer], puts(peer));
      assert key in keys <==> Inherits(now, self, peer, before, after, hash, leaves, key);
    }
  }

  /** One more turn with the key's heir: the key is still there, because no earlier peer was offered it. */
  lemma HeirsTurn(stores: Stores, now: Stores, self: NodeId, done: seq<NodeId>, peer: NodeId, ring: Ring,
                  slots: set<Word64>, hash: HashFunction, leaves: LeaveNetwork, puts: PutNetwork, key: string)
    requires OwnsExactly(ring, slots, self)
    requires self in stores && now.Keys == stores.Keys && peer in stores && peer != self && peer !in done
    requires LeaveState(stores, now, self, done, ring, Release(ring, slots), hash, leaves, puts, key)
    requires Inherits(stores, self, peer, ring, Release(ring, slots), hash, leaves, key)
    ensures SameAt(now[self], stores[self], key) && SameAt(now[peer], stores[peer], key)
    ensures Inherits(now, self, peer, ring, Release(ring, slots), hash, leaves, key)
    ensures var first := Offer(stores[self], key, stores[peer], puts(peer));
      var later := Offer(now[self], key, now[peer], puts(peer));
      first.ok == later.ok && SameAt(first.contents, later.contents, key)
    ensures forall p :: p in done ==> !Inherits(stores, self, p, ring, Release(ring, slots), hash, leaves, key)
  {
    forall p | p in done ensures !Inherits(stores, self, p, ring, Release(ring, slots), hash, leaves, key) {
      HeirKeysAreDisjoint(stores[self], ring, slots, self, hash, p, peer);
    }
    assert SameAt(now[self], stores[self], key);
    TryPutIsLocal(stores[peer], now[peer], key, stores[self][key], puts(peer)(key), ATTEMPTS);
  }

  lemma LeaveTurn(stores: Stores, now: Stores, self: NodeId, done: seq<NodeId>, peer: NodeId, ring: Ring,
                  slots: set<Word64>, hash: HashFunction, leaves: LeaveNetwork, puts: PutNetwork, key: string)
    requires OwnsExactly(ring, slots, self)
    requires self in stores && now.Keys == stores.Keys && peer in stores && peer != self && peer !in done
    requires LeaveState(stores, now, self, done, ring, Release(ring, slots), hash, leaves, puts, key)
    ensures AfterLeavePeer(now, self, peer, ring, Release(ring, slots), hash, leaves, puts).Keys == stores.Keys
    ensures LeaveState(stores, AfterLeavePeer(now, self, peer, ring, Release(ring, slots), hash, leaves, puts), self,
                       done + [peer], ring, Release(ring, slots), hash, leaves, puts, key)
  {
    var rest := Release(ring, slots);
    TurnAtKey(now, self, peer, ring, rest, hash, leaves, puts, key);
    assert forall p :: p in done + [peer] <==> p in done || p == peer;
    if Inherits(stores, self, peer, ring, rest, hash, leaves, key) {
      HeirsTurn(stores, now, self, done, peer, ring, slots, hash, leaves, puts, key);
    } else {
      assert !Inherits(now, self, peer, ring, rest, hash, leaves, key);
    }
  }

  /** The whole leave, for every key: the closed form of all the turns. */
  lemma {:induction false} LeaveAtKey(stores: Stores, self: NodeId, peers: seq<NodeId>, ring: Ring, slots: set<Word64>,
                                      hash: HashFunction, leaves: LeaveNetwork, puts: PutNetwork, key: string)
    requires OwnsExactly(ring, slots, self)
    requires self in stores && self !in peers && NoDuplicates(peers) && forall p :: p in peers ==> p in stores
    ensures LeaveState(stores, AfterLeave(stores, self, peers, ring, Release(ring, slots), hash, leaves, puts), self,
                       peers, ring, Release(ring, slots), hash, leaves, puts, key)
  {
    if peers != [] {
      var front, last := peers[..|peers| - 1], peers[|peers| - 1];
      assert peers == front + [last];
      LeaveAtKey(stores, self, front, ring, slots, hash, leaves, puts, key);
      LeaveTurn(stores, AfterLeave(stores, self, front, ring, Release(ring, slots), hash, leaves, puts), self, front,
                last,
                ring, slots, hash, leaves, puts, key);
    }
  }

  /** The heir of the key owns it on the new ring and has exactly the leaver's version. */
  ghost predicate HoldsAsHeir(before: Contents, after: Stores, self: NodeId, ring: Ring, rest: Ring, start: Word64,
                              k: string, heir: NodeId)
  {
    && k in before && heir in after
    && IsHeir(ring, self, start, REPLICA_N, heir) && heir in Replicas(rest, start, REPLICA_N)
    && k in after[heir] && after[heir][k] == before[k]
  }

  /** Where a key of the leaver is afterwards: still here, or with its heir, who owns it now. */
  ghost predicate ConservedByLeave(before: Contents, after: Stores, self: NodeId, ring: Ring, rest: Ring,
                                   start: Word64, k: string)
    requires self in after
  {
    && k in before
    && (|| (k in after[self] && after[self][k] == before[k])
        || (k !in after[self] && exists heir :: HoldsAsHeir(before, after, self, ring, rest, start, k, heir)))
  }

  /**
   Leave hand-off conserves data and has one heir per key, in whatever order the peers are
   served and whatever calls fail; a peer's entry for a key changes only if the peer is that
   key's heir.
   */
  lemma LeaveConserves(stores: Stores, self: NodeId, peers: seq<NodeId>, ring: Ring, slots: set<Word64>,
                       hash: HashFunction, leaves: LeaveNetwork, puts: PutNetwork, k: string)
    requires OwnsExactly(ring, slots, self)
    requires self in stores && self !in peers && NoDuplicates(peers) && forall p :: p in peers ==> p in stores
    ensures var rest := Release(ring, slots);
      var after := AfterLeave(stores, self, peers, ring, rest, hash, leaves, puts);
      && (k in stores[self] ==> ConservedByLeave(stores[self], after, self, ring, rest, hash(k), k))
      && (k !in stores[self] ==> k !in after[self])
      && (forall p ::
            (p in stores && p != self
             && !(p in peers && k in stores[self] && IsHeir(ring, self, hash(k), REPLICA_N, p)))
            ==> SameAt(after[p], stores[p], k))
  {
    var rest := Release(ring, slots);
    var after := AfterLeave(stores, self, peers, ring, rest, hash, leaves, puts);
    LeaveAtKey(stores, self, peers, ring, slots, hash, leaves, puts, k);
    forall p | p in stores ensures Inherits(stores, self, p, ring, rest, hash, leaves, k)
      ==> k in stores[self] && IsHeir(ring, self, hash(k), REPLICA_N, p) && p in Replicas(rest, hash(k), REPLICA_N)
    {
      OneHeirExactly(ring, slots, self, hash(k), REPLICA_N, p);
    }
    if k in stores[self] && k !in after[self] {
      var heir :| heir in peers && heir in stores && Inherits(stores, self, heir, ring, rest, hash, leaves, k)
                  && Offer(stores[self], k, stores[heir], puts(heir)).ok;
      TryPutIsLocal(stores[heir], stores[heir], k, stores[self][k], puts(heir)(k), ATTEMPTS);
      assert HoldsAsHeir(stores[self], after, self, ring, rest, hash(k), k, heir);
    }
  }

  /** A key leaves the leaver exactly if its heir is reached, rates it newer, and answers in time. */
  lemma KeyLeavesExactly(stores: Stores, self: NodeId, peers: seq<NodeId>, ring: Ring, slots: set<Word64>,
                         hash: HashFunction, leaves: LeaveNetwork, puts: PutNetwork, k: string)
    requires OwnsExactly(ring, slots, self)
    requires self in stores && self !in peers && NoDuplicates(peers) && forall p :: p in peers ==> p in stores
    requires k in stores[self]
    ensures k !in AfterLeave(stores, self, peers, ring, Release(ring, slots), hash, leaves, puts)[self] <==>
      exists p :: p in peers && TakesOver(stores, self, p, ring, hash, leaves, puts, k)
  {
    var rest := Release(ring, slots);
    LeaveAtKey(stores, self, peers, ring, slots, hash, leaves, puts, k);
    forall p | p in peers
      ensures TakesOver(stores, self, p, ring, hash, leaves, puts, k) <==>
        Inherits(stores, self, p, ring, rest, hash, leaves, k) && Offer(stores[self], k, stores[p], puts(p)).ok
    {
      OneHeirExactly(ring, slots, self, hash(k), REPLICA_N, p);
      RetryExactly(stores[p], k, stores[self][k], puts(p)(k), ATTEMPTS);
    }
  }

  ghost predicate TakesOver(stores: Stores, self: NodeId, p: NodeId, ring: Ring, hash: HashFunction,
                            leaves: LeaveNetwork, puts: PutNetwork, k: string)
    requires self in stores && p in stores && k in stores[self]
  {
    && IsHeir(ring, self, hash(k), REPLICA_N, p) && leaves(p) == Arrived
    && Newer(stores[self][k].clock, Read(stores[p], k).clock)
    && AnsweredInTime(stores[self][k], puts(p)(k), ATTEMPTS)
  }

  /** The first owners other than the leaver stay first owners, and the heir is none of them. */
  lemma OtherOwnersStay(ring: Ring, slots: set<Word64>, self: NodeId, start: Word64, y: NodeId)
    requires OwnsExactly(ring, slots, self) && y in Replicas(ring, start, REPLICA_N) && y != self
    ensures y in Replicas(Release(ring, slots), start, REPLICA_N) && !IsHeir(ring, self, start, REPLICA_N, y)
  {
    var rest, owners := Release(ring, slots), Owners(ring, start);
    if self in ring.Values {
      var i := RemoveCutsOnce(ring, slots, self, start);
      var cut := owners[..i] + owners[i + 1..];
      var j :| 0 <= j < |Replicas(ring, start, REPLICA_N)| && owners[j] == y;
      assert y == cut[if j < i then j else j - 1];
    } else {
      NothingToRelease(ring, slots, self);
    }
  }

  /**
   A key that the leave has taken off the leaver loses no copies among its owners: the number of
   first owners whose version covers a given write does not go down.
   */
  lemma LeaveKeepsHolders(stores: Stores, self: NodeId, peers: seq<NodeId>, ring: Ring, slots: set<Word64>,
                          hash: HashFunction, leaves: LeaveNetwork, puts: PutNetwork, k: string, write: Versioned)
    requires OwnsExactly(ring, slots, self)
    requires self in stores && self !in peers && NoDuplicates(peers) && forall p :: p in peers ==> p in stores
    requires k in stores[self]
    requires k !in AfterLeave(stores, self, peers, ring, Release(ring, slots), hash, leaves, puts)[self]
    ensures var rest := Release(ring, slots);
      |Holders(AfterLeave(stores, self, peers, ring, rest, hash, leaves, puts), Replicas(rest, hash(k), REPLICA_N), k,
               write)|
      >= |Holders(stores, Replicas(ring, hash(k), REPLICA_N), k, write)|
  {
    var rest := Release(ring, slots);
    var after := AfterLeave(stores, self, peers, ring, rest, hash, leaves, puts);
    var before := Holders(stores, Replicas(ring, hash(k), REPLICA_N), k, write);
    var now := Holders(after, Replicas(rest, hash(k), REPLICA_N), k, write);
    LeaveConserves(stores, self, peers, ring, slots, hash, leaves, puts, k);
    forall y | y in before && y != self ensures y in now {
      OtherOwnersStay(ring, slots, self, hash(k), y);
    }
    if self in before {
      var heir :| HoldsAsHeir(stores[self], after, self, ring, rest, hash(k), k, heir);
      OneHeirExactly(ring, slots, self, hash(k), REPLICA_N, heir);
      SwapCount(before, now, self, heir);
    } else {
      SubsetCount(before, now);
    }
  }
}
