/** A whole join: one handler call per peer, in any order. */
module Joining {
  import opened Words
  import opened Seqs
  import opened Clocks
  import opened ClockLaws
  import opened Siblings
  import opened Storage
  import opened RingSpec
  import opened RingLaws
  import opened Quorum
  import opened Handoff

  type JoinNetwork = NodeId -> Delivery
  type JoinPuts = NodeId -> KeyNetwork

  /** One peer's handler; only a request that is lost leaves it out. */
  ghost function AfterJoinPeer(stores: Stores, x: NodeId, peer: NodeId, grown: Ring, hash: HashFunction,
                               joins: JoinNetwork, puts: JoinPuts): Stores
    requires x in stores && peer in stores
  {
    if joins(peer) == Lost then stores
    else AfterOffers(stores, peer, x, NotOwned(stores[peer], grown, hash, peer), puts(peer))
  }

  /** A handler's effect on its own and the joiner's store depends on these two alone. */
  lemma OffersAreLocal(a: Stores, b: Stores, self: NodeId, x: NodeId, keys: set<string>, network: KeyNetwork)
    requires self in a && x in a && self in b && x in b && self != x && a[self] == b[self] && a[x] == b[x]
    ensures AfterOffers(b, self, x, keys, network)
         == b[self := AfterOffers(a, self, x, keys, network)[self]][x := AfterOffers(a, self, x, keys, network)[x]]
  {
  }

  /** The peers' rings, each with the joiner on it. */
  type Rings = map<NodeId, Ring>

  ghost function AfterJoin(stores: Stores, x: NodeId, peers: seq<NodeId>, rings: Rings, hash: HashFunction,
                           joins: JoinNetwork, puts: JoinPuts): (r: Stores)
    requires x in stores && forall p :: p in peers ==> p in stores && p in rings
    ensures r.Keys == stores.Keys
  {
    if peers == [] then stores
    else
      var last := peers[|peers| - 1];
      AfterJoinPeer(AfterJoin(stores, x, peers[..|peers| - 1], rings, hash, joins, puts), x, last, rings[last], hash,
                    joins, puts)
  }

  /** The handler runs, its answer arrives, and all its offers were acknowledged. */
  ghost predicate Answered(stores: Stores, x: NodeId, peer: NodeId, grown: Ring, hash: HashFunction,
                           joins: JoinNetwork, puts: JoinPuts)
    requires x in stores && peer in stores
  {
    var moving := NotOwned(stores[peer], grown, hash, peer);
    joins(peer) == Arrived && Acknowledged(stores[peer], moving, stores[x], puts(peer)) == moving
  }

  /** What the joiner reports: every handler answered and reported success. */
  ghost predicate AllAnswered(stores: Stores, x: NodeId, peers: seq<NodeId>, rings: Rings, hash: HashFunction,
                              joins: JoinNetwork, puts: JoinPuts)
    requires x in stores && forall p :: p in peers ==> p in stores && p in rings
  {
    if peers == [] then true
    else
      var front, last := peers[..|peers| - 1], peers[|peers| - 1];
      AllAnswered(stores, x, front, rings, hash, joins, puts)
      && Answered(AfterJoin(stores, x, front, rings, hash, joins, puts), x, last, rings[last], hash, joins, puts)
  }

  lemma OneMoreJoinPeer(stores: Stores, x: NodeId, peers: seq<NodeId>, peer: NodeId, rings: Rings, hash: HashFunction,
                        joins: JoinNetwork, puts: JoinPuts)
    requires x in stores && peer in stores && peer in rings
    requires (forall p :: p in peers ==> p in stores && p in rings)
    requires forall p :: p in peers + [peer] ==> p in stores && p in rings
    ensures AfterJoin(stores, x, peers + [peer], rings, hash, joins, puts)
         == AfterJoinPeer(AfterJoin(stores, x, peers, rings, hash, joins, puts), x, peer, rings[peer], hash, joins,
                          puts)
  {
    assert (peers + [peer])[..|peers|] == peers;
  }

  lemma OneMoreAnswer(stores: Stores, x: NodeId, peers: seq<NodeId>, peer: NodeId, rings: Rings, hash: HashFunction,
                      joins: JoinNetwork, puts: JoinPuts)
    requires x in stores && peer in stores && peer in rings
    requires (forall p :: p in peers ==> p in stores && p in rings)
    requires forall p :: p in peers + [peer] ==> p in stores && p in rings
    ensures AllAnswered(stores, x, peers + [peer], rings, hash, joins, puts)
      <==> && AllAnswered(stores, x, peers, rings, hash, joins, puts)
           && Answered(AfterJoin(stores, x, peers, rings, hash, joins, puts), x, peer, rings[peer], hash, joins, puts)
  {
    assert (peers + [peer])[..|peers|] == peers;
  }

  /** The stores and the report so far, after the handlers of these peers. */
  ghost predicate Joined(stores: Stores, x: NodeId, peers: seq<NodeId>, rings: Rings, hash: HashFunction,
                         joins: JoinNetwork, puts: JoinPuts, now: Stores, success: bool) {
    && x in stores && (forall p :: p in peers ==> p in stores && p in rings)
    && now == AfterJoin(stores, x, peers, rings, hash, joins, puts)
    && (success <==> AllAnswered(stores, x, peers, rings, hash, joins, puts))
  }

  lemma OneMoreJoined(stores: Stores, x: NodeId, peers: seq<NodeId>, peer: NodeId, rings: Rings, hash: HashFunction,
                      joins: JoinNetwork, puts: JoinPuts, now: Stores, success: bool)
    requires Joined(stores, x, peers, rings, hash, joins, puts, now, success) && peer in stores && peer in rings
    ensures Joined(stores, x, peers + [peer], rings, hash, joins, puts,
                   AfterJoinPeer(now, x, peer, rings[peer], hash, joins, puts),
                   success && Answered(now, x, peer, rings[peer], hash, joins, puts))
  {
    OneMoreJoinPeer(stores, x, peers, peer, rings, hash, joins, puts);
    OneMoreAnswer(stores, x, peers, peer, rings, hash, joins, puts);
  }

  lemma NothingLeft(all: set<string>, gone: set<string>)
    requires gone <= all
    ensures all - gone == {} <==> gone == all
  {
    if all - gone == {} {
      forall k | k in all ensures k in gone {
        assert k !in all - gone;
      }
    }
  }

  /** The peer was reached, its answer arrived, and it holds no key any more that it does not own. */
  ghost predicate HandedOver(after: Stores, peer: NodeId, grown: Ring, hash: HashFunction, joins: JoinNetwork)
    requires peer in after
  {
    joins(peer) == Arrived && NotOwned(after[peer], grown, hash, peer) == {}
  }

  /** A peer has handed over all that it does not own exactly if it acknowledges success. */
  lemma AnsweredExactly(now: Stores, x: NodeId, peer: NodeId, grown: Ring, hash: HashFunction, joins: JoinNetwork,
                        puts: JoinPuts)
    requires x in now && peer in now && peer != x
    ensures Answered(now, x, peer, grown, hash, joins, puts) <==>
            HandedOver(AfterJoinPeer(now, x, peer, grown, hash, joins, puts), peer, grown, hash, joins)
  {
    var moving := NotOwned(now[peer], grown, hash, peer);
    var acked := Acknowledged(now[peer], moving, now[x], puts(peer));
    NotOwnedWithout(now[peer], acked, grown, hash, peer);
    NothingLeft(moving, acked);
    assert joins(peer) == Arrived ==> AfterJoinPeer(now, x, peer, grown, hash, joins, puts)[peer] == now[peer] - acked;
  }

  /**
   The join reports success exactly if it reached every peer and none of them holds a key it
   does not own any more.
   */
  lemma {:induction false} JoinSucceedsExactly(stores: Stores, x: NodeId, peers: seq<NodeId>, rings: Rings,
                                               hash: HashFunction, joins: JoinNetwork, puts: JoinPuts)
    requires x in stores && x !in peers && NoDuplicates(peers) && forall p :: p in peers ==> p in stores && p in rings
    ensures var after := AfterJoin(stores, x, peers, rings, hash, joins, puts);
      AllAnswered(stores, x, peers, rings, hash, joins, puts) <==>
      forall p :: p in peers ==> HandedOver(after, p, rings[p], hash, joins)
  {
    if peers != [] {
      var front, last := peers[..|peers| - 1], peers[|peers| - 1];
      assert peers == front + [last];
      JoinSucceedsExactly(stores, x, front, rings, hash, joins, puts);
      var now := AfterJoin(stores, x, front, rings, hash, joins, puts);
      AnsweredExactly(now, x, last, rings[last], hash, joins, puts);
      var after := AfterJoinPeer(now, x, last, rings[last], hash, joins, puts);
      forall p | p in front
        ensures HandedOver(after, p, rings[p], hash, joins) <==> HandedOver(now, p, rings[p], hash, joins)
      {
        assert p != last && p != x && after[p] == now[p];
      }
      assert forall p :: p in peers <==> p in front || p == last;
    }
  }

  /** The peer is reached by the request, and the join takes the key from it. */
  ghost predicate Offers(stores: Stores, peer: NodeId, grown: Ring, hash: HashFunction, joins: JoinNetwork, k: string)
    requires peer in stores
  {
    joins(peer) != Lost && k in NotOwned(stores[peer], grown, hash, peer)
  }

  /** The peer's offer of the key is applied by the joiner. */
  ghost predicate Takes(stores: Stores, x: NodeId, peer: NodeId, grown: Ring, hash: HashFunction,
                        joins: JoinNetwork, puts: JoinPuts, k: string)
    requires peer in stores && x in stores
  {
    Offers(stores, peer, grown, hash, joins, k)
    && puts(peer)(k) != Lost && Newer(stores[peer][k].clock, Read(stores[x], k).clock)
  }

  /** What one peer's handler does to one key. */
  lemma JoinTurnAtKey(now: Stores, x: NodeId, peer: NodeId, grown: Ring, hash: HashFunction,
                      joins: JoinNetwork, puts: JoinPuts, k: string)
    requires x in now && peer in now && peer != x
    ensures var next := AfterJoinPeer(now, x, peer, grown, hash, joins, puts);
      && next.Keys == now.Keys
      && (forall p :: p in now && p != x && p != peer ==> next[p] == now[p])
      && (if Takes(now, x, peer, grown, hash, joins, puts, k)
          then
            && SameAt(next[x], now[peer], k)
            && (if puts(peer)(k) == Arrived then k !in next[peer] else SameAt(next[peer], now[peer], k))
          else SameAt(next[x], now[x], k) && SameAt(next[peer], now[peer], k))
  {
  }

  /** Where a key stands after the handlers of some of the peers. */
  ghost predicate JoinState(stores: Stores, now: Stores, x: NodeId, done: seq<NodeId>, grown: Ring, hash: HashFunction,
                            joins: JoinNetwork, puts: JoinPuts, k: string)
    requires x in stores && now.Keys == stores.Keys
  {
    && (forall p :: p in stores && p != x ==> PeerState(stores, now, x, p, p in done, grown, hash, joins, puts, k))
    && ((forall p :: p in stores && p in done ==> !Takes(stores, x, p, grown, hash, joins, puts, k))
          ==> SameAt(now[x], stores[x], k))
  }

  ghost predicate PeerState(stores: Stores, now: Stores, x: NodeId, p: NodeId, served: bool, grown: Ring,
                            hash: HashFunction, joins: JoinNetwork, puts: JoinPuts, k: string)
    requires x in stores && p in stores && now.Keys == stores.Keys
  {
    if served && Takes(stores, x, p, grown, hash, joins, puts, k) then
      SameAt(now[x], stores[p], k) && (if puts(p)(k) == Arrived then k !in now[p] else SameAt(now[p], stores[p], k))
    else SameAt(now[p], stores[p], k)
  }

  /** Of peers that own all their keys on the same ring at most one is asked to give up a key. */
  lemma OnlyOneOffers(stores: Stores, ring: Ring, slots: set<Word64>, x: NodeId, hash: HashFunction, joins: JoinNetwork,
                      p: NodeId, q: NodeId, k: string)
    requires x !in ring.Values && slots !! ring.Keys && slots != {}
    requires p in stores && q in stores
    requires NotOwned(stores[p], ring, hash, p) == {} == NotOwned(stores[q], ring, hash, q)
    requires Offers(stores, p, Claim(ring, slots, x), hash, joins, k)
    requires Offers(stores, q, Claim(ring, slots, x), hash, joins, k)
    ensures p == q
  {
    assert k !in NotOwned(stores[p], ring, hash, p) && k !in NotOwned(stores[q], ring, hash, q);
    OneHandlerGivesUpAKey(ring, slots, x, hash(k), p, q);
  }

  /** A new node with free slots; the peers have the same ring and own all that they hold. */
  ghost predicate Joinable(stores: Stores, x: NodeId, peers: seq<NodeId>, ring: Ring, slots: set<Word64>,
                           hash: HashFunction, rings: Rings) {
    && x !in ring.Values && slots !! ring.Keys && slots != {}
    && x in stores && x !in peers && NoDuplicates(peers)
    && forall p :: p in peers ==>
         && p in stores && NotOwned(stores[p], ring, hash, p) == {}
         && p in rings && rings[p] == Claim(ring, slots, x)
  }

  /** When a peer offers a key, no peer before it has. */
  lemma OfferersTurn(stores: Stores, now: Stores, x: NodeId, done: seq<NodeId>, peer: NodeId, ring: Ring,
                     slots: set<Word64>,
                     hash: HashFunction, rings: Rings, joins: JoinNetwork, puts: JoinPuts, k: string)
    requires Joinable(stores, x, done + [peer], ring, slots, hash, rings) && now.Keys == stores.Keys && peer in stores
    requires peer !in done
    requires JoinState(stores, now, x, done, Claim(ring, slots, x), hash, joins, puts, k)
    requires Offers(stores, peer, Claim(ring, slots, x), hash, joins, k)
    ensures SameAt(now[x], stores[x], k)
    ensures forall p :: p in done ==> p in stores && !Takes(stores, x, p, Claim(ring, slots, x), hash, joins, puts, k)
  {
    var grown := Claim(ring, slots, x);
    assert peer in done + [peer];
    forall p | p in done ensures p in stores && !Takes(stores, x, p, grown, hash, joins, puts, k) {
      assert p in done + [peer];
      if Takes(stores, x, p, grown, hash, joins, puts, k) {
        OnlyOneOffers(stores, ring, slots, x, hash, joins, p, peer, k);
      }
    }
  }

  /** One turn, seen from the stores before the first: what it does depends on those only. */
  lemma TurnFromStart(stores: Stores, now: Stores, x: NodeId, done: seq<NodeId>, peer: NodeId, ring: Ring,
                      slots: set<Word64>,
                      hash: HashFunction, rings: Rings, joins: JoinNetwork, puts: JoinPuts, k: string)
    requires Joinable(stores, x, done + [peer], ring, slots, hash, rings) && now.Keys == stores.Keys
    requires peer in stores && peer != x && peer !in done
    requires JoinState(stores, now, x, done, Claim(ring, slots, x), hash, joins, puts, k)
    ensures Takes(now, x, peer, Claim(ring, slots, x), hash, joins, puts, k)
       <==> Takes(stores, x, peer, Claim(ring, slots, x), hash, joins, puts, k)
    ensures SameAt(now[peer], stores[peer], k)
  {
    var grown := Claim(ring, slots, x);
    assert PeerState(stores, now, x, peer, false, grown, hash, joins, puts, k);
    if Offers(stores, peer, grown, hash, joins, k) {
      OfferersTurn(stores, now, x, done, peer, ring, slots, hash, rings, joins, puts, k);
    }
  }

  /** An earlier peer's part is left as it was. */
  lemma EarlierPeerKept(stores: Stores, now: Stores, x: NodeId, done: seq<NodeId>, peer: NodeId, ring: Ring,
                        slots: set<Word64>,
                        hash: HashFunction, rings: Rings, joins: JoinNetwork, puts: JoinPuts, k: string, p: NodeId)
    requires Joinable(stores, x, done + [peer], ring, slots, hash, rings) && now.Keys == stores.Keys
    requires peer in stores && peer != x && peer !in done && p in stores && p != x && p != peer
    requires JoinState(stores, now, x, done, Claim(ring, slots, x), hash, joins, puts, k)
    ensures var next := AfterJoinPeer(now, x, peer, Claim(ring, slots, x), hash, joins, puts);
      next.Keys == stores.Keys && PeerState(stores, next, x, p, p in done, Claim(ring, slots, x), hash, joins, puts, k)
  {
    var grown := Claim(ring, slots, x);
    JoinTurnAtKey(now, x, peer, grown, hash, joins, puts, k);
    TurnFromStart(stores, now, x, done, peer, ring, slots, hash, rings, joins, puts, k);
    assert PeerState(stores, now, x, p, p in done, grown, hash, joins, puts, k);
    if Takes(stores, x, peer, grown, hash, joins, puts, k) {
      OfferersTurn(stores, now, x, done, peer, ring, slots, hash, rings, joins, puts, k);
    }
  }

  lemma JoinTurn(stores: Stores, now: Stores, x: NodeId, done: seq<NodeId>, peer: NodeId, ring: Ring,
                 slots: set<Word64>, hash: HashFunction, rings: Rings, joins: JoinNetwork, puts: JoinPuts, k: string)
    requires Joinable(stores, x, done + [peer], ring, slots, hash, rings) && now.Keys == stores.Keys
    requires peer in stores && peer != x && peer !in done
    requires JoinState(stores, now, x, done, Claim(ring, slots, x), hash, joins, puts, k)
    ensures AfterJoinPeer(now, x, peer, Claim(ring, slots, x), hash, joins, puts).Keys == stores.Keys
    ensures JoinState(stores, AfterJoinPeer(now, x, peer, Claim(ring, slots, x), hash, joins, puts), x, done + [peer],
                      Claim(ring, slots, x), hash, joins, puts, k)
  {
    var grown := Claim(ring, slots, x);
    var next := AfterJoinPeer(now, x, peer, grown, hash, joins, puts);
    JoinTurnAtKey(now, x, peer, grown, hash, joins, puts, k);
    TurnFromStart(stores, now, x, done, peer, ring, slots, hash, rings, joins, puts, k);
    assert peer in done + [peer];
    assert PeerState(stores, next, x, peer, true, grown, hash, joins, puts, k);
    forall p | p in stores && p != x && p != peer
      ensures PeerState(stores, next, x, p, p in done + [peer], grown, hash, joins, puts, k)
    {
      EarlierPeerKept(stores, now, x, done, peer, ring, slots, hash, rings, joins, puts, k, p);
    }
    assert forall p :: p in done ==> p in done + [peer];
  }

  lemma {:induction false} JoinAtKey(stores: Stores, x: NodeId, peers: seq<NodeId>, ring: Ring, slots: set<Word64>,
                                     hash: HashFunction, rings: Rings, joins: JoinNetwork, puts: JoinPuts, k: string)
    requires Joinable(stores, x, peers, ring, slots, hash, rings)
    ensures JoinState(stores, AfterJoin(stores, x, peers, rings, hash, joins, puts), x, peers,
                      Claim(ring, slots, x), hash, joins, puts, k)
  {
    if peers != [] {
      var front, last := peers[..|peers| - 1], peers[|peers| - 1];
      assert peers == front + [last];
      JoinAtKey(stores, x, front, ring, slots, hash, rings, joins, puts, k);
      JoinTurn(stores, AfterJoin(stores, x, front, rings, hash, joins, puts), x, front, last, ring, slots, hash, rings,
               joins, puts, k);
    }
  }

  /**
   A whole join conserves data and ownership, in whatever order the peers' handlers run and
   whatever calls fail: a key of a peer is still there, or is held by the joiner, who owns it,
   with exactly that value and clock; and what the joiner held is covered.
   */
  lemma JoinRunConserves(stores: Stores, x: NodeId, peers: seq<NodeId>, ring: Ring, slots: set<Word64>,
                         hash: HashFunction, rings: Rings, joins: JoinNetwork, puts: JoinPuts, p: NodeId, k: string)
    requires Joinable(stores, x, peers, ring, slots, hash, rings) && p in stores && p != x
    ensures var after := AfterJoin(stores, x, peers, rings, hash, joins, puts);
      && (p in peers && k in stores[p] ==>
            ConservedByJoin(stores[p], after[p], after[x], k, x in Replicas(Claim(ring, slots, x), hash(k), REPLICA_N)))
      && (p !in peers || k !in stores[p] ==> SameAt(after[p], stores[p], k))
      && Covers(Read(after[x], k).clock, Read(stores[x], k).clock)
  {
    var grown := Claim(ring, slots, x);
    JoinAtKey(stores, x, peers, ring, slots, hash, rings, joins, puts, k);
    ClaimAgrees(ring, slots, x);
    if p in peers && Offers(stores, p, grown, hash, joins, k) {
      assert k !in NotOwned(stores[p], ring, hash, p);
      DisplacedOnlyByX(ring, grown, x, hash(k), REPLICA_N, p);
    }
  }

  /** Whatever the peers' rings: a key of a peer is still there, or the joiner holds a version that covers it. */
  lemma {:induction false} JoinRunLosesNothing(stores: Stores, x: NodeId, peers: seq<NodeId>, rings: Rings,
                                               hash: HashFunction,
                                               joins: JoinNetwork, puts: JoinPuts, p: NodeId, k: string)
    requires x in stores && x !in peers && NoDuplicates(peers) && forall p :: p in peers ==> p in stores && p in rings
    requires p in stores && p != x
    ensures var after := AfterJoin(stores, x, peers, rings, hash, joins, puts);
      && (k in stores[x] ==> k in after[x]) && Covers(Read(after[x], k).clock, Read(stores[x], k).clock)
      && (p !in peers || k !in stores[p] ==> SameAt(after[p], stores[p], k))
      && (k in stores[p] ==> || SameAt(after[p], stores[p], k)
                             || (k !in after[p] && k in after[x] && Covers(after[x][k].clock, stores[p][k].clock)))
  {
    if peers != [] {
      var front, last := peers[..|peers| - 1], peers[|peers| - 1];
      assert peers == front + [last];
      JoinRunLosesNothing(stores, x, front, rings, hash, joins, puts, p, k);
      var now := AfterJoin(stores, x, front, rings, hash, joins, puts);
      JoinTurnAtKey(now, x, last, rings[last], hash, joins, puts, k);
      if Takes(now, x, last, rings[last], hash, joins, puts, k) {
        CoversTransitive(now[last][k].clock, Read(now[x], k).clock, Read(stores[x], k).clock);
        if k in stores[p] && k !in now[p] {
          CoversTransitive(now[last][k].clock, Read(now[x], k).clock, stores[p][k].clock);
        }
      }
    }
  }

  lemma CoversTransitive(a: Clock, b: Clock, c: Clock)
    requires Covers(a, b) && Covers(b, c)
    ensures Covers(a, c)
  {
    if a != b && b != c {
      NewerTransitive(a, b, c);
    }
  }

  /** An owner that stays one keeps its version. */
  lemma StayingOwnerKeeps(stores: Stores, x: NodeId, peers: seq<NodeId>, ring: Ring, slots: set<Word64>,
                          hash: HashFunction, rings: Rings, joins: JoinNetwork, puts: JoinPuts, y: NodeId, k: string)
    requires Joinable(stores, x, peers, ring, slots, hash, rings) && y in peers
    requires y in Replicas(Claim(ring, slots, x), hash(k), REPLICA_N)
    ensures SameAt(AfterJoin(stores, x, peers, rings, hash, joins, puts)[y], stores[y], k)
  {
    JoinAtKey(stores, x, peers, ring, slots, hash, rings, joins, puts, k);
    assert !Offers(stores, y, Claim(ring, slots, x), hash, joins, k);
  }

  /** After a successful join, the joiner covers what a displaced owner covered. */
  lemma JoinerReplaces(stores: Stores, x: NodeId, peers: seq<NodeId>, ring: Ring, slots: set<Word64>,
                       hash: HashFunction,
                       rings: Rings, joins: JoinNetwork, puts: JoinPuts, y: NodeId, k: string, write: Versioned)
    requires Joinable(stores, x, peers, ring, slots, hash, rings) && y in peers
    requires AllAnswered(stores, x, peers, rings, hash, joins, puts)
    requires y !in Replicas(Claim(ring, slots, x), hash(k), REPLICA_N)
    requires Covers(Read(stores[y], k).clock, write.clock)
    ensures Covers(Read(AfterJoin(stores, x, peers, rings, hash, joins, puts)[x], k).clock, write.clock)
  {
    JoinSucceedsExactly(stores, x, peers, rings, hash, joins, puts);
    JoinRunConserves(stores, x, peers, ring, slots, hash, rings, joins, puts, y, k);
    var after := AfterJoin(stores, x, peers, rings, hash, joins, puts);
    assert HandedOver(after, y, rings[y], hash, joins);
    assert k !in NotOwned(after[y], rings[y], hash, y);
  }

  /**
   A successful join takes no write's copies away from the key's owners: the number of first
   owners whose version covers a given write does not go down.
   */
  lemma JoinKeepsHolders(stores: Stores, x: NodeId, peers: seq<NodeId>, ring: Ring, slots: set<Word64>,
                         hash: HashFunction,
                         rings: Rings, joins: JoinNetwork, puts: JoinPuts, k: string, write: Versioned)
    requires Joinable(stores, x, peers, ring, slots, hash, rings) && forall n :: n in ring.Values ==> n in peers
    requires AllAnswered(stores, x, peers, rings, hash, joins, puts)
    ensures var after := AfterJoin(stores, x, peers, rings, hash, joins, puts);
      |Holders(after, Replicas(Claim(ring, slots, x), hash(k), REPLICA_N), k, write)|
      >= |Holders(stores, Replicas(ring, hash(k), REPLICA_N), k, write)|
  {
    var after := AfterJoin(stores, x, peers, rings, hash, joins, puts);
    var owners, grown := Replicas(ring, hash(k), REPLICA_N), Replicas(Claim(ring, slots, x), hash(k), REPLICA_N);
    var before, now := Holders(stores, owners, k, write), Holders(after, grown, k, write);
    forall y | y in owners ensures y in peers && y != x {
      OwnersAreTheValues(ring, hash(k), y);
    }
    forall y | y in before && y in grown ensures y in now {
      StayingOwnerKeeps(stores, x, peers, ring, slots, hash, rings, joins, puts, y, k);
    }
    if y :| y in before && y !in grown {
      JoinerReplaces(stores, x, peers, ring, slots, hash, rings, joins, puts, y, k, write);
      DisplacedExactly(ring, slots, x, hash(k), REPLICA_N, y);
      forall z | z in before - {y} ensures z in grown {
        if z !in grown {
          DisplacedExactly(ring, slots, x, hash(k), REPLICA_N, z);
        }
      }
      SwapCount(before, now, y, x);
    } else {
      SubsetCount(before, now);
    }
  }
}
