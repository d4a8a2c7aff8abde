/** The server node: its handlers and the loops in which it calls its peers. */
module Node {
  import opened Words
  import opened Seqs
  import opened Clocks
  import opened Siblings
  import opened ClockUpdates
  import opened Storage
  import opened RingSpec
  import opened RingWalks
  import opened Persistence
  import opened Heartbeats
  import opened FailureDetector
  import opened Replication
  import opened Quorum
  import opened QuorumReads
  import opened Handoff
  import opened PeerViews
  import opened Joining
  import opened Leaving

  const STORAGE_SUFFIX := "_storage.txt"

  /** The node whose store is kept under this file name. */
  function OwnerOf(storageName: string): NodeId {
    if |storageName| < |STORAGE_SUFFIX| then storageName else storageName[..|storageName| - |STORAGE_SUFFIX|]
  }

  datatype PutReturn = OK | FAILED | NOT_COORDINATOR

  class GossipNode {
    const id: NodeId
    const ring: ConsistentHashingRing
    const store: StateMachine
    var stubs: map<NodeId, GossipNode>
    var heartbeats: Beats

    /** Ring and store carry the node's name, so those of different nodes are different objects. */
    ghost predicate Named() {
      ring.myself == id && OwnerOf(store.storageName) == id
    }

    /** Every stub leads to the other node of that name. */
    ghost predicate Wired()
      reads `stubs
    {
      Named() && id !in stubs && forall n :: n in stubs ==> stubs[n].id == n && stubs[n].Named()
    }

    ghost predicate Valid()
      reads `stubs, store, set n | n in stubs :: stubs[n].store
    {
      Wired() && store.InStep() && forall n :: n in stubs ==> stubs[n].store.InStep()
    }

    ghost function StoreOf(n: NodeId): Contents
      requires Valid() && (n == id || n in stubs)
      reads `stubs, store, set n | n in stubs :: stubs[n].store
    {
      if n == id then store.Contents() else stubs[n].store.Contents()
    }

    /** What this node and all its peers hold. */
    ghost function AllStores(): (s: Stores)
      requires Valid()
      reads `stubs, store, set n | n in stubs :: stubs[n].store
      ensures s.Keys == stubs.Keys + {id}
    {
      map n | n in stubs.Keys + {id} :: StoreOf(n)
    }

    /** What this node knows of the network. */
    ghost function View(): PeerViews.View
      reads this, ring
    {
      PeerViews.View(ring.ring, ring.nodeCount, ring.hash, ring.virtualNodes, stubs.Keys, heartbeats)
    }

    /** What all its peers know. */
    ghost function PeersKnow(): (views: Views)
      reads `stubs, set n | n in stubs :: stubs[n], set n | n in stubs :: stubs[n].ring
      ensures views.Keys == stubs.Keys
    {
      map n | n in stubs :: stubs[n].View()
    }

    constructor (id: NodeId, hash: HashFunction, virtualNodes: int, disk: string)
      ensures this.id == id && Valid() && fresh(ring) && fresh(store)
      ensures ring.hash == hash && ring.virtualNodes == virtualNodes && ring.ring == map[] && ring.nodeCount == 0
      ensures AllStores() == map[id := map[]] && stubs == map[] && heartbeats == map[]
    {
      this.id := id;
      ring := new ConsistentHashingRing(id, hash, virtualNodes);
      store := new StateMachine(id + STORAGE_SUFFIX, disk);
      stubs, heartbeats := map[], map[];
    }

    /** Heartbeats may have changed, but no store has. */
    twostate lemma NoStoreChanged()
      requires old(Valid()) && stubs == old(stubs)
      requires unchanged(store) && forall n :: n in stubs ==> unchanged(stubs[n].store)
      ensures Valid() && AllStores() == old(AllStores())
    {
      assert forall n :: n in stubs ==> stubs[n].store.Contents() == old(stubs[n].store.Contents());
    }

    /** No peer's view has changed. */
    twostate lemma NoViewChanged()
      requires stubs == old(stubs)
      requires forall n :: n in stubs ==> stubs[n].View() == old(stubs[n].View())
      ensures PeersKnow() == old(PeersKnow())
    {
    }

    lemma NodesApart()
      requires Wired()
      ensures forall n :: n in stubs ==> stubs[n] != this && stubs[n].ring != ring && stubs[n].store != store
    {
    }

    /** Nothing but one peer's view has changed. */
    twostate lemma OneViewChanged(peer: NodeId)
      requires Wired() && stubs == old(stubs) && peer in stubs
      requires forall n :: n in stubs && n != peer ==> stubs[n].View() == old(stubs[n].View())
      ensures PeersKnow() == old(PeersKnow())[peer := stubs[peer].View()]
    {
      ViewsUpdated(old(PeersKnow()), PeersKnow(), peer);
    }

    /** Nothing but one peer's store has changed. */
    twostate lemma OneStoreChanged(peer: NodeId)
      requires old(Valid()) && Valid() && stubs == old(stubs) && peer in stubs
      requires unchanged(store) && forall n :: n in stubs && n != peer ==> unchanged(stubs[n].store)
      ensures AllStores() == old(AllStores())[peer := stubs[peer].store.Contents()]
    {
      assert forall n :: n in stubs && n != peer ==> stubs[n].store.Contents() == old(stubs[n].store.Contents());
      StoresUpdated(old(AllStores()), AllStores(), peer);
    }

    /** Nothing but the own store has changed. */
    twostate lemma OwnStoreChanged()
      requires old(Valid()) && Valid() && stubs == old(stubs)
      requires forall n :: n in stubs ==> unchanged(stubs[n].store)
      ensures AllStores() == old(AllStores())[id := store.Contents()]
    {
      assert forall n :: n in stubs ==> stubs[n].store.Contents() == old(stubs[n].store.Contents());
      StoresUpdated(old(AllStores()), AllStores(), id);
    }

    /** Every other member of the ring that is taken for alive can be called. */
    ghost predicate HasLiveStubs(now: int)
      reads this, ring
    {
      forall n :: n in ring.ring.Values && n != id && Alive(now, Beat(heartbeats, n)) ==> n in stubs
    }

    lemma LiveServersHaveStubs(servers: seq<NodeId>, key: string, beats: Beats, now: int)
      requires servers <= Owners(ring.ring, ring.hash(key))
      requires forall n :: n in ring.ring.Values && n != id && Alive(now, Beat(beats, n)) ==> n in stubs
      ensures forall n :: n in LiveSet(servers, id, beats, now) && n != id ==> n in stubs
    {
      forall n | n in servers ensures n in ring.ring.Values {
        OwnersAreTheValues(ring.ring, ring.hash(key), n);
      }
    }

    // ----- peer writes and reads -----

    /** The handler of a peer write; its answer is inverted: false means applied. */
    method PeerPut(key: string, value: string, clock: Clock) returns (success: bool)
      requires store.InStep()
      modifies store
      ensures store.InStep()
      ensures store.Contents() == Delivered(old(store.Contents()), key, Versioned(value, clock))
      ensures !success || old(store.Flushed()) ==> store.Flushed()
      ensures success <==> !Newer(clock, Read(old(store.Contents()), key).clock)
    {
      success := true;
      var res := CheckConflictVersion(clock, store.GetVersion(key));
      if res == NEWER {
        store.Put(key, value, clock);
        success := false;
      }
    }

    /** The call of the peer's handler, as far as the delivery lets it get. */
    method ReachPeerPut(peer: NodeId, key: string, value: string, clock: Clock, delivery: Delivery) returns (res: int)
      requires peer in stubs && stubs[peer].store.InStep()
      modifies stubs[peer].store
      ensures stubs[peer].store.InStep()
      ensures var tried := Attempt(old(stubs[peer].store.Contents()), key, Versioned(value, clock), delivery);
        stubs[peer].store.Contents() == tried.contents && res == if tried.ok then 0 else 1
    {
      res := 1;
      if delivery != Lost {
        var success := stubs[peer].PeerPut(key, value, clock);
        if delivery == Arrived && !success { res := 0; }
      }
    }

    /** The caller's side of a peer write: 0 only for a call that is answered and was applied. */
    method CallPeerPut(peer: NodeId, key: string, value: string, clock: Clock, delivery: Delivery) returns (res: int)
      requires Valid() && peer in stubs
      modifies stubs[peer].store
      ensures Valid() && AllStores().Keys == old(AllStores()).Keys
      ensures var tried := Attempt(old(AllStores())[peer], key, Versioned(value, clock), delivery);
        AllStores() == old(AllStores())[peer := tried.contents] && res == if tried.ok then 0 else 1
    {
      NodesAreDisjoint(peer);
      StoreAt(peer);
      res := ReachPeerPut(peer, key, value, clock, delivery);
      OneStoreChanged(peer);
    }

    /** The caller's side of a peer read. */
    method CallPeerGet(peer: NodeId, key: string, delivery: Delivery) returns (res: int, answer: Versioned)
      requires Valid() && peer in stubs
      ensures res == if delivery == Arrived then 0 else 1
      ensures res == 0 ==> answer == Read(AllStores()[peer], key)
    {
      res, answer := 1, Versioned("", []);
      if delivery == Arrived {
        res, answer := 0, Versioned(stubs[peer].store.GetValue(key), stubs[peer].store.GetVersion(key));
      }
    }

    // ----- the quorum loops -----

    /** The coordinator's write to itself: no clock is checked. */
    method PutOwn(key: string, write: Versioned)
      requires Valid()
      modifies store
      ensures Valid() && store.Flushed()
      ensures AllStores() == old(AllStores())[id := old(AllStores())[id][key := write]]
    {
      store.Put(key, write.value, write.clock);
      OwnStoreChanged();
    }

    /** One server's turn in the put loop: is it tried, and does it acknowledge? */
    method PutTo(server: NodeId, key: string, write: Versioned, now: int, network: Network, ghost live: bool)
      returns (tried: bool, ok: bool)
      requires Valid() && live == (server == id || Alive(now, Beat(heartbeats, server)))
      requires live && server != id ==> server in stubs
      modifies `heartbeats, store, set n | n in stubs :: stubs[n].store
      ensures Valid()
      ensures OnlyTouched(old(heartbeats), heartbeats, {server})
      ensures tried == live
      ensures !tried ==> AllStores() == old(AllStores())
      ensures tried ==> server in old(AllStores()) && AllStores() ==
                          old(AllStores())[server := Written(old(AllStores())[server], server, id, key, write, network)]
      ensures tried ==> (ok <==> server in Writers(old(AllStores()), id, key, write, network))
    {
      tried, ok := true, true;
      if server == id {
        PutOwn(key, write);
      } else {
        tried := CheckAlive(server, now);
        if tried {
          AttemptIsWritten(AllStores(), server, id, key, write, network);
          var res := CallPeerPut(server, key, write.value, write.clock, network(server));
          ok := res == 0;
        }
      }
    }

    /** The turn of the i-th server in the put loop, seen from the stores at its beginning. */
    method PutTurn(servers: seq<NodeId>, i: nat, key: string, write: Versioned, now: int, network: Network,
                   ghost stores: Stores, ghost beats: Beats, ghost live: set<NodeId>, ghost visited: seq<NodeId>)
      returns (tried: bool, ok: bool)
      requires Valid() && i < |servers| && servers[i] !in visited && stores.Keys == stubs.Keys + {id}
      requires live == LiveSet(servers, id, beats, now)
      requires servers[i] in live && servers[i] != id ==> servers[i] in stubs
      requires OnlyTouched(beats, heartbeats, ToSet(servers))
      requires AllStores() == AfterPut(stores, ToSet(visited), id, key, write, network)
      modifies `heartbeats, store, set n | n in stubs :: stubs[n].store
      ensures Valid() && OnlyTouched(beats, heartbeats, ToSet(servers))
      ensures tried <==> servers[i] in live
      ensures tried ==> (ok <==> servers[i] in Writers(stores, id, key, write, network))
      ensures AllStores() ==
        AfterPut(stores, ToSet(if tried then visited + [servers[i]] else visited), id, key, write, network)
    {
      var server := servers[i];
      ghost var touched := heartbeats;
      TouchedTwice(beats, touched, touched, ToSet(servers), {});
      if server in live {
        AfterPutOneMore(stores, visited, server, id, key, write, network);
      }
      tried, ok := PutTo(server, key, write, now, network, server in live);
      TouchedTwice(beats, touched, heartbeats, ToSet(servers), {server});
    }

    /** The loop's body: the turn, its two counters, and the test that is made only after a success. */
    method PutCount(servers: seq<NodeId>, i: nat, key: string, write: Versioned, now: int, network: Network,
                    tries: int, successes: int,
                    ghost stores: Stores, ghost beats: Beats, ghost live: set<NodeId>, ghost oks: set<NodeId>)
      returns (tries': int, successes': int, stop: bool)
      requires Valid() && i < |servers| && NoDuplicates(servers) && stores.Keys == stubs.Keys + {id}
      requires live == LiveSet(servers, id, beats, now) && oks == Writers(stores, id, key, write, network)
      requires servers[i] in live && servers[i] != id ==> servers[i] in stubs
      requires OnlyTouched(beats, heartbeats, ToSet(servers))
      requires AllStores() == AfterPut(stores, ToSet(Visited(servers, i, live)), id, key, write, network)
      requires Counting(Visited(servers, i, live), oks, tries, successes)
      modifies `heartbeats, store, set n | n in stubs :: stubs[n].store
      ensures Valid() && OnlyTouched(beats, heartbeats, ToSet(servers))
      ensures AllStores() == AfterPut(stores, ToSet(Visited(servers, i + 1, live)), id, key, write, network)
      ensures !stop ==> Counting(Visited(servers, i + 1, live), oks, tries', successes')
      ensures stop ==> Stopped(servers, i + 1, live, oks, successes')
    {
      tries', successes', stop := tries, successes, false;
      ghost var next := QuorumTurn(servers, i, live, oks, tries, successes);
      var tried, ok := PutTurn(servers, i, key, write, now, network, stores, beats, live, Visited(servers, i, live));
      if tried {
        tries' := tries + 1;
        if ok {
          successes' := successes + 1;
          stop := tries' == REPLICA_N;
        }
      }
    }

    /** The coordinator's put loop. */
    method PutLoop(servers: seq<NodeId>, key: string, write: Versioned, now: int, network: Network)
      returns (successes: int)
      requires Valid() && NoDuplicates(servers)
      requires forall n :: n in LiveSet(servers, id, heartbeats, now) && n != id ==> n in stubs
      modifies `heartbeats, store, set n | n in stubs :: stubs[n].store
      ensures Valid() && OnlyTouched(old(heartbeats), heartbeats, ToSet(servers))
      ensures var eligible := Eligible(servers, id, old(heartbeats), now);
        var oks := Writers(old(AllStores()), id, key, write, network);
        && AllStores() == AfterPut(old(AllStores()), ToSet(Contacted(eligible, oks)), id, key, write, network)
        && successes == |Acked(eligible, oks)|
    {
      ghost var stores, beats := AllStores(), heartbeats;
      ghost var live := LiveSet(servers, id, beats, now);
      ghost var oks := Writers(stores, id, key, write, network);
      var tries, stop := 0, false;
      successes := 0;
      for i := 0 to |servers|
        invariant Valid() && OnlyTouched(beats, heartbeats, ToSet(servers))
        invariant Counting(Visited(servers, i, live), oks, tries, successes)
        invariant AllStores() == AfterPut(stores, ToSet(Visited(servers, i, live)), id, key, write, network)
      {
        tries, successes, stop :=
          PutCount(servers, i, key, write, now, network, tries, successes, stores, beats, live, oks);
        if stop { return; }
      }
      QuorumEnd(servers, live, oks, tries, successes);
    }

    /** The loop and its verdict, seen from the heartbeats before any of them was looked up. */
    method PutQuorum(servers: seq<NodeId>, key: string, write: Versioned, now: int, network: Network,
                     ghost beats: Beats)
      returns (ret: PutReturn)
      requires Valid() && NoDuplicates(servers) && OnlyTouched(beats, heartbeats, ToSet(servers))
      requires forall n :: n in LiveSet(servers, id, beats, now) && n != id ==> n in stubs
      modifies `heartbeats, store, set n | n in stubs :: stubs[n].store
      ensures Valid() && OnlyTouched(beats, heartbeats, ToSet(servers))
      ensures PutEffect(AllStores(), ret) == EffectOfPut(old(AllStores()), servers, id, beats, key, write, now, network)
    {
      ghost var touched := heartbeats;
      SameLive(servers, id, beats, touched, ToSet(servers), now);
      var successes := PutLoop(servers, key, write, now, network);
      TouchedTwice(beats, touched, heartbeats, ToSet(servers), ToSet(servers));
      ret := if successes >= W_COUNT then OK else FAILED;
    }

    /** The servers a request for the key is about: up to six of its first owners. */
    ghost function ServersOf(key: string): (servers: seq<NodeId>)
      reads ring
      ensures NoDuplicates(servers) && servers <= Owners(ring.ring, ring.hash(key))
      ensures IsInt32(ring.nodeCount) ==> HasListLength(|servers|, ring.nodeCount, 6, |ring.ring.Values|)
    {
      ListedExactly(ring.ring, ring.hash(key), ring.nodeCount, 2 * REPLICA_N);
      Listed(ring.ring, ring.hash(key), ring.nodeCount, 2 * REPLICA_N)
    }

    /** The client's put: only a replica coordinates it, and it bumps the clock it was sent. */
    method ClientPut(key: string, value: string, versions: Clock, now: int, network: Network)
      returns (ret: PutReturn, coordinator: NodeId)
      requires Valid() && HasLiveStubs(now)
      modifies `heartbeats, store, set n | n in stubs :: stubs[n].store
      ensures Valid()
      ensures OnlyTouched(old(heartbeats), heartbeats, old(ToSet(ServersOf(key))))
      ensures IsStep(LookUp(id, heartbeats.Keys - old(heartbeats.Keys)), id, now, old(heartbeats), heartbeats)
      ensures coordinator == FirstAlive(old(ServersOf(key)), old(heartbeats), now)
      ensures IsFirstAlive(coordinator, old(ServersOf(key)), old(heartbeats), now)
      ensures PutEffect(AllStores(), ret) ==
        if id in old(ServersOf(key))
        then EffectOfPut(old(AllStores()), old(ServersOf(key)), id, old(heartbeats), key,
                         Versioned(value, Bumped(versions, id)), now, network)
        else PutEffect(old(AllStores()), NOT_COORDINATOR)
      ensures id in old(ServersOf(key)) ==>
        var write := Versioned(value, Bumped(versions, id));
        var oks := Writers(old(AllStores()), id, key, write, network);
        var contacted := Contacted(Eligible(old(ServersOf(key)), id, old(heartbeats), now), oks);
        && ret == (if TwoAcknowledge(contacted, oks) then OK else FAILED)
        && WrittenExactly(old(AllStores()), AllStores(), contacted, id, key, write, network)
    {
      ghost var beats, stores := heartbeats, AllStores();
      var servers, candidate := FindServers(key, now);
      coordinator := candidate;
      var check := IsCoordinator(servers);
      if !check {
        ret := NOT_COORDINATOR;
      } else {
        var newVersion := UpdateVersion(versions, id);
        ghost var write := Versioned(value, Bumped(versions, id));
        ghost var effect := EffectOfPut(stores, servers, id, beats, key, write, now, network);
        EffectOfPutExactly(stores, servers, id, beats, key, write, now, network);
        NoStoreChanged();
        assert Versioned(value, newVersion) == write;
        ret := PutQuorum(servers, key, Versioned(value, newVersion), now, network, beats);
        assert PutEffect(AllStores(), ret) == effect;
      }
      LookUpsAreAStep(id, now, beats, heartbeats, ToSet(servers));
    }

    /** The key's servers and the first of them that is taken for alive. */
    method FindServers(key: string, now: int) returns (servers: seq<NodeId>, candidate: NodeId)
      requires Valid() && HasLiveStubs(now)
      modifies `heartbeats
      ensures Valid() && AllStores() == old(AllStores())
      ensures servers == old(ServersOf(key)) && NoDuplicates(servers)
      ensures candidate == FirstAlive(servers, old(heartbeats), now)
      ensures IsFirstAlive(candidate, servers, old(heartbeats), now)
      ensures OnlyTouched(old(heartbeats), heartbeats, ToSet(servers))
      ensures forall n :: n in LiveSet(servers, id, old(heartbeats), now) && n != id ==> n in stubs
    {
      LiveServersHaveStubs(ServersOf(key), key, heartbeats, now);
      servers := ring.GetReplicasNodes(key, 2 * REPLICA_N);
      candidate := AssignedCoordinator(servers, now);
      NoStoreChanged();
    }

    /** One server's turn in the get loop. */
    method GetFrom(server: NodeId, key: string, now: int, network: Network, ghost live: bool)
      returns (tried: bool, ok: bool, answer: Versioned)
      requires Valid() && live == (server == id || Alive(now, Beat(heartbeats, server)))
      requires live && server != id ==> server in stubs
      modifies `heartbeats
      ensures Valid() && AllStores() == old(AllStores())
      ensures OnlyTouched(old(heartbeats), heartbeats, {server})
      ensures tried == live
      ensures tried ==> server in AllStores() && (ok <==> server in Readers(AllStores(), id, network))
      ensures tried && ok ==> answer == Read(AllStores()[server], key)
    {
      tried, ok, answer := true, true, Versioned("", []);
      if server == id {
        answer := Versioned(store.GetValue(key), store.GetVersion(key));
      } else {
        tried := CheckAlive(server, now);
        NoStoreChanged();
        if tried {
          var res;
          res, answer := CallPeerGet(server, key, network(server));
          ok := res == 0;
        }
      }
    }

    /** The get loop's body. */
    method GetCount(servers: seq<NodeId>, i: nat, key: string, now: int, network: Network,
                    tries: int, successes: int, results: seq<Versioned>,
                    ghost stores: Stores, ghost beats: Beats, ghost live: set<NodeId>, ghost oks: set<NodeId>)
      returns (tries': int, successes': int, results': seq<Versioned>, stop: bool)
      requires Valid() && i < |servers| && NoDuplicates(servers) && AllStores() == stores
      requires live == LiveSet(servers, id, beats, now) && oks == Readers(stores, id, network)
      requires servers[i] in live && servers[i] != id ==> servers[i] in stubs
      requires OnlyTouched(beats, heartbeats, ToSet(servers))
      requires Counting(Visited(servers, i, live), oks, tries, successes)
      requires Collected(stores, Visited(servers, i, live), oks, key, results)
      modifies `heartbeats
      ensures Valid() && AllStores() == stores && OnlyTouched(beats, heartbeats, ToSet(servers))
      ensures !stop ==> Counting(Visited(servers, i + 1, live), oks, tries', successes')
      ensures Collected(stores, Visited(servers, i + 1, live), oks, key, results')
      ensures stop ==> (results', successes') == Gathered(stores, Keep(servers, live), oks, key)
    {
      ghost var touched := heartbeats;
      TouchedTwice(beats, touched, touched, ToSet(servers), {});
      var tried, ok, answer := GetFrom(servers[i], key, now, network, servers[i] in live);
      TouchedTwice(beats, touched, heartbeats, ToSet(servers), {servers[i]});
      label Asked:
      tries', successes', results', stop :=
        CountReply(servers, i, key, tried, ok, answer, tries, successes, results, stores, live, oks);
      NoStoreChanged@Asked();
    }

    /** The get loop: the answers of the first servers that reply. */
    method GetLoop(servers: seq<NodeId>, key: string, now: int, network: Network)
      returns (successes: int, results: seq<Versioned>)
      requires Valid() && NoDuplicates(servers)
      requires forall n :: n in LiveSet(servers, id, heartbeats, now) && n != id ==> n in stubs
      modifies `heartbeats
      ensures Valid() && AllStores() == old(AllStores())
      ensures OnlyTouched(old(heartbeats), heartbeats, ToSet(servers))
      ensures (results, successes)
           == Gathered(old(AllStores()), Eligible(servers, id, old(heartbeats), now),
                       Readers(old(AllStores()), id, network), key)
    {
      ghost var stores, beats := AllStores(), heartbeats;
      ghost var live := LiveSet(servers, id, beats, now);
      ghost var oks := Readers(stores, id, network);
      var tries, stop := 0, false;
      successes, results := 0, [];
      for i := 0 to |servers|
        invariant Valid() && AllStores() == stores && OnlyTouched(beats, heartbeats, ToSet(servers))
        invariant Counting(Visited(servers, i, live), oks, tries, successes)
        invariant Collected(stores, Visited(servers, i, live), oks, key, results)
      {
        tries, successes, results, stop :=
          GetCount(servers, i, key, now, network, tries, successes, results, stores, beats, live, oks);
        if stop { return; }
      }
      QuorumEnd(servers, live, oks, tries, successes);
      CollectedAll(stores, servers, |servers|, live, oks, key, successes, results);
    }

    /** The client's get: the pruned answers, in order; it succeeds with two of them. */
    method ClientGet(key: string, now: int, network: Network)
      returns (ok: bool, results: seq<Versioned>, coordinator: NodeId)
      requires Valid() && HasLiveStubs(now)
      modifies `heartbeats
      ensures Valid() && AllStores() == old(AllStores())
      ensures OnlyTouched(old(heartbeats), heartbeats, old(ToSet(ServersOf(key))))
      ensures IsStep(LookUp(id, heartbeats.Keys - old(heartbeats.Keys)), id, now, old(heartbeats), heartbeats)
      ensures coordinator == FirstAlive(old(ServersOf(key)), old(heartbeats), now)
      ensures IsFirstAlive(coordinator, old(ServersOf(key)), old(heartbeats), now)
      ensures GetEffect(results, ok) ==
        EffectOfGet(old(AllStores()), old(ServersOf(key)), id, old(heartbeats), key, now, network)
      ensures var oks := Readers(old(AllStores()), id, network);
        var contacted := Contacted(Eligible(old(ServersOf(key)), id, old(heartbeats), now), oks);
        && (ok <==> TwoAcknowledge(contacted, oks))
        && PrunedReplies(old(AllStores()), contacted, oks, key, results)
    {
      ghost var beats, stores := heartbeats, AllStores();
      LiveServersHaveStubs(ServersOf(key), key, beats, now);
      var servers := ring.GetReplicasNodes(key, 2 * REPLICA_N);
      NoStoreChanged();
      EffectOfGetExactly(stores, servers, id, beats, key, now, network);
      ok, results := GetQuorum(servers, key, now, network);
      coordinator := AssignAfterwards(servers, now, beats);
      LookUpsAreAStep(id, now, beats, heartbeats, ToSet(servers));
    }

    /** The coordinator is assigned behind the loop, which has changed no beat. */
    method AssignAfterwards(servers: seq<NodeId>, now: int, ghost beats: Beats) returns (candidate: NodeId)
      requires Valid() && OnlyTouched(beats, heartbeats, ToSet(servers))
      modifies `heartbeats
      ensures Valid() && AllStores() == old(AllStores())
      ensures candidate == FirstAlive(servers, beats, now) && IsFirstAlive(candidate, servers, beats, now)
      ensures OnlyTouched(beats, heartbeats, ToSet(servers))
    {
      ghost var touched := heartbeats;
      TouchedTwice(beats, touched, touched, ToSet(servers), {});
      SameFirstAlive(servers, beats, touched, now);
      FirstAliveIsFirst(servers, beats, now);
      candidate := AssignedCoordinator(servers, now);
      NoStoreChanged();
      TouchedTwice(beats, touched, heartbeats, ToSet(servers), ToSet(servers));
    }

    /** The loop, the pruning and the verdict. */
    method GetQuorum(servers: seq<NodeId>, key: string, now: int, network: Network)
      returns (ok: bool, results: seq<Versioned>)
      requires Valid() && NoDuplicates(servers)
      requires forall n :: n in LiveSet(servers, id, heartbeats, now) && n != id ==> n in stubs
      modifies `heartbeats
      ensures Valid() && AllStores() == old(AllStores())
      ensures OnlyTouched(old(heartbeats), heartbeats, ToSet(servers))
      ensures GetEffect(results, ok) == EffectOfGet(old(AllStores()), servers, id, old(heartbeats), key, now, network)
    {
      var successes, replies := GetLoop(servers, key, now, network);
      label Collected:
      results := GetLatestData(replies);
      NoStoreChanged@Collected();
      ok := successes >= R_COUNT;
    }

    // ----- join -----

    /** The keys for which the node is not among the first owners. */
    method GetJoinTransferKey(node: NodeId) returns (keys: seq<string>)
      requires store.InStep()
      ensures Enumerates(keys, NotOwned(store.Contents(), ring.ring, ring.hash, node))
      ensures forall k ::
        k in keys <==> k in store.Contents() && !AmongFirst(Owners(ring.ring, ring.hash(k)), node, 3)
    {
      var all := store.GetAllKeys();
      SizeOfSmall(REPLICA_N);
      keys := [];
      for i := 0 to |all|
        invariant NoDuplicates(keys)
        invariant forall k :: k in keys <==> k in all[..i] && node !in Replicas(ring.ring, ring.hash(k), REPLICA_N)
      {
        var belongs := ring.CheckDataBelonging(all[i], node, REPLICA_N);
        PrefixOneMore(all, i);
        if !belongs { keys := keys + [all[i]]; }
      }
      assert all[..|all|] == all;
      assert forall k :: k in all <==> k in ToSet(all);
    }

    /** Offers the peer what is stored under a key. */
    method OfferKey(peer: NodeId, key: string, delivery: Delivery) returns (res: int)
      requires Valid() && peer in stubs && key in AllStores()[id]
      modifies stubs[peer].store
      ensures Valid()
      ensures var tried := Attempt(old(AllStores())[peer], key, old(AllStores())[id][key], delivery);
        AllStores() == old(AllStores())[peer := tried.contents] && res == if tried.ok then 0 else 1
    {
      StoreAt(id);
      var value, clock := store.GetValue(key), store.GetVersion(key);
      assert Versioned(value, clock) == AllStores()[id][key];
      res := CallPeerPut(peer, key, value, clock, delivery);
    }

    /** Offers one key to a peer once, and drops it if the answer says it was applied. */
    method GiveKey(peer: NodeId, key: string, delivery: Delivery) returns (res: int)
      requires Valid() && peer in stubs && key in AllStores()[id]
      modifies store, stubs[peer].store
      ensures Valid()
      ensures var tried := Attempt(old(AllStores())[peer], key, old(AllStores())[id][key], delivery);
        AllStores() == AfterGive(old(AllStores()), id, peer, key, tried) && res == if tried.ok then 0 else 1
    {
      NodesAreDisjoint(peer);
      GivenExactly(AllStores(), id, peer, key, Attempt(AllStores()[peer], key, AllStores()[id][key], delivery));
      res := OfferKey(peer, key, delivery);
      if res == 0 {
        DropKey(key);
      }
    }

    method DropKey(key: string)
      requires Valid()
      modifies store
      ensures Valid() && store.Flushed()
      ensures AllStores() == old(AllStores())[id := old(AllStores())[id] - {key}]
    {
      store.Remove(key);
      OwnStoreChanged();
    }

    /** The join handler's transfer loop, over the keys in any order. */
    method TransferTo(joiner: NodeId, network: KeyNetwork) returns (success: bool)
      requires Valid() && joiner in stubs
      modifies store, stubs[joiner].store
      ensures Valid()
      ensures var before, moving := old(AllStores()), NotOwned(old(AllStores())[id], ring.ring, ring.hash, id);
        && AllStores() == AfterOffers(before, id, joiner, moving, network)
        && success == (Acknowledged(before[id], moving, before[joiner], network) == moving)
    {
      ghost var before := AllStores();
      var keys := GetJoinTransferKey(id);
      ghost var moving := ToSet(keys);
      assert forall k :: k in keys ==> k in moving && k in before[id];
      NoStoreChanged();
      success := TransferKeys(joiner, keys, network);
    }

    method TransferKeys(joiner: NodeId, keys: seq<string>, network: KeyNetwork) returns (success: bool)
      requires Valid() && joiner in stubs && NoDuplicates(keys) && forall k :: k in keys ==> k in AllStores()[id]
      modifies store, stubs[joiner].store
      ensures Valid() && AllStores() == AfterOffers(old(AllStores()), id, joiner, ToSet(keys), network)
      ensures success <==>
        Acknowledged(old(AllStores())[id], ToSet(keys), old(AllStores())[joiner], network) == ToSet(keys)
    {
      ghost var before, done := AllStores(), {};
      NoOffers(before, id, joiner, network);
      success := true;
      for i := 0 to |keys|
        invariant Valid() && done == ToSet(keys[..i])
        invariant AllStores() == AfterOffers(before, id, joiner, done, network)
        invariant success <==> Acknowledged(before[id], done, before[joiner], network) == done
      {
        var key := keys[i];
        PrefixOneMore(keys, i);
        OneMoreOffer(before, id, joiner, done, key, network);
        var res := GiveKey(joiner, key, network(key));
        if res > 0 { success := false; }
        done := done + {key};
      }
      assert keys[..|keys|] == keys;
    }

    /** The joiner gets a stub. */
    method AddStub(joiner: NodeId, channel: GossipNode)
      requires Valid() && joiner != id && channel.id == joiner && channel.Named() && channel.store.InStep()
      modifies `stubs
      ensures Valid() && stubs == old(stubs)[joiner := channel]
      ensures AllStores() == old(AllStores())[joiner := channel.store.Contents()]
    {
      stubs := stubs[joiner := channel];
      StubAdded(joiner);
    }

    /** No store has changed, but one more is known. */
    twostate lemma StubAdded(joiner: NodeId)
      requires old(Valid()) && Valid() && joiner != id && joiner in stubs
      requires stubs == old(stubs)[joiner := stubs[joiner]]
      requires unchanged(store) && forall n :: n in stubs && n != joiner ==> unchanged(stubs[n].store)
      ensures AllStores() == old(AllStores())[joiner := stubs[joiner].store.Contents()]
    {
      forall n | n in old(AllStores()) && n != joiner ensures AllStores()[n] == old(AllStores())[n] {
        StoreAt(n);
        if n != id {
          assert stubs[n].store.Contents() == old(stubs[n].store.Contents());
        }
      }
      StoresExtended(old(AllStores()), AllStores(), joiner);
    }

    /** The joiner enters heartbeats, ring and stubs. */
    method EnterJoiner(joiner: NodeId, channel: GossipNode, now: int)
      requires Valid() && joiner != id && channel.id == joiner && channel.Named() && channel.store.InStep()
      modifies `stubs, `heartbeats, ring
      ensures Valid() && stubs == old(stubs)[joiner := channel] && heartbeats == old(heartbeats)[joiner := now]
      ensures ring.ring == Claim(old(ring.ring), Slots(ring.hash, joiner, ring.virtualNodes), joiner)
      ensures ring.nodeCount == old(ring.nodeCount) + 1 && View() == Told(old(View()), Join(joiner, now))
      ensures AllStores() == old(AllStores())[joiner := channel.store.Contents()]
    {
      heartbeats := heartbeats[joiner := now];
      ring.AddNode(joiner);
      NoStoreChanged();
      AddStub(joiner, channel);
    }

    /** The handler of a join request: the joiner enters ring, heartbeats and stubs, then gets its keys. */
    method JoinNetwork(joiner: NodeId, channel: GossipNode, now: int, network: KeyNetwork) returns (success: bool)
      requires Valid() && joiner != id && channel.id == joiner && channel.Named() && channel.store.InStep()
      modifies `stubs, `heartbeats, ring, store, channel.store
      ensures Valid() && stubs == old(stubs)[joiner := channel] && heartbeats == old(heartbeats)[joiner := now]
      ensures IsStep(ReceiveJoin(id, joiner), id, now, old(heartbeats), heartbeats)
      ensures ring.ring == Claim(old(ring.ring), Slots(ring.hash, joiner, ring.virtualNodes), joiner)
      ensures ring.nodeCount == old(ring.nodeCount) + 1 && View() == Told(old(View()), Join(joiner, now))
      ensures var before := old(AllStores())[joiner := old(channel.store.Contents())];
        var moving := NotOwned(before[id], ring.ring, ring.hash, id);
        && AllStores() == AfterOffers(before, id, joiner, moving, network)
        && success == (Acknowledged(before[id], moving, before[joiner], network) == moving)
    {
      JoinsAreSteps(id, joiner, now, heartbeats);
      EnterJoiner(joiner, channel, now);
      success := TransferTo(joiner, network);
    }

    /** Nodes of different names share nothing. */
    lemma NodesAreDisjoint(peer: NodeId)
      requires Wired() && peer in stubs
      ensures stubs[peer] != this && stubs[peer].store != store && stubs[peer].ring != ring
      ensures forall n :: n in stubs && n != peer ==>
        && stubs[n] != stubs[peer] && stubs[n].ring != stubs[peer].ring
        && stubs[n].store != stubs[peer].store && stubs[n].store != store
    {
    }

    lemma StoreAt(n: NodeId)
      requires Valid() && (n == id || n in stubs)
      ensures AllStores()[n] == if n == id then store.Contents() else stubs[n].store.Contents()
    {
    }

    /** The remote handler at work on the stores it knows. */
    method RunJoin(peer: NodeId, now: int, network: KeyNetwork) returns (success: bool)
      requires Wired() && store.InStep() && peer in stubs && stubs[peer].Valid()
      modifies store, stubs[peer].store, stubs[peer], stubs[peer].ring
      ensures Wired() && stubs == old(stubs) && stubs[peer].Valid() && id in stubs[peer].stubs
      ensures stubs[peer].stubs[id] == this
      ensures var theirs := old(stubs[peer].AllStores())[id := old(store.Contents())];
        var moving := NotOwned(theirs[peer], old(stubs[peer].RingWith(id)), stubs[peer].ring.hash, peer);
        && stubs[peer].AllStores() == AfterOffers(theirs, peer, id, moving, network)
        && (success <==> Acknowledged(theirs[peer], moving, theirs[id], network) == moving)
      ensures stubs[peer].View() == Told(old(stubs[peer].View()), Join(id, now))
    {
      NodesAreDisjoint(peer);
      success := stubs[peer].JoinNetwork(id, this, now, network);
    }

    /** The peer can be called; these are all stores, and these the keys it will offer. */
    ghost predicate JoinReady(peer: NodeId, mine: Stores, moving: set<string>)
      requires Valid() && peer in stubs
      reads `stubs, store, set n | n in stubs :: stubs[n].store, stubs[peer], stubs[peer].ring,
            set m | m in stubs[peer].stubs :: stubs[peer].stubs[m].store
    {
      && stubs[peer].Valid() && stubs[peer].ring.hash == ring.hash && mine == AllStores()
      && moving == NotOwned(mine[peer], stubs[peer].RingWith(id), ring.hash, peer)
    }

    /** The remote handler, seen from the joiner: two stores change. */
    method CallJoin(peer: NodeId, now: int, network: KeyNetwork, ghost mine: Stores, ghost moving: set<string>)
      returns (success: bool)
      requires Valid() && peer in stubs && JoinReady(peer, mine, moving)
      modifies store, stubs[peer].store, stubs[peer], stubs[peer].ring
      ensures Wired() && stubs == old(stubs) && store.InStep() && stubs[peer].store.InStep()
      ensures var after := AfterOffers(mine, peer, id, moving, network);
        stubs[peer].store.Contents() == after[peer] && store.Contents() == after[id]
      ensures success <==> Acknowledged(mine[peer], moving, mine[id], network) == moving
      ensures stubs[peer].View() == Told(old(stubs[peer].View()), Join(id, now))
    {
      ghost var theirs := stubs[peer].AllStores()[id := store.Contents()];
      assert theirs[peer] == mine[peer] && theirs[id] == mine[id] by {
        stubs[peer].StoreAt(peer);
        StoreAt(peer);
        StoreAt(id);
      }
      OffersAreLocal(theirs, mine, peer, id, moving, network);
      success := RunJoin(peer, now, network);
      stubs[peer].StoreAt(peer);
      stubs[peer].StoreAt(id);
    }

    /** The call changes the two stores and no other. */
    method CallJoinApart(peer: NodeId, now: int, network: KeyNetwork, ghost mine: Stores, ghost moving: set<string>)
      returns (success: bool)
      requires Valid() && peer in stubs && JoinReady(peer, mine, moving)
      modifies store, stubs[peer].store, stubs[peer], stubs[peer].ring
      ensures Valid() && stubs == old(stubs)
      ensures AllStores() == mine[peer := stubs[peer].store.Contents()][id := store.Contents()]
      ensures var after := AfterOffers(mine, peer, id, moving, network);
        stubs[peer].store.Contents() == after[peer] && store.Contents() == after[id]
      ensures success <==> Acknowledged(mine[peer], moving, mine[id], network) == moving
      ensures stubs[peer].View() == Told(old(stubs[peer].View()), Join(id, now))
    {
      NodesAreDisjoint(peer);
      success := CallJoin(peer, now, network, mine, moving);
      TwoStoresChanged(peer);
    }

    method CallJoinStores(peer: NodeId, now: int, network: KeyNetwork, ghost mine: Stores, ghost moving: set<string>)
      returns (success: bool)
      requires Valid() && peer in stubs && JoinReady(peer, mine, moving)
      modifies store, stubs[peer].store, stubs[peer], stubs[peer].ring
      ensures Valid() && stubs == old(stubs) && AllStores() == AfterOffers(mine, peer, id, moving, network)
      ensures success <==> Acknowledged(mine[peer], moving, mine[id], network) == moving
      ensures stubs[peer].View() == Told(old(stubs[peer].View()), Join(id, now))
    {
      OffersAreLocal(mine, mine, peer, id, moving, network);
      success := CallJoinApart(peer, now, network, mine, moving);
    }

    /** The joiner's call to one peer. */
    method JoinPeer(peer: NodeId, now: int, joins: JoinNetwork, puts: JoinPuts) returns (answered: bool)
      requires Valid() && peer in stubs && stubs[peer].Valid() && stubs[peer].ring.hash == ring.hash
      modifies store, stubs[peer].store, stubs[peer], stubs[peer].ring
      ensures Valid() && stubs == old(stubs)
      ensures var grown := old(stubs[peer].RingWith(id));
        && AllStores() == AfterJoinPeer(old(AllStores()), id, peer, grown, ring.hash, joins, puts)
        && (answered <==> Answered(old(AllStores()), id, peer, grown, ring.hash, joins, puts))
      ensures stubs[peer].View() == Heard(old(stubs[peer].View()), Join(id, now), joins(peer))
    {
      answered := false;
      ghost var mine := AllStores();
      ghost var moving := NotOwned(mine[peer], stubs[peer].RingWith(id), ring.hash, peer);
      if joins(peer) != Lost {
        var success := CallJoinStores(peer, now, puts(peer), mine, moving);
        answered := joins(peer) == Arrived && success;
      }
    }

    /** Nothing but the own store and one peer's has changed. */
    twostate lemma TwoStoresChanged(peer: NodeId)
      requires old(Valid()) && Wired() && stubs == old(stubs) && peer in stubs && store.InStep()
      requires stubs[peer].store.InStep()
      requires forall n :: n in stubs && n != peer ==> unchanged(stubs[n].store)
      ensures Valid()
      ensures AllStores() == old(AllStores())[peer := stubs[peer].store.Contents()][id := store.Contents()]
    {
      forall n | n in stubs && n != peer
        ensures stubs[n].store.InStep() && stubs[n].store.Contents() == old(stubs[n].store.Contents())
      {
      }
      StoresUpdatedTwice(old(AllStores()), AllStores(), peer, id);
    }

    /** The peers' rings as they will be with this node on them. */
    ghost function PeerRings(): (rings: Rings)
      reads `stubs, set n | n in stubs :: stubs[n].ring
      ensures rings.Keys == stubs.Keys
    {
      map n | n in stubs :: stubs[n].RingWith(id)
    }

    /** The ring as it will be with one more node on it. */
    ghost function RingWith(node: NodeId): Ring
      reads ring
    {
      Claim(ring.ring, Slots(ring.hash, node, ring.virtualNodes), node)
    }

    /**
     The remaining peers are as they were at the beginning: valid, and with these rings once
     the joiner is on them.
     */
    ghost predicate Waiting(rest: set<NodeId>, rings: Rings)
      requires Wired()
      reads `stubs, set n | n in stubs :: stubs[n], set n | n in stubs :: stubs[n].ring,
            set n | n in stubs :: stubs[n].store,
            set n, m | n in stubs && m in stubs[n].stubs :: stubs[n].stubs[m].store
    {
      forall n :: n in rest && n in stubs ==>
        stubs[n].Valid() && stubs[n].ring.hash == ring.hash && n in rings && rings[n] == stubs[n].RingWith(id)
    }

    /** A call to one peer is none of the others' business. */
    method JoinServe(peer: NodeId, rest: set<NodeId>, now: int, joins: JoinNetwork, puts: JoinPuts, ghost rings: Rings)
      returns (answered: bool)
      requires Valid() && peer in rest && rest <= stubs.Keys && Waiting(rest, rings)
      modifies store, stubs[peer].store, stubs[peer], stubs[peer].ring
      ensures Valid() && stubs == old(stubs) && Waiting(rest - {peer}, rings)
      ensures AllStores() == AfterJoinPeer(old(AllStores()), id, peer, rings[peer], ring.hash, joins, puts)
      ensures answered <==> Answered(old(AllStores()), id, peer, rings[peer], ring.hash, joins, puts)
      ensures stubs[peer].View() == Heard(old(stubs[peer].View()), Join(id, now), joins(peer))
    {
      NodesAreDisjoint(peer);
      answered := JoinPeer(peer, now, joins, puts);
      forall n | n in rest && n != peer
        ensures stubs[n].Valid() && rings[n] == stubs[n].RingWith(id)
      {
        assert old(stubs[n].Valid());
        forall m | m in stubs[n].stubs
          ensures stubs[n].stubs[m].store.InStep()
        {
          var other := stubs[n].stubs[m].store;
          assert old(other.InStep());
        }
      }
    }
    /** The call, seen at all peers: the others' views stay as they are. */
    method JoinServeSeen(peer: NodeId, rest: set<NodeId>, now: int, joins: JoinNetwork, puts: JoinPuts,
                         ghost rings: Rings)
      returns (answered: bool)
      requires Valid() && peer in rest && rest <= stubs.Keys && Waiting(rest, rings)
      modifies store, stubs[peer].store, stubs[peer], stubs[peer].ring
      ensures Valid() && stubs == old(stubs) && Waiting(rest - {peer}, rings)
      ensures AllStores() == AfterJoinPeer(old(AllStores()), id, peer, rings[peer], ring.hash, joins, puts)
      ensures answered <==> Answered(old(AllStores()), id, peer, rings[peer], ring.hash, joins, puts)
      ensures PeersKnow() == old(PeersKnow())[peer := Heard(old(PeersKnow())[peer], Join(id, now), joins(peer))]
    {
      NodesAreDisjoint(peer);
      answered := JoinServe(peer, rest, now, joins, puts, rings);
      OneViewChanged(peer);
    }


    method JoinCall(peer: NodeId, rest: set<NodeId>, now: int, joins: JoinNetwork, puts: JoinPuts, ghost rings: Rings)
      returns (answered: bool)
      requires Valid() && peer in rest && rest <= stubs.Keys && Waiting(rest, rings)
      modifies store, PeerState()
      ensures Valid() && stubs == old(stubs) && Waiting(rest - {peer}, rings)
      ensures AllStores() == AfterJoinPeer(old(AllStores()), id, peer, rings[peer], ring.hash, joins, puts)
      ensures answered <==> Answered(old(AllStores()), id, peer, rings[peer], ring.hash, joins, puts)
      ensures PeersKnow() == old(PeersKnow())[peer := Heard(old(PeersKnow())[peer], Join(id, now), joins(peer))]
    {
      PeerIsPeerState(peer);
      answered := JoinServeSeen(peer, rest, now, joins, puts, rings);
    }

    /** One more peer is called. */
    method JoinNext(rest: set<NodeId>, now: int, joins: JoinNetwork, puts: JoinPuts, success: bool,
                    ghost start: JoinStart, ghost order: seq<NodeId>, ghost stores: Stores, ghost views: Views)
      returns (rest': set<NodeId>, success': bool,
               ghost order': seq<NodeId>, ghost stores': Stores, ghost views': Views)
      requires Valid() && rest != {} && rest <= stubs.Keys && Waiting(rest, start.rings)
      requires start.Of(id, ring.hash, stubs.Keys)
      requires AllStores() == stores && PeersKnow() == views
      requires JoinSoFar(start, now, joins, puts, rest, order, success, stores, views)
      modifies store, PeerState()
      ensures Valid() && stubs == old(stubs) && rest' <= stubs.Keys && Waiting(rest', start.rings)
      ensures AllStores() == stores' && PeersKnow() == views'
      ensures rest' < rest && JoinSoFar(start, now, joins, puts, rest', order', success', stores', views')
    {
      var peer :| peer in rest;
      rest', order' := rest - {peer}, order + [peer];
      JoinOneMore(start, now, joins, puts, rest, order, success, stores, views, peer);
      stores' := AfterJoinPeer(stores, id, peer, start.rings[peer], ring.hash, joins, puts);
      views' := views[peer := Heard(views[peer], Join(id, now), joins(peer))];
      var answered := JoinCall(peer, rest, now, joins, puts, start.rings);
      success' := success && answered;
    }

    /** The joiner's calls to all its peers, in some order. */
    method JoinAll(now: int, joins: JoinNetwork, puts: JoinPuts, ghost rings: Rings)
      returns (success: bool, ghost order: seq<NodeId>)
      requires Valid() && Waiting(stubs.Keys, rings)
      modifies store, PeerState()
      ensures Valid() && stubs == old(stubs) && Lists(order, stubs.Keys, old(AllStores()))
      ensures Joined(old(AllStores()), id, order, rings, ring.hash, joins, puts, AllStores(), success)
      ensures PeersKnow() == AfterCalls(old(PeersKnow()), stubs.Keys, Join(id, now), joins)
    {
      ghost var stores, views := AllStores(), PeersKnow();
      ghost var start := JoinStart(id, ring.hash, rings, stores, views);
      JoinBegins(start, now, joins, puts);
      var rest := stubs.Keys;
      success, order := true, [];
      while rest != {}
        invariant stubs == old(stubs) && Valid() && rest <= stubs.Keys && Waiting(rest, rings)
        invariant AllStores() == stores && PeersKnow() == views
        invariant JoinSoFar(start, now, joins, puts, rest, order, success, stores, views)
        decreases rest
      {
        rest, success, order, stores, views := JoinNext(rest, now, joins, puts, success, start, order, stores, views);
      }
      JoinEnds(start, now, joins, puts, order, success, stores, views);
    }

    lemma OutsidePeerState()
      requires Wired()
      ensures this !in PeerState() && ring !in PeerState() && store !in PeerState()
    {
    }

    /** The joiner: onto its own ring, its own stamp, then one call to every peer; success if all handlers report it. */
    method SendJoin(now: int, joins: JoinNetwork, puts: JoinPuts) returns (success: bool, ghost order: seq<NodeId>)
      requires Valid() && forall n :: n in stubs ==> stubs[n].Valid() && stubs[n].ring.hash == ring.hash
      modifies `heartbeats, ring, store, PeerState()
      ensures Valid() && stubs == old(stubs) && heartbeats == old(heartbeats)[id := now]
      ensures IsStep(FailureDetector.JoinSelf(id), id, now, old(heartbeats), heartbeats)
      ensures ring.ring == old(RingWith(id)) && ring.nodeCount == old(ring.nodeCount) + 1
      ensures Lists(order, stubs.Keys, old(AllStores()))
      ensures Joined(old(AllStores()), id, order, old(PeerRings()), ring.hash, joins, puts, AllStores(), success)
      ensures PeersKnow() == AfterCalls(old(PeersKnow()), stubs.Keys, Join(id, now), joins)
    {
      OutsidePeerState();
      JoinsAreSteps(id, id, now, heartbeats);
      ghost var rings := PeerRings();
      JoinSelf(now, rings);
      success, order := JoinAll(now, joins, puts, rings);
    }

    method JoinSelf(now: int, ghost rings: Rings)
      requires Valid() && rings == PeerRings()
      requires forall n :: n in stubs ==> stubs[n].Valid() && stubs[n].ring.hash == ring.hash
      modifies `heartbeats, ring
      ensures Valid() && AllStores() == old(AllStores()) && heartbeats == old(heartbeats)[id := now]
      ensures ring.ring == old(RingWith(id)) && ring.nodeCount == old(ring.nodeCount) + 1
      ensures Waiting(stubs.Keys, rings) && PeersKnow() == old(PeersKnow())
    {
      AddSelfSeen(rings);
      StampSelf(now, rings);
    }

    /** The peers do not notice. */
    method AddSelfSeen(ghost rings: Rings)
      requires Valid() && rings == PeerRings()
      requires forall n :: n in stubs ==> stubs[n].Valid() && stubs[n].ring.hash == ring.hash
      modifies ring
      ensures Valid() && AllStores() == old(AllStores())
      ensures ring.ring == old(RingWith(id)) && ring.nodeCount == old(ring.nodeCount) + 1
      ensures Waiting(stubs.Keys, rings) && PeersKnow() == old(PeersKnow())
    {
      NodesApart();
      AddSelf(rings);
      NoViewChanged();
    }

    method AddSelf(ghost rings: Rings)
      requires Valid() && rings == PeerRings()
      requires forall n :: n in stubs ==> stubs[n].Valid() && stubs[n].ring.hash == ring.hash
      modifies ring
      ensures Valid() && AllStores() == old(AllStores())
      ensures ring.ring == old(RingWith(id)) && ring.nodeCount == old(ring.nodeCount) + 1
      ensures Waiting(stubs.Keys, rings)
    {
      NodesApart();
      ring.AddNode(id);
      NoStoreChanged();
      forall n | n in stubs
        ensures stubs[n].Valid() && rings[n] == stubs[n].RingWith(id)
      {
        PeerUnmoved(n);
      }
    }

    /** A peer none of whose stores has changed is as valid as it was. */
    twostate lemma PeerUnmoved(n: NodeId)
      requires n in stubs && stubs == old(stubs) && stubs[n].stubs == old(stubs[n].stubs) && old(stubs[n].Valid())
      requires unchanged(stubs[n].ring) && unchanged(stubs[n].store)
      requires forall m :: m in stubs[n].stubs ==> unchanged(stubs[n].stubs[m].store)
      ensures stubs[n].Valid() && stubs[n].RingWith(id) == old(stubs[n].RingWith(id))
    {
      forall m | m in stubs[n].stubs
        ensures stubs[n].stubs[m].store.InStep()
      {
        assert old(stubs[n].stubs[m].store.InStep());
      }
    }

    method StampSelf(now: int, ghost rings: Rings)
      requires Valid() && Waiting(stubs.Keys, rings)
      modifies `heartbeats
      ensures Valid() && AllStores() == old(AllStores()) && heartbeats == old(heartbeats)[id := now]
      ensures Waiting(stubs.Keys, rings) && PeersKnow() == old(PeersKnow())
    {
      NodesApart();
      heartbeats := heartbeats[id := now];
      NoStoreChanged();
      NoViewChanged();
    }

    // ----- leave -----

    /** The handler of a leave request. */
    method LeaveNetwork(leaver: NodeId)
      modifies `stubs, `heartbeats, ring
      ensures stubs == old(stubs) - {leaver} && heartbeats == old(heartbeats) - {leaver}
      ensures forall now :: IsStep(ReceiveLeave(id, leaver), id, now, old(heartbeats), heartbeats)
      ensures ring.ring == Release(old(ring.ring), Slots(ring.hash, leaver, ring.virtualNodes))
      ensures ring.nodeCount == old(ring.nodeCount) - 1
    {
      ring.RemoveNode(leaver);
      stubs := stubs - {leaver};
      heartbeats := heartbeats - {leaver};
    }

    /** Does the node own the key on the new ring but not on the old one? */
    method BecomesOwner(oldRing: ConsistentHashingRing, node: NodeId, key: string) returns (becomes: bool)
      requires oldRing.hash == ring.hash
      ensures becomes <==> AmongFirst(Owners(ring.ring, ring.hash(key)), node, 3)
                            && !AmongFirst(Owners(oldRing.ring, ring.hash(key)), node, 3)
      ensures becomes <==> node in Replicas(ring.ring, ring.hash(key), REPLICA_N)
                            && node !in Replicas(oldRing.ring, ring.hash(key), REPLICA_N)
    {
      SizeOfSmall(REPLICA_N);
      var before := oldRing.CheckDataBelonging(key, node, REPLICA_N);
      var after := ring.CheckDataBelonging(key, node, REPLICA_N);
      becomes := !before && after;
    }

    /** The keys the node owns on the new ring but not on the old one. */
    method GetLeaveTransferKey(oldRing: ConsistentHashingRing, node: NodeId) returns (keys: seq<string>)
      requires store.InStep() && oldRing.hash == ring.hash
      ensures Enumerates(keys, HeirKeys(store.Contents(), oldRing.ring, ring.ring, ring.hash, node))
    {
      var all := store.GetAllKeys();
      ghost var heirs := HeirKeys(store.Contents(), oldRing.ring, ring.ring, ring.hash, node);
      keys := [];
      for i := 0 to |all|
        invariant NoDuplicates(keys)
        invariant forall k :: k in keys <==> k in all[..i] && k in heirs
      {
        var becomes := BecomesOwner(oldRing, node, all[i]);
        PrefixOneMore(all, i);
        assert all[i] in ToSet(all);
        if becomes { keys := keys + [all[i]]; }
      }
      assert all[..|all|] == all;
      assert forall k :: k in all <==> k in ToSet(all);
    }

    /** The retry loop: after the first attempt at most four more, until one is acknowledged. */
    method GiveKeyWithRetries(peer: NodeId, key: string, network: RetryNetwork)
      requires Valid() && peer in stubs && key in AllStores()[id]
      modifies store, stubs[peer].store
      ensures Valid()
      ensures AllStores() == AfterGive(old(AllStores()), id, peer, key,
                                       TryPut(old(AllStores())[peer], key, old(AllStores())[id][key],
                                              network, ATTEMPTS))
    {
      NodesAreDisjoint(peer);
      StoreAt(id);
      var write := Versioned(store.GetValue(key), store.GetVersion(key));
      assert write == AllStores()[id][key];
      GivenExactly(AllStores(), id, peer, key, TryPut(AllStores()[peer], key, write, network, ATTEMPTS));
      var res := PutWithRetries(peer, key, write, network, ATTEMPTS);
      if res == 0 {
        DropKey(key);
      }
    }

    /** One attempt among several, seen from the stores before the first. */
    method PutAgain(peer: NodeId, key: string, write: Versioned, delivery: Delivery, ghost before: Stores,
                    ghost sofar: Contents)
      returns (res: int)
      requires Valid() && peer in stubs && peer in before && AllStores() == before[peer := sofar]
      modifies stubs[peer].store
      ensures Valid()
      ensures var tried := Attempt(sofar, key, write, delivery);
        AllStores() == before[peer := tried.contents] && res == if tried.ok then 0 else 1
    {
      UpdatedTwice(before, peer, sofar, Attempt(sofar, key, write, delivery).contents);
      res := CallPeerPut(peer, key, write.value, write.clock, delivery);
    }

    /** The next attempt, seen from the stores before the first. */
    method PutOnceMore(peer: NodeId, key: string, write: Versioned, network: RetryNetwork, k: nat,
                       ghost before: Stores, ghost start: Contents)
      returns (res: int)
      requires Valid() && peer in stubs && peer in before && !TryPut(start, key, write, network, k).ok
      requires AllStores() == before[peer := TryPut(start, key, write, network, k).contents]
      modifies stubs[peer].store
      ensures Valid()
      ensures var tried := TryPut(start, key, write, network, k + 1);
        AllStores() == before[peer := tried.contents] && res == if tried.ok then 0 else 1
    {
      ghost var next := NextTry(start, key, write, network, k);
      res := PutAgain(peer, key, write, network(k), before, TryPut(start, key, write, network, k).contents);
    }

    method PutWithRetries(peer: NodeId, key: string, write: Versioned, network: RetryNetwork, attempts: nat)
      returns (res: int)
      requires Valid() && peer in stubs && 1 <= attempts
      modifies stubs[peer].store
      ensures Valid()
      ensures var tried := TryPut(old(AllStores())[peer], key, write, network, attempts);
        AllStores() == old(AllStores())[peer := tried.contents] && (res == 0 <==> tried.ok)
    {
      ghost var before, start := AllStores(), AllStores()[peer];
      var k := 0;
      SameUpdated(before, peer);
      res := PutOnceMore(peer, key, write, network, 0, before, start);
      ghost var tried := TryPut(start, key, write, network, 1);
      while res > 0 && k < attempts - 1
        invariant 0 <= k < attempts && Valid()
        invariant tried == TryPut(start, key, write, network, k + 1)
        invariant AllStores() == before[peer := tried.contents] && res == if tried.ok then 0 else 1
      {
        k := k + 1;
        res := PutOnceMore(peer, key, write, network, k, before, start);
        tried := TryPut(start, key, write, network, k + 1);
      }
      TriesAreOver(start, key, write, network, k + 1, attempts);
    }

    /** One peer's share of the leaver's keys, in any order. */
    method GiveKeys(peer: NodeId, keys: seq<string>, network: string -> nat -> Delivery)
      requires Valid() && peer in stubs && NoDuplicates(keys) && forall k :: k in keys ==> k in AllStores()[id]
      modifies store, stubs[peer].store
      ensures Valid() && AllStores() == MidTurn(old(AllStores()), id, peer, ToSet(keys), network)
    {
      ghost var before, done := AllStores(), {};
      TurnStarts(before, id, peer, network);
      for i := 0 to |keys|
        invariant Valid() && done == ToSet(keys[..i])
        invariant AllStores() == MidTurn(before, id, peer, done, network)
      {
        var key := keys[i];
        PrefixOneMore(keys, i);
        TurnGoesOn(before, id, peer, done, key, network);
        GiveKeyWithRetries(peer, key, network(key));
        done := done + {key};
      }
      assert keys[..|keys|] == keys;
    }

    /** The leave request: the peer drops the leaver if it is reached. */
    method TellLeave(peer: NodeId, leaves: LeaveNetwork, ghost oldRing: ConsistentHashingRing)
      requires Valid() && peer in stubs && oldRing.myself == id
      modifies stubs[peer], stubs[peer].ring
      ensures Valid() && stubs == old(stubs) && AllStores() == old(AllStores())
      ensures stubs[peer].View() == Heard(old(stubs[peer].View()), Leave(id), leaves(peer))
      ensures ring.ring == old(ring.ring) && oldRing.ring == old(oldRing.ring)
    {
      NodesAreDisjoint(peer);
      if leaves(peer) != Lost {
        stubs[peer].LeaveNetwork(id);
        NoStoreChanged();
      }
    }

    /** The leaver's turn with one peer: the leave request, and only if it is answered the peer's keys. */
    method LeavePeer(peer: NodeId, oldRing: ConsistentHashingRing, leaves: LeaveNetwork, puts: PutNetwork)
      requires Valid() && peer in stubs && oldRing.hash == ring.hash && oldRing.myself == id
      modifies store, stubs[peer].store, stubs[peer], stubs[peer].ring
      ensures Valid() && stubs == old(stubs)
      ensures AllStores() == AfterLeavePeer(old(AllStores()), id, peer, oldRing.ring, ring.ring, ring.hash,
                                            leaves, puts)
      ensures stubs[peer].View() == Heard(old(stubs[peer].View()), Leave(id), leaves(peer))
      ensures ring.ring == old(ring.ring) && oldRing.ring == old(oldRing.ring)
    {
      NodesAreDisjoint(peer);
      TellLeave(peer, leaves, oldRing);
      if leaves(peer) == Arrived {
        LeaveKeysTo(peer, oldRing, puts(peer));
      }
    }

    /** The transfer changes two stores and nothing else. */
    method LeaveKeysTo(peer: NodeId, oldRing: ConsistentHashingRing, network: string -> nat -> Delivery)
      requires Valid() && peer in stubs && oldRing.hash == ring.hash
      modifies store, stubs[peer].store
      ensures Valid() && stubs == old(stubs) && stubs[peer].View() == old(stubs[peer].View())
      ensures ring.ring == old(ring.ring) && oldRing.ring == old(oldRing.ring)
      ensures AllStores() == MidTurn(old(AllStores()), id, peer,
                                     HeirKeys(old(AllStores())[id], oldRing.ring, ring.ring, ring.hash, peer), network)
    {
      NodesAreDisjoint(peer);
      GiveHeirKeys(peer, oldRing, network);
    }

    method GiveHeirKeys(peer: NodeId, oldRing: ConsistentHashingRing, network: string -> nat -> Delivery)
      requires Valid() && peer in stubs && oldRing.hash == ring.hash
      modifies store, stubs[peer].store
      ensures Valid()
      ensures AllStores() == MidTurn(old(AllStores()), id, peer,
                                     old(HeirKeys(AllStores()[id], oldRing.ring, ring.ring, ring.hash, peer)), network)
    {
      ghost var before := AllStores();
      var keys := GetLeaveTransferKey(oldRing, peer);
      assert forall k :: k in keys ==> k in ToSet(keys) && k in before[id];
      NoStoreChanged();
      GiveKeys(peer, keys, network);
    }

    /** The objects a leave changes at the peers. */
    ghost function PeerState(): set<object>
      reads `stubs
    {
      (set n | n in stubs :: stubs[n]) + (set n | n in stubs :: stubs[n].ring) + (set n | n in stubs :: stubs[n].store)
    }

    lemma PeerIsPeerState(peer: NodeId)
      requires peer in stubs
      ensures stubs[peer] in PeerState() && stubs[peer].ring in PeerState() && stubs[peer].store in PeerState()
    {
    }

    /** The leaver: off its own ring, then one turn with every peer, in some order. */
    method SendLeave(leaves: LeaveNetwork, puts: PutNetwork) returns (ghost order: seq<NodeId>)
      requires Valid()
      modifies ring, store, PeerState()
      ensures Valid() && Lists(order, stubs.Keys, old(AllStores())) && forall p :: p in order ==> p in old(AllStores())
      ensures ring.ring == Release(old(ring.ring), Slots(ring.hash, id, ring.virtualNodes))
      ensures ring.nodeCount == old(ring.nodeCount) - 1
      ensures AllStores() == AfterLeave(old(AllStores()), id, order, old(ring.ring), ring.ring, ring.hash, leaves, puts)
      ensures stubs == old(stubs) && PeersKnow() == AfterCalls(old(PeersKnow()), stubs.Keys, Leave(id), leaves)
    {
      var oldRing := new ConsistentHashingRing.Copy(ring);
      NodesApart();
      ring.RemoveNode(id);
      NoStoreChanged();
      NoViewChanged();
      OutsidePeerState();
      order := LeaveAll(oldRing, leaves, puts);
    }

    /** The turns with all peers, in some order. */
    method LeaveAll(oldRing: ConsistentHashingRing, leaves: LeaveNetwork, puts: PutNetwork)
      returns (ghost order: seq<NodeId>)
      requires Valid() && oldRing.hash == ring.hash && oldRing.myself == id
      modifies store, PeerState()
      ensures Valid() && Lists(order, stubs.Keys, old(AllStores())) && forall p :: p in order ==> p in old(AllStores())
      ensures ring.ring == old(ring.ring) && oldRing.ring == old(oldRing.ring)
      ensures AllStores() == AfterLeave(old(AllStores()), id, order, oldRing.ring, ring.ring, ring.hash, leaves, puts)
      ensures stubs == old(stubs) && PeersKnow() == AfterCalls(old(PeersKnow()), stubs.Keys, Leave(id), leaves)
    {
      ghost var stores, views := AllStores(), PeersKnow();
      ghost var start := LeaveStart(id, ring.hash, oldRing.ring, ring.ring, stores, views);
      LeaveBegins(start, leaves, puts);
      var rest := stubs.Keys;
      order := [];
      while rest != {}
        invariant stubs == old(stubs) && oldRing.ring == old(oldRing.ring) && ring.ring == old(ring.ring)
        invariant Valid() && rest <= stubs.Keys && AllStores() == stores && PeersKnow() == views
        invariant LeaveSoFar(start, leaves, puts, rest, order, stores, views)
        decreases rest
      {
        rest, order, stores, views := LeaveNext(rest, oldRing, leaves, puts, start, order, stores, views);
      }
      LeaveEnds(start, leaves, puts, order, stores, views);
    }

    /** The turn, seen at all peers: the others' views stay as they are. */
    method LeaveServe(peer: NodeId, oldRing: ConsistentHashingRing, leaves: LeaveNetwork, puts: PutNetwork)
      requires Valid() && peer in stubs && oldRing.hash == ring.hash && oldRing.myself == id
      modifies store, stubs[peer].store, stubs[peer], stubs[peer].ring
      ensures Valid() && stubs == old(stubs)
      ensures AllStores() == AfterLeavePeer(old(AllStores()), id, peer, oldRing.ring, ring.ring, ring.hash,
                                            leaves, puts)
      ensures PeersKnow() == old(PeersKnow())[peer := Heard(old(PeersKnow())[peer], Leave(id), leaves(peer))]
      ensures ring.ring == old(ring.ring) && oldRing.ring == old(oldRing.ring)
    {
      NodesAreDisjoint(peer);
      LeavePeer(peer, oldRing, leaves, puts);
      OneViewChanged(peer);
    }

    method LeaveCall(peer: NodeId, oldRing: ConsistentHashingRing, leaves: LeaveNetwork, puts: PutNetwork)
      requires Valid() && peer in stubs && oldRing.hash == ring.hash && oldRing.myself == id
      modifies store, PeerState()
      ensures Valid() && stubs == old(stubs)
      ensures AllStores() == AfterLeavePeer(old(AllStores()), id, peer, oldRing.ring, ring.ring, ring.hash,
                                            leaves, puts)
      ensures PeersKnow() == old(PeersKnow())[peer := Heard(old(PeersKnow())[peer], Leave(id), leaves(peer))]
      ensures ring.ring == old(ring.ring) && oldRing.ring == old(oldRing.ring)
    {
      PeerIsPeerState(peer);
      LeaveServe(peer, oldRing, leaves, puts);
    }

    /** One more turn. */
    method LeaveNext(rest: set<NodeId>, oldRing: ConsistentHashingRing, leaves: LeaveNetwork, puts: PutNetwork,
                     ghost start: LeaveStart, ghost order: seq<NodeId>, ghost stores: Stores, ghost views: Views)
      returns (rest': set<NodeId>, ghost order': seq<NodeId>, ghost stores': Stores, ghost views': Views)
      requires Valid() && rest != {} && rest <= stubs.Keys && oldRing.hash == ring.hash && oldRing.myself == id
      requires start.Of(id, ring.hash, stubs.Keys) && start.before == oldRing.ring && start.after == ring.ring
      requires AllStores() == stores && PeersKnow() == views
      requires LeaveSoFar(start, leaves, puts, rest, order, stores, views)
      modifies store, PeerState()
      ensures Valid() && stubs == old(stubs) && rest' <= stubs.Keys
      ensures ring.ring == old(ring.ring) && oldRing.ring == old(oldRing.ring)
      ensures AllStores() == stores' && PeersKnow() == views'
      ensures rest' < rest && LeaveSoFar(start, leaves, puts, rest', order', stores', views')
    {
      var peer :| peer in rest;
      rest', order' := rest - {peer}, order + [peer];
      LeaveOneMore(start, leaves, puts, rest, order, stores, views, peer);
      stores' := AfterLeavePeer(stores, id, peer, oldRing.ring, ring.ring, ring.hash, leaves, puts);
      views' := views[peer := Heard(views[peer], Leave(id), leaves(peer))];
      LeaveCall(peer, oldRing, leaves, puts);
    }

    // ----- membership views -----

    method IsCoordinator(servers: seq<NodeId>) returns (listed: bool)
      ensures listed <==> id in servers
    {
      for i := 0 to |servers|
        invariant id !in servers[..i]
      {
        if servers[i] == id { return true; }
      }
      return false;
    }

    /** Looks a heartbeat up, creating the entry if there is none. */
    method CheckAlive(node: NodeId, now: int) returns (alive: bool)
      modifies `heartbeats
      ensures alive == Alive(now, Beat(old(heartbeats), node))
      ensures heartbeats == Touch(old(heartbeats), node) && OnlyTouched(old(heartbeats), heartbeats, {node})
      ensures node in heartbeats
      ensures IsStep(LookUp(id, {node}), id, now, old(heartbeats), heartbeats)
    {
      heartbeats := Touch(heartbeats, node);
      alive := Alive(now, heartbeats[node]);
      assert heartbeats == TouchAll(old(heartbeats), {node});
    }

    /** The first live server; those on the way to it are looked up, no others. */
    method AssignedCoordinator(servers: seq<NodeId>, now: int) returns (coordinator: NodeId)
      modifies `heartbeats
      ensures coordinator == FirstAlive(servers, old(heartbeats), now)
      ensures IsFirstAlive(coordinator, servers, old(heartbeats), now)
      ensures heartbeats == TouchAll(old(heartbeats), Asked(servers, old(heartbeats), now))
      ensures OnlyTouched(old(heartbeats), heartbeats, ToSet(servers))
      ensures IsStep(LookUp(id, Asked(servers, old(heartbeats), now)), id, now, old(heartbeats), heartbeats)
    {
      AskedAreListed(servers, heartbeats, now);
      FirstAliveIsFirst(servers, heartbeats, now);
      LookUpIsAStep(id, now, heartbeats, Asked(servers, heartbeats, now));
      coordinator := ScanForLive(servers, now);
    }

    /** The loop over the candidates. */
    method ScanForLive(servers: seq<NodeId>, now: int) returns (coordinator: NodeId)
      modifies `heartbeats
      ensures coordinator == FirstAlive(servers, old(heartbeats), now)
      ensures heartbeats == TouchAll(old(heartbeats), Asked(servers, old(heartbeats), now))
    {
      ghost var before, asked := heartbeats, {};
      for i := 0 to |servers|
        invariant FirstAlive(servers, before, now) == FirstAlive(servers[i..], before, now)
        invariant Asked(servers, before, now) == asked + Asked(servers[i..], before, now)
        invariant heartbeats == TouchAll(before, asked)
      {
        assert servers[i..][1..] == servers[i + 1..];
        TouchOneMore(before, asked, servers[i]);
        var alive := CheckAlive(servers[i], now);
        asked := asked + {servers[i]};
        if alive { return servers[i]; }
      }
      return "";
    }

    /** The handler of a gossip message. */
    method Gossip(message: seq<Beacon>)
      modifies `heartbeats
      ensures heartbeats == Merge(old(heartbeats), message)
      ensures forall now :: IsStep(ReceiveGossip(id, message), id, now, old(heartbeats), heartbeats)
    {
      for i := 0 to |message|
        invariant heartbeats == Merge(old(heartbeats), message[..i])
      {
        var tp1 := message[i].time;
        assert message[..i + 1][..i] == message[..i];
        var tp := if message[i].node in heartbeats then Later(tp1, heartbeats[message[i].node]) else tp1;
        heartbeats := heartbeats[message[i].node := tp];
      }
      assert message[..|message|] == message;
    }

    /**
     The sender's round: its own stamp, then its whole map goes to every peer it takes for
     alive. The message is on its way when the round ends; its arrival is the peer's handler.
     */
    method SendGossip(now: int) returns (message: seq<Beacon>, contacted: set<NodeId>)
      requires Wired()
      modifies `heartbeats
      ensures ToSet(message) == Entries(old(heartbeats)[id := now])
      ensures contacted == LivePeers(old(heartbeats), stubs.Keys, now)
      ensures forall n :: n in contacted <==> n in stubs && now - Beat(old(heartbeats), n) < 10_000_000_000
      ensures heartbeats == TouchAll(old(heartbeats)[id := now], stubs.Keys)
      ensures IsStep(GossipRound(id, message, stubs.Keys), id, now, old(heartbeats), heartbeats)
    {
      ghost var before := heartbeats;
      heartbeats := heartbeats[id := now];
      message := MessageOf(heartbeats);
      RoundIsAStep(id, now, before, message, stubs.Keys);
      assert forall n :: n in stubs ==> Beat(heartbeats, n) == Beat(before, n);
      contacted := LookUpPeers(now);
      forall n ensures Alive(now, Beat(before, n)) <==> now - Beat(before, n) < 10_000_000_000 {
        AliveExactly(now, Beat(before, n));
      }
    }

    method LookUpPeers(now: int) returns (live: set<NodeId>)
      modifies `heartbeats
      ensures live == LivePeers(old(heartbeats), stubs.Keys, now)
      ensures heartbeats == TouchAll(old(heartbeats), stubs.Keys)
    {
      ghost var before := heartbeats;
      live := {};
      var peers := stubs.Keys;
      while peers != {}
        invariant peers <= stubs.Keys
        invariant heartbeats == TouchAll(before, stubs.Keys - peers)
        invariant live == LivePeers(before, stubs.Keys - peers, now)
        decreases peers
      {
        var n :| n in peers;
        ghost var done := stubs.Keys - peers;
        TouchOneMore(before, done, n);
        LiveOneMore(before, done, n, now);
        var alive := CheckAlive(n, now);
        if alive { live := live + {n}; }
        peers := peers - {n};
        assert stubs.Keys - peers == done + {n};
      }
      assert stubs.Keys - peers == stubs.Keys;
    }
  }

  /** Where a join starts: the peers' rings with the joiner on them, and all stores and views. */
  datatype JoinStart = JoinStart(x: NodeId, hash: HashFunction, rings: Rings, stores: Stores, views: Views) {
    ghost predicate Of(id: NodeId, hash: HashFunction, peers: set<NodeId>) {
      x == id && this.hash == hash && id !in peers && stores.Keys == peers + {id} && views.Keys == peers <= rings.Keys
    }
  }

  /** Where it stands when these peers are left to call. */
  ghost predicate JoinSoFar(s: JoinStart, now: int, joins: JoinNetwork, puts: JoinPuts,
                            rest: set<NodeId>, order: seq<NodeId>, success: bool, stores: Stores, views: Views) {
    && rest <= s.views.Keys <= s.stores.Keys && Lists(order, s.views.Keys - rest, s.stores)
    && Joined(s.stores, s.x, order, s.rings, s.hash, joins, puts, stores, success)
    && views == AfterCalls(s.views, s.views.Keys - rest, Join(s.x, now), joins)
  }

  lemma JoinBegins(s: JoinStart, now: int, joins: JoinNetwork, puts: JoinPuts)
    requires s.x in s.stores && s.views.Keys <= s.stores.Keys
    ensures JoinSoFar(s, now, joins, puts, s.views.Keys, [], true, s.stores, s.views)
  {
    NoCalls(s.views, Join(s.x, now), joins);
    assert s.views.Keys - s.views.Keys == {};
  }

  lemma JoinOneMore(s: JoinStart, now: int, joins: JoinNetwork, puts: JoinPuts, rest: set<NodeId>, order: seq<NodeId>,
                    success: bool, stores: Stores, views: Views, peer: NodeId)
    requires JoinSoFar(s, now, joins, puts, rest, order, success, stores, views)
    requires peer in rest && peer in s.rings
    ensures s.x in stores && peer in stores && peer in views
    ensures JoinSoFar(s, now, joins, puts, rest - {peer}, order + [peer],
                      success && Answered(stores, s.x, peer, s.rings[peer], s.hash, joins, puts),
                      AfterJoinPeer(stores, s.x, peer, s.rings[peer], s.hash, joins, puts),
                      views[peer := Heard(views[peer], Join(s.x, now), joins(peer))])
  {
    var all := s.views.Keys;
    OneMoreCall(s.views, all - rest, peer, Join(s.x, now), joins);
    assert all - (rest - {peer}) == (all - rest) + {peer};
    ListOneMore(order, all, rest, peer, s.stores);
    OneMoreJoined(s.stores, s.x, order, peer, s.rings, s.hash, joins, puts, stores, success);
  }

  lemma JoinEnds(s: JoinStart, now: int, joins: JoinNetwork, puts: JoinPuts, order: seq<NodeId>,
                 success: bool, stores: Stores, views: Views)
    requires JoinSoFar(s, now, joins, puts, {}, order, success, stores, views)
    ensures Lists(order, s.views.Keys, s.stores)
    ensures Joined(s.stores, s.x, order, s.rings, s.hash, joins, puts, stores, success)
    ensures views == AfterCalls(s.views, s.views.Keys, Join(s.x, now), joins)
  {
    assert s.views.Keys - {} == s.views.Keys;
  }

  /** Where a leave starts: the leaver's ring before and after, and all stores and views. */
  datatype LeaveStart = LeaveStart(x: NodeId, hash: HashFunction, before: Ring, after: Ring, stores: Stores,
                                   views: Views) {
    ghost predicate Of(id: NodeId, hash: HashFunction, peers: set<NodeId>) {
      x == id && this.hash == hash && id !in peers && stores.Keys == peers + {id} && views.Keys == peers
    }
  }

  /** Where it stands when these peers are left to serve. */
  ghost predicate LeaveSoFar(s: LeaveStart, leaves: LeaveNetwork, puts: PutNetwork,
                             rest: set<NodeId>, order: seq<NodeId>, stores: Stores, views: Views) {
    && rest <= s.views.Keys <= s.stores.Keys && s.x in s.stores
    && Lists(order, s.views.Keys - rest, s.stores) && (forall p :: p in order ==> p in s.stores)
    && stores == AfterLeave(s.stores, s.x, order, s.before, s.after, s.hash, leaves, puts)
    && views == AfterCalls(s.views, s.views.Keys - rest, Leave(s.x), leaves)
  }

  lemma LeaveBegins(s: LeaveStart, leaves: LeaveNetwork, puts: PutNetwork)
    requires s.x in s.stores && s.views.Keys <= s.stores.Keys
    ensures LeaveSoFar(s, leaves, puts, s.views.Keys, [], s.stores, s.views)
  {
    NoCalls(s.views, Leave(s.x), leaves);
    assert s.views.Keys - s.views.Keys == {};
  }

  lemma LeaveOneMore(s: LeaveStart, leaves: LeaveNetwork, puts: PutNetwork, rest: set<NodeId>, order: seq<NodeId>,
                     stores: Stores, views: Views, peer: NodeId)
    requires LeaveSoFar(s, leaves, puts, rest, order, stores, views) && peer in rest
    ensures s.x in stores && peer in stores && peer in views
    ensures LeaveSoFar(s, leaves, puts, rest - {peer}, order + [peer],
                       AfterLeavePeer(stores, s.x, peer, s.before, s.after, s.hash, leaves, puts),
                       views[peer := Heard(views[peer], Leave(s.x), leaves(peer))])
  {
    var all := s.views.Keys;
    OneMoreCall(s.views, all - rest, peer, Leave(s.x), leaves);
    assert all - (rest - {peer}) == (all - rest) + {peer};
    ListOneMore(order, all, rest, peer, s.stores);
    OneMorePeer(s.stores, s.x, order, peer, s.before, s.after, s.hash, leaves, puts);
  }

  lemma LeaveEnds(s: LeaveStart, leaves: LeaveNetwork, puts: PutNetwork, order: seq<NodeId>, stores: Stores,
                  views: Views)
    requires LeaveSoFar(s, leaves, puts, {}, order, stores, views)
    ensures Lists(order, s.views.Keys, s.stores) && forall p :: p in order ==> p in s.stores
    ensures stores == AfterLeave(s.stores, s.x, order, s.before, s.after, s.hash, leaves, puts)
    ensures views == AfterCalls(s.views, s.views.Keys, Leave(s.x), leaves)
  {
    assert s.views.Keys - {} == s.views.Keys;
  }

  /** What all nodes hold after a put, and the coordinator's answer. */
  datatype PutEffect = PutEffect(stores: Stores, ret: PutReturn)

  /** A coordinated put: exactly the contacted servers are written, and two acknowledgements make it a success. */
  ghost function EffectOfPut(before: Stores, servers: seq<NodeId>, self: NodeId, beats: Beats,
                             key: string, write: Versioned, now: int, network: Network): PutEffect {
    var eligible := Eligible(servers, self, beats, now);
    var oks := Writers(before, self, key, write, network);
    PutEffect(AfterPut(before, ToSet(Contacted(eligible, oks)), self, key, write, network),
              if |Acked(eligible, oks)| >= W_COUNT then OK else FAILED)
  }

  /**
   What the nodes hold after a put: the coordinator, if contacted, the write; a contacted peer that
   is reached the write if it is newer; everybody else what it held.
   */
  ghost predicate WrittenExactly(before: Stores, after: Stores, contacted: seq<NodeId>, self: NodeId, key: string,
                                 write: Versioned, network: Network)
  {
    && after.Keys == before.Keys
    && forall n :: n in before ==>
         if n in contacted && (n == self || (network(n) != Lost && Newer(write.clock, Read(before[n], key).clock)))
         then after[n] == before[n][key := write]
         else after[n] == before[n]
  }

  /** The put, told without its counters: two different contacted servers decide. */
  lemma EffectOfPutExactly(before: Stores, servers: seq<NodeId>, self: NodeId, beats: Beats, key: string,
                           write: Versioned, now: int, network: Network)
    requires NoDuplicates(servers)
    ensures var put := EffectOfPut(before, servers, self, beats, key, write, now, network);
      var oks := Writers(before, self, key, write, network);
      var contacted := Contacted(Eligible(servers, self, beats, now), oks);
      && put.ret == (if TwoAcknowledge(contacted, oks) then OK else FAILED)
      && WrittenExactly(before, put.stores, contacted, self, key, write, network)
  {
    KeepNoDuplicates(servers, LiveSet(servers, self, beats, now));
    TwoAcksExactly(Eligible(servers, self, beats, now), Writers(before, self, key, write, network));
  }

  /** What one server's answer, or its silence, adds to the counters and the results of the get loop. */
  method CountReply(servers: seq<NodeId>, i: nat, key: string, tried: bool, ok: bool, answer: Versioned,
                    tries: int, successes: int, results: seq<Versioned>,
                    ghost stores: Stores, ghost live: set<NodeId>, ghost oks: set<NodeId>)
    returns (tries': int, successes': int, results': seq<Versioned>, stop: bool)
    requires i < |servers| && NoDuplicates(servers) && (tried <==> servers[i] in live)
    requires tried ==> servers[i] in stores && (ok <==> servers[i] in oks)
    requires tried && ok ==> answer == Read(stores[servers[i]], key)
    requires Counting(Visited(servers, i, live), oks, tries, successes)
    requires Collected(stores, Visited(servers, i, live), oks, key, results)
    ensures !stop ==> Counting(Visited(servers, i + 1, live), oks, tries', successes')
    ensures Collected(stores, Visited(servers, i + 1, live), oks, key, results')
    ensures stop ==> (results', successes') == Gathered(stores, Keep(servers, live), oks, key)
  {
    ReplyStep(servers, i, key, tries, successes, results, stores, live, oks);
    tries', successes', results', stop := tries, successes, results, false;
    if tried {
      tries' := tries + 1;
      if ok {
        successes' := successes + 1;
        results' := results + [answer];
        stop := tries' == REPLICA_N;
      }
    }
  }

  datatype GetEffect = GetEffect(results: seq<Versioned>, ok: bool)

  /** A get: the pruned replies of the contacted servers that answer. */
  ghost function EffectOfGet(stores: Stores, servers: seq<NodeId>, self: NodeId, beats: Beats,
                             key: string, now: int, network: Network): GetEffect {
    var eligible := Eligible(servers, self, beats, now);
    var oks := Readers(stores, self, network);
    GetEffect(Latest(Replies(stores, Acked(eligible, oks), key)), |Acked(eligible, oks)| >= R_COUNT)
  }

  /**
   What the results of a get are: replies of contacted servers that answer, each once, in the order
   of their arrival, and none rated older than another; every reply is among them or older than one.
   */
  ghost predicate PrunedReplies(stores: Stores, contacted: seq<NodeId>, oks: set<NodeId>, key: string,
                                results: seq<Versioned>)
    requires oks <= stores.Keys
  {
    && NoDuplicates(results)
    && InOrderOfFirstOccurrence(results, Replies(stores, Keep(contacted, oks), key))
    && (forall x, y :: x in results && y in results ==> !Older(x.clock, y.clock))
    && (forall x :: x in results ==> exists n :: n in contacted && n in oks && Read(stores[n], key) == x)
    && (forall n :: n in contacted && n in oks ==> Represented(Read(stores[n], key), results))
  }

  /** The reply is one of the results or older than one of them. */
  ghost predicate Represented(reply: Versioned, results: seq<Versioned>) {
    reply in results || exists y :: y in results && Older(reply.clock, y.clock)
  }

  lemma LatestIsPruned(stores: Stores, contacted: seq<NodeId>, oks: set<NodeId>, key: string)
    requires oks <= stores.Keys
    ensures PrunedReplies(stores, contacted, oks, key, Latest(Replies(stores, Keep(contacted, oks), key)))
  {
    var servers := Keep(contacted, oks);
    var replies := Replies(stores, servers, key);
    var results := Latest(replies);
    KeepNoDuplicates(Distinct(replies), Unbeaten(Distinct(replies)));
    LatestKeepsOrder(replies);
    forall x ensures x in results <==> x in replies && !Beaten(x, replies) {
      LatestMembers(replies, x);
    }
    forall x | x in results ensures exists n :: n in contacted && n in oks && Read(stores[n], key) == x {
      var i :| 0 <= i < |replies| && replies[i] == x;
      assert servers[i] in servers;
    }
    forall n | n in contacted && n in oks ensures Represented(Read(stores[n], key), results) {
      assert n in servers;
      var i :| 0 <= i < |servers| && servers[i] == n;
      assert replies[i] == Read(stores[n], key);
      DroppedIsOlderThanKept(replies, replies[i]);
    }
  }

  /** The get, told without its counters and passes. */
  lemma EffectOfGetExactly(stores: Stores, servers: seq<NodeId>, self: NodeId, beats: Beats, key: string, now: int,
                           network: Network)
    requires NoDuplicates(servers)
    ensures var get := EffectOfGet(stores, servers, self, beats, key, now, network);
      var oks := Readers(stores, self, network);
      var contacted := Contacted(Eligible(servers, self, beats, now), oks);
      && (get.ok <==> TwoAcknowledge(contacted, oks))
      && PrunedReplies(stores, contacted, oks, key, get.results)
  {
    var eligible, oks := Eligible(servers, self, beats, now), Readers(stores, self, network);
    KeepNoDuplicates(servers, LiveSet(servers, self, beats, now));
    TwoAcksExactly(eligible, oks);
    LatestIsPruned(stores, Contacted(eligible, oks), oks, key);
  }

  /**
   One failure does no harm: three live servers, a write newer than what they hold, and at most one
   of the three failing make a put and a get succeed, whoever coordinates.
   */
  lemma OneFailureIsTolerated(stores: Stores, servers: seq<NodeId>, self: NodeId, beats: Beats, key: string,
                              write: Versioned, now: int, network: Network, failing: NodeId)
    requires NoDuplicates(servers) && |Eligible(servers, self, beats, now)| >= 3
    requires forall n :: n in Eligible(servers, self, beats, now)[..3] && n != failing ==>
      n in stores && (n == self || (network(n) == Arrived && Newer(write.clock, Read(stores[n], key).clock)))
    ensures EffectOfPut(stores, servers, self, beats, key, write, now, network).ret == OK
    ensures EffectOfGet(stores, servers, self, beats, key, now, network).ok
  {
    var eligible := Eligible(servers, self, beats, now);
    KeepNoDuplicates(servers, LiveSet(servers, self, beats, now));
    OneMayFail(eligible, Writers(stores, self, key, write, network), failing);
    OneMayFail(eligible, Readers(stores, self, network), failing);
    EffectOfPutExactly(stores, servers, self, beats, key, write, now, network);
    EffectOfGetExactly(stores, servers, self, beats, key, now, network);
  }

  /**
   The quorum theorem, for what the two handlers do: an OK put, any run of peer writes, and an
   OK get at another coordinator with the same eligible servers.
   */
  lemma OkGetSeesOkPut(stores: Stores, servers: seq<NodeId>, writer: NodeId, reader: NodeId, putBeats: Beats,
                       getBeats: Beats, key: string, write: Versioned, putTime: int, getTime: int, putNetwork: Network,
                       between: seq<PeerWrite>, getNetwork: Network)
    requires NoDuplicates(servers)
    requires Eligible(servers, writer, putBeats, putTime) == Eligible(servers, reader, getBeats, getTime)
    requires forall n :: n in Eligible(servers, writer, putBeats, putTime) ==> n in stores
    requires var put := EffectOfPut(stores, servers, writer, putBeats, key, write, putTime, putNetwork);
      && put.ret == OK
      && EffectOfGet(AfterPeerWrites(put.stores, between), servers, reader, getBeats, key, getTime, getNetwork).ok
    requires var eligible := Eligible(servers, writer, putBeats, putTime);
      Misses(eligible, Writers(stores, writer, key, write, putNetwork))
      + Misses(eligible, Readers(stores, reader, getNetwork)) <= 2
    ensures var put := EffectOfPut(stores, servers, writer, putBeats, key, write, putTime, putNetwork);
      var get := EffectOfGet(AfterPeerWrites(put.stores, between), servers, reader, getBeats, key, getTime, getNetwork);
      var replies := LaterReplies(stores, Eligible(servers, writer, putBeats, putTime), writer, reader, key, write,
                                  putNetwork, between, getNetwork);
      && (exists y :: y in get.results && AccountsFor(y, write, replies))
      && (NoSmallerServerSet(replies) ==> exists y :: y in get.results && Covers(y.clock, write.clock))
  {
    var eligible := Eligible(servers, writer, putBeats, putTime);
    var writers := Writers(stores, writer, key, write, putNetwork);
    LaterKeys(stores, ToSet(Contacted(eligible, writers)), writer, key, write, putNetwork, between);
    KeepNoDuplicates(servers, LiveSet(servers, writer, putBeats, putTime));
    QuorumReadSeesQuorumWrite(stores, eligible, writer, reader, key, write, putNetwork, between, getNetwork,
                              Misses(eligible, writers), Misses(eligible, Readers(stores, reader, getNetwork)));
  }

  /** And under the condition on the key's clocks alone: the answer covers the write. */
  lemma OkGetCoversOkPut(stores: Stores, servers: seq<NodeId>, writer: NodeId, reader: NodeId, putBeats: Beats,
                         getBeats: Beats,
                         key: string, write: Versioned, putTime: int, getTime: int, putNetwork: Network,
                         between: seq<PeerWrite>, getNetwork: Network, family: set<set<string>>)
    requires NoDuplicates(servers)
    requires Eligible(servers, writer, putBeats, putTime) == Eligible(servers, reader, getBeats, getTime)
    requires forall n :: n in Eligible(servers, writer, putBeats, putTime) ==> n in stores
    requires var put := EffectOfPut(stores, servers, writer, putBeats, key, write, putTime, putNetwork);
      && put.ret == OK
      && EffectOfGet(AfterPeerWrites(put.stores, between), servers, reader, getBeats, key, getTime, getNetwork).ok
    requires var eligible := Eligible(servers, writer, putBeats, putTime);
      Misses(eligible, Writers(stores, writer, key, write, putNetwork))
      + Misses(eligible, Readers(stores, reader, getNetwork)) <= 2
    requires KeyOver(stores, Eligible(servers, writer, putBeats, putTime), key, write, between, family)
    requires Unnested(family)
    ensures var put := EffectOfPut(stores, servers, writer, putBeats, key, write, putTime, putNetwork);
      var get := EffectOfGet(AfterPeerWrites(put.stores, between), servers, reader, getBeats, key, getTime, getNetwork);
      exists y :: y in get.results && Covers(y.clock, write.clock)
  {
    var eligible := Eligible(servers, writer, putBeats, putTime);
    OkGetSeesOkPut(stores, servers, writer, reader, putBeats, getBeats, key, write, putTime, getTime, putNetwork,
                   between, getNetwork);
    LaterRepliesStayOver(stores, eligible, writer, reader, key, write, putNetwork, between, getNetwork, family);
    UnnestedRepliesSuffice(LaterReplies(stores, eligible, writer, reader, key, write, putNetwork, between, getNetwork),
                           family);
  }

  lemma {:induction false} SameFirstAlive(servers: seq<NodeId>, before: Beats, after: Beats, now: int)
    requires forall n :: Beat(after, n) == Beat(before, n)
    ensures FirstAlive(servers, after, now) == FirstAlive(servers, before, now)
  {
    if servers != [] {
      SameFirstAlive(servers[1..], before, after, now);
    }
  }

  lemma StoresExtended(before: Stores, after: Stores, n: NodeId)
    requires after.Keys == before.Keys + {n}
    requires forall m :: m in before && m != n ==> after[m] == before[m]
    ensures after == before[n := after[n]]
  {
  }

  lemma ViewsUpdated(before: Views, after: Views, peer: NodeId)
    requires before.Keys == after.Keys && peer in before
    requires forall n :: n in before && n != peer ==> after[n] == before[n]
    ensures after == before[peer := after[peer]]
  {
  }

  lemma StoresUpdatedTwice(before: Stores, after: Stores, p: NodeId, q: NodeId)
    requires before.Keys == after.Keys && p in before && q in before && p != q
    requires forall n :: n in before && n != p && n != q ==> after[n] == before[n]
    ensures after == before[p := after[p]][q := after[q]]
  {
  }

  lemma SameUpdated(stores: Stores, n: NodeId)
    requires n in stores
    ensures stores[n := stores[n]] == stores
  {
  }

  lemma UpdatedTwice(stores: Stores, n: NodeId, a: Contents, b: Contents)
    ensures stores[n := a][n := b] == stores[n := b]
  {
  }

  lemma StoresUpdated(before: Stores, after: Stores, peer: NodeId)
    requires before.Keys == after.Keys && peer in before
    requires forall n :: n in before && n != peer ==> after[n] == before[n]
    ensures after == before[peer := after[peer]]
  {
  }

  function LivePeers(beats: Beats, peers: set<NodeId>, now: int): set<NodeId> {
    set n | n in peers && Alive(now, Beat(beats, n))
  }

  lemma LiveOneMore(beats: Beats, peers: set<NodeId>, n: NodeId, now: int)
    ensures LivePeers(beats, peers + {n}, now)
         == LivePeers(beats, peers, now) + if Alive(now, Beat(beats, n)) then {n} else {}
  {
  }

  /** The map's entries, listed in some order. */
  method MessageOf(beats: Beats) returns (message: seq<Beacon>)
    ensures ToSet(message) == Entries(beats)
  {
    message := [];
    var rest := beats.Keys;
    while rest != {}
      invariant rest <= beats.Keys
      invariant ToSet(message) == set n | n in beats && n !in rest :: Beacon(n, beats[n])
      decreases rest
    {
      var n :| n in rest;
      ToSetAppend(message, Beacon(n, beats[n]));
      message := message + [Beacon(n, beats[n])];
      rest := rest - {n};
    }
  }
}
