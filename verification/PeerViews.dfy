/** What a node knows of the network, and what join and leave requests make of it at all peers. */
module PeerViews {
  import opened RingSpec
  import opened Heartbeats
  import opened Quorum

  /** A node's ring and node count, the peers it has stubs for, and its heartbeat map. */
  datatype View = View(ring: Ring, nodeCount: int, hash: HashFunction, virtualNodes: int,
                       peers: set<NodeId>, heartbeats: Beats)

  type Views = map<NodeId, View>

  function Entered(v: View, x: NodeId, now: int): View {
    v.(ring := Claim(v.ring, Slots(v.hash, x, v.virtualNodes), x), nodeCount := v.nodeCount + 1,
       peers := v.peers + {x}, heartbeats := v.heartbeats[x := now])
  }

  function Left(v: View, x: NodeId): View {
    v.(ring := Release(v.ring, Slots(v.hash, x, v.virtualNodes)), nodeCount := v.nodeCount - 1,
       peers := v.peers - {x}, heartbeats := v.heartbeats - {x})
  }

  datatype Request = Join(node: NodeId, now: int) | Leave(node: NodeId)

  function Told(v: View, request: Request): View {
    match request
    case Join(x, now) => Entered(v, x, now)
    case Leave(x) => Left(v, x)
  }

  /** A request is heard unless the call is lost; a lost answer changes nothing. */
  function Heard(v: View, request: Request, delivery: Delivery): View {
    if delivery == Lost then v else Told(v, request)
  }

  /** All views after these peers have been called. */
  function AfterCalls(views: Views, done: set<NodeId>, request: Request, calls: Network): Views {
    map n | n in views :: if n in done then Heard(views[n], request, calls(n)) else views[n]
  }

  lemma NoCalls(views: Views, request: Request, calls: Network)
    ensures AfterCalls(views, {}, request, calls) == views
  {
  }

  lemma OneMoreCall(views: Views, done: set<NodeId>, peer: NodeId, request: Request, calls: Network)
    requires peer in views && peer !in done
    ensures AfterCalls(views, done, request, calls)[peer] == views[peer]
    ensures AfterCalls(views, done + {peer}, request, calls)
         == AfterCalls(views, done, request, calls)[peer := Heard(views[peer], request, calls(peer))]
  {
  }

  /** All peers have this ring. */
  ghost predicate Agree(views: Views, ring: Ring, hash: HashFunction, virtualNodes: int) {
    forall n :: n in views ==> views[n].ring == ring && views[n].hash == hash && views[n].virtualNodes == virtualNodes
  }

  ghost predicate AgreeAfter(views: Views, request: Request, calls: Network, hash: HashFunction, virtualNodes: int) {
    exists ring :: Agree(AfterCalls(views, views.Keys, request, calls), ring, hash, virtualNodes)
  }

  /** What the request makes of the ring that the peers agree on. */
  function ToldRing(ring: Ring, hash: HashFunction, virtualNodes: int, request: Request): Ring {
    match request
    case Join(x, _) => Claim(ring, Slots(hash, x, virtualNodes), x)
    case Leave(x) => Release(ring, Slots(hash, x, virtualNodes))
  }

  lemma RingsAfter(views: Views, ring: Ring, hash: HashFunction, virtualNodes: int, request: Request, calls: Network)
    requires Agree(views, ring, hash, virtualNodes)
    ensures var after := AfterCalls(views, views.Keys, request, calls);
      && after.Keys == views.Keys
      && forall n :: n in views ==>
           && after[n].ring == (if calls(n) == Lost then ring else ToldRing(ring, hash, virtualNodes, request))
           && after[n].hash == hash && after[n].virtualNodes == virtualNodes
  {
  }

  /**
   Peers that agreed on the ring agree again exactly if the request reaches all of them or none,
   or changes no ring.
   */
  lemma PeersAgreeExactly(views: Views, ring: Ring, hash: HashFunction, virtualNodes: int, request: Request,
                          calls: Network)
    requires Agree(views, ring, hash, virtualNodes)
    ensures AgreeAfter(views, request, calls, hash, virtualNodes) <==>
      || (forall n :: n in views ==> calls(n) != Lost)
      || (forall n :: n in views ==> calls(n) == Lost)
      || ToldRing(ring, hash, virtualNodes, request) == ring
  {
    var after, told := AfterCalls(views, views.Keys, request, calls), ToldRing(ring, hash, virtualNodes, request);
    RingsAfter(views, ring, hash, virtualNodes, request, calls);
    if forall n :: n in views ==> calls(n) != Lost {
      assert Agree(after, told, hash, virtualNodes);
    } else if (forall n :: n in views ==> calls(n) == Lost) || told == ring {
      assert Agree(after, ring, hash, virtualNodes);
    } else {
      var p :| p in views && calls(p) == Lost;
      var q :| q in views && calls(q) != Lost;
      assert after[p].ring == ring && after[q].ring == told;
    }
  }
}
