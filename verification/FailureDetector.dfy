/** All runs of the heartbeat protocol as a state machine over its steps. */
module FailureDetector {
  import opened Seqs
  import opened RingSpec
  import opened Heartbeats

  /**
   The clock, every node's map, the messages ever sent (any of them may still arrive, any
   number of times), and for every node the time of its last stamp: set by its own gossip
   round or join, or by a receiver of its join request.
   */
  datatype World = World(now: int, views: map<NodeId, Beats>, sent: set<seq<Beacon>>, stamps: Beats)

  function ViewOf(w: World, node: NodeId): Beats {
    if node in w.views then w.views[node] else map[]
  }

  datatype Action =
    | Tick(nanos: nat)
    | GossipRound(node: NodeId, message: seq<Beacon>, contacted: set<NodeId>)
    | ReceiveGossip(node: NodeId, message: seq<Beacon>)
    | JoinSelf(node: NodeId)
    | ReceiveJoin(node: NodeId, joiner: NodeId)
    | ReceiveLeave(node: NodeId, leaver: NodeId)
    | LookUp(node: NodeId, candidates: set<NodeId>)

  /** A gossip message lists the sender's map after its own stamp; only sent messages arrive. */
  ghost predicate Enabled(w: World, a: Action) {
    match a
    case GossipRound(node, message, _) => ToSet(message) == Entries(ViewOf(w, node)[node := w.now])
    case ReceiveGossip(_, message) => message in w.sent
    case _ => true
  }

  function Step(w: World, a: Action): World {
    match a
    case Tick(nanos) => w.(now := w.now + nanos)
    case GossipRound(node, message, contacted) =>
      World(w.now, w.views[node := TouchAll(ViewOf(w, node)[node := w.now], contacted)],
            w.sent + {message}, w.stamps[node := w.now])
    case ReceiveGossip(node, message) => w.(views := w.views[node := Merge(ViewOf(w, node), message)])
    case JoinSelf(node) =>
      w.(views := w.views[node := ViewOf(w, node)[node := w.now]], stamps := w.stamps[node := w.now])
    case ReceiveJoin(node, joiner) =>
      w.(views := w.views[node := ViewOf(w, node)[joiner := w.now]], stamps := w.stamps[joiner := w.now])
    case ReceiveLeave(node, leaver) => w.(views := w.views[node := ViewOf(w, node) - {leaver}])
    case LookUp(node, candidates) => w.(views := w.views[node := TouchAll(ViewOf(w, node), candidates)])
  }

  /**
   A node's map turned into another one by the action, in every world at that time in which
   the node has that map; what is received must have been sent.
   */
  ghost predicate IsStep(a: Action, node: NodeId, now: int, before: Beats, after: Beats) {
    forall w: World :: w.now == now && ViewOf(w, node) == before && (a.ReceiveGossip? ==> a.message in w.sent)
      ==> Enabled(w, a) && ViewOf(Step(w, a), node) == after
  }

  lemma JoinsAreSteps(node: NodeId, joiner: NodeId, now: int, before: Beats)
    ensures IsStep(ReceiveJoin(node, joiner), node, now, before, before[joiner := now])
    ensures IsStep(JoinSelf(node), node, now, before, before[node := now])
  {
  }

  lemma RoundIsAStep(node: NodeId, now: int, before: Beats, message: seq<Beacon>, contacted: set<NodeId>)
    requires ToSet(message) == Entries(before[node := now])
    ensures IsStep(GossipRound(node, message, contacted), node, now, before, TouchAll(before[node := now], contacted))
  {
  }

  lemma LookUpIsAStep(node: NodeId, now: int, before: Beats, nodes: set<NodeId>)
    ensures IsStep(LookUp(node, nodes), node, now, before, TouchAll(before, nodes))
  {
  }

  /** Whatever entries are looked up in a row, it is one look-up step of those that were created. */
  lemma LookUpsAreAStep(node: NodeId, now: int, before: Beats, after: Beats, nodes: set<NodeId>)
    requires OnlyTouched(before, after, nodes)
    ensures IsStep(LookUp(node, after.Keys - before.Keys), node, now, before, after)
  {
    assert TouchAll(before, after.Keys - before.Keys) == after;
  }

  function Initial(now: nat): World {
    World(now, map[], {}, map[])
  }

  function After(w: World, actions: seq<Action>): World {
    if actions == [] then w else Step(After(w, actions[..|actions| - 1]), actions[|actions| - 1])
  }

  ghost predicate Legal(w: World, actions: seq<Action>) {
    if actions == [] then true
    else
      var front := actions[..|actions| - 1];
      Legal(w, front) && Enabled(After(w, front), actions[|actions| - 1])
  }

  ghost predicate BoundedBy(beats: Beats, stamps: Beats) {
    forall n :: n in beats ==> beats[n] <= Beat(stamps, n)
  }

  ghost predicate MessageBoundedBy(message: seq<Beacon>, stamps: Beats) {
    forall b :: b in message ==> b.time <= Beat(stamps, b.node)
  }

  /** No entry for a node, in any map or message, is later than the node's last stamp. */
  ghost predicate Safe(w: World) {
    && 0 <= w.now
    && (forall n :: n in w.stamps ==> 0 <= w.stamps[n] <= w.now)
    && (forall p :: p in w.views ==> BoundedBy(w.views[p], w.stamps))
    && (forall m :: m in w.sent ==> MessageBoundedBy(m, w.stamps))
  }

  lemma ViewIsBounded(w: World, node: NodeId)
    requires Safe(w)
    ensures BoundedBy(ViewOf(w, node), w.stamps)
  {
  }

  /** Stamps only grow, so what was bounded stays bounded. */
  lemma StampKeepsBounds(w: World, node: NodeId)
    requires Safe(w)
    ensures var stamps := w.stamps[node := w.now];
      && (forall beats :: BoundedBy(beats, w.stamps) ==> BoundedBy(beats, stamps))
      && (forall m :: MessageBoundedBy(m, w.stamps) ==> MessageBoundedBy(m, stamps))
      && (forall n :: n in stamps ==> 0 <= stamps[n] <= w.now)
  {
    var stamps := w.stamps[node := w.now];
    assert forall n :: Beat(w.stamps, n) <= Beat(stamps, n);
  }

  lemma MergeIsBounded(beats: Beats, message: seq<Beacon>, stamps: Beats)
    requires BoundedBy(beats, stamps) && MessageBoundedBy(message, stamps)
    ensures BoundedBy(Merge(beats, message), stamps)
  {
    MergeIsMaximum(beats, message);
    var merged := Merge(beats, message);
    forall n | n in merged ensures merged[n] <= Beat(stamps, n) {
      assert Beacon(n, merged[n]) in Entries(beats) + ToSet(message);
    }
  }

  /** Replacing one view by a bounded one is safe. */
  lemma NewViewIsSafe(w: World, node: NodeId, view: Beats)
    requires Safe(w) && BoundedBy(view, w.stamps)
    ensures Safe(w.(views := w.views[node := view]))
  {
  }

  /** So is a new stamp for x. */
  lemma NewStampIsSafe(w: World, x: NodeId)
    requires Safe(w)
    ensures Safe(w.(stamps := w.stamps[x := w.now]))
  {
    StampKeepsBounds(w, x);
  }

  lemma NewMessageIsSafe(w: World, message: seq<Beacon>)
    requires Safe(w) && MessageBoundedBy(message, w.stamps)
    ensures Safe(w.(sent := w.sent + {message}))
  {
  }

  lemma EntriesAreBounded(message: seq<Beacon>, beats: Beats, stamps: Beats)
    requires ToSet(message) == Entries(beats) && BoundedBy(beats, stamps)
    ensures MessageBoundedBy(message, stamps)
  {
    forall b | b in message ensures b.time <= Beat(stamps, b.node) {
      assert b in ToSet(message);
    }
  }

  lemma TouchedIsBounded(beats: Beats, nodes: set<NodeId>, stamps: Beats)
    requires BoundedBy(beats, stamps) && forall n :: n in stamps ==> 0 <= stamps[n]
    ensures BoundedBy(TouchAll(beats, nodes), stamps)
  {
  }

  lemma StepIsSafe(w: World, a: Action)
    requires Safe(w) && Enabled(w, a)
    ensures Safe(Step(w, a))
  {
    match a
    case Tick(_) =>
    case GossipRound(node, message, contacted) =>
      var stamped := w.(stamps := w.stamps[node := w.now]);
      var view := ViewOf(w, node)[node := w.now];
      NewStampIsSafe(w, node);
      ViewIsBounded(stamped, node);
      EntriesAreBounded(message, view, stamped.stamps);
      NewMessageIsSafe(stamped, message);
      TouchedIsBounded(view, contacted, stamped.stamps);
      NewViewIsSafe(stamped.(sent := w.sent + {message}), node, TouchAll(view, contacted));
    case ReceiveGossip(node, message) =>
      ViewIsBounded(w, node);
      MergeIsBounded(ViewOf(w, node), message, w.stamps);
      NewViewIsSafe(w, node, Merge(ViewOf(w, node), message));
    case JoinSelf(node) =>
      var stamped := w.(stamps := w.stamps[node := w.now]);
      NewStampIsSafe(w, node);
      ViewIsBounded(stamped, node);
      NewViewIsSafe(stamped, node, ViewOf(w, node)[node := w.now]);
    case ReceiveJoin(node, joiner) =>
      var stamped := w.(stamps := w.stamps[joiner := w.now]);
      NewStampIsSafe(w, joiner);
      ViewIsBounded(stamped, node);
      NewViewIsSafe(stamped, node, ViewOf(w, node)[joiner := w.now]);
    case ReceiveLeave(node, leaver) =>
      ViewIsBounded(w, node);
      NewViewIsSafe(w, node, ViewOf(w, node) - {leaver});
    case LookUp(node, candidates) =>
      ViewIsBounded(w, node);
      TouchedIsBounded(ViewOf(w, node), candidates, w.stamps);
      NewViewIsSafe(w, node, TouchAll(ViewOf(w, node), candidates));
  }

  lemma {:induction false} RunIsSafe(w: World, actions: seq<Action>)
    requires Safe(w) && Legal(w, actions)
    ensures Safe(After(w, actions))
  {
    if actions != [] {
      RunIsSafe(w, actions[..|actions| - 1]);
      StepIsSafe(After(w, actions[..|actions| - 1]), actions[|actions| - 1]);
    }
  }

  /** Does the action stamp the node? */
  predicate Stamps(a: Action, node: NodeId) {
    match a
    case GossipRound(n, _, _) => n == node
    case JoinSelf(n) => n == node
    case ReceiveJoin(_, joiner) => joiner == node
    case _ => false
  }

  lemma {:induction false} SilenceKeepsStamp(w: World, actions: seq<Action>, node: NodeId)
    requires forall a :: a in actions ==> !Stamps(a, node)
    ensures Beat(After(w, actions).stamps, node) == Beat(w.stamps, node)
  {
    if actions != [] {
      SilenceKeepsStamp(w, actions[..|actions| - 1], node);
      assert actions[|actions| - 1] in actions;
    }
  }

  /**
   Once a node has not been stamped for the check interval, over any run and in any view it is
   dead, and no node assigns it as a coordinator.
   */
  lemma SilentNodeIsDeadEverywhere(start: nat, before: seq<Action>, silent: seq<Action>, node: NodeId,
                                   view: NodeId, candidates: seq<NodeId>)
    requires Legal(Initial(start), before) && Legal(After(Initial(start), before), silent)
    requires forall a :: a in silent ==> !Stamps(a, node)
    requires var middle := After(Initial(start), before);
      After(middle, silent).now - middle.now >= SILENCE
    ensures var end := After(After(Initial(start), before), silent);
      && !Alive(end.now, Beat(ViewOf(end, view), node))
      && (node != "" ==> FirstAlive(candidates, ViewOf(end, view), end.now) != node)
  {
    var middle := After(Initial(start), before);
    var end := After(middle, silent);
    RunIsSafe(Initial(start), before);
    RunIsSafe(middle, silent);
    SilenceKeepsStamp(middle, silent, node);
    ViewIsBounded(end, view);
    AliveExactly(end.now, Beat(ViewOf(end, view), node));
    FirstAliveIsFirst(candidates, ViewOf(end, view), end.now);
  }

  /** An entry goes down only when the node is told that the other one leaves. */
  lemma EntryNeverDecreases(w: World, a: Action, view: NodeId, node: NodeId)
    requires Safe(w) && a != ReceiveLeave(view, node)
    requires node in ViewOf(w, view)
    ensures node in ViewOf(Step(w, a), view)
    ensures ViewOf(w, view)[node] <= ViewOf(Step(w, a), view)[node]
  {
    ViewIsBounded(w, view);
    match a
    case ReceiveGossip(n, message) =>
      MergeIsMaximum(ViewOf(w, n), message);
      if n == view {
        assert Beacon(node, ViewOf(w, view)[node]) in Entries(ViewOf(w, view));
      }
    case _ =>
  }

  lemma {:induction false} EntryNeverDecreasesInRun(w: World, actions: seq<Action>, view: NodeId, node: NodeId)
    requires Safe(w) && Legal(w, actions) && ReceiveLeave(view, node) !in actions
    requires node in ViewOf(w, view)
    ensures node in ViewOf(After(w, actions), view)
    ensures ViewOf(w, view)[node] <= ViewOf(After(w, actions), view)[node]
  {
    if actions != [] {
      var front, last := actions[..|actions| - 1], actions[|actions| - 1];
      assert actions == front + [last] && last in actions;
      EntryNeverDecreasesInRun(w, front, view, node);
      RunIsSafe(w, front);
      EntryNeverDecreases(After(w, front), last, view, node);
    }
  }

  /**
   The other direction: a heartbeat of time t that has reached a view keeps its node alive
   there until t plus the interval, whatever else happens, unless the view is told it leaves.
   */
  lemma HeardNodeStaysAlive(start: nat, before: seq<Action>, message: seq<Beacon>, beacon: Beacon,
                            view: NodeId, later: seq<Action>)
    requires Legal(Initial(start), before) && beacon in message
    requires message in After(Initial(start), before).sent
    requires var heard := Step(After(Initial(start), before), ReceiveGossip(view, message));
      && Legal(heard, later) && ReceiveLeave(view, beacon.node) !in later
      && After(heard, later).now - beacon.time < SILENCE
    ensures var heard := Step(After(Initial(start), before), ReceiveGossip(view, message));
      var end := After(heard, later);
      Alive(end.now, Beat(ViewOf(end, view), beacon.node))
  {
    var w := After(Initial(start), before);
    var heard := Step(w, ReceiveGossip(view, message));
    RunIsSafe(Initial(start), before);
    StepIsSafe(w, ReceiveGossip(view, message));
    MergeIsMaximum(ViewOf(w, view), message);
    assert beacon in ToSet(message);
    assert beacon.time <= ViewOf(heard, view)[beacon.node];
    EntryNeverDecreasesInRun(heard, later, view, beacon.node);
    var end := After(heard, later);
    AliveExactly(end.now, Beat(ViewOf(end, view), beacon.node));
  }
}
