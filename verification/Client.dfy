/** The client's data path: its cached clocks, the merge of siblings, and the writes it sends from the cache. */
module Client {
  import opened Clocks
  import opened ClockLaws
  import opened Siblings
  import opened ClockUpdates
  import opened Storage
  import opened RingSpec
  import opened Node

  /** How one put request ends: the call fails, or the server answers it. */
  datatype PutAnswer = PutFailure | PutAnswer(ret: PutReturn, coordinator: NodeId)

  datatype GetAnswer = GetFailure | GetAnswer(results: seq<Versioned>, coordinator: NodeId)

  /** How many of the answers, from the first on, only name another server. */
  function Redirects(answers: seq<PutAnswer>): (n: nat)
    ensures n <= |answers|
    ensures forall i :: 0 <= i < n ==> answers[i].PutAnswer? && answers[i].ret == NOT_COORDINATOR
    ensures n < |answers| ==> answers[n].PutFailure? || answers[n].ret != NOT_COORDINATOR
  {
    if answers == [] || answers[0].PutFailure? || answers[0].ret != NOT_COORDINATOR then 0
    else 1 + Redirects(answers[1..])
  }

  /** The first answer that is not a redirection is a success. */
  predicate Acknowledges(answers: seq<PutAnswer>) {
    Redirects(answers) < |answers| && answers[Redirects(answers)].PutAnswer? && answers[Redirects(answers)].ret == OK
  }

  /**
   What a client knows after a put: only a success changes the cache, where the clock that
   was sent gets the bump of the coordinator that the answer names.
   */
  function CacheAfterPut(cache: Contents, key: string, value: string, answers: seq<PutAnswer>): Contents {
    if Acknowledges(answers)
    then cache[key := Versioned(value, Bumped(Read(cache, key).clock, answers[Redirects(answers)].coordinator))]
    else cache
  }

  /** The count is the one number of redirections that something else, or nothing, follows. */
  lemma {:induction false} RedirectsExactly(answers: seq<PutAnswer>, k: nat)
    requires k <= |answers|
    requires forall i :: 0 <= i < k ==> answers[i].PutAnswer? && answers[i].ret == NOT_COORDINATOR
    requires k < |answers| ==> answers[k].PutFailure? || answers[k].ret != NOT_COORDINATOR
    ensures Redirects(answers) == k
  {
    if k > 0 {
      RedirectsExactly(answers[1..], k - 1);
    }
  }

  /** The servers that the redirections name. */
  function Targets(answers: seq<PutAnswer>): (targets: set<NodeId>)
    ensures forall n :: n in targets <==> exists i :: 0 <= i < Redirects(answers) && answers[i].coordinator == n
  {
    set i | 0 <= i < Redirects(answers) :: answers[i].coordinator
  }

  lemma TargetsOfMore(answers: seq<PutAnswer>)
    requires Redirects(answers) > 0
    ensures Targets(answers) == {answers[0].coordinator} + Targets(answers[1..])
  {
    var rest := answers[1..];
    forall n | n in Targets(answers) && n != answers[0].coordinator ensures n in Targets(rest) {
      var i :| 0 <= i < Redirects(answers) && answers[i].coordinator == n;
      assert rest[i - 1].coordinator == n;
    }
    forall n | n in Targets(rest) ensures n in Targets(answers) {
      var i :| 0 <= i < Redirects(rest) && rest[i].coordinator == n;
      assert answers[i + 1].coordinator == n;
    }
  }

  class KeyValueStoreClient {
    const cache: StateMachine
    var server: NodeId
    var channels: set<NodeId>

    constructor (server: NodeId, disk: string)
      ensures this.server == server && channels == {}
      ensures fresh(cache) && cache.InStep() && cache.Contents() == map[]
    {
      this.server, channels := server, {};
      cache := new StateMachine("client_storage.txt", disk);
    }

    method UpdateChannelToCoordinator(coordinator: NodeId)
      modifies this
      ensures server == coordinator && channels == old(channels) + {coordinator}
    {
      if coordinator !in channels {
        channels := channels + {coordinator};
      }
      server := coordinator;
    }

    /** A put from the cache: it is sent again to every server that a redirection names. */
    method Put(key: string, value: string, answers: seq<PutAnswer>) returns (ok: bool)
      requires cache.InStep()
      modifies this, cache
      ensures cache.InStep() && ok == Acknowledges(answers)
      ensures cache.Contents() == CacheAfterPut(old(cache.Contents()), key, value, answers)
      ensures ok <==> Redirects(answers) < |answers| && answers[Redirects(answers)].PutAnswer?
                      && answers[Redirects(answers)].ret == OK
      ensures cache.Contents() ==
        if ok then old(cache.Contents())[key := Versioned(value, Bumped(Read(old(cache.Contents()), key).clock,
                                                                        answers[Redirects(answers)].coordinator))]
        else old(cache.Contents())
      ensures ok || old(cache.Flushed()) ==> cache.Flushed()
      ensures server == if Redirects(answers) == 0 then old(server) else answers[Redirects(answers) - 1].coordinator
      ensures channels == old(channels) + Targets(answers)
      decreases |answers|
    {
      ok := false;
      if answers != [] && answers[0].PutAnswer? {
        var response := answers[0];
        match response.ret {
          case OK =>
            var newVersion := UpdateVersion(cache.GetVersion(key), response.coordinator);
            cache.Put(key, value, newVersion);
            ok := true;
          case FAILED =>
          case NOT_COORDINATOR =>
            TargetsOfMore(answers);
            UpdateChannelToCoordinator(response.coordinator);
            ok := Put(key, value, answers[1..]);
        }
      }
    }

    /**
     The replies of a read become one version: none, the only one, or the merge of them all,
     which is written back.
     */
    method Reconcile(siblings: seq<Versioned>, key: string, selected: nat, answers: seq<PutAnswer>)
      returns (result: string, ghost joined: Clock)
      requires cache.InStep() && (|siblings| >= 2 ==> selected < |siblings|)
      modifies this, cache
      ensures cache.InStep()
      ensures siblings != [] || old(cache.Flushed()) ==> cache.Flushed()
      ensures |siblings| < 2 ==> server == old(server) && channels == old(channels)
      ensures siblings == [] ==> result == "" && cache.Contents() == old(cache.Contents())
      ensures |siblings| == 1 ==>
        result == siblings[0].value && cache.Contents() == old(cache.Contents())[key := siblings[0]]
      ensures |siblings| >= 2 ==>
        && IsJoin(joined, siblings) && result == siblings[selected].value
        && server == (if Redirects(answers) == 0 then old(server) else answers[Redirects(answers) - 1].coordinator)
        && channels == old(channels) + Targets(answers)
        && cache.Contents() == CacheAfterPut(old(cache.Contents())[key := Versioned(result, joined)],
                                             key, result, answers)
    {
      result, joined := "", [];
      if |siblings| == 0 { return; }
      if |siblings| == 1 {
        result := siblings[0].value;
        cache.Put(key, result, siblings[0].clock);
        return;
      }
      var merged := ReconcileVersion(siblings);
      joined := merged;
      result := siblings[selected].value;
      cache.Put(key, result, merged);
      var _ := Put(key, result, answers);
    }

    method Get(key: string, answer: GetAnswer, selected: nat, answers: seq<PutAnswer>)
      returns (ok: bool, result: string, ghost joined: Clock)
      requires cache.InStep() && (answer.GetAnswer? && |answer.results| >= 2 ==> selected < |answer.results|)
      modifies this, cache
      ensures cache.InStep() && ok == answer.GetAnswer?
      ensures !ok ==> cache.Contents() == old(cache.Contents()) && server == old(server) && channels == old(channels)
      ensures ok && |answer.results| < 2 ==>
        server == answer.coordinator && channels == old(channels) + {answer.coordinator}
      ensures ok && |answer.results| == 1 ==>
        result == answer.results[0].value && cache.Contents() == old(cache.Contents())[key := answer.results[0]]
      ensures ok && |answer.results| >= 2 ==>
        && IsJoin(joined, answer.results) && result == answer.results[selected].value
        && server == (if Redirects(answers) == 0 then answer.coordinator
                      else answers[Redirects(answers) - 1].coordinator)
        && channels == old(channels) + {answer.coordinator} + Targets(answers)
        && cache.Contents() == CacheAfterPut(old(cache.Contents())[key := Versioned(result, joined)],
                                             key, result, answers)
      ensures ok && answer.results == [] ==> result == "" && cache.Contents() == old(cache.Contents())
    {
      ok, result, joined := false, "", [];
      if answer.GetAnswer? {
        UpdateChannelToCoordinator(answer.coordinator);
        result, joined := Reconcile(answer.results, key, selected, answers);
        ok := true;
      }
    }

    /** The reads that fail: after each of them the client turns to a server picked at random. */
    method FailingReads(key: string, picks: seq<NodeId>)
      requires cache.InStep()
      modifies this, cache
      ensures cache.InStep() && cache.Contents() == old(cache.Contents())
      ensures server == (if picks == [] then old(server) else picks[|picks| - 1]) && channels == old(channels)
    {
      for i := 0 to |picks|
        invariant cache.InStep() && cache.Contents() == old(cache.Contents())
        invariant server == (if i == 0 then old(server) else picks[i - 1]) && channels == old(channels)
      {
        var _, _, _ := Get(key, GetFailure, 0, []);
        server := picks[i];
      }
    }

    /** The reads in front of a put, up to the first that is answered. */
    method ReadFirst(key: string, picks: seq<NodeId>, answer: GetAnswer, selected: nat, mergeAnswers: seq<PutAnswer>)
      returns (ghost sent: Clock, ghost joined: Clock)
      requires cache.InStep() && answer.GetAnswer? && (|answer.results| >= 2 ==> selected < |answer.results|)
      modifies this, cache
      ensures cache.InStep() && Read(cache.Contents(), key).clock == sent
      ensures answer.results == [] ==> sent == Read(old(cache.Contents()), key).clock
      ensures |answer.results| == 1 ==> sent == answer.results[0].clock
      ensures |answer.results| >= 2 ==>
        && IsJoin(joined, answer.results)
        && sent == (if Acknowledges(mergeAnswers)
                    then Bumped(joined, mergeAnswers[Redirects(mergeAnswers)].coordinator)
                    else joined)
      ensures var merges := if |answer.results| >= 2 then mergeAnswers else [];
        && server == (if Redirects(merges) > 0 then merges[Redirects(merges) - 1].coordinator else answer.coordinator)
        && channels == old(channels) + {answer.coordinator} + Targets(merges)
    {
      FailingReads(key, picks);
      var got, result;
      got, result, joined := Get(key, answer, selected, mergeAnswers);
      sent := Read(cache.Contents(), key).clock;
    }

    /** A put behind the read that precedes it: what a conflict leaves in the cache is bumped twice. */
    method PutAfterGet(key: string, value: string, picks: seq<NodeId>, answer: GetAnswer, selected: nat,
                       mergeAnswers: seq<PutAnswer>, answers: seq<PutAnswer>)
      returns (ok: bool, ghost sent: Clock, ghost joined: Clock)
      requires cache.InStep() && answer.GetAnswer? && (|answer.results| >= 2 ==> selected < |answer.results|)
      modifies this, cache
      ensures cache.InStep() && ok == Acknowledges(answers)
      ensures |answer.results| == 1 ==> sent == answer.results[0].clock
      ensures |answer.results| >= 2 ==>
        && IsJoin(joined, answer.results)
        && sent == (if Acknowledges(mergeAnswers)
                    then Bumped(joined, mergeAnswers[Redirects(mergeAnswers)].coordinator)
                    else joined)
      ensures answer.results == [] ==> sent == Read(old(cache.Contents()), key).clock
      ensures ok ==>
        Read(cache.Contents(), key) == Versioned(value, Bumped(sent, answers[Redirects(answers)].coordinator))
      ensures !ok ==> Read(cache.Contents(), key).clock == sent
      ensures var merges := if |answer.results| >= 2 then mergeAnswers else [];
        && server == (if Redirects(answers) > 0 then answers[Redirects(answers) - 1].coordinator
                      else if Redirects(merges) > 0 then merges[Redirects(merges) - 1].coordinator
                      else answer.coordinator)
        && channels == old(channels) + {answer.coordinator} + Targets(merges) + Targets(answers)
    {
      sent, joined := ReadFirst(key, picks, answer, selected, mergeAnswers);
      ok := Put(key, value, answers);
    }
  }

  /** Where a server is named, only its own bump changes its stamp. */
  lemma BumpShows(c: Clock, server: NodeId, other: NodeId)
    requires server in Servers(c) && server != other
    ensures Bumped(c, server) != Bumped(c, other)
  {
    var i :| 0 <= i < |c| && c[i].server == server;
    NextValue(c[i].version);
    assert Bumped(c, server)[i].version != c[i].version;
    assert Bumped(c, other)[i] == c[i];
  }

  /** The cached clock is the stored one exactly if the answer named the coordinator that stored it. */
  lemma CacheMatchesStoreExactly(c: Clock, stored: NodeId, named: NodeId)
    ensures Bumped(c, named) == Bumped(c, stored) <==> named == stored
  {
    if named != stored {
      if named in Servers(c) {
        BumpShows(c, named, stored);
      } else if stored in Servers(c) {
        BumpShows(c, stored, named);
      } else {
        assert Bumped(c, named)[|c|].server == named;
      }
    }
  }

  /**
   A write sent from the cache, against the one acknowledged before it: replicas that hold the
   acknowledged write accept the next one exactly if the answer named the coordinator that had
   stored it, or that coordinator stores the next one too.
   */
  lemma NextWriteIsAcceptedExactly(c: Clock, stored: NodeId, named: NodeId, next: NodeId)
    requires DistinctServers(c) && NoOverflow(c, [named, next]) && NoOverflow(c, [stored])
    ensures Newer(BumpAll(c, [named, next]), BumpAll(c, [stored])) <==> named == stored || next == stored
  {
    BranchesCompareExactly(c, [named, next], [stored]);
    assert multiset([stored]) < multiset([named, next]) <==> named == stored || next == stored by {
      assert multiset([named, next]) == multiset{named, next} && multiset([stored]) == multiset{stored};
      if named == stored || next == stored {
        var other := if named == stored then next else named;
        assert multiset{named, next} == multiset{stored} + multiset{other};
      }
    }
  }

  /**
   A conflicting read followed by a put: the merge is accepted over every sibling, and so is
   the put; over the merge the put is accepted exactly under the condition above.
   */
  lemma MergeThenPut(joined: Clock, siblings: seq<Versioned>, stored: NodeId, named: NodeId, next: NodeId)
    requires IsJoin(joined, siblings) && NoOverflow(joined, [named, next]) && NoOverflow(joined, [stored])
    ensures NewerThanEverySibling(BumpAll(joined, [stored]), siblings)
    ensures NewerThanEverySibling(BumpAll(joined, [named, next]), siblings)
    ensures Newer(BumpAll(joined, [named, next]), BumpAll(joined, [stored])) <==> named == stored || next == stored
  {
    NextWriteIsAcceptedExactly(joined, stored, named, next);
    forall sibling | sibling in siblings
      ensures Newer(BumpAll(joined, [stored]), sibling.clock) && Newer(BumpAll(joined, [named, next]), sibling.clock)
    {
      HistoryIsNewerThanAllWithin(joined, [stored], sibling.clock);
      HistoryIsNewerThanAllWithin(joined, [named, next], sibling.clock);
    }
  }

  /** No read that meets the merged version ever returns the sibling again. */
  ghost predicate GoneWith(sibling: Versioned, merged: Versioned) {
    forall replies :: merged in replies ==> sibling !in Latest(replies)
  }

  /**
   A merge does away with a sibling exactly if that sibling's clock is empty or names every
   server the merged clock names; otherwise a read that meets both returns both again.
   */
  lemma MergeSettlesSiblingExactly(sibling: Versioned, merged: Versioned)
    requires Newer(merged.clock, sibling.clock) && merged.clock != []
    ensures GoneWith(sibling, merged) <==> sibling.clock == [] || Servers(merged.clock) <= Servers(sibling.clock)
  {
    NewerVersusOlder(sibling.clock, merged.clock);
    var both := [sibling, merged];
    if Older(sibling.clock, merged.clock) {
      forall replies | merged in replies ensures sibling !in Latest(replies) {
        LatestMembers(replies, sibling);
      }
    } else {
      OlderIrreflexive(sibling.clock);
      LatestMembers(both, sibling);
      assert sibling in both && merged in both;
      assert sibling in Latest(both);
    }
  }
}
