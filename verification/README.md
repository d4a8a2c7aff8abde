# A Dynamo-style key-value store: model and proofs

This project models the storage core of the C++ repository in Dafny and proves what its
protocols keep: the consistent hashing ring, the vector clocks with sibling pruning, the text
persistence, the quorum reads and writes, the key hand-off of joining and leaving nodes, the
gossip heartbeats, and the client's merging of siblings. `dafny verify dfyconfig.toml` checks
all of it. The original program was not executed.

How it is laid out:

- `Words`, `Seqs`, `Decimal`: 64-bit words, lists without duplicates, decimal printing and `stoull`.
- `RingSpec` says what a clockwise walk means, position by position; `RingWalks` holds the ring
  class with its do-while loops; `RingLaws` and `RingMembership` say what additions and
  removals do to every key's replica list, in one step and over whole runs.
- `Clocks` (the comparison loops), `ClockLaws` (what they decide), `Siblings` (pruning),
  `ClockUpdates` (bump and join).
- `Persistence` (printer and parser), `Storage` (the store class).
- `Replication` (one replica under any run of peer writes), `Quorum` (the two quorum loops and
  their intersection), `QuorumReads` (what a read returns after a write), `Handoff`, `Joining`,
  `Leaving` (keys changing hands), `PeerViews` (what join and leave make of the peers' rings).
- `Heartbeats` (one gossip step) and `FailureDetector` (all runs, as a state machine whose
  steps the contracts of the `Node` methods name).
- `Node`: the server class with its handlers and loops, proved against the functions above.
  `Client`: the client class.

State that the source updates in place is a class whose methods are proved against functions of
the old state; the theorems are about those functions. Calls between nodes are method calls on
the other node's object, and each call takes a parameter that says whether it is lost, is
carried out but its answer is lost, or succeeds. All node and client methods keep `InStep` for every
store they know: a store's maps are empty, as flushed, or what was read from its file, so that no
accepted write is missing on disk.

Where the code does not do what its comments or its README suggest, the model follows the code:

- The comparison of two clocks is not the textbook order (`src/state_machine.cpp:123-128`
  describes the four verdicts as if it were). An older clock that lacks a server of the newer
  one is a conflict (2), and an incoming clock with an extra server is "earlier" (-1) as soon
  as it is behind on a shared one. `ClockLaws.TextbookExactlyUnlessNested` says exactly when
  the verdict "earlier" is the textbook one.
- So pruning can drop a written stamp: `QuorumReads.WriteCanVanish` has the two replies, and
  `Siblings.CoverIsLostExactlyToSmallerServerSets` the exact condition for lists of any
  length, `QuorumReads.ReadsCoverExactly` that for a whole write and read. A merge does not
  always end a conflict either: `Client.MergeSettlesSiblingExactly`.
- The answer to a put names the first live replica, which need not be the node that stored the
  write; `Client.NextWriteIsAcceptedExactly` says what that does to the client's next write from
  the cache. An ordinary put reads first, which replaces the cached clock, so this shows when
  that read has merged siblings (`Client.MergeThenPut`) or a put is sent without reading.
- "Two acknowledgements out of three" does not make a read meet a write by itself, because a
  failure extends the walk beyond three servers: `Quorum.QuorumsShareExactly` has the exact
  number of failures.
- A retried hand-off of a write with a nonempty clock can never succeed once an answer was
  lost, since the second copy is not newer than the first: `Handoff.RetryExactly`.
- Virtual nodes of different nodes can share a position by their names alone ("a1" + "0" and
  "a" + "10"), exactly if there are more than ten per node: `RingMembership.NamesCollideExactly`.
  Theorems that need distinct positions say so.
- A removal of a node that is not in lowers the node count below the number of members, and
  replica lists can come out short: `RingMembership.ListIsFullExactly` says when they do.
- A 64-bit counter that wraps around makes a clock step back:
  `ClockUpdates.BumpIsNewerExactly`, `ClockUpdates.HistoryIsChainExactly`.

## Model

| member | source | states |
|---|---|---|
| RingWalks.SuccessorIsNextOrFirst | src/consistent_hashing_ring.cpp:67-71 | the loop step is the cyclic successor, also from position 2^64-1: the next occupied position, or the first one if there is none behind |
| RingWalks.StartAtOccupied | src/consistent_hashing_ring.cpp:54-61 | one turn from the key's hash meets the same owners in the same order as one turn from the first occupied position behind it |
| RingWalks.WalkStep | src/consistent_hashing_ring.cpp:62-72 | each step meets exactly one more owner and leaves strictly fewer positions to go, or the full turn is complete |
| RingWalks.LoopTurn | src/consistent_hashing_ring.cpp:62-72 | when the loop condition fails, the owners collected are exactly the first distinct ones of the turn |
| RingWalks.ConsistentHashingRing.AddNode | src/consistent_hashing_ring.cpp:12-19 | the ring is the old one with all the node's virtual positions overwritten, no other position touched; the count grows by one even for a member |
| RingWalks.ConsistentHashingRing.RemoveNode | src/consistent_hashing_ring.cpp:21-28 | all the node's virtual positions are freed, whoever held them; the count shrinks by one even for a stranger |
| RingWalks.ConsistentHashingRing.GetNode | src/consistent_hashing_ring.cpp:30-43 | the owner of the position nearest clockwise from the key, which is the head of its owner list; the empty name on an empty ring |
| RingWalks.ConsistentHashingRing.GetReplicasNodes | src/consistent_hashing_ring.cpp:45-75 | terminates with the front of the key's owner list, of length the least of node count, number asked for and number of owners if the first two are positive; 0 counts as 1, and a negative number as a huge one |
| RingWalks.ConsistentHashingRing.CheckDataBelonging | src/consistent_hashing_ring.cpp:84-108 | true exactly if the node stands at one of the first places of the owner list, as many as asked for, with 0 as 1 and a negative number as a huge one; not cut by the node count |
| RingWalks.ListedExactly | src/consistent_hashing_ring.cpp:47-72 | for any node count and any number asked for the list has exactly that length and is the front of the owner list |
| RingWalks.BelongsExactly | src/consistent_hashing_ring.cpp:84-108 | the membership bound, told as a number of places for every int |
| RingSpec.OwnersAreTheValues | src/consistent_hashing_ring.cpp:62-72 | a full turn meets exactly the nodes that own some position |
| RingSpec.OwnersCount | src/consistent_hashing_ring.cpp:62-72 | a full turn meets as many distinct owners as there are |
| RingLaws.OwnersAreNearestFirst | src/consistent_hashing_ring.cpp:54-72 | of any two owners the one listed first has a position nearer clockwise than every position of the other; with the two laws above this fixes the owner list |
| RingLaws.OwnersAgree | src/consistent_hashing_ring.cpp:12-28 | rings that differ only in one node's positions give every key the same owners in the same order once that node is left out |
| RingLaws.DisplacedOnlyByX | src/consistent_hashing_ring.cpp:84-108 | a node stops being responsible for a key only if the changed node becomes responsible for it |
| RingLaws.AddInsertsOnce | src/consistent_hashing_ring.cpp:12-19 | an added absent node enters each key's full owner list at one place, the order of the others being kept |
| RingLaws.MinimalDisruptionOnAdd | src/consistent_hashing_ring.cpp:12-75 | for every key and length n the new replica list is the old one with the new node possibly inserted once and cut to n |
| RingLaws.DisplacedExactly | src/consistent_hashing_ring.cpp:12-75 | a replica is displaced exactly if it was the last of a full list and the new node came in |
| RingLaws.RemoveCutsOnce | src/consistent_hashing_ring.cpp:21-28 | a removed node leaves each key's owner list, the order of the others being kept |
| RingLaws.MinimalDisruptionOnRemove | src/consistent_hashing_ring.cpp:21-75 | for every key and length n the new replica list is the old one of length n+1 without the node, cut to n |
| RingLaws.OneHeirExactly | src/consistent_hashing_ring.cpp:21-108 | a removal makes a node newly responsible for a key if and only if it was the key's (n+1)-th owner and the leaver was among the first n |
| RingLaws.WalksAgreeExactly | src/consistent_hashing_ring.cpp:45-108 | what the two methods return: for any node count and any number asked for, also 0 and below, the membership walk and the list walk agree exactly when their unsigned bounds are the same or neither is below the number of owners |
| RingLaws.WalksAgreeOnPositive | src/consistent_hashing_ring.cpp:45-108 | for a positive number and a count that is not negative: exactly when the count covers the number or all the owners |
| RingLaws.ListLength | src/consistent_hashing_ring.cpp:45-75 | with a node count covering the owners, the list has as many entries as the lower one of n and the number of owners |
| RingLaws.ListIsWholeExactly | src/consistent_hashing_ring.cpp:45-75 | for a positive n the returned list is the first n owners if and only if the node count covers n or all owners or, when negative, there are at most n owners |
| RingLaws.ReplicasGrow | src/consistent_hashing_ring.cpp:45-75 | replica lists have no repetition, the list for n is a prefix of that for any m >= n, and its head is the one-replica list |
| RingMembership.RunGivesRingOfMembers | src/consistent_hashing_ring.cpp:12-28 | after any run of additions and removals without collisions every member holds all its positions and nobody else any |
| RingMembership.SameMembersSameReplicas | src/consistent_hashing_ring.cpp:12-75 | runs in any order that end with the same members give the same ring, hence identical replica lists for every key |
| RingMembership.CountCoversMembers | src/consistent_hashing_ring.cpp:12-28 | over runs that remove only members the count is never below the number of members, and equal to it exactly if no member was added again |
| RingMembership.ListIsFullExactly | src/consistent_hashing_ring.cpp:12-75 | after any collision-free run, a key's list for n is the first min(n, members) owners if and only if the node count covers n or all members or, when it has become negative, there are at most n members |
| RingMembership.RunReturnsFullLists | src/consistent_hashing_ring.cpp:12-75 | after a run that removes only members every key's list is full in this sense |
| RingMembership.RemovingStrangerCutsLists | src/consistent_hashing_ring.cpp:21-75 | an example where it fails: two members and a removed stranger cut a list of three to one node |
| RingMembership.AddThenRemoveRestoresExactly | src/consistent_hashing_ring.cpp:12-28 | adding and removing a node gives the old ring back if and only if its positions were all free before |
| RingMembership.NamesCollide | src/consistent_hashing_ring.cpp:15-17 | with more than ten virtual nodes the names x and x1 share a position for every hash function |
| RingMembership.NamesCollideExactly | src/consistent_hashing_ring.cpp:15-17 | two different nodes can have virtual nodes of one name if and only if there are more than ten per node |
| RingMembership.OnlyTheHashCollides | src/consistent_hashing_ring.cpp:15-17 | with at most ten, positions are shared exactly if the hash function gives two different names one position |
| Clocks.CompareRow | src/state_machine.cpp:141-155 | one row of the nested loops keeps the three-state automaton in step with which of the two directions has been seen, and stops early only with a verdict that is final |
| Clocks.CheckConflictVersion | src/state_machine.cpp:120-163 | the loops with early exits compute, for any two lists, the verdict given by server sets and the two directions of "behind" |
| ClockLaws.VerdictOfMaps | src/state_machine.cpp:120-163 | for clocks that name each server once the verdict is a function of the two maps alone |
| ClockLaws.ExactClassification | src/state_machine.cpp:120-163 | each of the four verdicts, both directions, as a condition on domains and pointwise order of the two maps, empty clocks included |
| ClockLaws.OrderOfStampsIsIrrelevant | src/state_machine.cpp:120-163 | permuting or repeating stamps changes no verdict |
| ClockLaws.NewerTransitive | src/state_machine.cpp:120-163 | verdict 1 is transitive on all lists |
| ClockLaws.NewerThanItself | src/state_machine.cpp:130-132 | only the empty clock is newer than itself |
| ClockLaws.OlderIrreflexive | src/state_machine.cpp:120-163 | no clock is rated -1 against itself |
| ClockLaws.OlderTransitive | src/state_machine.cpp:120-163 | verdict -1 is transitive on all lists, although it is not the textbook order |
| ClockLaws.NewerVersusOlder | src/state_machine.cpp:143-148 | verdicts 1 and -1 are mirror images exactly when the server sets allow it; both exceptions are spelled out |
| ClockLaws.TextbookExactlyUnlessNested | src/state_machine.cpp:120-163 | verdict -1 is the textbook strict order for all clocks over two given server sets if and only if neither set is a nonempty strict part of the other; with counters that may be 0, which only a wrap-around gives, if and only if the sets are equal or the existing one is empty |
| ClockLaws.NewerIsTextbook | src/state_machine.cpp:120-163 | verdict 1 is the textbook strict order for all server sets and versions of at least 1, except that the empty clock is newer than itself |
| ClockLaws.SameIsTextbook | src/state_machine.cpp:156-162 | verdict 0 is textbook equality, with the same exception |
| ClockLaws.ConflictExactlyUnlessNested | src/state_machine.cpp:143-153 | verdict 2 is textbook concurrency for all clocks over two given server sets if and only if neither set is a nonempty strict part of the other |
| Siblings.RemoveDuplicateData | src/state_machine.cpp:166-182 | keeps exactly the first occurrence of every version |
| Siblings.ScanForNewer | src/state_machine.cpp:190-199 | a version is dropped exactly if some version is rated above it; skipping its own index changes nothing |
| Siblings.RemoveUnconflictData | src/state_machine.cpp:184-205 | keeps, in order, exactly the versions no other is rated above |
| Siblings.GetLatestData | src/state_machine.cpp:208-215 | the two passes together are the pruning that the lemmas below are about |
| Siblings.DroppedIsOlderThanKept | src/state_machine.cpp:184-215 | every version dropped is rated -1 against one that is kept |
| Siblings.NonemptyStaysNonempty | src/state_machine.cpp:208-215 | pruning returns nothing exactly if it is given nothing |
| Siblings.PruningIsIdempotent | src/state_machine.cpp:208-215 | pruning a pruned list changes nothing |
| Siblings.ReplyOrderIsIrrelevant | src/state_machine.cpp:208-215 | as a set the result does not depend on order or repetition of the replies |
| Siblings.LatestKeepsOrder | src/state_machine.cpp:208-215 | survivors stand in the order of their first occurrence |
| Siblings.TextbookPruning | src/state_machine.cpp:166-215 | over one nonempty server set exactly the versions not strictly dominated survive, each once: no concurrent sibling is lost |
| Siblings.KeptCoversDropped | src/state_machine.cpp:208-215 | if no reply's server set is a nonempty strict part of another's, every version is equal to or dominated by a kept one |
| Siblings.CoverIsLostExactlyToSmallerServerSets | src/state_machine.cpp:143-215 | for a list of any length: all versions over the given server sets are covered after pruning if and only if no set is a nonempty strict part of another |
| ClockUpdates.UpdateVersion | src/state_machine.cpp:217-232 | the loop bumps the coordinator's stamps, wrapping at 2^64, or appends a first one |
| ClockUpdates.BumpAsMap | src/state_machine.cpp:217-232 | a bump changes the map at one server only and keeps server names distinct |
| ClockUpdates.BumpIsNewerExactly | src/state_machine.cpp:217-232 | a bumped clock is newer than its base, and than every clock within it, if and only if the counter was not at the top of its 64-bit range |
| ClockUpdates.BumpsAreCounted | src/state_machine.cpp:217-232 | after any history of bumps each counter has grown by exactly its number of bumps |
| ClockUpdates.HistoryIsChainExactly | src/state_machine.cpp:217-232 | every bump of a history gives a newer clock if and only if no counter runs over |
| ClockUpdates.LaterInHistoryIsNewer | src/gossip_node.cpp:327-382 | the latest clock of a history is newer than every earlier one, so a replica that missed any writes still accepts it |
| ClockUpdates.HistoryIsNewerThanAllWithin | src/gossip_node.cpp:327-382 | a nonempty history leads above everything within its start |
| ClockUpdates.BranchesCompareExactly | src/state_machine.cpp:120-163 | two branches from one clock: one is newer than the other if and only if its bumps strictly include the other's as a multiset, and the same if and only if the multisets are equal |
| ClockUpdates.HistoryTotal | src/state_machine.cpp:217-232 | the sum of the versions grows by exactly the number of bumps |
| ClockUpdates.MaximumOf | src/state_machine.cpp:236-247 | the nested loops compute the pointwise maximum of all siblings' stamps |
| ClockUpdates.ReconcileVersion | src/state_machine.cpp:234-252 | the result names each server once, contains every sibling, and has no stamp that no sibling has, in whatever order the set is enumerated |
| ClockUpdates.JoinIsLeast | src/state_machine.cpp:234-252 | that result is the least upper bound of the siblings |
| ClockUpdates.MergedWriteIsNewerExactly | src/client_grpc.cpp:140-175 | a merged write bumped by any coordinator is newer than every sibling and everything within the join if and only if no sibling has that coordinator's counter at its top |
| Decimal.StoullInvertsToString | src/state_machine.cpp:41-73 | every 64-bit version survives printing and `stoull` |
| Decimal.StoullOfNumber | src/state_machine.cpp:73 | blanks, a sign and digits with anything behind them: the number, negated modulo 2^64 behind a minus sign, or an exception beyond 64 bits |
| Decimal.NoNumber | src/state_machine.cpp:73 | a sign that no digit follows is an exception |
| Storage.LineOfAnEntry | src/state_machine.cpp:35-46 | the text of a line: key, blank, value, blank, and for every stamp the server, '@', the version and a blank |
| Persistence.LinesExactly | src/state_machine.cpp:61 | the lines read hold no line break and, each with its break, make up the text, whose last break may be missing |
| Persistence.TokensExactly | src/state_machine.cpp:62-71 | a line's words are what stands between blanks of any kind |
| Persistence.LoadsExactly | src/state_machine.cpp:61-79 | reading succeeds if and only if every line can be read |
| Persistence.LastLineWins | src/state_machine.cpp:77-78 | a key gets the value and clock of the last line that has it |
| Persistence.EntryRoundTrip | src/state_machine.cpp:36-78 | a printable entry's line is parsed back into its key, value and clock |
| Persistence.LinesOfStore | src/state_machine.cpp:35-61 | a store without blanks is read back as exactly one line per key, in order |
| Persistence.LoadedIsClean | src/state_machine.cpp:51-81 | whatever the file holds, no blank and no '@' in a server name comes out of it |
| Persistence.RoundTripExactly | src/state_machine.cpp:29-81 | for every enumeration order, reading the printed store restores both maps if and only if keys, values and server names are free of blanks and '@' and no empty field stands before a nonempty one |
| Storage.StateMachine.GetAllKeys | src/state_machine.cpp:83-89 | every key exactly once, in some order |
| Storage.StateMachine.GetValue | src/state_machine.cpp:91-96 | the stored value, or the fixed text for an absent key |
| Storage.StateMachine.GetVersion | src/state_machine.cpp:98-103 | the stored clock, or the empty one for an absent key |
| Storage.StateMachine.Remove | src/state_machine.cpp:105-111 | both maps lose exactly this key, keep equal key sets, and the file is rewritten and holds them |
| Storage.StateMachine.Put | src/state_machine.cpp:113-117 | both maps get exactly this entry, keep equal key sets, and the file is rewritten and holds them |
| Storage.StateMachine.FlushToDisk | src/state_machine.cpp:29-49 | the file is the maps' text for some order of the keys; the maps are unchanged |
| Storage.StateMachine.ReadFile | src/state_machine.cpp:51-81 | any text: the maps are those of the lines before the first unreadable version, and equal in keys |
| Storage.FlushedStoreIsRestored | src/state_machine.cpp:29-81 | reading a flushed file gives the store back exactly when the store is printable |
| Replication.KeysDoNotInterfere | src/gossip_node.cpp:363-386 | in any run of peer writes a key ends as if only its own writes had been delivered |
| Replication.OnlyMovesUp | src/gossip_node.cpp:363-386 | the stored version is untouched or strictly newer after any run, and is one of those delivered |
| Replication.NoDeliveredIsNewer | src/gossip_node.cpp:363-386 | after any run, with any order and repetition, no delivered write dominates what is stored, except on a replica that never had a nonempty clock |
| Replication.GreatestWriteWins | src/gossip_node.cpp:363-386 | a delivered write that is newer than the start and covers all others that are is where every run ends |
| Replication.ReplicasConvergeExactly | src/gossip_node.cpp:363-386 | all replicas with the same start that receive the same writes, however ordered and repeated, end at one clock if and only if none of the writes is newer than the start or one of those covers all the others |
| Replication.ChainHasGreatest | src/gossip_node.cpp:363-386 | so a chain of writes brings all replicas to one clock, wherever they start |
| Heartbeats.AliveExactly | src/gossip_node.cpp:476 | a node is alive for exactly ten seconds: truncating to milliseconds does not move the boundary |
| Heartbeats.MergeIsMaximum | src/gossip_node.cpp:241-251 | one delivery sets the map to the pointwise maximum of its entries and the message |
| Heartbeats.GossipIsAJoin | src/gossip_node.cpp:241-251 | deliveries of the same beacons, reordered, repeated or repackaged, leave equal maps, and no entry decreases |
| Heartbeats.FirstAliveIsFirst | src/gossip_node.cpp:472-481 | the coordinator named is a listed live node before which no other is alive, and none is named only if none is alive |
| Heartbeats.AskedExactly | src/gossip_node.cpp:472-481 | looked up are exactly the nodes with no live one before them |
| FailureDetector.StepIsSafe | src/gossip_node.cpp:106-251 | every step keeps: no entry for a node, in any map or message, is later than its last own or join stamp |
| FailureDetector.RunIsSafe | src/gossip_node.cpp:106-251 | so does every run, with arbitrary delay and duplication |
| FailureDetector.SilentNodeIsDeadEverywhere | src/gossip_node.cpp:472-481 | a node silent for the interval is alive in no view and named coordinator by none |
| FailureDetector.EntryNeverDecreasesInRun | src/gossip_node.cpp:193-251 | an entry goes down only if its map is told that the node leaves |
| FailureDetector.HeardNodeStaysAlive | src/gossip_node.cpp:241-251 | a heartbeat that has reached a view keeps its node alive there until the interval has passed |
| FailureDetector.LookUpsAreAStep | src/gossip_node.cpp:475 | any lookups in a row are one enabled step of the run model; the handlers that stamp, merge or drop entries state their step themselves |
| Quorum.QuorumTurn | src/gossip_node.cpp:264-288 | one turn of either loop counts live servers only and stops exactly behind the third contact, and only if that one answers |
| Quorum.QuorumEnd | src/gossip_node.cpp:264-288 | a loop that runs to its end has contacted every eligible server |
| Quorum.LiveExactly | src/gossip_node.cpp:265-275 | a loop tries exactly the coordinator itself and the listed servers heard of within ten seconds |
| Quorum.ContactedExactly | src/gossip_node.cpp:264-288 | contacted are exactly the live servers with fewer than three live ones before them and, if there is no third or it does not answer, all other live ones |
| Quorum.QuorumsShareExactly | src/gossip_node.cpp:253-361 | an OK put and an OK get over one eligible list always share a replica if and only if the failures among the first three contacts, of both loops together, are at most two |
| QuorumReads.RunsShareExactly | src/gossip_node.cpp:253-361 | the same number is exact for runs whose coordinators are among the servers and whose writer has bumped the clock it writes |
| QuorumReads.PeerWritesOnlyMoveUp | src/gossip_node.cpp:363-386 | any run of peer writes to any replicas only moves clocks up and keeps all stores |
| QuorumReads.QuorumReadSeesQuorumWrite | src/gossip_node.cpp:253-386 | then, whatever peer writes come between and whatever the clocks, the pruned answer has a version that covers the write or was rated above a reply covering it |
| QuorumReads.LaterRepliesStayOver | src/gossip_node.cpp:363-386 | the clocks a later read collects are the written one, a stored one, or one of the peer writes in between |
| QuorumReads.QuorumReadCoversQuorumWrite | src/gossip_node.cpp:253-386 | if the written clock, the stored clocks of the key and those of the peer writes in between are empty or over server sets none of which is a nonempty strict part of another, the pruned answer has a version equal to or dominating the write |
| QuorumReads.ReadsCoverExactly | src/gossip_node.cpp:253-386 | that condition is exact for runs whose writer is one of the servers and bumps the clock it was sent, all clocks being free of wrapped counters: every such read covers its write if and only if no two of the sets are nested; otherwise three replicas and one refused write lose it |
| QuorumReads.NoFailureSucceeds | src/gossip_node.cpp:253-361 | three live servers that all answer, and a write newer than what they hold: both loops count two successes and no miss, so the theorem above applies |
| QuorumReads.OneServerSetSuffices | src/state_machine.cpp:208-215 | a key whose clocks are all empty or over one common server set meets that condition |
| QuorumReads.WriteCanVanish | src/state_machine.cpp:143-148 | without it a written stamp can disappear from the answer |
| Handoff.JoinConserves | src/gossip_node.cpp:132-154 | one join handler: each key is unchanged here, or removed, held by the joiner with exactly its value and clock, and owned by the joiner on the new ring; what stays unowned is exactly what was not acknowledged |
| Handoff.HandlerOffersUnowned | src/gossip_node.cpp:85-152 | whatever the handler holds, also keys left over from a hand-off that failed: every key it does not own is offered once, taken if the call gets through and the clock is newer, dropped if that is heard of; all else stays |
| Handoff.OneHandlerGivesUpAKey | src/gossip_node.cpp:85-92 | of all nodes that own a key at most one gives it up to a joiner, the last of a full list |
| Handoff.RetryExactly | src/gossip_node.cpp:176-186 | a retried write is accepted if and only if it is newer and the first attempt that gets through is also answered; with the empty clock, newer than itself, if any attempt is answered |
| Handoff.FifthAttemptIsLast | src/gossip_node.cpp:176-182 | an answer to the fifth attempt, the first to get through, still takes the key; after five lost ones nothing has happened |
| Joining.JoinRunConserves | src/gossip_node.cpp:106-154 | a whole join, for any order of the handlers and any failing calls, of peers with the same ring that own what they hold: every key is still there, or held unchanged by the joiner, who owns it; what the joiner held is covered |
| Joining.JoinRunLosesNothing | src/gossip_node.cpp:106-154 | whatever the peers' rings and whatever they hold: every key of a peer is still there, or the joiner holds a version that covers it |
| Joining.JoinSucceedsExactly | src/gossip_node.cpp:106-130 | the join reports success if and only if it was answered by every peer and none holds a key it does not own any more |
| Joining.JoinKeepsHolders | src/gossip_node.cpp:106-154 | after a join that reports success, at least as many of a key's first owners as before hold a version covering any given write |
| Leaving.HeirKeysAreDisjoint | src/gossip_node.cpp:94-104 | the key sets offered to different peers are disjoint, so no peer starves another |
| Leaving.LeaveAtKey | src/gossip_node.cpp:156-191 | the closed form of all the turns of a leave, for every key, at the leaver and at every peer |
| Leaving.LeaveConserves | src/gossip_node.cpp:156-191 | every key is still at the leaver or held unchanged by its one heir, who owns it on the new ring; a peer's entry changes only if the peer is the key's heir |
| Leaving.KeyLeavesExactly | src/gossip_node.cpp:156-191 | a key leaves the leaver if and only if its heir is reached, rates the leaver's clock newer, and the first attempt that gets through is answered |
| Leaving.LeaveKeepsHolders | src/gossip_node.cpp:156-191 | once the leave has taken a key off the leaver, at least as many of its first owners as before hold a version covering any given write |
| PeerViews.PeersAgreeExactly | src/gossip_node.cpp:106-200 | peers that agreed on the ring agree again after a join or leave if and only if the request reached all of them, or none, or changes no ring |
| Node.GossipNode.constructor | src/gossip_node.cpp:3-20 | a node starts with an empty ring, store, stub table and heartbeat map |
| Node.GossipNode.PeerPut | src/gossip_node.cpp:363-386 | applies the write exactly if its clock is newer than the stored one, and then it is on disk; the success flag is inverted |
| Node.GossipNode.CallPeerPut | src/gossip_node.cpp:404-423 | 0 exactly if the call is answered and the write was applied; no other store changes, and a lost answer may still have been applied |
| Node.GossipNode.CallPeerGet | src/gossip_node.cpp:425-452 | the peer's stored version, or a failure |
| Node.GossipNode.PutLoop | src/gossip_node.cpp:331-350 | exactly the contacted servers are written, each once, and the success count is the number of acknowledging ones |
| Node.GossipNode.ClientPut | src/gossip_node.cpp:306-361 | only a listed replica coordinates; the contacted servers, and no others, take the bumped write, the coordinator unconditionally and a peer if it is newer; OK exactly if two different ones acknowledge; otherwise no store changes; the name returned is the first live server's |
| Node.GossipNode.GetLoop | src/gossip_node.cpp:264-288 | the replies are those of the acknowledging contacted servers, in order; no store changes |
| Node.GossipNode.ClientGet | src/gossip_node.cpp:253-304 | the results are replies of contacted servers, each once, in order of arrival, none rated older than another, and every reply is among them or older than one; OK exactly if two different servers answer; no store changes; the name returned is the first live server's |
| Node.EffectOfPutExactly | src/gossip_node.cpp:329-358 | what the counters of the put loop come to: which stores change, and that two different acknowledging servers decide |
| Node.EffectOfGetExactly | src/gossip_node.cpp:262-303 | the same for the get loop and its pruning |
| Node.OneFailureIsTolerated | src/gossip_node.cpp:253-361 | at least three live servers, and at most one of the first three failing: a write newer than what they hold is answered OK, and so is a get |
| Node.OkGetSeesOkPut | src/gossip_node.cpp:253-361 | the quorum theorem for what these two handlers do, at two coordinators with the same eligible servers |
| Node.OkGetCoversOkPut | src/gossip_node.cpp:253-361 | the covering theorem for what these two handlers do, under the condition on the key's clocks alone |
| Node.GossipNode.GetJoinTransferKey | src/gossip_node.cpp:85-92 | exactly the stored keys for which the node is not one of the first three owners on its ring |
| Node.GossipNode.TransferTo | src/gossip_node.cpp:142-152 | every such key is offered once, dropped exactly if the acceptance is acknowledged; success exactly if all were |
| Node.GossipNode.JoinNetwork | src/gossip_node.cpp:132-154 | the joiner enters ring, heartbeats and stubs, then the transfer, seen at all stores |
| Node.GossipNode.JoinPeer | src/gossip_node.cpp:112-126 | the joiner's call to one peer, seen at all stores the joiner knows and in the peer's view |
| Node.GossipNode.SendJoin | src/gossip_node.cpp:106-154 | the joiner's own ring and stamp, and the calls to all peers in some order: stores and reported success are those of the whole-join theorems, and every peer that is reached has the joiner on its ring, in its count, stubs and heartbeats, all others are as before |
| Node.GossipNode.LeaveNetwork | src/gossip_node.cpp:193-200 | the leaver is dropped from ring, stubs and heartbeats |
| Node.GossipNode.BecomesOwner | src/gossip_node.cpp:100 | the node is one of the first three owners on the new ring and not on the old one |
| Node.GossipNode.GetLeaveTransferKey | src/gossip_node.cpp:94-104 | exactly the stored keys that the node owns on the new ring but not on the old one |
| Node.GossipNode.PutWithRetries | src/gossip_node.cpp:176-182 | at most five attempts, the first acknowledged one being the last |
| Node.GossipNode.GiveKeys | src/gossip_node.cpp:175-187 | each key is offered with retries and dropped exactly if acknowledged, in any order of the keys |
| Node.GossipNode.LeavePeer | src/gossip_node.cpp:161-189 | one turn: the peer's view without the leaver if the request reaches it, and the peer's keys offered only if the answer arrives |
| Node.GossipNode.SendLeave | src/gossip_node.cpp:156-200 | the leaver drops itself from its own ring and count and serves all peers in some order: the stores are those of the whole-leave theorem, and every peer that is reached has dropped the leaver from ring, count, stubs and heartbeats, all others are as before |
| Node.GossipNode.IsCoordinator | src/gossip_node.cpp:454-459 | true exactly if the node is listed |
| Node.GossipNode.CheckAlive | src/gossip_node.cpp:342-344 | a lookup answers by the last beat and creates the node's epoch entry exactly if there was none: one look-up step |
| Node.GossipNode.AssignedCoordinator | src/gossip_node.cpp:472-481 | the first live server of the list, or the empty name if none is alive, judged by the heartbeats at the start; exactly the nodes up to it get an epoch entry if they had none |
| Node.GossipNode.Gossip | src/gossip_node.cpp:241-251 | the loop merges the message into the map: one receiving step of the run model |
| Node.GossipNode.SendGossip | src/gossip_node.cpp:210-239 | the sender stamps itself, sends all its entries, contacts exactly the peers it takes for alive, and looks up exactly its peers: one gossip round of the run model |
| Client.KeyValueStoreClient.Put | src/client_grpc.cpp:11-62 | behind k redirections the client stays with the server that the k-th named and has channels to all that were named; the cache changes only on success, where it gets the sent clock bumped by the coordinator the answer names |
| Client.RedirectsExactly | src/client_grpc.cpp:49-54 | the number of redirections is the number of answers in front of the first that is something else |
| Client.KeyValueStoreClient.Reconcile | src/client_grpc.cpp:140-175 | no reply, one reply, or the least upper bound of all with the selected value, which is cached and written back along the redirections |
| Client.KeyValueStoreClient.Get | src/client_grpc.cpp:64-94 | a failed read changes nothing; an answered one moves the client to the named coordinator and reconciles |
| Client.KeyValueStoreClient.PutAfterGet | src/client_grpc.cpp:11-62 | which clock a put behind its read sends, which one the cache holds afterwards, and which server the client stays with, in all cases |
| Client.CacheMatchesStoreExactly | src/client_grpc.cpp:42-45 | the cached clock is the stored one if and only if the answer named the coordinator that stored it |
| Client.NextWriteIsAcceptedExactly | src/client_grpc.cpp:31-45 | a write sent from the cache is accepted over the acknowledged one before it if and only if the answer named the coordinator that stored that one, or it coordinates the next one too |
| Client.MergeThenPut | src/client_grpc.cpp:140-175 | the write-back of a merge and the put behind it are both accepted over every sibling; over the merge the put is accepted exactly under that condition |
| Client.MergeSettlesSiblingExactly | src/client_grpc.cpp:140-175 | a merge keeps a sibling out of all later reads that meet it if and only if the sibling's clock is empty or names all the merged clock's servers |

## Left out

- Node.GossipNode.ClientPut: which of the possible epoch-0 heartbeat entries the lookups add is not stated, only that nothing else changes in that map.
- Node.GossipNode.ClientGet: says of the heartbeats what ClientPut says, and like ClientPut it requires a stub for every live server on the ring, where the source would follow a null pointer.
- Node.GossipNode.SendJoin: all handlers stamp the joiner with one time; all nodes use one hash function.
- Node.GossipNode.JoinNetwork: the joiner is another node than the receiver, and its stub leads to the node object of that name.
- Node.GossipNode.SendGossip: ends with the messages on their way; their arrival is the receiver's Gossip handler, and delay and duplication are in FailureDetector.
- Client.KeyValueStoreClient.Put: follows the redirections of a finite list of answers; endless redirection is not modelled.
- Client.KeyValueStoreClient.PutAfterGet: the failing reads before the one that succeeds are a finite list, with the server picked after each of them.
- RingWalks.ConsistentHashingRing.AddNode: the node count is unbounded, without the overflow of a 32-bit int.
- Leaving.LeaveConserves: assumes that the leaver owns exactly its virtual positions; with colliding names a removal also frees positions of others.
- Joining.JoinRunConserves: assumes that all peers had the same ring and owned what they held; JoinRunLosesNothing needs neither, and says correspondingly less.
- Data races: the code has no locks; every handler and every remote call is one atomic step here.
- `std::hash`: any function from names to 64-bit positions.
- gRPC channels, protobuf messages, deadlines, and console output: a call is lost, loses its answer, or arrives.
- Wall clocks: whole nanoseconds on one global clock that never goes back.
- File opening and its failures, `get_nodes_config` and `write_nodes_config`: only the store's text is modelled.
- A put whose clock names a server twice, in the laws stated on maps: the loops themselves are proved on arbitrary lists.
- The client's terminal dialogue and its choice of random servers: the selected index and the servers picked are parameters.
- `AdminCmd`, the administrator program, the command line tools, the performance tests and everything under `example/`.
- Merkle trees and hinted hand-off: the first is not implemented, and of the second only the longer walk of the quorum loops is.
