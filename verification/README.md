# Verified schedules, planners and coordination of ruCCL

ruCCL moves tensors between ranks. It has ring and tree schedules at three levels (ranks of one
process, peers of one node, nodes of a cluster), a topology planner that chooses rings, cycles and
hierarchies, an orchestrator that forms groups of nodes and agrees on each collective, a router and a
peer mesh for tagged messages, and a wire format. This project models these parts in Dafny and proves
what they promise: what every rank holds at the end, what holds in every run under every
interleaving, which plans are optimal, and which byte strings mean which frames.

A tensor is a sequence over an arbitrary type and a kernel an arbitrary binary function. Most results
about schedules assume no law of the kernel, since floating-point addition is not associative; where
associativity or commutativity is used, the lemma says so. Code that works by changing things step by
step is written as methods with loops, on arrays or on the fields of a class; code under a lock or
between nodes is a state machine over its atomic steps, and its theorems range over all runs.

| file | part of ruCCL |
|---|---|
| `RingMath.dfy`, `FoldOrder.dfy`, `Layout.dfy`, `Transpose.dfy`, `ChunkedOutput.dfy`, `Bytes.dfy`, `Numbers.dfy`, `Wrappers.dfy`, `Lexicographic.dfy` | shared vocabulary: folds round a ring and in any order, partitions, exchanges, chunked outputs, little-endian numbers, orders |
| `InProcessRing.dfy`, `InProcessAllToAll.dfy`, `TransferCounts.dfy` | collectives between the ranks of one process and what their counters count |
| `NativeRing.dfy`, `Rendezvous.dfy` | the device-resident ring and the rendezvous that runs it once for all ranks |
| `LocalRing.dfy`, `TreeReduce.dfy`, `TreeFamilies.dfy`, `LocalBroadcast.dfy`, `BroadcastAnswers.dfy` | collectives between the peers of one node |
| `RingOrder.dfy` | in which order the rings add up |
| `NodeRing.dfy`, `NodeRingTensor.dfy`, `RootedTree.dfy`, `RootedReduce.dfy`, `RootedBroadcast.dfy`, `TreeAllReduce.dfy`, `SyncBarrier.dfy`, `DataService.dfy` | ring, tree and star between nodes, what their services have on offer, and the barrier |
| `CollectiveRounds.dfy`, `RootFirst.dfy`, `MixedRounds.dfy` | collectives of any kind between nodes, one after another |
| `Agreement.dfy`, `Disagreement.dfy`, `Orchestrator.dfy`, `Membership.dfy`, `GlobalState.dfy` | the orchestrator: agreement rule, group state machine, what members are told, mutable state |
| `ShortestPath.dfy`, `Topology.dfy`, `RingSearch.dfy`, `RingSelection.dfy`, `RankCycles.dfy`, `Hierarchy.dfy` | the topology planner |
| `LinkCosts.dfy`, `RingQuality.dfy`, `CycleQuality.dfy` | what its times, rings, cycles and leaders mean for the links |
| `Router.dfy`, `PeerMesh.dfy`, `PeerInbox.dfy`, `Routing.dfy`, `SequenceAgreement.dfy`, `FrameCodec.dfy` | messages: router, peer mesh, collective routing, sequence agreement, wire format |
| `RoutedFrames.dfy`, `RoutedRows.dfy`, `FrameRules.dfy` | which frames are accepted and written, field by field |
| `ReduceScatter.dfy` | in which order a rank's shard is combined: direct, ring by channel, hierarchical |
| `RowExchange.dfy`, `ShardedChunks.dfy` | collectives in rounds that fit a byte budget |

`dafny verify dfyconfig.toml` checks everything.

Five promises turned out to hold only under a condition, which is proved exactly:

- The slices of the rings between peers and between nodes partition the axis if and only if
  `(n - 1) * ceil(s / n) <= s`. The callers only check `s >= n`
  (`LocalRing.SlicesPartitionExactlyWhenTheyFit`, `LocalRing.SlicesMayOverrun`, `NodeRingTensor.SliceTensor`).
- A direct peer send that returns Ok was enqueued exactly once if and only if the peer names an element
  type in each of its own sends. A send without one looks like an acknowledgement
  (`PeerMesh.OkMeansEnqueuedExactlyWhenTyped`, `PeerMesh.UntypedSendCompletesAForeignSend`).
- A broadcast among the peers of a node leaves every copy on its peer's device if and only if the tensor
  that a peer handed in is on the device this peer registered with; nothing checks that it is. What
  comes from other nodes always ends at home, because there the first caller is the root
  (`LocalBroadcast.CopiesAtHomeExactlyWhen`, `LocalBroadcast.CopyMayStray`).
- The success of a collective round and its root never depend on the order of arrival. The error that is
  named is independent of it as well if and only if no submission is a broadcast, or all are broadcasts
  of one strategy, or no broadcast has arity zero and no two that bring a tensor share a strategy
  (`Agreement.AnswerIgnoresArrivalExactlyWhen`, `Agreement.ErrorDependsOnArrivalOrder`).
- Reduce-scatter in chunks gives the unchunked shard for every kernel if and only if the tuning lists
  the ranks in the same order for the whole shard and for each chunk. The algorithm depends on the
  payload's size and the ring on the element's channel, so the order can differ; an associative and
  commutative kernel does not notice (`ShardedChunks.ChunkingIsExactExactlyWhen`,
  `ShardedChunks.ChunkedShardIsWhole`, `ShardedChunks.ChunkingMayChangeTheShard`).

## Model

| member | source | states |
|---|---|---|
| `Layout.BalancedRanges` | src/rank/layout.rs:7-19 | The ranges are contiguous, in order and cover exactly 0..length for every length and every positive number of parts; lengths differ by at most one and the longer ranges come first |
| `Layout.WholeConcatenation` | src/rank/layout.rs:7-19 | A row cut at a partition and laid end to end is the row again: no element is lost or repeated by chunking |
| `InProcessRing.ReducePhase` | src/in_process/collective/reduction.rs:73-113 | After world - 1 in-place reducing steps every element of every rank's buffer is the partial fold its position on the ring predicts, with no law of the kernel assumed; steps and kernel launches are counted exactly |
| `InProcessRing.GatherPhase` | src/in_process/collective/reduction.rs:115-142 | Every rank ends with, for each chunk, exactly the values the chunk's owner held before the phase |
| `InProcessRing.RingAllReduce` | src/in_process/collective/reduction.rs:66-142 | All ranks end with the same buffer: chunk c is x_c+(x_{c-1}+(...+x_{c+1})) in exactly this order, for every world of two or more, every length, shorter than the world included |
| `InProcessRing.AllReducedIsSum` | src/in_process/collective/reduction.rs:52-150 | With an associative and commutative kernel every element is the plain sum over the ranks, whatever chunk it fell into |
| `RingOrder.InProcessOrder` | src/in_process/collective/reduction.rs:73-113 | Rank by rank: an element of chunk c is x_c + (x_{c-1} + (... + x_{c+1})), whatever the kernel |
| `TransferCounts.StepMovesARow` | src/in_process/collective/reduction.rs:73-142 | In every step of either phase the ranks together move exactly one whole row, which is what the byte counter counts |
| `InProcessRing.Collective.AllReduceSum` | src/in_process/collective/reduction.rs:52-150 | The public operation: foreign buffers and over-long rows are refused without touching anything, one rank is a no-op, otherwise every buffer becomes the same exact fold; the byte counter or its overflow is returned |
| `InProcessRing.RingReduceScatter` | src/in_process/collective/reduction.rs:165-238 | Rank r gets block r of what all-reduce would leave, in fresh buffers; the inputs are not among what the method may write |
| `InProcessRing.Collective.ReduceScatterSum` | src/in_process/collective/reduction.rs:152-245 | The public operation with its divisibility, length and overflow errors |
| `InProcessRing.AllReduceIsGatherOfScatter` | src/in_process/collective/reduction.rs:52-245 | All-gather of reduce-scatter is all-reduce, element for element, with no law of the kernel assumed |
| `InProcessRing.RingAllGather` | src/in_process/collective/exchange.rs:35-86 | Every rank ends with all ranks' inputs laid end to end in rank order |
| `InProcessRing.Collective.AllGather` | src/in_process/collective/exchange.rs:35-86 | The public operation with its overflow errors |
| `LocalRing.GetRingReduceSliceRanges` | src/local/all_reduce/ring.rs:176-193 | The slicing loop produces equal slices of the rounded-up size with only the last end pulled back |
| `LocalRing.SlicesPartitionExactlyWhenTheyFit` | src/local/all_reduce/ring.rs:176-193 | The slices partition 0..s if and only if (n - 1) * ceil(s / n) <= s; the callers' guard s >= n is not enough |
| `LocalRing.SlicesMayOverrun` | src/local/all_reduce/ring.rs:176-193 | The concrete failure: s = 5 and n = 4 give 4..6 and then 6..5 |
| `LocalRing.GetSliceDim` | src/local/all_reduce/ring.rs:76-83 | The chosen axis is the last of the longest ones |
| `LocalRing.Cycle` | src/local/all_reduce/ring.rs:94-132 | Doing the hops of one cycle one after another, taking slices out of the tensors and putting them back in place, equals the simultaneous ring step |
| `LocalRing.AllReduceSlices` | src/local/all_reduce/ring.rs:89-133 | After both phases every peer holds, for every slice, the same fold round the ring |
| `LocalRing.AllReduceSumRing` | src/local/all_reduce/ring.rs:12-73 | The whole operation: every peer gets the same total of whole tensors on its own device, the ring total where the slices fit and the binary tree's where the axis is shorter than the number of peers; otherwise the answer is a slice that the axis does not have |
| `LocalRing.RingTotalIsSum` | src/local/all_reduce/ring.rs:12-73 | With an associative and commutative addition the total is the plain sum |
| `RingOrder.LocalOrder` | src/local/all_reduce/ring.rs:89-133 | Rank by rank and for any kernel: slice c starts with rank c and rank c - 1 adds last |
| `NativeRing.RingAllReduce` | src/in_process/native.rs:54-76 | The ring driven through the device's exchange primitive leaves every rank with the same fold of every chunk |
| `NativeRing.LocalSlicesAreNativeChunks` | src/in_process/native.rs:54-76 | Where the world divides the axis the local ring and the native ring cut and therefore total alike |
| `NativeRing.InProcessIsNativeShiftedByOne` | src/in_process/native.rs:54-76 | The in-process schedule is the native schedule with every rank renamed to its predecessor, exactly, with no law assumed |
| `NodeRing.TransfersAreDeterministic` | src/global/node/ring.rs:124-179 | In every interleaving of uploads and downloads the contents of transfer t from position p depend on p and t only |
| `NodeRing.DownloadsMatchTheirReceiver` | src/global/node/ring.rs:140-179 | A download brings exactly the slice index its receiver is about to write, from the same cycle |
| `NodeRing.FinishedNodesHoldEverySum` | src/global/node/ring.rs:53-114 | Every node that ran both phases holds the same ring fold of every slice, and no node ever reports an incoherent tensor |
| `NodeRing.FinishedSlicesAreSums` | src/global/node/ring.rs:53-114 | With an associative and commutative addition these folds are the sums over all nodes |
| `NodeRing.NeverStuck` | src/global/node/ring.rs:140-179 | As long as some node is unfinished a step is possible, also when an upload returns only once it was downloaded: the slowest node can upload, download or finish its cycle, or a neighbour in the same cycle can upload or download for it |
| `NodeRing.RunsAreFinite` | src/global/node/ring.rs:124-179 | Every run takes at most three steps per node and transfer |
| `NodeRingTensor.SliceTensor` | src/global/node/ring.rs:66-75 | A node's tensor is cut into as many consecutive slices as there are nodes if and only if its axis is no shorter than their number n and (n - 1) * ceil(s / n) <= s; a shorter axis is refused as impossible, otherwise a slice is asked for that the axis does not have |
| `NodeRingTensor.FinishedNodesHoldTheTotal` | src/global/node/ring.rs:53-114 | In every run whoever finishes both phases has, joined, the ring total of the whole tensors |
| `NodeRingTensor.FinishedNodesHoldTheSum` | src/global/node/ring.rs:53-114 | With an associative and commutative addition that is the sum of all tensors, element by element |
| `CollectiveRounds.RoundsDoNotMix` | src/global/node/sync.rs:35-62 | Whatever the collectives, if each of them leaves nothing on offer when everybody is done with it, the closing barrier keeps them apart: every step of a node is the step of its own collective run alone from an empty service |
| `CollectiveRounds.BarriersCloseRounds` | src/global/node/sync.rs:35-62 | Whoever is in a barrier is done with its round's collective, in a state that this collective alone leads to |
| `CollectiveRounds.WorkGoesOn` | src/global/node/sync.rs:35-62 | Outside the barrier a node can do whatever it could do in its collective alone, and every run goes on with it |
| `RootFirst.PositionsFollowTheTree` | src/global/node/rooted.rs:14-17 | Root first, the others ascending: the renaming used here is the order in which the tree lists its nodes |
| `RootFirst.ReachedPositioned` | src/global/node/rooted.rs:8-66 | What nodes and services can reach with any node as the root they can reach, position for position, with the root in front |
| `MixedRounds.EveryRoundIsRight` | src/global/node/base.rs:125-253 | Ring, tree and star all-reduces, rooted reduces and rooted broadcasts in any sequence, with any roots and transfer numbers, in every interleaving: whoever has reached a round's barrier holds exactly that round's result |
| `MixedRounds.OnlyTheRoundIsOnOffer` | src/global/node/base.rs:125-253 | Whenever a node works, everything on offer anywhere is a transfer of its own round, with its contents, although rings number from 0, tree all-reduces use 0 and 1 and rooted collectives any number |
| `MixedRounds.TaskCleansUp` | src/global/node/base.rs:125-253 | Each kind of collective leaves nothing on offer once every node is done with it |
| `ShortestPath.Search` | src/rank/topology.rs:655-686 | One Dijkstra over saturating costs answers with the least cost over all permitted paths, or nothing exactly when every permitted path saturates |
| `ShortestPath.SomeExactlyWhenReachable` | src/rank/topology.rs:644-686 | An answer exists if and only if some permitted path costs less than the largest u64 |
| `ShortestPath.AnswersUnique` | src/rank/topology.rs:644-686 | The answer is unique, so the search is a function of the graph and its ends |
| `ShortestPath.SaturationOnlyCaps` | src/rank/topology.rs:1018-1035 | Adding with saturation along a path gives the true total capped at the largest u64, so saturation never reorders cheaper paths |
| `Topology.CollectiveTopology.AddLink` | src/rank/topology.rs:277-296 | Range, self-link and zero-bandwidth errors in the source's order and without effect; otherwise the cost is stored in both directions and nothing else changes |
| `Topology.CollectiveTopology.AddRailLink` | src/rank/topology.rs:315-341 | The same for one rail, creating missing lower rails empty |
| `Topology.CollectiveTopology.ShortestTransferTimeForRail` | src/rank/topology.rs:644-686 | Least transfer time over all routes of one rail or of the plain links, or none when there is none |
| `Topology.CollectiveTopology.ShortestTransferTimeWithin` | src/rank/topology.rs:787-829 | Least transfer time over routes that stay inside the allowed ranks; a rank reaches itself for nothing even when not allowed |
| `LinkCosts.RailAnswersMean` | src/rank/topology.rs:644-686 | Link by link: a link takes its latency and the least whole nanoseconds in which its bandwidth carries the bytes, as far as a u64 goes; a rail uses its own link where it has one and the plain one otherwise; and the time answered is that of the quickest such route, while without an answer every route takes the u64 limit |
| `LinkCosts.WithinAnswersMean` | src/rank/topology.rs:787-829 | The same over the plain links between the allowed ranks only |
| `LinkCosts.LinkTimeMeans` | src/rank/topology.rs:1018-1036 | The time of one link, rounded up to whole nanoseconds, for every size a usize can name |
| `RingSearch.RingCollector.CollectRings` | src/rank/topology.rs:916-946 | The backtracking search appends every closed ring that starts with the current prefix exactly once, in one of its two directions, and puts order and used back as they were |
| `RingSearch.OneDirectionIsCandidate` | src/rank/topology.rs:916-946 | Of a closed ring from rank 0 and its reversal, exactly one is a candidate: the one that reads smaller |
| `RingSelection.Representative` | src/rank/topology.rs:404-419 | Every closed ring is, up to rotation and reversal, one of the candidates, with the same score |
| `RingSelection.BackwardsScore` | src/rank/topology.rs:459-479 | A ring scores the same in both directions |
| `RingSelection.RotationScore` | src/rank/topology.rs:459-479 | A ring scores the same from every starting rank |
| `RingSelection.SelectDiverseRings` | src/rank/topology.rs:960-1008 | The greedy selection picks min(maximum, number of distinct candidates) rings, each one best by (least reused edge, least total reuse, score, lexicographic order) among those not yet chosen; it fails exactly when there is no candidate |
| `RingSelection.FirstPickHasBestScore` | src/rank/topology.rs:960-1008 | The first ring chosen has the greatest score of all candidates, ties going to the lexicographically least |
| `RingSelection.BestRingOrders` | src/rank/topology.rs:404-457 | Up to nine ranks the first order returned scores best among all closed rings of the graph and an error means that there is none. Above that the orders are the greedy selection among exactly the rings that the nearest-neighbour walk (widest link, then quickest, then lowest rank) finds from some rank, in canonical form, and an error means that it finds none. For every size the orders are distinct closed rings, at most as many as asked for |
| `RingQuality.ScoreMeans` | src/rank/topology.rs:459-479 | One ring scores no less than another if and only if its narrowest link is no narrower, among equals its bandwidths add up to no less, and among those its latencies to no more |
| `RingQuality.FirstRingIsWidest` | src/rank/topology.rs:404-419 | So up to nine ranks no closed ring of the graph has a wider narrowest link than the first one returned, none that ties there has more bandwidth in all, and none that ties again less latency |
| `RingQuality.UsageCounts` | src/rank/topology.rs:989-1003 | The usage table says how many of the rings chosen before pass each link, in either direction |
| `RingQuality.BeatsMeans` | src/rank/topology.rs:960-1008 | One candidate is chosen over another if and only if its most used link is used no more, then its links are used no more in all, then its links are better, then it comes first |
| `RingQuality.PicksAreFreshest` | src/rank/topology.rs:960-1008 | Every ring chosen is, in these terms, the best of the candidates left |
| `RingQuality.PreferredNextMeans` | src/rank/topology.rs:423-444 | A step of the heuristic walk takes the widest link to an unvisited rank, then the one of least latency, then the least rank |
| `RingSelection.GreedyPathsAgree` | src/rank/topology.rs:423-444 | Walks of preferred links from one rank agree as far as both go, so the heuristic has one outcome per start |
| `RingSelection.RotateRingToZero` | src/rank/topology.rs:948-958 | Rotating to rank 0 and choosing a direction gives the ring's candidate |
| `RingQuality.CanonicalMeans` | src/rank/topology.rs:948-958 | The result is the given ring read from rank 0, onwards or backwards, whichever comes first |
| `RankCycles.RankCycleSearch.Collect` | src/rank/topology.rs:868-907 | The exhaustive backtracking search keeps the least of (largest hop, total, order) over all tours that extend the prefix, and restores its state |
| `RankCycles.BestRankCycleOrder` | src/rank/topology.rs:831-866 | Up to nine ranks the result is the tour of least (largest hop, total), ties broken lexicographically, and none exactly when no tour is possible. Above that it is the tour of always the closest unused rank, ties to the lower rank, and none exactly when that walk has nowhere to go or no way back |
| `RankCycles.NearestPathsAgree` | src/rank/topology.rs:845-862 | Nearest-neighbour walks agree as far as both go, so the walk has one outcome |
| `CycleQuality.BestTourMeans` | src/rank/topology.rs:831-866 | In times of transfers: the slowest hop of the chosen cycle is no slower than that of any other cycle, among equals its hops take no more in all, and among those it comes first |
| `CycleQuality.NearestTourMeans` | src/rank/topology.rs:845-862 | Above nine ranks every hop goes to the unvisited rank that is quickest to reach, and the last rank reaches the first |
| `Hierarchy.ValidateHierarchyGroups` | src/rank/topology.rs:2240-2279 | The validator accepts if and only if the groups are a disjoint cover of all ranks without empty or repeated members |
| `Hierarchy.Components` | src/rank/topology.rs:713-741 | For one threshold two ranks share a group if and only if a path of links no slower than the threshold joins them; groups are sorted and in order of their least rank |
| `CycleQuality.ConnectedMeans` | src/rank/topology.rs:713-741 | The groups are joined by chains of links each of which carries the bytes within the threshold |
| `Hierarchy.ChooseLeader` | src/rank/topology.rs:760-772 | The leader has the least total in-group cost, ties to the lower rank; there is none exactly when no member reaches all others inside the group |
| `CycleQuality.LeaderMeans` | src/rank/topology.rs:760-772 | The leader reaches every member inside its group; of all members that do, none takes less time in all, and none that takes as long is a lower rank |
| `Hierarchy.OptimizeHierarchy` | src/rank/topology.rs:755-785 | Each group is sorted with its leader exchanged to the front, the groups follow the leaders' cycle (the best one for up to nine groups, the nearest-neighbour one above), and the result is still a cover; no result means that a group has no leader or the leaders no such cycle |
| `Hierarchy.HierarchyCandidates` | src/rank/topology.rs:698-753 | Every candidate is a nontrivial cover that comes from the components of some link time, and every link time is represented unless its components are trivial or cannot be optimized; candidates are distinct |
| `Router.RunInv` | src/rank/network.rs:2722-2853 | After every history of accepted requests the two frames of a matched pair have the same tag, the send is for the rank that receives, and the receive names the sender or nobody; of a queued send and a queued receive one of the three fails; sends and receives with the same ranks and tag are matched in their order of arrival, and what is still queued is younger than what was matched |
| `Router.NothingIsLostOrDuplicated` | src/rank/network.rs:2722-2768 | Every accepted send and receive is queued once or matched once, and nothing else is held |
| `Router.PointToPointRouter.RouteRequest` | src/rank/network.rs:2722-2768 | The router object on its two queues follows that history: exactly what is written to which stream and what the caller is told, for every kind of request and every validation error |
| `RoutedFrames.AcceptedExactlyWhen` | src/rank/network.rs:2770-2846 | A request is accepted if and only if it comes from this connection's rank and group, names no root, and has the ranks, payload and element type its kind needs |
| `RoutedFrames.SendWrites` | src/rank/network.rs:2722-2930 | An accepted send is receipted to its sender under its own number; if a queued receive asks for it, the oldest such one gets the sender's payload, type, count, tag and rank under the number of the receive, or nothing and an error where type or count differ |
| `RoutedFrames.ReceiveWrites` | src/rank/network.rs:2722-2930 | A receive writes nothing until a send that it asks for is there, and then gets the oldest one in the same way |
| `RoutedFrames.ControlWrites` | src/rank/network.rs:2722-2930 | A heartbeat is answered under its number, a farewell is not, and an abort ends the group |
| `PeerMesh.DoneMeansEnqueuedOrCollided` | src/rank/peer.rs:268-437 | In every run a completed send was enqueued exactly once at the peer, unless the peer made a send without an element type under the same number |
| `PeerMesh.OkMeansEnqueuedExactlyWhenTyped` | src/rank/peer.rs:268-367 | Ok means enqueued exactly once, in all runs, if and only if the peer names an element type in each of its own sends |
| `PeerMesh.UntypedSendCompletesAForeignSend` | src/rank/peer.rs:709-730 | The concrete failure: a send without an element type is taken for an acknowledgement and completes the other end's send of that number |
| `PeerMesh.UntypedSendsAreNeverEnqueued` | src/rank/peer.rs:709-730 | A send without an element type is never delivered, in any run |
| `PeerMesh.InboxKeepsSendOrder` | src/rank/peer.rs:731-770 | A peer's frames reach the inbox in the order they were sent, each at most once, under failures and corrupt frames |
| `PeerMesh.FailureIsHeard` | src/rank/peer.rs:824-839 | In every run a failure is heard by every send that waits, so none waits at an end that has failed, and an answer once given stays |
| `PeerInbox.Inbox.TryReceive` | src/rank/peer.rs:394-437 | A receive takes the first frame of its rail, tag and source (or any source), leaves the others in order, and reports a contract mismatch after removing the frame; a failed mesh refuses |
| `PeerInbox.TakingFirstKeepsOrder` | src/rank/peer.rs:394-437 | Frames of one rail, source and tag are always taken in arrival order, even by wildcard receives |
| `Agreement.AgreementHasNoOrder` | src/global/orchestrator/state.rs:312-354 | Whether a round agrees, and on which root, is decided by the set of submissions alone: a root is returned if and only if it is the root of that set, by a definition without any order |
| `Agreement.ArrivalOrderDoesNotMatter` | src/global/orchestrator/state.rs:312-354 | Two arrival orders of the same submissions succeed or fail together and name the same root, because peers belong to one node only |
| `Agreement.ErrorDependsOnArrivalOrder` | src/global/orchestrator/state.rs:312-354 | Which error is named does depend on who came first: a concrete pair of orders |
| `Agreement.AnswerIgnoresArrivalExactlyWhen` | src/global/orchestrator/state.rs:312-354 | All arrival orders of a set of submissions get the same answer, error included, if and only if no submission is a broadcast, or all are broadcasts of one strategy, or no broadcast has arity zero and no two that bring a tensor share a strategy |
| `Agreement.AlwaysMismatch` | src/global/orchestrator/state.rs:312-354 | Mixed submissions of the last kind are always answered with a mismatch of parameters, whoever came first |
| `Agreement.AgreeCollective` | src/global/orchestrator/state.rs:312-354 | The scanning method over the submissions and the unordered map of peers computes exactly this agreement |
| `Disagreement.AnswerMeans` | src/global/orchestrator/state.rs:312-354 | Which answer a round gets, error by error: the first submission sets the kind, and in a broadcast the first submission that strays or brings a second tensor decides |
| `Orchestrator.ProcessInv` | src/global/orchestrator/state.rs:126-307 | Every request keeps the membership maps on the same nodes, sessions, addresses and peers unique, the global peer count the sum over nodes, a failed group without anything pending, and every waiter registered once |
| `Orchestrator.DisconnectInv` | src/global/orchestrator/state.rs:105-123 | A lost socket keeps the same invariant |
| `Orchestrator.EveryRequestHasOneReply` | src/global/orchestrator/state.rs:105-307 | In every run each processed request is waiting in exactly one list or has had exactly one reply issued, counted with multiplicity |
| `Orchestrator.NewEpochOnlyWhenEmpty` | src/global/orchestrator/state.rs:119-122 | A failure is forgotten and node numbers start again only when no node is registered any more |
| `Orchestrator.FailedGroupRefuses` | src/global/orchestrator/state.rs:105-138 | In every run, from a failure on and as long as somebody is still registered, the group stays failed and confirms neither a registration nor a round |
| `Orchestrator.CompletedRoundAnswersEveryone` | src/global/orchestrator/state.rs:277-307 | The submission that completes a round issues one identical reply to every registered session and to nobody else |
| `Orchestrator.RoundIsAgreed` | src/global/orchestrator/state.rs:291-302 | That reply begins the round if and only if the submissions have a root, names that root, and only then uses up a transfer number |
| `Orchestrator.TransferIdsIncrease` | src/global/orchestrator/state.rs:295-299 | In every run the transfer numbers handed out start at 2 and never go down from one reply to the next; two replies share a number only inside one round, where they say the same, go to different sessions and have nothing in between |
| `Membership.RegistrationRefusedExactlyWhen` | src/global/orchestrator/state.rs:204-243 | A registration is accepted if and only if it announces members and peers, its session and address are new, the group is not complete, no peer is named twice and the number announced is the group's; otherwise the first of these decides the error |
| `Membership.RegistrationAnswers` | src/global/orchestrator/state.rs:204-275 | The registration that completes a group sends one acknowledgement to each registered session and to nobody else: with that session's own node number, the address of every registered node and the number of peers of all nodes; an earlier one sends nothing and a refused one changes nothing |
| `Membership.OnlyRegistrationsAcknowledge` | src/global/orchestrator/state.rs:105-307 | No other request and no lost socket sends an acknowledgement of a registration |
| `Membership.BeginRefusedExactlyWhen` | src/global/orchestrator/state.rs:277-290 | A round is open exactly to the members of a complete group that have not submitted yet, with the error otherwise |
| `Membership.LossAnswers` | src/global/orchestrator/state.rs:105-201 | When a member goes it leaves every record, everybody who waited is told of the loss in order, and the group has failed, or is as at the start if nobody is left |
| `GlobalState.GlobalCollectiveState.ProcessRequest` | src/global/orchestrator/state.rs:126-162 | The mutable state object follows the request's specification on every field, keeps the invariant, and offers exactly the issued replies to the bounded queues of open sessions |
| `GlobalState.GlobalCollectiveState.Register` | src/global/orchestrator/state.rs:203-275 | Registration with its errors in the source's order, before any change; the last node to come answers all who wait |
| `GlobalState.GlobalCollectiveState.Begin` | src/global/orchestrator/state.rs:277-307 | A submission with its errors; the last one completes the round |
| `GlobalState.GlobalCollectiveState.Finish` | src/global/orchestrator/state.rs:165-201 | Leaving fails everyone who waits, in the source's order, then acknowledges |
| `GlobalState.GlobalCollectiveState.Disconnect` | src/global/orchestrator/state.rs:105-123 | The same for a lost socket, whose queue is removed afterwards |
| `GlobalState.QueuesHoldOwnReplies` | src/global/orchestrator/state.rs:20-34 | Every open session's queue grows by its own replies in the order they were issued until it holds 64, and loses the rest; all of them arrive if and only if they fit |
| `SyncBarrier.BarrierIsSafe` | src/global/node/sync.rs:27-71 | With messages late, lost or repeated: whoever finished generation g did so after every member entered g, two nodes are at most one generation apart, and only the generations completed and completed + 1 are remembered |
| `SyncBarrier.ReturnsExactlyWhenAllHeard` | src/global/node/sync.rs:47-62 | A node that has sent its own messages may return if and only if it has heard from every member about its generation, however early; no early message is lost |
| `SyncBarrier.RunInv` | src/global/node/sync.rs:27-71 | The invariant over every run: rounds hold exactly the members heard from, for generations not yet completed |
| `SyncBarrier.SyncService.AddSyncingPeer` | src/global/node/sync.rs:27-33 | A message about a finished generation is ignored, any other is remembered once |
| `SyncBarrier.SyncService.TryReturn` | src/global/node/sync.rs:51-60 | The test under the lock and what returning changes |
| `Rendezvous.EveryCallGetsItsGeneration` | src/in_process/native.rs:146-239 | For any number of threads, several perhaps on one rank: a call that leaves has its rank's share of the outcome of the very generation it deposited into, made of that generation's submissions, its own among them; nobody else takes that share |
| `Rendezvous.EarlierGenerationsAreComplete` | src/in_process/native.rs:146-239 | Every earlier generation was left by exactly one call of each rank |
| `Rendezvous.OutputIsThere` | src/in_process/native.rs:228-230 | The output a waiting thread expects is always present |
| `Rendezvous.NeverStuck` | src/in_process/native.rs:162-237 | While a generation drains some waiting call can leave; otherwise some rank's slot is open |
| `Rendezvous.RunsGoOn` | src/in_process/native.rs:162-237 | Whatever is enabled can be done, and the run goes on: the last deposit finds every slot full and runs the collective, a caller that leaves finds its output |
| `Rendezvous.OutcomesAreUniform` | src/in_process/native.rs:179-218 | All ranks succeed together exactly when operations agree, all preparations succeeded and the executor returned one output per rank; otherwise all ranks hear the same error |
| `Rendezvous.OutcomesHeard` | src/in_process/native.rs:179-218 | What each rank hears: its own output of the common run, or the first of these: that the operations differ, the least failing rank's error, the executor's error, the wrong number of outputs |
| `Rendezvous.NativeCommunicator.Deposit` | src/in_process/native.rs:168-227 | The in-place deposit on the locked state, running the collective when it is the last one |
| `Rendezvous.NativeCommunicator.TakeOutput` | src/in_process/native.rs:228-238 | Taking an output, and reopening the group when the last one leaves |
| `Transpose.ExchangedTwice` | src/in_process/collective/all_to_all.rs:51-136 | Exchanging what was received with the transposed counts gives every rank its own row back, so no element is lost, invented or moved |
| `Transpose.ExchangedPiece` | src/in_process/collective/all_to_all.rs:89-113 | Block s of what d receives is block d of what s held, for every count matrix |
| `InProcessAllToAll.AllToAllV` | src/in_process/collective/all_to_all.rs:51-136 | The nested loops with running offsets leave each rank exactly the exchange of the inputs, in fresh buffers; shape, length and overflow errors in the source's order |
| `TransferCounts.RemoteMeans` | src/in_process/collective/all_to_all.rs:51-136 | What the byte counter counts is everything but what each rank holds for itself |
| `InProcessAllToAll.AllToAll` | src/in_process/collective/all_to_all.rs:11-49 | Equal shards: the same exchange with uniform counts; a length the world does not divide is refused |
| `Routing.CountsRoundTrip` | src/rank/payload.rs:67-77 | Little-endian count prefixes decode to the counts they encode |
| `Routing.CountsReencode` | src/rank/network.rs:3253-3260 | Any prefix re-encodes to the same bytes |
| `Routing.DecodedPayload` | src/rank/network.rs:3235-3284 | A frame that is accepted is exactly its encoded counts followed by its data |
| `Routing.DecodeWritten` | src/rank/payload.rs:79-129 | A payload of encoded counts and matching data is accepted and read back as written, on the request and on the response side |
| `Routing.RouteAllToAllV` | src/rank/network.rs:3170-3233 | Reads every frame in rank order, then builds every response as its column of counts and its blocks; which error ends the routing |
| `Routing.RoutingTwiceRestores` | src/rank/network.rs:3170-3233 | Handing the responses back in routes successfully and returns every original payload, prefix included |
| `Routing.BytesFollowElements` | src/rank/network.rs:3203-3219 | On bytes the coordinator delivers what the in-process exchange delivers on elements |
| `Routing.RouteAllToAll` | src/rank/network.rs:3120-3148 | Equal shards on bytes, with the payload and divisibility errors |
| `Routing.EqualRoutingTwiceRestores` | src/rank/network.rs:3120-3148 | The equal exchange is its own inverse: the responses handed back in pass every check again, and every second response is framed with the rank's original payload |
| `RoutedRows.ReadExactlyWhen` | src/rank/network.rs:3235-3284 | A frame is read as a row if and only if its payload is one eight-byte count per rank followed by as many elements as they name together, which its header announces |
| `RoutedRows.AnswerCarries` | src/rank/network.rs:3193-3233 | An answer of the unequal exchange carries, under the requests' number, the counts and the bytes that each source holds for that rank, source by source |
| `RoutedRows.AnsweredExactlyWhen` | src/rank/network.rs:3193-3233 | It is built if and only if its counts and bytes fit one frame, with the error otherwise |
| `RoutedRows.ShardAnswerCarries` | src/rank/network.rs:3120-3148 | An answer of the equal exchange carries that rank's shard of every payload, source by source |
| `RoutedRows.ShardAnsweredExactlyWhen` | src/rank/network.rs:3120-3148 | It is built if and only if the shards fit one frame together and elements that are announced have a type |
| `RowExchange.NativeRowsChunked` | src/tensor_device/bounded_exchange.rs:60-147 | For every count matrix the rounds give exactly the unbounded exchange's rows and counts; the reports go from nothing to all rows sent and received; each error occurs exactly under its own condition |
| `RowExchange.RoundCountsMatch` | src/tensor_device/bounded_exchange.rs:129-130 | The per-round count check never fails |
| `RowExchange.PacketsFitBudget` | src/tensor_device/bounded_exchange.rs:94-110 | Every packet sent and everything received in a round fits the byte budget |
| `RowExchange.PeerRowsMeans` | src/tensor_device/bounded_exchange.rs:92-96 | A round takes as many rows for each peer as the budget allows for all peers, one if there are no rows |
| `RowExchange.RoundsMean` | src/tensor_device/bounded_exchange.rs:101-103 | There are as many rounds as the largest block needs and no more |
| `RowExchange.RoundDelivers` | src/tensor_device/bounded_exchange.rs:103-137 | What a source delivers in a round is the next chunk of the block it holds for this rank |
| `RowExchange.RowPrefix` | src/tensor_device/bounded_exchange.rs:150-155 | The prefix sums, one more than the counts |
| `ChunkedOutput.WriteChunk` | src/tensor_device/bounded_exchange.rs:133-138 | Each write lands on cells that were never written before and moves one source's block one round ahead |
| `ShardedChunks.NativeGatherChunked` | src/tensor_device/bounded_sharded.rs:83-113 | Gathering chunk by chunk gives the unchunked all-gather, the progress ends at all elements, and the number of chunks is exactly what is needed |
| `ShardedChunks.NativeScatterChunked` | src/tensor_device/bounded_sharded.rs:115-160 | Reduce-scatter chunk by chunk combines every element in the order that the tuning gives its own chunk; the progress ends at the whole shard, and the number of chunks is exactly what is needed |
| `ShardedChunks.ChunkedShardIsWhole` | src/tensor_device/bounded_sharded.rs:115-160 | With an associative and commutative kernel the chunked and the unchunked shard are equal, and both are the sum over the ranks, whatever the algorithms and rings |
| `ShardedChunks.ChunkingIsExactExactlyWhen` | src/tensor_device/bounded_sharded.rs:45-52 | Where the tuning lists the ranks differently for the shard and for a chunk, a kernel that remembers its operands tells the chunked shard from the unchunked one; where it does not, they are equal |
| `ShardedChunks.SamePlanSameShard` | src/tensor_device/bounded_sharded.rs:45-52 | The same lists give the same shard for every kernel, with no law assumed |
| `ShardedChunks.FixedTuningKeepsThePlan` | src/rank/device_collective/reduce_dispatch.rs:120-146 | One algorithm for every size, and on the ring a single ring, never change the lists |
| `ShardedChunks.ChunkingMayChangeTheShard` | src/tensor_device/bounded_sharded.rs:45-52 | A concrete shard that a commutative kernel combines differently in chunks: four ranks, two channels whose rings differ |
| `ReduceScatter.BlocksFor` | src/rank/device_collective/reduce_dispatch.rs:107-171 | Whatever algorithm the payload's size selects, and whichever channel carries the element, every rank contributes exactly once |
| `ReduceScatter.RingBlocks` | src/rank/device_collective/reduce_dispatch.rs:120-146 | Around a ring each rank adds on its own, from the shard's rank back to the one after it, on the ring of the element's channel |
| `ReduceScatter.GroupBlocks` | src/rank/device_collective/reduce_dispatch.rs:107-171 | In a hierarchy the groups do, from the shard's own group back to the one after it |
| `ReduceScatter.RingChannel` | src/rank/device_collective/reduce_scatter.rs:83-138 | The steps of one channel leave each rank with the fold backwards along the ring from itself |
| `ReduceScatter.ChannelFollowsItsOrder` | src/rank/device_collective/reduce_scatter.rs:83-138 | That fold is the shard in the order planned for the channel's ring, whatever the ring |
| `ReduceScatter.BackwardsIsRingFold` | src/rank/device_collective/hierarchical/reduce_scatter.rs:70-130 | Chaining the groups backwards from one's own is the ring fold of the groups' own folds |
| `ReduceScatter.AnyOrderSums` | src/rank/device_collective/reduction.rs:8-52 | Any order that uses every rank once computes the sum when the kernel associates and commutes |
| `ReduceScatter.SameOrderExactlyWhen` | src/rank/device_collective/reduce_dispatch.rs:107-171 | Two plans combine alike if and only if they list the same ranks in the same order, up to chaining the last rank of the last block |
| `ShardedChunks.PlanFits` | src/tensor_device/bounded_sharded.rs:91-97 | A nonempty plan has room for an element and a chunk of all ranks fits the byte budget |
| `ShardedChunks.PlanMeans` | src/tensor_device/bounded_sharded.rs:91-97 | The planned chunk is the largest one of which all ranks' shares fit the budget, with its two errors |
| `TreeReduce.TreeFoldIsLeftFold` | src/local/all_reduce/tree.rs:40-73 | By associativity alone the value at the root of the recursive tree is the left-to-right fold of the list |
| `TreeReduce.ZeroArityNeverShrinks` | src/local/all_reduce/tree.rs:48-72 | With arity 0 a level of parents equals the level below, so the recursion ends exactly for a positive arity or at most one tensor |
| `TreeFamilies.GroupsAre` | src/local/all_reduce/tree.rs:47-67 | Group i of a level is the fold of the arity + 1 tensors from place i * (arity + 1) on, the last group of those that are left |
| `TreeFamilies.FamiliesAre` | src/local/all_reduce/tree.rs:47-67 | The first peer of each group is the parent of the others |
| `TreeReduce.AllReduceInner` | src/local/all_reduce/tree.rs:40-88 | The recursion terminates, returns every peer exactly once on its own device with the tree's value, although the parents come back in another order and collect other children than they left |
| `TreeReduce.AllReduceSumTree` | src/local/all_reduce/tree.rs:13-33 | The resulting map holds for every peer the total on that peer's own device |
| `TreeReduce.Redistribute` | src/local/all_reduce/tree.rs:74-87 | Pairing group i with the i-th returned parent, whichever that is, still serves every child and parent once with the common value |
| `TreeReduce.ReduceInner` | src/local/reduce/tree.rs:42-76 | The reduced tensor has the tree's value and is on the first tensor's device |
| `TreeReduce.BroadcastInner` | src/local/broadcast/tree.rs:55-100 | Every peer gets the value exactly once, on its own device, except that the root's copy stays where the tensor was |
| `TreeReduce.BroadcastLandsAtHome` | src/local/broadcast/tree.rs:9-11 | All copies are at home if and only if the tensor came on the root's device |
| `LocalBroadcast.BroadcastOp.RegisterCall` | src/local/broadcast/op.rs:67-91 | A second tensor is refused without effect; otherwise the call is kept, its caller becomes the root if it brought a tensor, and the last call makes the operation ready |
| `LocalBroadcast.BroadcastOp.Broadcast` | src/local/broadcast/op.rs:126-166 | Every peer gets the tensor that the calls and the other nodes determine, moved to its own device, except that the root keeps it where it is; without a tensor, or with the root's or the parent's missing, the error is named |
| `LocalBroadcast.BroadcastOp.Execute` | src/local/broadcast/op.rs:102-124 | Every caller hears once, its own copy or the common error, and no copy is left over |
| `LocalBroadcast.BroadcastTree` | src/local/broadcast/tree.rs:14-49 | Through the tree, whatever order the devices come in, the result is the same map as sending from the root to each |
| `BroadcastAnswers.SourceReachesAll` | src/local/broadcast/op.rs:126-166 | On one node, or where the tensor comes from, every caller gets the tensor that was handed in, on the device of its last call; the root keeps it where it is |
| `BroadcastAnswers.DownloadReachesAll` | src/local/broadcast/op.rs:126-166 | Elsewhere every caller gets what was downloaded, in the same way |
| `LocalBroadcast.CopiesAtHomeExactlyWhen` | src/local/server.rs:438-448 | With or without other nodes, all copies are at home if and only if each tensor handed in was on the device its caller registered with; without one on this node they always are |
| `LocalBroadcast.CopyMayStray` | src/local/broadcast/op.rs:75-81 | The concrete failure: a caller registered with device 0 hands in a tensor on device 1, and its copy stays there |
| `LocalBroadcast.RootAnnouncedTheTensor` | src/global/orchestrator/state.rs:337-351 | In an agreed broadcast a node is the root if and only if it announced a tensor |
| `LocalBroadcast.EveryPeerGetsTheSource` | src/global/node/rooted.rs:48-66 | In every run of the nodes' broadcast, whoever finishes spreads the source's value to every peer of its node, at home under the same condition |
| `RootedTree.NeighborsAgree` | src/global/node/rooted.rs:8-23 | For every node set, root and arity or star: b is among a's children if and only if a is b's parent, and only the root has no parent |
| `RootedTree.EveryNodeMetOnce` | src/global/node/rooted.rs:8-23 | Walking down from the root meets every node of the set exactly once |
| `RootedTree.WithoutArityItIsAStar` | src/global/node/rooted.rs:8-23 | Without an arity every other node is a child of the root, in ascending order, and has no child itself |
| `RootedTree.PlacesFillInOrder` | src/global/node/rooted.rs:8-23 | With arity k no node has more than k children, and one has fewer only if no node after it in the order has any |
| `RootedTree.ChildrenAndParentsAgree` | src/global/node/rooted.rs:18-22 | The index arithmetic of windows and quotients is consistent for every arity |
| `RootedTree.ReduceAt` | src/global/node/rooted.rs:25-46 | One node's loop adds its children's values in child order; the first child that is lost or sends another shape ends it with its error; otherwise the root keeps the sum and any other node exposes it for one download |
| `RootedTree.ReducedIsPreorderFold` | src/global/node/rooted.rs:25-46 | By associativity alone what a node exposes is the fold of its subtree in preorder |
| `RootedTree.RootHoldsTheSum` | src/global/node/rooted.rs:25-46 | With commutativity as well the root ends with the sum of all inputs, in whatever order the tree visits them |
| `RootedReduce.OnlyTheRootKeepsTheSum` | src/global/node/rooted.rs:25-46 | In every interleaving the root ends with the tree's own sum and every other node with nothing; a node fails only by losing a child it had not added yet. No law is assumed when children are awaited in order |
| `RootedReduce.ExposuresServeTheParent` | src/global/node/rooted.rs:42-44 | At every moment a node's exposed sum is on offer until its parent added it, once; nothing else is on offer |
| `RootedReduce.NeverStuck` | src/global/node/rooted.rs:25-46 | While nobody has failed and somebody has not finished a node can move, also when the service makes each node wait for its download |
| `RootedReduce.RunsAreFinite` | src/global/node/rooted.rs:25-46 | Every run takes at most three steps per node |
| `RootedReduce.CompleteRunsReduce` | src/global/node/rooted.rs:25-46 | A run without failures ends with the sum at the root and every exposure used up |
| `RootedReduce.TookAllIsReduced` | src/global/node/tree.rs:36-63 | Adding the children's downloads as they finish gives what adding them in order gives, by associativity and commutativity |
| `TreeAllReduce.FinishedNodesHoldTheSum` | src/global/node/tree.rs:22-92 | In every interleaving, over a tree of any arity or the star of the centralized strategy, whoever finishes holds the sum of all tensors; a node fails only by losing a child or its parent |
| `TreeAllReduce.NeverStuck` | src/global/node/tree.rs:22-92 | While nobody has failed and somebody has not finished a node can move, also with a service that waits |
| `TreeAllReduce.RunsAreFinite` | src/global/node/tree.rs:22-92 | Every run takes at most six steps per node |
| `TreeAllReduce.CompleteRunsReachEveryone` | src/global/node/tree.rs:22-92 | A run without failures ends with the sum at every node and nothing on offer under either transfer number |
| `RootedBroadcast.FinishedNodesHoldTheRoots` | src/global/node/rooted.rs:48-66 | In every interleaving a node that finishes has the root's tensor; it fails only as a root without a tensor or by losing its parent |
| `RootedBroadcast.ExposuresServeTheChildren` | src/global/node/rooted.rs:62-64 | At every moment an exposure was downloaded once by each child that has the tensor and by nobody else; what is left is for the others, and it is gone exactly when all children have it |
| `RootedBroadcast.NeverStuck` | src/global/node/rooted.rs:48-66 | While nobody has failed and somebody has not finished a node can move, also when the service makes each node wait for its downloads |
| `RootedBroadcast.RunsAreFinite` | src/global/node/rooted.rs:48-66 | Every run takes at most three steps per node |
| `RootedBroadcast.CompleteRunsReachEveryone` | src/global/node/rooted.rs:48-66 | A run without failures ends with the root's tensor at every node and every exposure used up |
| `RootedBroadcast.NeighborsFollowThePlan` | src/global/node/rooted.rs:8-23 | A node's neighbours are the parent it downloads from and one child for each download of its exposure |
| `RootedTree.GetTreeTopology` | src/global/node/tree.rs:100-129 | The one-pass construction records every node's parent and window of children |
| `RootedTree.TopologyIsNeighbors` | src/global/node/tree.rs:100-129 | It is the rooted tree of the least node: both give the same answer for every node |
| `FrameCodec.HeaderRoundTrip` | src/rank/protocol.rs:254-308 | A valid header decodes from its 80 bytes, whatever follows them |
| `FrameCodec.HeaderReencodes` | src/rank/protocol.rs:276-308 | Any bytes whose header decodes begin with exactly what that header encodes to |
| `FrameCodec.FrameRoundTrip` | src/rank/protocol.rs:398-436 | Every valid frame decodes from its encoding |
| `FrameCodec.FrameReencodes` | src/rank/protocol.rs:398-436 | Any byte string that decodes as a frame re-encodes to itself |
| `FrameCodec.CodecIsBijection` | src/rank/protocol.rs:398-436 | Two byte strings that decode to the same frame are equal |
| `FrameCodec.NewFramesTravel` | src/rank/protocol.rs:388-404 | Every frame the constructor accepts can be encoded and arrives as itself, payload included |
| `FrameRules.EncodableExactlyWhen` | src/rank/protocol.rs:310-375 | A header can be encoded if and only if its flags are known ones on the opcodes that may carry them, its ranks lie in a nonempty world or are the wildcard, its payload is at most 2^30 bytes and present exactly with its flag, and the length is its elements' width times their count plus eight bytes per rank under the prefix flag |
| `FrameRules.FrameEncodableExactlyWhen` | src/rank/protocol.rs:398-404 | A frame if and only if, besides, its payload has the length and checksum of its header |
| `FrameRules.NewFrameExactlyWhen` | src/rank/protocol.rs:388-396 | The constructor accepts a payload if and only if the header is valid with the payload's flag, length and checksum written into it |
| `FrameRules.WireLayout` | src/rank/protocol.rs:254-274 | Every field lies at its place in the 80 bytes, numbers with the lowest byte first |
| `FrameCodec.Encode` | src/rank/protocol.rs:254-274 | Filling the 80-byte buffer field by field writes exactly the header's bytes |
| `FrameCodec.OpcodeFrom` | src/rank/protocol.rs:74-101 | Opcode bytes 1 to 19 and opcodes correspond one to one; all other bytes are refused |
| `FrameCodec.ElementFrom` | src/rank/protocol.rs:163-193 | The same for element types 0 to 21 |
| `SequenceAgreement.CollectiveAgreement.Submit` | src/rank/protocol.rs:495-540 | A sequence completes only when every rank submitted the same descriptor for it; which error occurs when. Every error leaves the submissions as they were, except the overflow of the sequence number, which is noticed after the completed entry was taken out |

## Left out

- Sockets, threads, async runtimes, timeouts, heartbeats, environment parsing, tracing and statistics other than the counters named above: no model; a timeout or a closed connection is a step that may happen at any time.
- Tensor kernels, dtypes, device copies and their errors: a tensor is a sequence, a kernel a function, a device a number; foreign failures appear only where a protocol reacts to them.
- Integer widths: sizes and counters are unbounded except where the source saturates, checks or encodes (link costs, byte counters, usize sums, u64 sequences, header fields); the orchestrator's u32 peer count and its exhausted-counter panics are not modelled.
- Mean scaling, `reduce_sum`, `broadcast`, `gather` and `scatter` of one process, the mean division after a reduction, and the centralized strategies between peers other than the broadcast: they would only add easy members.
- `DistributedBuffer` variants: a rank that receives nothing from an unequal exchange has an empty buffer here instead of none.
- LocalRing.AllReduceSumRing: where a slice does not exist the model's answer is that slice; what the backend does with it is not part of this model.
- NodeRing: `TensorDataService` is not part of this model; the safety theorems let an upload complete before its download, and progress is proved for that and for a service that waits. Positions on the ring stand for the sorted node list.
- CollectiveRounds, MixedRounds: the nodes of all rounds are the same; a collective that fails keeps its node from the barrier, and a node that cannot reach a peer in the barrier stays in it for good.
- RingSelection.BestRingOrders: for more than nine ranks the contract says what the nearest-neighbour heuristic finds; it may miss the best ring or every ring, as the source's does.
- ShortestPath.Search: both copies of the search in the source are one method here; the source's last test for a distance can never succeed and is not repeated.
- Cost estimates, autotuning, rail assignment, probing and fingerprints of the planner: arithmetic over measurements and hashes, without a hard property.
- Router.PointToPointRouter.RouteRequest: a failed write to a socket is not modelled; after a mismatch or an abort the source drops the router, the model only reports the error.
- PeerMesh: one connection between two ranks on one rail, with any number of sends; a send to oneself goes straight to the inbox and is `PeerInbox.Inbox.Push`.
- GlobalState.GlobalCollectiveState.ProcessRequest: a session whose connection has stopped reading keeps its queue until it disconnects.
- SyncBarrier: a call that cannot reach a peer panics in the source; here that node stops taking part. Messages that arrive before registration count as lost.
- Rendezvous: the executor is a function of the number of the execution, the tensors and the operation, so equal inputs may fare differently in different generations; a panic inside it is one of its errors. Lock poisoning and the registry of communicators are left out.
- RowExchange.NativeRowsChunked: a row stands for the elements of its trailing axes; the agreement on shape, type and budget before the rounds is assumed to have succeeded, and overflow of sizes is not modelled.
- ReduceScatter: the choice of an algorithm by size is any function of the payload's bytes, since estimates and measurements decide it; the direct exchange and the sends inside a group are modelled by the order they combine in.
- LocalBroadcast.BroadcastOp.Broadcast: what the other nodes send, or that it is lost, is an input; an unset strategy panics in the source.
- TreeReduce: the order of the peers (a map's order, then sorted by device) is an input, and the theorems hold for every order. With arity 0 the recursion in the source does not end for more than one tensor, and the methods require a positive arity there.
- RootedTree.ReduceAt: shape and type of a tensor are one value.
- RootedReduce, TreeAllReduce: a tensor of another shape is not modelled, because a round is agreed on shape and type first; a lost child or parent is a step that may happen to any node that waits, and an exposure for no download at all is none.
- RootedBroadcast: a lost parent is a step that may happen to any node that waits.
- FrameCodec: CRC-32 is an arbitrary function of the payload; error values carry less detail than the source's.
- Routing.RouteAllToAllV: the agreement on opcode, type and sequence that precedes it is `SequenceAgreement.CollectiveAgreement.Submit`, and the checks of session and rank before it are not modelled.
- Topology links parsed from text, aggregate links and the serialization of plans: text and measurements.
