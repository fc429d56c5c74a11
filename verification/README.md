# Rome, modelled in Dafny

Rome is a C++ library for programs that talk over RDMA. This project models its stateful components and proves what
they keep over whole runs. `dafny verify dfyconfig.toml` checks everything.

| files | component |
|---|---|
| `ConnectionProtocol.dfy`, `ConnectionTheorems.dfy`, `ConnectionAnswers.dfy`, `ConnectionBackoff.dfy` | nodes that connect to each other at the same time, each with a give-up lock and one broker; what their calls return; the backoff after rejections |
| `SlabClasses.dfy`, `SlabArena.dfy`, `SlabTheorems.dfy`, `Rmalloc.dfy` | the slab allocator for registered memory, run by one thread |
| `BumpPointer.dfy`, `SharedArena.dfy` | the compare-and-swap loop that all threads share, and the whole allocator run by any number of them |
| `AugmentedTree.dfy`, `TreeRemoval.dfy`, `TreeSearch.dfy`, `PercentileSelection.dfy` | the augmented search tree, its removal and what is found afterwards, and selection by rank |
| `SummaryMoments.dfy`, `SummaryPercentiles.dfy`, `Summary.dfy` | the running statistics that `Summary` keeps across windows |
| `Messenger.dfy` | one direction of the two-sided messenger, with its queue pair |
| `RoundRobinModel.dfy`, `RoundRobinOrder.dfy`, `RoundRobin.dfy` | the round-robin coroutine scheduler |
| `FixedHeap.dfy` | the max heap of fixed capacity |
| `RemoteWord.dfy`, `RemoteCalls.dfy`, `ChunkedRead.dfy` | the memory pool's atomic operations on one remote word, and its chunked read |
| `MachineWords.dfy` | bytes and the ranges of machine words |

Protocols between threads or nodes (connections, the bump pointer and the allocator around it, the remote word) are state machines: a datatype for
the state, `Enabled` and `Apply` for the atomic steps, an inductive invariant, and theorems about every run. Components
that change objects in place are classes whose methods are proved against functions on values; the theorems are about
those functions, or about what the class invariant says of a ghost history. Linked structures are related to values
through a snapshot of the fields of their nodes.

Where the code and its comments differ, the model follows the code:

- `SendMessage` refuses a message of exactly `kRecvMaxBytes` bytes; its error text says that such a message is accepted.
- `Schedule` puts a task behind all others; its comment calls it the next task to run.
- `FindSuccessors` never moves the parent it returns, so the branch of `Remove` for a successor's parent cannot be
  reached. `Remove` is right exactly for nodes without children (`TreeRemoval.Remove`): a node with only a left child
  takes its subtree along, and one with a right child leaves a circle of links behind. Two insertions are enough to get
  there (`TreeRemoval.RuinTwoKeys`), and then a search can run forever (`TreeSearch.SearchAfterRemoval`).
- The allocator carves the size asked for and recycles the next power of two. Among the sizes its table covers, those
  below 2^32, it is safe exactly for those that are at most 64, powers of two, or too large to be served
  (`SlabTheorems.SafeExactlyForRegularSizes`). The same sizes are safe for any number of threads
  (`SharedArena.SharedBlocksNeverOverlap`).
- `FindNthPercentile` cuts the rank down to an integer. A rank of 0, as for the 50th percentile of one sample or the
  10th of nine, selects no sample: the loop ends at the first leaf on the left, which has the least key exactly when
  the leftmost node has no right child (`PercentileSelection.FirstLeafIsLeast`); after 1.0 and 2.0, the 10th percentile
  is 2.0 (`PercentileSelection.MissTheLeast`). `Summary` never gets there: the percentiles it asks for have a rank,
  except in a single sample (`SummaryPercentiles.AskedRanksExist`).
- A block of up to 32 bytes is freed into a class that no allocation takes from, and so is lost
  (`SlabTheorems.SmallBlocksAreLost`).
- The backoff of `Connect` is meant to grow. Its 32-bit arithmetic wraps around for great node identifiers, and it never
  falls exactly when the identifier is far enough from where that happens (`ConnectionBackoff.BackoffNeverFalls`); up
  to 21,424,836 it doubles (`ConnectionBackoff.BackoffDoubles`).
- The assertion in `PrepareRecvBuffer` is about a 32-bit counter. It holds for ever exactly when the number of slots
  divides 2^32 (`Messenger.AssertionHoldsForever`); with the default capacities, and those of the connection manager, it
  does.
- The length of a read chunk is a 32-bit field and the count of the chunks an `int`. A read is exact when both fit and
  there is something to read, and only then (`ChunkedRead.ExactWhenLengthsFit`); one of 2^32 + 1 single bytes copies one
  byte and returns (`ChunkedRead.OneByteIsRead`).

Assumptions, all of them outside the modelled code: librdmacm and verbs calls succeed, every accept or reject is
delivered, the queue pair is reliable and in order and retries while no receive is posted, the adapter executes one
atomic operation on a word at a time, node identifiers are below 2^31, and the arena of the allocator starts at
2^20 or above, so that taking a size that is served from its head cannot wrap.

## Model

| member | source | states |
|---|---|---|
| ConnectionProtocol.LockedPeerIsNew | include/rome/rdma/connection_manager/connection_manager_impl.h:139-153 | while the broker holds the lock for a client, that client has no entry in the table, so the already-established branch is not taken |
| ConnectionProtocol.EnterKeepsInv | include/rome/rdma/connection_manager/connection_manager_impl.h:272 | a call that takes the lock for its own node keeps the protocol invariant |
| ConnectionProtocol.LeaveWithKeepsInv | include/rome/rdma/connection_manager/connection_manager_impl.h:273-277 | a call that has its answer from the table, a connection to its own peer or, for GetConnection, none, keeps the invariant |
| ConnectionProtocol.DialSelfKeepsInv | include/rome/rdma/connection_manager/connection_manager_impl.h:219-265 | the loopback connection keeps the invariant |
| ConnectionProtocol.DialKeepsInv | include/rome/rdma/connection_manager/connection_manager_impl.h:324-333 | sending a request keeps the invariant |
| ConnectionProtocol.TurnAwayKeepsInv | include/rome/rdma/connection_manager/connection_manager_impl.h:129-137 | rejecting a request because the lock is held by the node itself keeps the invariant |
| ConnectionProtocol.LockKeepsInv | include/rome/rdma/connection_manager/connection_manager_impl.h:129-131 | locking the node for a client keeps the invariant |
| ConnectionProtocol.CheckKeepsInv | include/rome/rdma/connection_manager/connection_manager_impl.h:139-182 | the table lookup and the handler's emplace keep the invariant |
| ConnectionProtocol.AcceptKeepsInv | include/rome/rdma/connection_manager/connection_manager_impl.h:186-188 | accepting keeps the invariant |
| ConnectionProtocol.FinishKeepsInv | include/rome/rdma/connection_manager/connection_manager_impl.h:189 | the broker's release keeps the invariant |
| ConnectionProtocol.EstablishKeepsInv | include/rome/rdma/connection_manager/connection_manager_impl.h:347-403 | storing an accepted connection keeps the invariant, which says that no assertion failed |
| ConnectionProtocol.GetRejectedKeepsInv | include/rome/rdma/connection_manager/connection_manager_impl.h:408-421 | a rejection, with its 32-bit backoff, keeps the invariant |
| ConnectionProtocol.LeaveKeepsInv | include/rome/rdma/connection_manager/connection_manager.h:113 | the caller's release keeps the invariant |
| ConnectionProtocol.StepKeepsInv | include/rome/rdma/connection_manager/connection_manager_impl.h:115-190 | every step of every node keeps the invariant on locks, clients, brokers, tables and the wire |
| ConnectionTheorems.RunKeepsInv | include/rome/rdma/connection_manager/connection_manager_impl.h:115-448 | once the invariant holds, as it does in the initial state, it holds in every later state of a run, for any number of nodes |
| ConnectionTheorems.OneAcceptPerPair | include/rome/rdma/connection_manager/connection_manager_impl.h:115-190 | two distinct nodes get at most one accepted request between them, in either direction, over a whole run |
| ConnectionTheorems.EntriesAgree | include/rome/rdma/connection_manager/connection_manager_impl.h:179-187 | the two ends of a connection are made for one accepted request, and one end alone exists only while the other waits for that answer |
| ConnectionTheorems.EmplaceAlwaysInserts | include/rome/rdma/connection_manager/connection_manager_impl.h:349-400 | both emplace calls insert, and a client never finds its peer connected when its request was accepted |
| ConnectionTheorems.ReturnedConnectionsHavePeers | include/rome/rdma/connection_manager/connection_manager_impl.h:267-431 | a connection that a call returns has its other end stored, or on its way |
| ConnectionTheorems.OnlyBusyNodesReject | include/rome/rdma/connection_manager/connection_manager_impl.h:129-153 | a request is rejected only by a node that is inside a call of its own |
| ConnectionTheorems.BrokerNeverSpins | include/rome/rdma/connection_manager/connection_manager.h:97-111 | the broker's Acquire finds the lock free or held by its own node, so it never waits; it gives up exactly when the node is inside a call |
| ConnectionTheorems.StepsWork | include/rome/rdma/connection_manager/connection_manager_impl.h:335-427 | every step but a new call strictly lowers a measure of the outstanding work |
| ConnectionTheorems.SomeoneCanStep | include/rome/rdma/connection_manager/connection_manager_impl.h:335-448 | no deadlock: while a call is open, a lock is held or a message is in flight, some node can step |
| ConnectionTheorems.RunsComeToRest | include/rome/rdma/connection_manager/connection_manager_impl.h:267-448 | without new calls every run is finite and ends with all calls returned, all locks free and nothing in flight |
| ConnectionTheorems.RestIsSymmetric | include/rome/rdma/connection_manager/connection_manager_impl.h:115-190 | at rest, one node has the other exactly when the other has it, with the two ends of one accepted request |
| ConnectionAnswers.ClientsProgress | include/rome/rdma/connection_manager/connection_manager_impl.h:267-448 | in every run a call takes the free lock, asks the very peer it names, is settled for a reason that fits, and returns what it was settled with; no other step touches it |
| ConnectionAnswers.AnswersFit | include/rome/rdma/connection_manager/connection_manager_impl.h:267-448 | every connection ever returned is the one stored for the peer that the call named; nothing is found only for a GetConnection whose peer had no entry; a Connect is turned down only when its own request to that peer was rejected, or when its node was inside another call |
| ConnectionAnswers.CallsAreCounted | include/rome/rdma/connection_manager/connection_manager_impl.h:267-448 | every call made waits for the lock, or is inside, or has been answered once |
| ConnectionAnswers.RestAnswersEverything | include/rome/rdma/connection_manager/connection_manager_impl.h:267-448 | at rest every call has had exactly one answer |
| ConnectionBackoff.BackoffCountsRejections | include/rome/rdma/connection_manager/connection_manager_impl.h:408-415 | the backoff of a node depends on the number of its own rejections alone |
| ConnectionBackoff.BackoffBounds | include/rome/rdma/connection_manager/connection_manager_impl.h:412-415 | the backoff is 0, then 100, and never more than 5,000,000 microseconds |
| ConnectionBackoff.BackoffNeverFalls | include/rome/rdma/connection_manager/connection_manager_impl.h:412-415 | over any number of rejections it never falls exactly when the identifier's gap to the wrap-around is neither in (100, 200] nor in (5,000,000, 10,000,000] |
| ConnectionBackoff.BackoffDoubles | include/rome/rdma/connection_manager/connection_manager_impl.h:412-415 | for identifiers up to 21,424,836 it has a closed form that doubles up to the greatest value |
| SlabClasses.TableLogIsFloorLog | include/rome/rdma/rmalloc/rmalloc.h:37-52 | the table lookup is the rounded-down logarithm, for 1 <= x < 2^32 |
| SlabClasses.UpperLog2IsCeilLog | include/rome/rdma/rmalloc/rmalloc.h:45-54 | the whole lookup is the rounded-up logarithm, defined independently by repeated halving |
| SlabArena.ClassRange | include/rome/rdma/rmalloc/rmalloc.h:33-35 | below 2^32, a size has a slab class exactly up to 2^20 bytes, and only the minimum size has the class of 64 |
| SlabArena.ClassHolds | include/rome/rdma/rmalloc/rmalloc.h:62-65 | the block size of a class holds every size of the class, and equals it exactly for powers of two, below 2^32 |
| SlabArena.FreedSizeClass | include/rome/rdma/rmalloc/rmalloc.h:101-103 | freeing chooses the class that allocation chose exactly for more than 32 bytes |
| SlabArena.AllocKeepsInv | include/rome/rdma/rmalloc/rmalloc.h:61-97 | allocation keeps carved blocks disjoint and inside the arena, and freelists exact and without duplicates |
| SlabArena.FreeKeepsInv | include/rome/rdma/rmalloc/rmalloc.h:99-107 | freeing a live block at its own size keeps the same |
| SlabArena.RunKeepsInv | include/rome/rdma/rmalloc/rmalloc.h:61-107 | the same holds after every history of calls on a new arena |
| SlabTheorems.AllocAnswers | include/rome/rdma/rmalloc/rmalloc.h:61-97 | a block returned was nobody's, and comes from the front of its class's list, or, when that is empty, ends at the highest multiple of 64 below the head; the call aborts exactly above 2^20 bytes and finds no memory exactly when too little is left; without a block nothing changes |
| SlabTheorems.FreeAnswers | include/rome/rdma/rmalloc/rmalloc.h:99-107 | a freed block goes to the end of one list, of class 0, 1 or 2 up to 8, 16 and 32 bytes and of its allocation class above, and nothing else changes |
| SlabTheorems.SmallBlocksAreLost | include/rome/rdma/rmalloc/rmalloc.h:61-107 | a block of up to 32 bytes, once freed, is never returned again |
| SlabTheorems.BlocksNeverOverlap | include/rome/rdma/rmalloc/rmalloc.h:61-107 | with sizes up to 64, powers of two, or above 2^20, and below 2^32, live blocks overlap neither each other nor freed blocks, in every history |
| SlabTheorems.ClearingFits | include/rome/rdma/rmalloc/rmalloc.h:75-81 | clearing a recycled block stays inside it exactly when it was carved as a power of two |
| SlabTheorems.ClearingHitsNobody | include/rome/rdma/rmalloc/rmalloc.h:79 | after a regular history it touches no byte of a live block |
| SlabTheorems.IrregularSizeOverlaps | include/rome/rdma/rmalloc/rmalloc.h:75-107 | for every other size that is served, a history of four calls ends with overlapping live blocks, in every arena with room for such a block and one of 64 bytes |
| SlabTheorems.SafeExactlyForRegularSizes | include/rome/rdma/rmalloc/rmalloc.h:61-107 | below 2^32 and beside regular sizes, a size is safe in all histories exactly when it is regular or refused; another one fails also in an arena that starts at 2^20 |
| SlabTheorems.CarvedIsPeak | include/rome/rdma/rmalloc/rmalloc.h:71-107 | the blocks ever carved for a class are as many as were live in it at once at the most |
| SlabTheorems.SpaceIsPeakDemand | include/rome/rdma/rmalloc/rmalloc.h:71-107 | the bump pointer has moved by the peak demand of all classes and less than 64 bytes of first alignment |
| Rmalloc.RdmaMemoryResource.constructor | include/rome/rdma/rmalloc/rmalloc.h:19-26 | a new resource is an empty arena with its head at the end |
| Rmalloc.RdmaMemoryResource.Allocate | include/rome/rdma/rmalloc/rmalloc.h:61-97 | allocation with the alignment bits, the lists and the head in place does what the arena functions say, and clears exactly the bytes of a recycled block |
| Rmalloc.RdmaMemoryResource.Deallocate | include/rome/rdma/rmalloc/rmalloc.h:99-107 | freeing does the same, and keeps the alignment bit set exactly for lists that are not empty |
| BumpPointer.StaleNeverMatches | include/rome/rdma/rmalloc/rmalloc.h:86-93 | a compare-and-swap succeeds exactly when nobody succeeded since the thread read the head |
| BumpPointer.RegionsAreSequentialAndDisjoint | include/rome/rdma/rmalloc/rmalloc.h:86-96 | for any interleaving, the regions handed out are those of one thread serving the requests in order of success; they are disjoint and inside the arena |
| BumpPointer.RegionsAreAligned | include/rome/rdma/rmalloc/rmalloc.h:88 | every region ends at a multiple of its alignment, less than one alignment below the region before it |
| BumpPointer.SuccessServes | include/rome/rdma/rmalloc/rmalloc.h:86-96 | a region is handed out by a thread's own compare-and-swap, for its own demand, and the thread leaves the loop |
| BumpPointer.DemandIsKept | include/rome/rdma/rmalloc/rmalloc.h:86-93 | as long as a thread is in the loop, its demand is the one it came with |
| BumpPointer.ThreadsNeverWait | include/rome/rdma/rmalloc/rmalloc.h:86-93 | every thread can always take its next step |
| BumpPointer.HeadFallsOnSuccess | include/rome/rdma/rmalloc/rmalloc.h:93 | the head strictly falls on every success, and on no other step |
| BumpPointer.RetryMeansProgress | include/rome/rdma/rmalloc/rmalloc.h:87-93 | a thread goes round the loop again only when another one succeeded |
| SharedArena.StepKeepsInv | include/rome/rdma/rmalloc/rmalloc.h:61-122 | every step of any thread keeps the shared arena and each thread's own freelists right, also when a thread frees what another one allocated |
| SharedArena.CallsAreAtomic | include/rome/rdma/rmalloc/rmalloc.h:61-122 | for any interleaving, each call takes effect in one step, at its end, and there gives the reply, and does to the arena and the thread's own lists, what the allocator of one thread does |
| SharedArena.RequestIsKept | include/rome/rdma/rmalloc/rmalloc.h:61-97 | what a thread in the loop is answered for is the size it asked for |
| SharedArena.ThreadsNeverWait | include/rome/rdma/rmalloc/rmalloc.h:61-107 | every thread can always take its next step |
| SharedArena.LoserIsOutOfMemory | include/rome/rdma/rmalloc/rmalloc.h:86-92 | a thread gives up only when the head of that moment leaves no room either, though it looked at an older one |
| SharedArena.SharedBlocksNeverOverlap | include/rome/rdma/rmalloc/rmalloc.h:61-122 | with regular sizes, whatever the threads, the interleaving and who frees what, live blocks overlap neither each other nor freed blocks |
| SharedArena.SharedClearingHitsNobody | include/rome/rdma/rmalloc/rmalloc.h:75-81 | at any moment of such a run the bytes that a recycled block is cleared by lie inside the arena and outside all other live blocks |
| SharedArena.ReuseClearsOnlyItsBlock | include/rome/rdma/rmalloc/rmalloc.h:71-81 | a request answered from the thread's own list gets a block that was not live, and clearing it touches no byte of any thread's live block |
| SharedArena.FreedOnce | include/rome/rdma/rmalloc/rmalloc.h:99-122 | a freed block is once on one list of one thread, whoever allocated it |
| AugmentedTree.LookupIsMembership | include/rome/internal/atree/atree.h:233-247 | the search in an ordered tree finds a key exactly when some node has it |
| AugmentedTree.InsertShape | include/rome/internal/atree/atree.h:262-275 | a node added where the search ended keeps the order, adds one node and leaves the path to it as it was |
| AugmentedTree.VisitRepairs | include/rome/internal/atree/atree.h:288-291 | visiting the lowest stacked ancestor leaves one ancestor less with a wrong count |
| AugmentedTree.InsertThenVisit | include/rome/internal/atree/atree.h:286-287 | after linking and visiting a new node the links form the larger tree, only the stacked ancestors have wrong counts, and the samples gained the key |
| AugmentedTree.UpdateLinks | include/rome/metrics/summary.h:96-100 | after counting one more of a present key only the stacked ancestors have wrong counts, and the samples gained one copy |
| AugmentedTree.SamplesAreNodes | include/rome/internal/atree/atree.h:250-258 | a key is among the samples exactly when the search finds it |
| AugmentedTree.ATree.FindInternal | include/rome/internal/atree/atree.h:231-247 | the loop returns the node of the key, or null, with the path of its ancestors as the stack and the last of them as the parent |
| AugmentedTree.ATree.InsertInternal | include/rome/internal/atree/atree.h:260-275 | the new node is linked at the place of its key and nothing else changes |
| AugmentedTree.ATree.Visit | include/rome/metrics/summary.h:103-109 | a visit sets a node's metadata to its children's metadata plus its own multiplicity |
| AugmentedTree.ATree.VisitStack | include/rome/internal/atree/atree.h:303-313 | visiting the stack bottom-up makes every count right again and keeps the samples |
| AugmentedTree.ATree.Insert | include/rome/internal/atree/atree.h:277-294 | an absent key is added at its place with its multiplicity; a present one is refused, and tree, links and metadata stay as they were |
| AugmentedTree.ATree.InsertOrUpdate | include/rome/internal/atree/atree.h:296-316 | the samples gain one copy of a present key, or an absent key with its multiplicity; order and counts stay right |
| AugmentedTree.ATree.Clear | include/rome/internal/atree/atree.h:382-388 | the tree is empty, and the old root is kept for the destructor |
| TreeRemoval.EmbeddingIsUnique | include/rome/internal/atree/atree.h:231-247 | a pointer reaches one tree of nodes at most |
| TreeRemoval.RightChildMakesCircle | include/rome/internal/atree/atree.h:357-362 | removing a node with a right child leaves links that form no tree at all |
| TreeRemoval.RemovesOneNodeIffChildless | include/rome/internal/atree/atree.h:333-370 | the relinked pointers form a tree of all the other nodes exactly when the removed node had no children |
| TreeRemoval.RemoveLinks | include/rome/internal/atree/atree.h:354-356 | for a childless node that tree is ordered, only its stacked ancestors have wrong counts, and the samples lost the key |
| TreeRemoval.FindSuccessors | include/rome/internal/atree/atree.h:333-344 | the parent returned is always the node itself, and the successor the leftmost node of its right subtree |
| TreeRemoval.Relink | include/rome/internal/atree/atree.h:353-370 | the branches leave exactly the links that the pure relinking says |
| TreeRemoval.Remove | include/rome/internal/atree/atree.h:346-380 | an absent key changes nothing, no link either; a present one is relinked as the pure function says, and leaves a correct tree of the other nodes, without the key, exactly when its node had no children |
| TreeRemoval.RootHasChild | include/rome/internal/atree/atree.h:346-380 | in a tree of two or more nodes the root has a child, so removing it is wrong |
| TreeRemoval.RuinTwoKeys | include/rome/internal/atree/atree.h:277-380 | two insertions and the removal of the root leave links that form no tree of the other node |
| TreeSearch.SearchAfterRemoval | include/rome/internal/atree/atree.h:231-247 | after the removal of a node with a right child, a search runs forever exactly for the keys that fall behind the successor; every other one ends, misses the removed key and finds what it found before |
| TreeSearch.LostKeys | include/rome/internal/atree/atree.h:346-380 | the keys of the tree that are lost are those right of the successor |
| TreeSearch.RuinedSearch | include/rome/internal/atree/atree.h:231-380 | two insertions and a removal make the search for every greater key run forever |
| PercentileSelection.SortedKeysAreSorted | include/rome/metrics/summary.h:79-87 | reading an ordered tree from left to right with multiplicities gives a sorted sequence |
| PercentileSelection.SortedKeysAreContents | include/rome/metrics/summary.h:79-87 | that sequence is a permutation of the samples, as long as the root's metadata says |
| PercentileSelection.SelectStep | include/rome/metrics/summary.h:280-297 | the counts at a node tell whether a rank is left of it, at it, or right of it and at which rank there |
| PercentileSelection.RankInRange | include/rome/metrics/summary.h:268-275 | the rank of a percentile is at most the number of samples |
| PercentileSelection.RankIsCut | include/rome/metrics/summary.h:268-275 | exactly one integer r has 100 r <= p n < 100 (r + 1), and it is the rank, but for percentile 0, whose rank is 1 |
| PercentileSelection.GetSize | include/rome/metrics/summary.h:305-313 | the root's metadata is the number of samples |
| PercentileSelection.SelectRank | include/rome/metrics/summary.h:277-302 | the loop terminates, never takes the right branch without a right child, and returns the node of the rank-th sample, counted with multiplicity, or for a rank below 1 the first leaf |
| PercentileSelection.FindNthPercentile | include/rome/metrics/summary.h:257-303 | for a percentile p > 0 of n samples and the integer r with 100 r <= p n < 100 (r + 1), the key returned is the r-th sorted sample, or for r = 0 that of the first leaf; for p = 0 it is the least |
| PercentileSelection.FirstLeafIsLeast | include/rome/metrics/summary.h:277-302 | the first leaf has the least key exactly when the leftmost node has no right child |
| PercentileSelection.SingleIsFirstLeaf | include/rome/metrics/summary.h:277-302 | of a single sample, the first leaf is that sample |
| PercentileSelection.MissTheLeast | include/rome/metrics/summary.h:257-302 | two insertions give a tree of which the 10th percentile is the greater sample |
| SummaryMoments.SampleKeepsMoments | include/rome/metrics/summary.h:227-231 | the running mean, sum of squares and variance stay those of the whole history |
| SummaryMoments.VarianceIsSpread | include/rome/metrics/summary.h:231 | the variance is the average squared deviation from the mean, so it is not negative |
| SummaryMoments.MomentsAreAverages | include/rome/metrics/summary.h:227-231 | the kept moments are the mean of the history and the average squared deviation from it |
| SummaryPercentiles.PercentileGrows | include/rome/metrics/summary.h:268-302 | higher percentiles of sorted samples are higher samples |
| SummaryPercentiles.UpperRanksExist | include/rome/metrics/summary.h:273-274 | from the 50th percentile on, two or more samples give a rank of at least 1 |
| SummaryPercentiles.AskedRanksExist | include/rome/metrics/summary.h:161-184 | of the percentiles that the summary asks for, only those between 0 and 100 of a single sample have a rank of 0 |
| SummaryPercentiles.MovedKeepsOrder | include/rome/metrics/summary.h:194-208 | running values moved by the same weight keep their order |
| SummaryPercentiles.UpdatesAreFlush | include/rome/metrics/summary.h:175-181 | the seven updates, one after the other, are one flush of the window |
| SummaryPercentiles.FlushKeepsOrder | include/rome/metrics/summary.h:161-184 | min <= p50 <= p90 <= p95 <= p99 <= p999 <= max after a flush, if it held before or it is the first |
| SummaryPercentiles.FlushKeepsExtremes | include/rome/metrics/summary.h:192-211 | min and max stay the exact extremes of all flushed samples |
| SummaryPercentiles.FlushIsFit | include/rome/metrics/summary.h:161-211 | the first flush stores the window's samples at each percentile's own rank; a later one leaves new * n = old * (n - 1) + that sample for the five inner ones, and the wider extremes |
| SummaryPercentiles.UpdateIsFit | include/rome/metrics/summary.h:186-211 | one update does that to the value of its percentile and leaves the others |
| SummaryMetric.FlushSummarizes | include/rome/metrics/summary.h:161-184 | a flush at any moment keeps what the summary says of its history, with an empty window |
| SummaryMetric.SampleSummarizes | include/rome/metrics/summary.h:216-225 | one more sample keeps it too, and the window never exceeds its size |
| SummaryMetric.Summary.constructor | include/rome/metrics/summary.h:42-57 | a new summary has an empty history, for any window size |
| SummaryMetric.Summary.WindowPercentile | include/rome/metrics/summary.h:188-191 | the accessor returns the percentile of the sorted window for 0 and for 50 to 100 |
| SummaryMetric.Summary.UpdatePercentile | include/rome/metrics/summary.h:186-214 | exactly the field of the given percentile changes: an inner one to value * n = old * (n - 1) + the window's sample at its rank, an extreme one if it must |
| SummaryMetric.Summary.UpdatePercentilesAndClearSamples | include/rome/metrics/summary.h:161-184 | each running value becomes, at the first flush, the window's sample at its own rank, and later moves by 1/n towards it; the window is emptied, and the class invariant holds |
| SummaryMetric.Summary.Insert | include/rome/metrics/summary.h:224 | a sample joins a window that is not full, or was just emptied; the tree stays valid and the summary relation holds of the longer history |
| SummaryMetric.Summary.UpdateMoments | include/rome/metrics/summary.h:225-232 | the running moments are those of the history with the new sample |
| SummaryMetric.Summary.Add | include/rome/metrics/summary.h:216-233 | a sample joins the history, and the window is flushed first exactly when it is full; the class invariant holds, the mean times the count is the sum, and the variance times the count the sum of squared deviations |
| SummaryMetric.Summary.GetPercentileInternal | include/rome/metrics/summary.h:235-255 | each percentile asked for reports its own field after a flush, with what that makes of it (below); the percentiles are in order, and min and max are the extremes of the whole history |
| SummaryMetric.FlushIsRead | include/rome/metrics/summary.h:161-255 | a reader gets the percentile of all samples while they are in the first window, later what it got before moved by 1/n towards that of the new samples, what it got before when there are none, and 0 of no samples |
| SummaryMetric.Summary.Get50thPercentile | include/rome/metrics/summary.h:60 | so for the 50th percentile |
| SummaryMetric.Summary.Get90thPercentile | include/rome/metrics/summary.h:61 | so for the 90th |
| SummaryMetric.Summary.Get95thPercentile | include/rome/metrics/summary.h:62 | so for the 95th |
| SummaryMetric.Summary.Get99thPercentile | include/rome/metrics/summary.h:63 | so for the 99th |
| SummaryMetric.Summary.Get999thPercentile | include/rome/metrics/summary.h:64 | so for the 99.9th |
| SummaryMetric.Summary.GetNumSamples | include/rome/metrics/summary.h:68 | the length of the history |
| SummaryMetric.Summary.GetMin | include/rome/metrics/summary.h:59 | the least sample of the whole history, however flushes fell |
| SummaryMetric.Summary.GetMax | include/rome/metrics/summary.h:65 | the greatest sample of the whole history |
| SummaryMetric.Summary.GetMean | include/rome/metrics/summary.h:66 | the sum of the history divided by its length |
| Messenger.SlotFits | include/rome/rdma/channel/twosided_messenger_impl.h:145-149 | an offset is inside the posting loop's bound exactly when it is that of one of the slots that fit |
| Messenger.FillNextSlot | include/rome/rdma/channel/twosided_messenger_impl.h:140-151 | a message put into the next slot leaves all unread messages as they are |
| Messenger.TransmitStep | include/rome/rdma/channel/twosided_messenger_impl.h:140-151 | the first posted slot is never one that holds an unread message |
| Messenger.PostStep | include/rome/rdma/channel/twosided_messenger_impl.h:145-149 | posting the next slot, also while messages arrive in those posted before, keeps the unread messages and the order of the posted slots |
| Messenger.DeliverStep | include/rome/rdma/channel/twosided_messenger_impl.h:114-131 | recv_next_ names the slot of the oldest unread message; it is the last slot exactly when nothing is posted or unread any more, and then posting can start again |
| Messenger.AssertionHoldsForever | include/rome/rdma/channel/twosided_messenger_impl.h:141-142 | the assertion on the 32-bit counter never fails exactly when the number of slots divides 2^32 |
| Messenger.WrappedCount | include/rome/rdma/channel/twosided_messenger_impl.h:141-142 | otherwise it fails at the first refill after the counter wraps, and never before |
| Messenger.Channel.constructor | include/rome/rdma/channel/twosided_messenger_impl.h:18-37 | the buffers are halves of the memory, every slot is posted, and nothing is delivered yet, whatever a connected sender does meanwhile |
| Messenger.Channel.PostSlots | include/rome/rdma/channel/twosided_messenger_impl.h:143-150 | the loop posts every slot and then resets recv_next_, while sender and adapter take any steps between its iterations; nothing is lost or overwritten |
| Messenger.Channel.PostMessage | include/rome/rdma/channel/twosided_messenger_impl.h:40-77 | a message of kRecvMaxBytes or more is refused; another one lies whole at the send pointer, which starts over exactly when it would not fit, and is counted as sent |
| Messenger.Channel.Transmit | include/rome/rdma/channel/twosided_messenger_impl.h:66-84 | the adapter moves the posted message into a posted slot, without touching the rest of the memory outside the receive buffer |
| Messenger.Channel.FinishSend | include/rome/rdma/channel/twosided_messenger_impl.h:79-95 | the send buffer advances by the length of the message |
| Messenger.Channel.ReadSlot | include/rome/rdma/channel/twosided_messenger_impl.h:114-127 | the oldest unread message is copied, pointer and counter move on, and after the last slot the receiver is ready to post all of them again |
| Messenger.Channel.TakeMessage | include/rome/rdma/channel/twosided_messenger_impl.h:100-142 | a poll finds nothing or the next message; after the last slot posting starts, unless the assertion on the counter fails |
| Messenger.Channel.PostSlot | include/rome/rdma/channel/twosided_messenger_impl.h:145-149 | one iteration of the posting loop keeps the channel valid, with messages arriving before and after it |
| Messenger.Channel.FinishRefill | include/rome/rdma/channel/twosided_messenger_impl.h:150 | when the loop ends every slot is posted, and recv_next_ is at the oldest unread one |
| Messenger.Channel.TryDeliverMessage | include/rome/rdma/channel/twosided_messenger_impl.h:100-137 | the next message is delivered, nothing is when none has completed, and the assertion fails exactly where the counter says, whatever sender and adapter do while slots are posted |
| Messenger.Channel.DeliveredInOrder | include/rome/rdma/channel/twosided_messenger_impl.h:40-151 | what is delivered is a byte-exact prefix of what was sent, and all of it when nothing is under way |
| Messenger.Channel.NeverStuck | include/rome/rdma/channel/twosided_messenger_impl.h:121-129 | a message that waits for a posted slot waits only for the receiver to read what it has, or to go on posting |
| Messenger.Channel.RunOut | include/rome/rdma/channel/twosided_messenger_impl.h:40-151 | once nobody sends, every step of sender, adapter and receiver, in any order, leaves less work, and the run ends with all delivered and the sender idle, or with the assertion on the counter failing; it never fails when the slot count divides 2^32 |
| RoundRobinModel.NextSpendsWeight | include/rome/util/coroutine.h:94-125 | every iteration of Run lowers the number of steps still to take, so Run ends |
| RoundRobinModel.RunServesEveryone | include/rome/util/coroutine.h:91-126 | every task, scheduled before or during Run, is resumed exactly as often as it has steps and dropped once |
| RoundRobinModel.RunIsRounds | include/rome/util/coroutine.h:91-126 | for tasks that schedule no others, or are canceled, Run goes in rounds: round r resumes, in scheduling order, the tasks with more than r steps |
| RoundRobinOrder.NextQueue | include/rome/util/coroutine.h:78-124 | seen from the current task, a task that had its turn comes behind all others, and new ones come in at the end of the ring |
| RoundRobinOrder.LaterWaits | include/rome/util/coroutine.h:94-125 | a task gets no turn before one that is ahead of it, whatever is scheduled meanwhile |
| RoundRobinOrder.EarlierIsResumed | include/rome/util/coroutine.h:94-125 | an unfinished task ahead of another one is resumed exactly once before it |
| RoundRobinOrder.ResumesAlternate | include/rome/util/coroutine.h:91-126 | while tasks finish and schedule others, between two successive resumes of one task every other unfinished task is resumed exactly once |
| RoundRobin.LinkInLast | include/rome/util/coroutine.h:81-87 | the relinking of Schedule makes a ring with the new wrapper at its end |
| RoundRobin.LinkOut | include/rome/util/coroutine.h:109-110 | the relinking of Run makes a ring of the other wrappers, in the same order |
| RoundRobin.RoundRobinScheduler.Schedule | include/rome/util/coroutine.h:72-89 | the task joins the ring at its end, at any moment; a canceled scheduler stays as it is |
| RoundRobin.RoundRobinScheduler.DropOnly | include/rome/util/coroutine.h:96-104 | the last finished task leaves an empty ring |
| RoundRobin.RoundRobinScheduler.DropOne | include/rome/util/coroutine.h:106-119 | a finished task leaves the ring, the tail and the turn move off it, and next and prev stay inverse |
| RoundRobin.RoundRobinScheduler.ResumeCurrent | include/rome/util/coroutine.h:121-124 | a resumed task takes one step, with what it schedules, and the turn passes on |
| RoundRobin.RoundRobinScheduler.Iterate | include/rome/util/coroutine.h:94-125 | one iteration is one step of the model, on any ring |
| RoundRobin.RoundRobinScheduler.Run | include/rome/util/coroutine.h:91-126 | Run does what the model's trace says and ends with an empty ring, a count of 0 and every wrapper deleted |
| FixedHeap.SiftUpMakesHeap | include/rome/internal/fixed_heap.h:50-60 | moving up an element that may be too great makes a heap of the same elements |
| FixedHeap.SiftDownMakesHeap | include/rome/internal/fixed_heap.h:62-94 | moving down an element that may be too small makes a heap of the same elements |
| FixedHeap.PushKeepsHeap | include/rome/internal/fixed_heap.h:17-25 | a push keeps the heap order and adds exactly the value |
| FixedHeap.PopKeepsHeap | include/rome/internal/fixed_heap.h:32-41 | a pop takes out a greatest element and keeps the heap order of the others |
| FixedHeap.PopAllDescends | include/rome/internal/fixed_heap.h:32-41 | popping a heap until it is empty gives its elements in descending order |
| FixedHeap.HeapSorts | include/rome/internal/fixed_heap.h:17-41 | pushing values and popping until empty gives a descending permutation of them |
| FixedHeap.FixedMaxHeap.Push | include/rome/internal/fixed_heap.h:17-25 | the array holds the pushed heap, or is unchanged when it was full |
| FixedHeap.FixedMaxHeap.GetRoot | include/rome/internal/fixed_heap.h:27-30 | a greatest element, or NotFound exactly for an empty heap |
| FixedHeap.FixedMaxHeap.Pop | include/rome/internal/fixed_heap.h:32-41 | the root is returned and the array holds the popped heap |
| FixedHeap.FixedMaxHeap.Heapify | include/rome/internal/fixed_heap.h:50-60 | the recursion moves an element up in place |
| FixedHeap.FixedMaxHeap.Pushdown | include/rome/internal/fixed_heap.h:62-94 | the recursion moves an element down in place |
| RemoteWord.StepKeepsInv | include/rome/rdma/memory_pool/memory_pool_impl.h:320-391 | every step of every thread and of the adapter keeps the chain of effective operations and what each call had of it |
| RemoteWord.SwapTakesEffectOnce | include/rome/rdma/memory_pool/memory_pool_impl.h:339-357 | a swap that returned took effect exactly once, and returned the word right before |
| RemoteWord.CompareAndSwapTellsItsEffect | include/rome/rdma/memory_pool/memory_pool_impl.h:359-391 | a compare-and-swap took effect, once, exactly when it returned the expected value, and then put its value in place of that one; hit or miss, it returned a word that there was |
| RemoteWord.MissMeansProgress | include/rome/rdma/memory_pool/memory_pool_impl.h:353-354 | a swap misses again only when another operation took effect since it saw the word |
| RemoteWord.ValuesAreConserved | include/rome/rdma/memory_pool/memory_pool_impl.h:320-391 | the words found by the effective operations, with the current one, are the initial one with the words put in, as multisets |
| RemoteWord.RestReturnsEverything | include/rome/rdma/memory_pool/memory_pool_impl.h:320-391 | once every call returned, the effective operations are calls of their own, and the words they found are what those calls returned |
| RemoteWord.CallsConserveValues | include/rome/rdma/memory_pool/memory_pool_impl.h:320-391 | once every call returned, the values that the effective calls returned, with the word, are the initial word with the values they were given, as multisets |
| RemoteCalls.CallsAreAtomic | include/rome/rdma/memory_pool/memory_pool_impl.h:320-391 | every call, hit or miss, returned the word of one moment between its start and its return, and if it took effect, did so at that moment |
| RemoteCalls.CallsKeepTheirValues | include/rome/rdma/memory_pool/memory_pool_impl.h:320-391 | what is returned for a call is what its thread asked for, and that thread polls it |
| RemoteCalls.CompareAndSwapCompares | include/rome/rdma/memory_pool/memory_pool_impl.h:359-391 | a compare-and-swap replaces exactly the expected word by its value |
| RemoteCalls.RightHintHits | include/rome/rdma/memory_pool/memory_pool_impl.h:320-353 | a swap whose hint is right takes effect at its first execution, and only then |
| RemoteCalls.RetryUsesTheWord | include/rome/rdma/memory_pool/memory_pool_impl.h:353-354 | a swap that missed compares next with the word it found, and misses again only when another operation took effect in between |
| RemoteCalls.ThreadsNeverWait | include/rome/rdma/memory_pool/memory_pool_impl.h:320-391 | every thread can always take its next step |
| ChunkedRead.FillRequests | include/rome/rdma/memory_pool/memory_pool_impl.h:217-245 | the loop fills the array with the chain of chunk requests, as many as the `int` count says |
| ChunkedRead.RestIsCopied | include/rome/rdma/memory_pool/memory_pool_impl.h:227-245 | when count and lengths fit, the chain from any request on copies exactly what is left and signals once |
| ChunkedRead.ReadIsExact | include/rome/rdma/memory_pool/memory_pool_impl.h:213-256 | when the count of chunks is between 1 and 2^31 - 1, and chunk or read below 2^32 bytes, executing the chain copies, byte by byte, exactly what was asked for, touches no others, and completes with one signal, from the last request |
| ChunkedRead.LongChunkIsCut | include/rome/rdma/memory_pool/memory_pool_impl.h:230-234 | when chunk and read both have 2^32 bytes or more, a byte is not copied by whatever is posted |
| ChunkedRead.LongChainIsCut | include/rome/rdma/memory_pool/memory_pool_impl.h:217-218 | from 2^31 chunks on fewer requests are posted, and the last byte is not copied |
| ChunkedRead.SignalsOnce | include/rome/rdma/memory_pool/memory_pool_impl.h:240-244 | whatever a posted chain copies, it signals once, at its end, so that the read returns as complete |
| ChunkedRead.OneByteIsRead | include/rome/rdma/memory_pool/memory_pool_impl.h:213-245 | a read of 2^32 + 1 single bytes posts one request, copies one byte and is signalled as complete |
| ChunkedRead.ExactWhenLengthsFit | include/rome/rdma/memory_pool/memory_pool_impl.h:213-245 | a read is exact for all memories exactly when it has between 1 and 2^31 - 1 chunks and the chunk or the read is below 2^32 bytes |

## Left out

- Disconnection, shutdown (`accepting_`), other CM events and failing verbs calls of the connection manager; `GetNumConnections`, which releases a lock it may not have got.
- `requested_` is not part of the model: nothing ever inserts into it.
- The sleep after a rejection has no length in the model; the backoff value is kept but decides nothing.
- Other alignments than 64 in the allocator, freelists shared by several resources on one thread, size 0, and sizes of 2^32 and more, for which the logarithm reads past its table.
- SlabTheorems.CarvedIsPeak: does not cover sizes up to 32, whose blocks are freed into another class than they are taken from and so never recycled.
- Rmalloc.RdmaMemoryResource.Allocate: is run by one thread; `SharedArena` has the steps of many threads on values, with the addresses that clearing touches but not the contents of the memory.
- BumpPointer.RegionsAreSequentialAndDisjoint: states sequential consistency of the atomic head; fences and memory orders are not modelled.
- AugmentedTree.ATree.InsertOrUpdate: requires a multiplicity of at least 1 for a new key, as `Summary` passes; the destructor and `Find` are left out.
- TreeRemoval.Remove: keeps the ghost tree of the old state when the node had children, since then there is none to keep; the visits and the size are as in the source, the deletion of the node is not modelled.
- Floating point: keys, percentiles and moments are reals, and the rank is the floor of a real product; the standard deviation is left out for its square root.
- SummaryMetric.Summary.GetPercentileInternal: takes the seven percentiles the callers use; for another one the source ends the process.
- PercentileSelection.FindNthPercentile: takes percentiles from 0 to 100 and a tree with samples; the source ends the process for others, and its callers check for samples first.
- `Summary::Accumulate`, whose weights are not those of an average, and the text and protobuf output.
- Messenger.Channel.TryDeliverMessage: completions with an error, and the end of the retries when no receive is posted; poll, copy and counter are one step, each re-post is one of its own.
- Messenger.Channel.PostMessage: requires that the previous send was polled, since the source returns only then.
- RoundRobin.RoundRobinScheduler.Run: the canceled flag does not change while it runs; `Cancel` waits in another thread for the ring to be empty and is left out.
- Coroutine frames: a coroutine is the list of its steps, each with the tasks it schedules; identifiers stand for handles.
- `FixedHeap` with another order than that of `FixedMaxHeap`: `Pushdown` compares with `<` whatever the comparator.
- RemoteWord.StepKeepsInv: gives each thread its own memory pool, because the send request and the answer are fields of the pool.
- ChunkedRead.FillRequests: for zero bytes, and for counts that the cut to an `int` makes zero or negative, the source declares arrays without elements and posts what lies there; the model posts nothing.
- Easy parts: `remote_ptr`, bit sets, counters and streams, the QPS controller, YCSB workloads, logging, clocks and the thread pool.
