# Mosito, verified

A Dafny model of the algorithms and protocols at the centre of Mosito, a small
distributed OLAP engine, with proofs of what they are for:

- the assignment solver (`KM::run`, `KM::search`) and the largest-matching search
  (`KM::find`, `KM::LM`);
- the loser tree, the k-way merge of sorted block streams that it drives, and the
  replacement-selection heap;
- the range-partition dynamic program of `ParStrategy`;
- the ring queue, the pooled block queue, the thread pool, and both sides of the
  block exchange (`ShuffleLower1`, `Merger::m_receive_select1`);
- range routing and the bucketed range sort.

Code that works in place keeps that form: classes with arrays and fields, methods
with loops, and contracts that tie the new state to the old. The proofs about it are
lemmas on snapshots of those arrays. The thread pool and the sending side of the
exchange are state machines whose runs are arbitrary sequences of steps.

## Files

| file | content |
|---|---|
| Finite.dfy, Option.dfy, Tuple.dfy | counting and sums over 1..n; optional values; tuples, blocks and bags of them |
| Matchings.dfy | partial matchings and what one augmentation does to them |
| AlternatingTree.dfy, Relabelling.dfy, KuhnMunkres.dfy | the assignment solver: one search, one label shift, the class |
| MaxMatching.dfy | the largest-matching search |
| Bracket.dfy, Tournament.dfy, LoserTree.dfy | the loser tree: its shape, its games, the class |
| Merge.dfy | the sorted stream merge |
| ParStrategy.dfy | the dynamic program |
| Ordering.dfy, Heap.dfy | the tuple comparator and replacement selection |
| Queues.dfy | the two queues against one bounded FIFO |
| ThreadPool.dfy, Dispatch.dfy | the thread pool: what every run keeps, and that fair runs dispatch every task |
| Receive.dfy, Exchange.dfy | the receiving loop and the sending side |
| Routing.dfy, Lower.dfy, RangeSort.dfy | range routing, the buffers of a lower, the range sort of an upper |
| Pipeline.dfy | the parts of the exchange joined |

## Modelling decisions

- Integers are unbounded. `KM` is proved for weights in a range `lo..hi` with
  `Range32(lo, hi)`; every weight matrix with entries of at most 2^29 - 1 in
  magnitude has such a range. Under it no label, sum of labels, reduced cost or slack
  leaves 32 bits, and every reduced cost is below `INF`. The final sum stays within
  `n * lo .. n * hi`.
- `ParStrategy` compares against `INT_MAX`. The table is proved for all arrays: a cell
  is the cheapest split, or `INT_MAX` when every split costs at least that much.
  `TableFits` says when no sum leaves 32 bits. `state` and `new_state` are declared one
  row and one column too small in the header; the model gives them the size of `matrix`.
- `pthread_cond_signal` wakes any non-empty set of sleepers, and sleepers may also wake
  without a signal.
- Spinning on `pop` until a block arrives is taking the next block of the column: a
  column is the list of blocks it hands over. A channel is a reliable FIFO.
- `LoserTree` breaks ties differently in `play` and in `replay`, so the tournament
  invariant fixes who may be a loser, not which of two equal keys is one.
- A tuple of the exchange, the merge and the range sort is its key at byte 8 and the
  rest; a tuple of the heap is the 64-bit words at the addresses of its columns.
- The number of uppers and the number of lowers are separate: a lower divides by the
  first, the bounds of an upper by the second, with its place in the list of lowers.
  Where the two lists differ, `ColumnHasBuckets` says exactly when a key has a bucket.
- The comparator given to `stable_sort` is not a strict weak order; the model sorts a
  bucket in descending order by insertion.

## Model

| member | source | states |
|---|---|---|
| KuhnMunkres.KM.Search | src/analysis/m_km.cpp:18-39 | success is one augmentation along tight edges that stays off the columns marked before; failure leaves the matching alone and every row it marked has each column either marked or bounded in slack, within every closed set that holds x |
| KuhnMunkres.KM.Take | src/analysis/m_km.cpp:25-33 | a tight column ends the path or passes it on to its row, with the same two outcomes |
| KuhnMunkres.ModestWeightsFit | src/analysis/m_km.h:14-16 | weights of at most 2^29 - 1 in magnitude are in a range that fits 32 bits |
| KuhnMunkres.KM.ReducedCostFits | src/analysis/m_km.cpp:24-24 | the label sum and the reduced cost fit 32 bits and stay below INF |
| KuhnMunkres.KM.InitLabels | src/analysis/m_km.cpp:43-49 | the first labels are feasible and bounded and no column is matched |
| KuhnMunkres.KM.Shift | src/analysis/m_km.cpp:65-76 | the shift is the least slack of an unmarked column and moves exactly the marked rows and columns and the slacks of the other columns |
| KuhnMunkres.KM.LeastUnmarked | src/analysis/m_km.cpp:65-68 | the loop finds the least slack of an unmarked column |
| Relabelling.SearchKeepsSlack | src/analysis/m_km.cpp:34-36 | a failed search keeps every slack, of marked columns too, between 0 and INF |
| KuhnMunkres.FewMarked | src/analysis/m_km.cpp:57-64 | with the rows below x matched a failed search from x marks fewer than x columns |
| KuhnMunkres.KM.Retry | src/analysis/m_km.cpp:57-76 | one search succeeds, or after the shift the columns known to be reached strictly grow and every slack is between 0 and INF |
| KuhnMunkres.KM.Grow | src/analysis/m_km.cpp:53-77 | the retries end with row x matched as well, after at most x shifts, labels still sound |
| KuhnMunkres.KM.Total | src/analysis/m_km.cpp:79-89 | the weight of the matching, between n * lo and n * hi |
| KuhnMunkres.WeightCounts | src/analysis/m_km.cpp:79-88 | the weight of a matching counts exactly the entries that it uses |
| KuhnMunkres.KM.Run | src/analysis/m_km.cpp:41-90 | the result is a perfect matching whose weight is returned and is the maximum over all perfect matchings, after at most n * (n + 1) / 2 label shifts |
| KuhnMunkres.WeakDuality | src/analysis/m_km.cpp:41-90 | feasible labels bound the weight of any choice of rows, and a tight choice meets the bound |
| KuhnMunkres.TightIsOptimal | src/analysis/m_km.cpp:41-90 | a tight perfect matching under feasible labels is at least as heavy as any other |
| KuhnMunkres.SoundIsOptimal | src/analysis/m_km.cpp:51-90 | sound labels that match every row carry a maximum perfect matching |
| KuhnMunkres.AllRowsMatched | src/analysis/m_km.cpp:51-78 | matching every row matches every column |
| KuhnMunkres.FreeColumn | src/analysis/m_km.cpp:51-78 | while a row is free so is a column |
| AlternatingTree.ExploreDeeper | src/analysis/m_km.cpp:25-33 | a failed search from the partner of a tight column extends what the search from x explored |
| AlternatingTree.ExploreSlack | src/analysis/m_km.cpp:34-36 | a column that is not tight is accounted for by its slack |
| Relabelling.MarkedAreScanned | src/analysis/m_km.cpp:57-64 | after a failed search the marked rows form a closed set and marked columns are matched into it |
| Relabelling.RetryKeeps | src/analysis/m_km.cpp:51-68 | a failed retry marks everything the last one made certain, and the slack of every unmarked column is the positive minimum of the reduced costs of the marked rows although it is reset only once per root |
| Relabelling.SomeColumnLeft | src/analysis/m_km.cpp:65-68 | a failed search from a free row leaves a column unmarked |
| Relabelling.ShiftKeepsDuals | src/analysis/m_km.cpp:69-76 | a shift keeps labels feasible and matched edges tight |
| Relabelling.ShiftKeepsBounds | src/analysis/m_km.cpp:69-76 | row labels stay in lo..hi, column labels in 0..hi - lo, free columns at zero |
| Relabelling.ShiftIsSound | src/analysis/m_km.cpp:65-76 | a shift by the least slack keeps labels sound |
| Relabelling.ShiftAdvances | src/analysis/m_km.cpp:65-76 | after the shift all marked columns and the one of least slack are tight with rows that every later search from the root marks |
| Relabelling.LeastAfterShift | src/analysis/m_km.cpp:65-76 | rows marked before the shift lie in every set closed under the new tight edges |
| Matchings.AugmentFree | src/analysis/m_km.cpp:28-31 | taking a free column adds exactly row x to the matched rows |
| Matchings.AugmentThrough | src/analysis/m_km.cpp:28-31 | taking a column whose row found another one adds exactly row x to the matched rows and keeps the matching injective |
| MaxMatching.Matcher.Find | src/analysis/m_km.cpp:108-120 | success is one augmentation that starts outside the barren rows and leaves barren columns alone; failure is a dead end |
| MaxMatching.Matcher.LM | src/analysis/m_km.cpp:138-142 | the number of successes is the size of the matching found and no matching is larger |
| MaxMatching.BarrenGrows | src/analysis/m_km.cpp:138-142 | the rows and columns of a failed search stay closed together with those of earlier ones |
| MaxMatching.BarrenKept | src/analysis/m_km.cpp:113-116 | later successes do not open the closed part again |
| MaxMatching.CoverBounds | src/analysis/m_km.cpp:138-142 | the barren columns with the other rows cover every edge, so the matching found is a largest one |
| MaxMatching.AugmentCounts | src/analysis/m_km.cpp:140-141 | one augmentation adds one matched column |
| Bracket.Frame.LeavesFillPositions | src/common/m_trees.cpp:135-141 | leaves 1..n fill node positions n..2n-1 one to one |
| Bracket.Frame.Adjacent | src/common/m_trees.cpp:76-105 | neighbours on one level cover neighbouring leaf intervals |
| Bracket.Frame.Interval | src/common/m_trees.cpp:76-105 | every node covers an interval of leaves that its children split |
| Bracket.Frame.Chain | src/common/m_trees.cpp:126-131 | nodes with the same last leaf form one chain of right children |
| Bracket.Frame.LowParent | src/common/m_trees.cpp:91-93 | the parent computed for a pair on the lowest level is the parent of both leaves |
| Bracket.Frame.HighParent | src/common/m_trees.cpp:103-105 | likewise one level above |
| Tournament.PlayStart | src/common/m_trees.cpp:119-121 | the game at p is decided and nothing else is disturbed |
| Tournament.PlayClimb | src/common/m_trees.cpp:126-128 | a right child finds the winner of its left sibling parked in the parent |
| Tournament.PlayClimbed | src/common/m_trees.cpp:126-131 | the game with the parked winner is decided one node up |
| Tournament.PlayEnd | src/common/m_trees.cpp:132-132 | after a play every game whose leaves are in is decided and every waiting winner is parked |
| Tournament.NextPair | src/common/m_trees.cpp:91-105 | two sibling leaves complete only their parent and its chain |
| Tournament.NextOdd | src/common/m_trees.cpp:95-99 | for odd n the next leaf meets the winner parked in the parent of both |
| Tournament.WinnerIsLeast | src/common/m_trees.h:78-88 | B[0] is a least leaf |
| Tournament.BracketIsPermutation | src/common/m_trees.cpp:70-111 | B is a permutation of the leaves 1..n |
| Tournament.ReplayStart | src/common/m_trees.h:82-84 | after the winner's key changes only the games on its path are in doubt |
| Tournament.ChampionPath | src/common/m_trees.cpp:135-144 | the winner won every game on its path, where the losers are the winners of the side branches |
| Tournament.ReplayStep | src/common/m_trees.cpp:143-152 | one game moves the doubt one node up |
| LoserTrees.LargestPower | src/common/m_trees.cpp:76-76 | the largest power of two below n |
| LoserTrees.LoserTree.Win | src/common/m_trees.h:59-64 | one of the two, not above either, the left one on a tie |
| LoserTrees.LoserTree.Lose | src/common/m_trees.h:66-71 | the other one |
| LoserTrees.LoserTree.Play | src/common/m_trees.cpp:117-133 | brings in the next leaves: k leaves played become k1 leaves played |
| LoserTrees.LoserTree.PlayLow | src/common/m_trees.cpp:91-93 | the leaves of the lowest level are played |
| LoserTrees.LoserTree.PlayMiddle | src/common/m_trees.cpp:95-101 | for odd n one more leaf is played, through the winner parked in the parent slot |
| LoserTrees.LoserTree.PlayHigh | src/common/m_trees.cpp:103-105 | all leaves are played |
| LoserTrees.LoserTree.Initialize | src/common/m_trees.cpp:70-111 | for every n >= 2 the tournament is decided: each node holds the loser of its two subtree winners and B[0] the winner |
| LoserTrees.LoserTree.Winner | src/common/m_trees.h:78-80 | the index of a least leaf |
| LoserTrees.LoserTree.Load | src/common/m_trees.h:82-84 | replaces the winner's tuple and no other |
| LoserTrees.LoserTree.Game | src/common/m_trees.cpp:143-151 | plays the next game on the path and touches no other node |
| LoserTrees.LoserTree.Replay | src/common/m_trees.cpp:135-152 | the whole tournament is decided again and only nodes on the leaf's path changed |
| Streams.Emit | src/common/m_pc_buffer.cpp:76-105 | writing the least leaf and moving its column on keeps output sorted, below everything waiting, and complete with it |
| Streams.LiveWinner | src/common/m_pc_buffer.cpp:77-96 | a sentinel never wins while a column is not closed |
| Streams.Finished | src/common/m_pc_buffer.cpp:92-95 | when every column is closed the output is the whole input in order |
| Streams.AdvancedWithin | src/common/m_pc_buffer.cpp:81-81 | the next tuple of the block is the next of the column |
| Streams.AdvancedOver | src/common/m_pc_buffer.cpp:82-100 | the next block, or the sentinel for the empty one, continues the column |
| Streams.FirstFront | src/common/m_pc_buffer.cpp:58-71 | the first tuples of all columns start a merge of the whole input |
| Merge.PCBuffer.Open | src/common/m_pc_buffer.cpp:59-68 | the first tuple of every column is a leaf and nothing is lost |
| Merge.PCBuffer.Start | src/common/m_pc_buffer.cpp:58-71 | the tree over the first tuples is decided |
| Merge.PCBuffer.Advance | src/common/m_pc_buffer.cpp:81-101 | the winner's column moves on by one tuple and finished counts closed columns |
| Merge.PCBuffer.Step | src/common/m_pc_buffer.cpp:76-105 | one least tuple is written; done only when every column is closed |
| Merge.PCBuffer.GetSorted | src/common/m_pc_buffer.cpp:57-109 | the output so far stays sorted; a full block while more is left, and on false the output is a permutation of the whole input |
| Merge.PCBuffer.Drain | src/physical/m_shuffle_upper.cpp:119-137 | the calls up to the one that returns false write the whole input in key order; the consumer hands on the full blocks before that call and not the last one, which holds between one and capacity tuples |
| Splits.LastPart | src/analysis/m_par_strategy.cpp:67-80 | a split is a split of its prefix and one last part |
| Splits.AddPart | src/analysis/m_par_strategy.cpp:67-80 | one more cut adds one part and its cost |
| Splits.OnePart | src/analysis/m_par_strategy.cpp:62-65 | the only split into one part |
| Splits.CostZero | src/analysis/m_par_strategy.cpp:44-56 | a part costs nothing exactly when its sums in both histograms are the shares |
| Splits.CostGrows | src/analysis/m_par_strategy.cpp:44-56 | what the empty part costs and what one more element adds, which fixes every cost |
| ParStrategies.ParStrategy.constructor | src/analysis/m_par_strategy.cpp:20-38 | each share is the total of its histogram divided by P, the rest cut off towards zero |
| ParStrategies.OneShare | src/analysis/m_par_strategy.cpp:29-30 | there is only one such share |
| ParStrategies.ParStrategy.Variance | src/analysis/m_par_strategy.cpp:44-56 | the squared deviations of a part |
| ParStrategies.ParStrategy.StepIsLower | src/analysis/m_par_strategy.cpp:70-76 | a value below every last step is below every split |
| ParStrategies.ParStrategy.Cheapest | src/analysis/m_par_strategy.cpp:69-76 | the least last step, with the first predecessor that attains it in new_state, reading only cells that hold a split |
| ParStrategies.ParStrategy.FirstColumn | src/analysis/m_par_strategy.cpp:62-65 | the cells for one part are settled |
| ParStrategies.ParStrategy.FillCell | src/analysis/m_par_strategy.cpp:69-78 | a cell bounds every split it stands for and is linked to where it came from |
| ParStrategies.ParStrategy.FillColumn | src/analysis/m_par_strategy.cpp:68-79 | a column is settled and earlier ones stay so |
| ParStrategies.ParStrategy.Eval | src/analysis/m_par_strategy.cpp:58-80 | the whole table is settled, state agrees with matrix, and cells with more parts than elements are INT_MAX |
| ParStrategies.ParStrategy.TraceIsSplit | src/analysis/m_par_strategy.cpp:71-73 | following new_state back reconstructs a split of exactly the cell's cost |
| ParStrategies.ParStrategy.TableIsOptimal | src/analysis/m_par_strategy.cpp:58-89 | the last cell is the minimum over all splits into P non-empty parts and is attained, unless every split costs at least INT_MAX |
| ParStrategies.ParStrategy.TableFits | src/analysis/m_par_strategy.cpp:69-77 | a bound on the parts keeps every cell, and every sum the inner loop compares, between 0 and INT_MAX |
| Ordering.Compare | src/common/m_trees.cpp:19-56 | decides the lexicographic order by the sort keys, each read by its data type: the low 32 bits with a sign, or the unsigned word |
| Ordering.DataType.Read | src/common/m_data_type.h:44-112 | an integer reads as the 32-bit value congruent to the word, an unsigned long as the word |
| Ordering.LeqLexicographic | src/common/m_trees.cpp:19-56 | a tuple is not after another exactly when all keys tie or the first that does not is below for ascending, above for descending |
| Ordering.OneKey | src/common/m_trees.cpp:29-40 | one ascending key compares with at most, one descending key with at least |
| Ordering.LeqTotal | src/common/m_trees.cpp:19-56 | the order is total and reflexive for any sort list |
| Ordering.LeqTransitive | src/common/m_trees.cpp:19-56 | the order is transitive for any sort list |
| Ordering.LeqBothWays | src/common/m_trees.cpp:46-55 | tuples below each other agree on every sort key |
| Ordering.FirstKeyByColumn | src/common/m_trees.cpp:26-38 | the data type is taken by position in the sort list: a list of one entry sorts by its column exactly when that column has the first data type of the schema |
| Ordering.KeysAgree | src/common/m_trees.cpp:26-38 | a list sorts by its columns when every entry addresses a column of the type at its own position |
| HeapOrder.SinkStep | src/common/m_trees.cpp:250-258 | a swap with the least child leaves only that child in doubt |
| HeapOrder.RootIsLeast | src/common/m_trees.cpp:369-371 | the root of a heap is a least tuple |
| Heaps.Heap.PickChild | src/common/m_trees.cpp:245-246 | the least child |
| Heaps.Heap.HeapAgain | src/common/m_trees.cpp:232-260 | the subtree becomes a heap by a permutation of the heap part, the rest untouched |
| Heaps.Heap.HeapSort | src/common/m_trees.cpp:209-212 | a full array becomes a heap of the same tuples |
| Heaps.Heap.TakeOver | src/common/m_trees.cpp:276-279 | a tuple that can follow joins the heap |
| Heaps.Heap.WaitAside | src/common/m_trees.cpp:280-296 | one that cannot waits behind the waterline |
| Heaps.Heap.EndRun | src/common/m_trees.cpp:281-291 | the run is persisted, sorted and at least as long as the heap |
| Heaps.Heap.HeapAdjust | src/common/m_trees.cpp:266-336 | the least tuple is appended to the run, which stays sorted; the new one joins the heap exactly when it is after that tuple, else it waits behind the lowered waterline, and the run ends exactly when the heap part is used up |
| Heaps.Heap.Feed | src/common/m_trees.cpp:209-336 | over any tuples every persisted run is sorted and at least HEAP_SIZE long, and persisted, current and held tuples are the input |
| Fifo.FirstInFirstOut | src/common/m_circle_queue.h:28-107 | over any run what went in is what came out followed by what is left, within the capacity |
| Fifo.RepliesFromHistory | src/common/m_circle_queue.h:75-107 | from calls and replies alone: a push goes through exactly when fewer items than the capacity are inside, a pop hands out the oldest one inside, and none exactly when there is none |
| CircleQueues.CircleQueue.constructor | src/common/m_circle_queue.h:32-60 | capacity + 1 nodes linked once round, empty |
| CircleQueues.CircleQueue.Push | src/common/m_circle_queue.h:75-91 | the bounded FIFO push, refused exactly at capacity items |
| CircleQueues.CircleQueue.Pop | src/common/m_circle_queue.h:93-107 | the bounded FIFO pop |
| CircleQueues.CircleQueue.Empty | src/common/m_circle_queue.h:109-111 | true exactly when nothing is queued |
| CircleQueues.CircleQueue.Run | src/common/m_circle_queue.h:75-107 | any run of calls replies as the bounded FIFO |
| BlockQueues.BlockCircleQueue.constructor | src/common/m_circle_queue.h:210-217 | a pool of capacity blocks, all free |
| BlockQueues.BlockCircleQueue.Push | src/common/m_circle_queue.h:227-242 | the bounded FIFO push of the content; the lists still partition the pool and no queued block is overwritten |
| BlockQueues.BlockCircleQueue.Pop | src/common/m_circle_queue.h:244-257 | the bounded FIFO pop of the content; the lists still partition the pool |
| BlockQueues.BlockCircleQueue.Run | src/common/m_circle_queue.h:227-257 | any run of calls replies as the bounded FIFO of contents |
| ThreadPool.EveryRun | src/common/m_thread_pool.cpp:19-66 | over every interleaving: the lock is exclusive, dispatch order equals acceptance order with each task dispatched once, no worker pops an empty queue, each worker runs the task dispatched to it |
| ThreadPool.NoLostWakeup | src/common/m_thread_pool.cpp:22-29 | with the lock free at least min(queue length, nthreads) workers are awake |
| ThreadPool.StepKeepsOrder | src/common/m_thread_pool.cpp:28-56 | accepted tasks are the dispatched ones followed by the queued ones |
| ThreadPool.AcceptedIsArrived | src/common/m_thread_pool.cpp:51-55 | in every run the tasks with which a submitter was called are those accepted from it, in order, and the one it still has |
| ThreadPool.StepMovesTask | src/common/m_thread_pool.cpp:51-56 | a task moves from the call to its submitter and from there to the accepted ones, and in no other way |
| ThreadPool.QueueIsBounded | src/common/m_thread_pool.cpp:28-56 | a try to push and a take are the push and pop of the bounded queue |
| ThreadPool.StepKeepsRoused | src/common/m_thread_pool.cpp:24-58 | a push and its signal leave enough workers awake |
| ThreadPool.OldestTaskCanRun | src/common/m_thread_pool.cpp:21-31 | no queued task is stranded: with the lock free some worker can run next and takes the oldest task |
| Dispatch.StepWorks | src/common/m_thread_pool.cpp:19-66 | while a task is queued every step of any thread has no effect or uses up part of a bounded amount of work |
| Dispatch.IdleStepWorks | src/common/m_thread_pool.cpp:21-29 | no busy waiting: with the queue empty every effective step of an unwoken worker brings it nearer to sleep |
| Dispatch.IdleEndsAsleep | src/common/m_thread_pool.cpp:24-26 | when no such step is left all workers are asleep |
| Dispatch.SpuriousWakeIsHarmless | src/common/m_thread_pool.cpp:24-26 | a worker that wakes without a signal takes the lock, finds the queue empty and sleeps again as before |
| Dispatch.FairMoves | src/common/m_thread_pool.cpp:19-66 | while a task is queued and nobody is stuck on a full ring, a fair stretch holds a step with an effect |
| Dispatch.FairRunDispatches | src/common/m_thread_pool.cpp:19-66 | after a bounded number of fair stretches every task accepted before has been dispatched, in order, unless a submitter is stuck in front of a full ring |
| ThreadPool.RetryAlone | src/common/m_thread_pool.cpp:51-66 | nobody changes the queue while a submitter retries |
| ThreadPool.FullNeverCompletes | src/common/m_thread_pool.cpp:51-66 | a submit that found the ring full never completes and no task moves again |
| Dispatch.StuckIsReachable | src/common/m_thread_pool.cpp:51-66 | for every capacity and number of workers some run from the start ends in front of a full ring |
| ThreadPool.RoomCompletes | src/common/m_thread_pool.cpp:51-66 | a submit that found room is accepted as the next task at its next try |
| Receive.Merger.ReceiveReady | src/common/m_merger.cpp:236-251 | exactly the ready senders that are listened to hand over their next block, each into an empty slot |
| Receive.Merger.Deliver | src/common/m_merger.cpp:258-275 | a put appends the pending block; the end marker finishes its sender |
| Receive.Lane.OfferedMeans | src/common/m_merger.cpp:258-277 | a put that fails leaves a sender as it was; one that succeeds appends exactly the pending block |
| Receive.Merger.Offer | src/common/m_merger.cpp:256-280 | one sender of a pass: the column grows by the pending block exactly when there is one and its put succeeds; whether it is listened to again |
| Receive.Merger.Pass | src/common/m_merger.cpp:255-283 | a sender whose put fails is unchanged; one whose put succeeds has its pending block at the end of its column; the pass returns exactly when the last end marker is put |
| Receive.Merger.Settle | src/common/m_merger.cpp:252-287 | passes are made up to the first that finds or frees an empty slot; a waiting block moves exactly when one of them found room for it; afterwards exactly the unfinished senders with an empty slot are listened to, and there is one; passes that between them find room for every column are enough |
| Receive.Merger.ReceiveSelect1 | src/common/m_merger.cpp:203-292 | for any ready sets and put results column, pending block and wire make up what was sent, a column that never has room is unchanged, and the loop returns exactly when every end marker is in its column; a fair stretch of rounds takes a block off the wire or returns |
| Receive.Merger.ReceiveAll | src/common/m_merger.cpp:203-292 | when every stream has its end marker, as many fair stretches as blocks on the wire make the loop return with every column complete |
| Receive.Lane.MoreToCome | src/common/m_merger.cpp:258-275 | a sender with an empty slot whose end marker has not been put still has a block on the wire |
| Exchange.PutKeepsInv | src/physical/m_shuffle_lower1.cpp:104-117 | a put passes on the plan of its column in order |
| Exchange.GetKeepsInv | src/physical/m_shuffle_lower1.cpp:141-159 | a send takes the next block of the plan and counts end markers exactly |
| Exchange.EveryRun | src/physical/m_shuffle_lower1.cpp:78-163 | sent, queued and planned blocks of every column make up its plan in every interleaving |
| Exchange.SendRouteSound | src/physical/m_shuffle_lower1.cpp:134-163 | every channel has sent a prefix of its plan and send_route has returned exactly when all of every plan is sent, its single end marker last |
| Exchange.EveryRunTagged | src/physical/m_shuffle_lower1.cpp:145-150 | over every run the numbers in the packets of all channels are 1..debug_count_, each once, and rise within a channel |
| Exchange.ColumnsAreQueues | src/physical/m_shuffle_lower1.cpp:104-142 | a put and a get are the push and pop of a bounded queue on their column |
| Exchange.CursorGoesRound | src/physical/m_shuffle_lower1.cpp:139-161 | until it returns send_route looks at the columns in turn |
| Exchange.Alive | src/physical/m_shuffle_lower1.cpp:104-163 | until send_route returns a column has a block to send or execute has room to put |
| Exchange.StepWorks | src/physical/m_shuffle_lower1.cpp:104-163 | a step of either thread does part of a bounded amount of work or only moves past an empty column |
| Exchange.FairStretchWorks | src/physical/m_shuffle_lower1.cpp:104-163 | one tried put and one round of gets, in any order, do work unless send_route has returned |
| Exchange.FairRunReturns | src/physical/m_shuffle_lower1.cpp:78-163 | after a bounded number of such stretches send_route has returned with every block and end marker sent |
| Routing.Partition | src/physical/m_shuffle_lower1.cpp:188-198 | the first bound above the key, found exactly when there is one |
| Routing.RoutesToColumn | src/physical/m_shuffle_lower1.cpp:86-106 | the range number divided by mul is the one column whose range holds the key |
| Routing.ColumnOfKey | src/physical/m_shuffle_lower1.cpp:86-106 | the column of a key is the number of keys up to it, times m, less one, divided by the volume |
| Routing.EveryKeyRouted | src/physical/m_shuffle_lower1.cpp:55-59 | a key finds a range exactly when it is below the volume |
| Routing.ColumnsExist | src/physical/m_shuffle_lower1.cpp:86-106 | the divisor is zero exactly when there are more columns than ranges; otherwise the division stays within the m columns exactly when m divides the number of ranges |
| Routing.FindPlace | src/physical/m_sort.cpp:69-75 | the first entry of an upper in the list of lowers, or 0 if it has none |
| Routing.BucketIffBelow | src/physical/m_sort.cpp:77-81 | a key has a bucket at place th among n lowers exactly below the last bound there |
| Routing.BoundsAreEven | src/physical/m_sort.cpp:77-81 | neighbouring bounds are a share of the volume apart, up to one |
| Routing.EvenBucket | src/physical/m_sort.cpp:77-81 | with even shares a key of place th is dealt to the bucket whose share of the volume holds it |
| Routing.ColumnHasBuckets | src/physical/m_sort.cpp:77-81 | for any number m of uppers, number n of lowers and place th: all keys of column c have a bucket exactly when the last bound covers the column or the column is empty |
| Routing.BucketsAgree | src/physical/m_sort.cpp:77-81 | when the uppers are the first m of n lowers, every routed key has a bucket at its upper exactly when n is m and m divides the volume |
| Routing.LastKeyMissed | src/physical/m_sort.cpp:77-81 | otherwise the last key of the volume has none |
| Routing.EightLowersMissAKey | src/physical/m_sort.cpp:77-81 | with four uppers and eight lowers key 20000000 is routed to upper 1, which has no bucket for it |
| Routing.ConfiguredBucketsAgree | src/physical/m_sort.cpp:77-81 | with the configured constants, as many lowers as uppers and the same order, every routed key has a bucket |
| Lower.Execute | src/physical/m_shuffle_lower1.cpp:86-110 | for every range the first size tuples make a block, the next one has it put and is not stored, and so on, the rest stays in the buffer; puts follow the order of the tuples not stored; every block holds keys of its column only; nothing is lost exactly when there are no tuples |
| Lower.ChunkAt | src/physical/m_shuffle_lower1.cpp:100-108 | block k of a range is elements k * (size + 1) up to k * (size + 1) + size of its tuples, and the element after it is not stored |
| Lower.ChunkCount | src/physical/m_shuffle_lower1.cpp:100-110 | what is left after the last such run stays in the buffer |
| Lower.Flushed | src/physical/m_shuffle_lower1.cpp:104-106 | a full buffer holds keys of the one column that its range number divided by mul names |
| Lower.LossIff | src/physical/m_shuffle_lower1.cpp:100-118 | put, unstored and buffered tuples make up the input, and the put ones are all of it exactly when it is empty |
| RangeSort.SortDescending | src/physical/m_sort.cpp:240-248 | a descending permutation of a bucket |
| RangeSort.DealtIsApart | src/physical/m_sort.cpp:134-141 | keys of an earlier bucket are below keys of a later one |
| RangeSort.Sort.Deal | src/physical/m_sort.cpp:134-141 | every tuple is in the bucket of its range |
| RangeSort.Sort.Prelude | src/physical/m_sort.cpp:87-153 | the buckets are dealt, sorted and hold the input |
| RangeSort.EmitLast | src/physical/m_sort.cpp:187-196 | the end of the current bucket is the least tuple left |
| RangeSort.SomeBucketLeft | src/physical/m_sort.cpp:165-204 | count_ is not past the last bucket while tuples are left |
| RangeSort.Sort.Turn | src/physical/m_sort.cpp:169-204 | one tuple is written or one empty bucket passed |
| RangeSort.Sort.Execute | src/physical/m_sort.cpp:161-209 | the output so far is sorted; false exactly when nothing is left, and then it is the whole input |
| RangeSort.Sort.Drain | src/physical/m_sort.cpp:161-209 | all calls together write the input in key order |
| Pipeline.ReceivedWhole | src/common/m_merger.cpp:262-268 | a stream closed by its one end marker is received whole |
| Pipeline.ExchangeDelivers | src/physical/m_shuffle_lower1.cpp:78-163 | once both sides have returned a column holds exactly the data blocks put for it and the end marker |
| Pipeline.SentIsStream | src/physical/m_shuffle_lower1.cpp:134-163 | a column whose data blocks are in key order was sent as a stream that the merge accepts |
| Pipeline.MergeReceived | src/common/m_pc_buffer.cpp:57-109 | when the receiving loop has returned on sorted streams, the merge over its columns writes all tuples that were sent, in key order |
| Pipeline.AcceptingIffBuckets | src/physical/m_sort.cpp:69-81 | for any lists of uppers and lowers, the bounds cover the columns exactly when every key that can be routed has a bucket at its upper |
| Pipeline.SameMachinesAccepted | src/physical/m_sort.cpp:69-81 | the same machines in the same order on both sides, with an even volume, are covered |
| Pipeline.ColumnIsSortable | src/physical/m_sort.cpp:285-289 | when the bounds cover the columns the range sort at upper c accepts every tuple routed to c |
| Pipeline.Collect | src/physical/m_sort.cpp:50-60 | the uppers collect the blocks of a lower: each column grows by the blocks planned for it, in order |
| Pipeline.SortColumns | src/physical/m_sort.cpp:69-209 | every upper sets its bounds by its place among the lowers and sorts its column; nothing changes column |
| Pipeline.GlobalOrder | src/physical/m_sort.cpp:161-209 | the sorted outputs of the uppers in column order are globally sorted |
| Pipeline.ExchangeSort | src/physical/m_sort.cpp:69-209 | for lists of uppers and lowers whose bounds cover the columns, the outputs in column order are the sorted permutation of the tuples in the blocks that the lowers put for their tuples; those and the lost ones make up the input, and none are lost exactly when there are no tuples |

## Left out

- `MergeJoin`: its right-hand look-ahead advances the left iterator, so the intended equi-join does not hold of the code.
- What callers find in output blocks of `Sort` and `get_sorted`: `assembling` stamps a full count and the last block is stamped zero; the properties are about the tuples written.
- `Heap::init_phase` and `Heap::cleanup`: the first drops a tuple, the second drains once too often; the heap starts from a full array.
- Lower.Execute: exchange number 10, which routes everything to one range and puts nothing.
- Pipeline.ExchangeSort: the steps of the two threads and of the receiving loop, which `ExchangeDelivers` covers; keys at or above the volume, for which `partition` falls off its loop.
- Pipeline.MergeReceived: joins the merge to `m_receive_select1`; `ShuffleUpper` starts the older loop `m_receive_select`, which ignores the result of `put`.
- Routing.BucketIffBelow: places above 42, where `th * DATAVOLUME` leaves 32 bits in the program.
- `ShuffleLower`, `Merger::m_receive_select`: superseded variants whose handling of `put` is inverted or missing.
- The cut-point printout of `ParStrategy::eval`: column minima, not a back-trace.
- `PCBuffer::put` and `get`: the give-up after eleven tries; the exchange and the receiving loop take every try as a step of its own.
- LoserTrees.LoserTree.Replay: the return value, which is 1 only for a null winner, that is after the comparison has already dereferenced it.
- LoserTrees.LoserTree.Initialize: one leaf is not covered, because the program then reads B[0] before it is set.
- CircleQueues.CircleQueue.constructor: capacity 0 is not covered, because the ring is then not closed.
- Exchange.SendRouteSound: the running number that `tag` writes into a block is kept beside its tuples; that it may overlap the last tuple for some tuple sizes is not modelled.
- Real time: the bounds count fair stretches of steps, not seconds, and tasks are taken to end.
- Merge.PCBuffer.Drain: what is written is the whole input; what `ShuffleUpper` hands on lacks the block of the call that returned false, because the program drops it.
- RangeSort.SortDescending: nothing is said about the order of equal keys, because the comparator given to `stable_sort` is not a strict weak order and promises none.
- Byte layout, growth of the run buffer, files, sockets, serialization, configuration, logging, timers and affinity.
- The SQL front end, the logical plan, the optimizer and the stub structures (B+ tree, red-black tree, skip list, hash join).
