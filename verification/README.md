# Models of go-zero's core algorithms

Dafny models, with proofs, of the self-contained algorithms and the small concurrent protocols in go-zero's `core`
directory. `dafny verify dfyconfig.toml` checks everything.

| files | what they model |
|---|---|
| `KeywordSpec`, `KeywordNode`, `KeywordTrie` | the Aho-Corasick matcher of `stringx`, keyword masking and replacing |
| `PeriodicalExecutor`, `PeriodicalExecutorProof`, `PeriodicalExecutorRuns` | the batching executor with its command channel, handshake and self-quitting loop |
| `SafeMap` | the map in two generations |
| `TimingWheelSpec`, `TimingWheelState`, `TimingWheel` | the timing wheel: arithmetic, its state as a value, the scheduler |
| `ConsistentHashSpec`, `ConsistentHash` | the hash ring |
| `RollingWindow`, `GoogleBreaker` | the rolling window and the adaptive breaker on top of it |
| `StableRunner` | parallel processing with results in the order pushed |
| `MapReduce`, `MapReduceProof`, `MapReduceRuns` | generator, dispatcher, mappers, collector and reducer |
| `RouteSpec`, `SearchTree` | the route tree with its backtracking search |
| `LineChunks` | splitting a file into chunks of whole lines |
| `LruCache` | the in-memory cache with a key limit |
| `Arithmetic`, `Options`, `Paths`, `Sequences`, `Sorting`, `Threads` | shared helpers |

Sequential code is modelled as classes and methods with loops, each proved against a specification that does not
follow its steps: occurrences of words in a text, a map from keys to ticks to go, a log of time-stamped events, a set
of registered routes, a history of uses. Concurrent code is modelled as a state machine whose steps are the
lock-protected bodies and the single channel, wait group and atomic operations; the results hold in every state that
some interleaving reaches. Hash functions, handlers and other callbacks are parameters; clocks and random numbers are
arguments; Go's arbitrary order of map iteration is an arbitrary choice; `float64` is `real`.

Where a promise is false of the code, the model keeps the code, a lemma gives an input or a run that shows it, and
another one gives the exact condition under which the promise holds:

- `Wait` of the periodical executor can return before a task that was added earlier has been executed, although no
  `Add` was in progress when it was called: an `Add` that starts later can take the earlier task out of the container
  first (`WaitCanMissATask`). It cannot if no `Add` starts before the waiter has emptied the container
  (`WaitAfterAdds`). In any case it is certain to return with a task executed if and only if, at the call, the task is
  executed already or in the hand of a goroutine that the wait group counts (`WaitIsExactAtCall`), or if nothing is
  outside the wait group when the waiter empties the container (`WaitIsExact`).
- Moving a timer can leave it one revolution late or early (`MoveCanBeLate`, `MoveCanBeEarly`, `MoveIsExactWhen`).
- `Remove` on the hash ring walks over replica indices the node never had, so it can take keys from other nodes
  (`RemoveCanTakeTooMuch`, `RemoveIsRightWhen`), and a later `Get` can divide by zero (`GetCanDivideByZero`; the
  contract of `Get` says when). Rings on which every node has all replicas stay right. Two calls that add the same new
  node can overlap so that it is in twice and a removal leaves keys behind (`OverlappingAdds`); the contract of
  `AddPoints` says when a node comes in twice.
- A map-reduce can hang for ever when a panic comes up after the caller has left its select: because the context has
  ended and it cancels (`CallerCanHang`), or because it has taken an output that the reducer wrote early
  (`EarlyOutputCanHang`). These are the only cases (`OnlyReportsHang`, `CallReturnsUnless`), and neither occurs if no
  user function panics (`WithoutPanicsAllEnds`).
- `SplitLineChunks` fails for some files whose last line is not terminated (`SplitCanFail`, `FailsExactly`,
  `FailsByTail`, `LongTailFails`), and its 1024-byte buffer can separate a CR from its LF (`SplitCanCutCrLf`, `CrLfIsCutWhen`,
  `RangeCutsCrLfWhen`).

## Model

| member | source | states |
|---|---|---|
| KeywordSpec.OccurrencesAreExact | core/stringx/node.go:63-98 | the result expected of `find` holds exactly the ranges of the text that are keywords, each once, by their ends and then the longest first |
| KeywordSpec.LongestSuffixIsLongest | core/stringx/node.go:63-84 | the state the scan keeps is the longest suffix of the consumed text that is in the trie |
| KeywordSpec.GotoIsLongestSuffix | core/stringx/node.go:69-84 | following fail links until a child exists leads to the longest suffix of the extended text that is in the trie |
| KeywordSpec.FailPathOfChild | core/stringx/node.go:45-59 | the fail target of a child is what the walk along its parent's fail links finds |
| KeywordSpec.OutChainIsEndingAt | core/stringx/node.go:86-94 | the nodes marked as ends along the fail links from the state are exactly the keywords ending at this position |
| KeywordSpec.FrontierReaches | core/stringx/node.go:36-61 | queueing a child not reached before keeps the queue duplicate-free and in the order of depth |
| KeywordSpec.FrontierPops | core/stringx/node.go:42-45 | so does taking the next node out of the queue |
| KeywordSpec.FrontierShorter | core/stringx/node.go:42-60 | when a node is expanded, every node at most as deep has been reached, so its fail link is set |
| KeywordNode.Node.Add | core/stringx/node.go:10-34 | the trie gains exactly the word, nothing for the empty word |
| KeywordNode.Node.Build | core/stringx/node.go:36-61 | every node but the root fails to the node of its longest proper suffix in the trie |
| KeywordNode.Node.LinkChild | core/stringx/node.go:47-58 | the inner loop finds that node for one child |
| KeywordNode.Node.Find | core/stringx/node.go:63-98 | returns all occurrences of all keywords, each once, in order of their ends |
| KeywordNode.Node.Advance | core/stringx/node.go:69-84 | one rune takes the state to the longest suffix that is in the trie |
| KeywordTrie.Trie.constructor | core/stringx/trie.go:29-45 | the keywords are the non-empty words given and the mask defaults to `*` |
| KeywordTrie.Trie.Filter | core/stringx/trie.go:47-62 | masks exactly the positions inside some keyword occurrence and lists exactly the keywords that occur, each once |
| KeywordTrie.Trie.FindKeywords | core/stringx/trie.go:64-72 | lists exactly the keywords that occur, each once |
| KeywordTrie.CollectKeywords | core/stringx/trie.go:74-88 | the distinct texts of the scopes |
| KeywordTrie.Trie.ReplaceWithAsterisk | core/stringx/trie.go:90-94 | overwrites exactly one range with the mask |
| KeywordTrie.Replacer.constructor | core/stringx/replacer.go:25-36 | the keywords are the keys of the mapping |
| KeywordTrie.Replacer.Replace | core/stringx/replacer.go:39-48 | is the rewrite of the rewrite, also where it stops after the first because nothing was found |
| KeywordTrie.Replacer.DoReplace | core/stringx/replacer.go:50-84 | is the leftmost-longest rewrite and reports true exactly if some keyword occurs |
| KeywordTrie.Replacer.RewriteScopes | core/stringx/replacer.go:57-81 | one greedy pass over the sorted scopes is the leftmost-longest rewrite |
| KeywordTrie.LongestAtIsLongest | core/stringx/replacer.go:57-65 | the keyword taken at a position is at least as long as any that starts there |
| KeywordTrie.RewriteReplaces | core/stringx/replacer.go:69-78 | the first keyword is replaced and the rewrite goes on behind it |
| KeywordTrie.RewriteWithoutKeywords | core/stringx/replacer.go:53-55 | a text without keywords is left as it is |
| KeywordTrie.RewriteTimesFixed | core/stringx/replacer.go:39-48 | stopping at a text without keywords is the same as going on |
| PeriodicalExecutorProof.EachTaskInOnePlace | core/executors/periodicalexecutor.go:67-171 | in every run each added task is in exactly one of container, command channel, some goroutine's hand, or executed, and is executed at most once |
| PeriodicalExecutorProof.QueuedWorkHasALoop | core/executors/periodicalexecutor.go:99-148 | there is at most one background loop, and one whenever `inflight` is positive; `inflight` is zero exactly if no batch is on its way to it |
| PeriodicalExecutorProof.ContainerIsWatched | core/executors/periodicalexecutor.go:118-148 | a non-empty container has a live loop or a quitting one whose last flush is still to come |
| PeriodicalExecutorProof.InvStep | core/executors/periodicalexecutor.go:67-202 | every step of every goroutine keeps placement, counters, guard and barrier consistent |
| PeriodicalExecutorProof.WaitGuarantee | core/executors/periodicalexecutor.go:92-97 | if nothing added before was outside the wait group at the waiter's RemoveAll, all of it is executed when Wait returns |
| PeriodicalExecutorProof.NoAddMeansSafe | core/executors/periodicalexecutor.go:130-136 | with no Add in progress nothing is outside the wait group |
| PeriodicalExecutorProof.WaitCanMissATask | core/executors/periodicalexecutor.go:67-97 | a run in which Wait returns without a task added before it was called, though no Add was in progress then |
| PeriodicalExecutorProof.WaitIsExact | core/executors/periodicalexecutor.go:92-97 | Wait is certain to return with everything executed if and only if nothing is outside the wait group at its RemoveAll |
| PeriodicalExecutorProof.WaitAfterAdds | core/executors/periodicalexecutor.go:92-97 | if no Add is in progress when Wait is called and none starts before its RemoveAll, everything added before the call is executed when it returns |
| PeriodicalExecutorProof.WaitIsExactAtCall | core/executors/periodicalexecutor.go:92-97 | every run from the call of Wait to its return executes a task added before if and only if, at the call, it is executed or held by a goroutine that the wait group counts; so Wait is never certain of what is in the container |
| PeriodicalExecutorProof.OnlyCallsAndTicksAreMissing | core/executors/periodicalexecutor.go:67-202 | no deadlock: when nothing moves on its own, all calls of Add, Flush and Wait have returned and at most one loop is left, at its select |
| PeriodicalExecutorProof.RunsEnd | core/executors/periodicalexecutor.go:67-202 | without new calls and ticks every run ends after a bounded number of steps |
| PeriodicalExecutorRuns.TickExecutes | core/executors/periodicalexecutor.go:137-141 | whatever is in the container at a tick, with no command since the tick before, is executed in every run from there to a state in which nothing moves on its own |
| PeriodicalExecutorRuns.SecondTickExecutes | core/executors/periodicalexecutor.go:131-141 | after a command it takes a second tick without another command between, which then does the same |
| PeriodicalExecutorRuns.FirstTickDoesNot | core/executors/periodicalexecutor.go:137-139 | the first tick after a command executes nothing |
| PeriodicalExecutorRuns.NothingIsStranded | core/executors/periodicalexecutor.go:99-148 | when nothing moves on its own, every task added is executed or in the container of a live loop |
| PeriodicalExecutorRuns.FullContainerIsExecuted | core/executors/periodicalexecutor.go:67-72 | an Add that fills the container has all that is in it executed |
| PeriodicalExecutorRuns.FlushExecutes | core/executors/periodicalexecutor.go:75-82 | a call of Flush has all that is in the container executed |
| PeriodicalExecutorRuns.StaysUntilTaken | core/executors/periodicalexecutor.go:99-116 | a task stays in the container until a flush or an Add that fills it takes it |
| PeriodicalExecutorRuns.LoopRemembers | core/executors/periodicalexecutor.go:126-145 | a loop goes on until it finds itself idle with nothing in flight, and at its select knows whether the last thing it got was a command |
| PeriodicalExecutorRuns.AsksAfterNothing | core/executors/periodicalexecutor.go:140-144 | a loop asks whether it shall quit exactly after a tick that found nothing |
| PeriodicalExecutorRuns.QuitsWhenIdle | core/executors/periodicalexecutor.go:188-202 | an idle loop with nothing in flight ends, and its last flush executes what is left |
| PeriodicalExecutorRuns.BarrierHoldsOff | core/executors/periodicalexecutor.go:154-158 | while a waiter waits for the wait group, nobody enters it |
| SafeMaps.SafeMap.Get | core/collection/safemap.go:60-70 | looks the key up in the plain map that the two generations stand for |
| SafeMaps.SafeMap.Set | core/collection/safemap.go:91-108 | both branches change the plain map at that key only and keep the generations disjoint; a generation with more than 10000 deletions takes no more entries |
| SafeMaps.SafeMap.Del | core/collection/safemap.go:30-57 | removes the key from the plain map, whichever compaction runs; afterwards a generation of less than 1000 entries has never held 10000 more, the old one at the latest after one more Del |
| SafeMaps.SafeMap.Size | core/collection/safemap.go:111-116 | the size of the plain map |
| SafeMaps.SafeMap.Range | core/collection/safemap.go:74-88 | visits distinct entries of the plain map, and all of them unless it is stopped |
| TimingWheelSpec.PlacementIsExact | core/collection/timingwheel.go:185-191 | slot and circle of a fresh item make it fire after exactly the number of steps |
| TimingWheelSpec.MoveForward | core/collection/timingwheel.go:213-216 | what a move towards a later slot leaves as ticks to go |
| TimingWheelSpec.MoveBackward | core/collection/timingwheel.go:217-220 | what a move that gives up a circle leaves |
| TimingWheelSpec.MoveByRequeue | core/collection/timingwheel.go:221-229 | a fresh item for the timer leaves exactly the number of steps |
| TimingWheelSpec.MoveIsExactWhen | core/collection/timingwheel.go:213-229 | a move is exact if and only if old slot and target lie on the same side of the slot scanned last, or the item is replaced |
| TimingWheelSpec.MoveOn | core/collection/timingwheel.go:297-307 | an item moved on by its diff is one tick nearer, and never lands in the slot being scanned |
| TimingWheelSpec.LowerCircle | core/collection/timingwheel.go:293-296 | giving up a circle when scanned is one tick nearer |
| TimingWheelState.FiresOnTime | core/collection/timingwheel.go:249-267 | in the map from keys to ticks, a timer that no change concerns is there until its ticks are full, and no longer |
| TimingWheels.TimingWheel.SetTask | core/collection/timingwheel.go:323-338 | a new key gets max(1, delay / interval) ticks; every other timer keeps its ticks |
| TimingWheels.TimingWheel.PushItem | core/collection/timingwheel.go:333-336 | the slot list and `timers` gain the item together |
| TimingWheels.TimingWheel.MoveTask | core/collection/timingwheel.go:199-230 | all branches change the ticks of this key only, to the number of MovedTicks; below one interval the task runs and the timer stays |
| TimingWheels.TimingWheel.RemoveTask | core/collection/timingwheel.go:238-247 | exactly this key is gone |
| TimingWheels.TimingWheel.OnTick | core/collection/timingwheel.go:232-236 | exactly the timers with one tick to go fire, each once, and every other timer gets one tick nearer |
| TimingWheels.TimingWheel.Handle | core/collection/timingwheel.go:251-259 | per message: a set gives a new key its steps and another one its value and the moved ticks, a removal takes exactly the key, a move gives the moved ticks or runs the task, and a tick fires those with one tick to go |
| TimingWheels.TimingWheel.Run | core/collection/timingwheel.go:249-267 | over any sequence of messages, a new timer fires with its value at tick max(1, delay / interval) after the message that sets it, if none names it meanwhile, and at no other; so does one that was there, at the tick that makes its ticks full; a key without a timer never fires |
| TimingWheels.WithoutIs | core/collection/timingwheel.go:249-267 | whether a key has a timer follows from the messages and the tasks that ran: it has none if it never had one, ran or was removed, and was not set since |
| TimingWheels.TimingWheel.ScanAndRunTasks | core/collection/timingwheel.go:283-321 | the scan fires what has nothing left to go and keeps items and `timers` in one-to-one agreement |
| TimingWheels.MoveCanBeLate | core/collection/timingwheel.go:213-216 | on a wheel of 10 slots, a timer set to 10 ticks and moved to 1 is left with 11 |
| TimingWheels.MoveCanBeEarly | core/collection/timingwheel.go:217-220 | on a wheel of 10 slots, a timer set to 2 ticks and moved to 15 is left with 5 |
| ConsistentHashSpec.RingLengths | core/hash/consistenthash.go:79-83 | the list at a hash is as long as the number of copies of the hash among the keys |
| ConsistentHashSpec.StateIsDetermined | core/hash/consistenthash.go:67-88 | ring and nodes, and the keys while they are right, are determined by which nodes are in, in which order, with how many replicas |
| ConsistentHashSpec.AddThenRemove | core/hash/consistenthash.go:127-149 | removing a node just added gives back the list of nodes there was before |
| ConsistentHashes.AddAndRemove | core/hash/consistenthash.go:67-149 | adding a new node and removing it gives back ring and nodes; the keys too if it had all replicas, or else, if they were right, exactly if it has no stray index |
| ConsistentHashSpec.FullIsNotStray | core/hash/consistenthash.go:60-62 | under any hash function, a ring on which every node has all replicas has no stray index |
| ConsistentHashSpec.RemoveIsRightWhen | core/hash/consistenthash.go:137-146 | Remove leaves the other nodes their keys if and only if no replica index the node never used hashes onto one of theirs; full replicas or no collisions rule that out |
| ConsistentHashSpec.RemoveCanTakeTooMuch | core/hash/consistenthash.go:137-146 | a ring of 100 replicas on which Remove takes another node's key |
| ConsistentHashes.GetCanDivideByZero | core/hash/consistenthash.go:104-111 | after such a Remove, the next Get takes a remainder by zero |
| ConsistentHashSpec.AnswerIsUnique | core/hash/consistenthash.go:100-124 | the contract of Get determines its result |
| ConsistentHashSpec.RemovingDisturbsOnlyItsValues | core/hash/consistenthash.go:127-149 | removing a node changes the answer only for values it owned |
| ConsistentHashSpec.AddingDisturbsOnlyForTheNode | core/hash/consistenthash.go:67-88 | adding a node changes the answer only to that node, or from it if it was in before |
| ConsistentHashSpec.IndexIsSuccessor | core/hash/consistenthash.go:108-111 | the index taken modulo the number of keys is that of the first key at or after the hash, around the ring |
| ConsistentHashSpec.ItoaIsDecimal | core/hash/consistenthash.go:80 | the replica index is written in decimal digits without leading zeros |
| ConsistentHashSpec.ReplicasDiffer | core/hash/consistenthash.go:80 | the replicas of a node are hashed from different strings |
| ConsistentHashes.ConsistentHash.constructor | core/hash/consistenthash.go:41-56 | an empty ring with at least 100 replicas |
| ConsistentHashes.ConsistentHash.AddWithReplicas | core/hash/consistenthash.go:67-88 | in any state, with no other call between its halves: the node is in with exactly its latest replicas, at most the ring's, and the keys gain one for each, after what Remove took; right keys stay right exactly if that took none from others |
| ConsistentHashes.ConsistentHash.AddPoints | core/hash/consistenthash.go:70-87 | the half behind Remove, in any state: the node comes behind all that are in, its keys are added, and the names stay different exactly if the node is not in when it begins |
| ConsistentHashes.OverlappingAdds | core/hash/consistenthash.go:67-88 | two overlapping calls add a node twice; after its removal Get finds nothing on a ring that has a node |
| ConsistentHashes.ConsistentHash.Add | core/hash/consistenthash.go:60-62 | the same with all replicas; a right ring of full replicas stays one |
| ConsistentHashes.ConsistentHash.AddWithWeight | core/hash/consistenthash.go:92-97 | the node is in with the percentage of the replicas that the weight says, rounded down; with all above 100, with none below 0 |
| ConsistentHashes.ConsistentHash.Remove | core/hash/consistenthash.go:127-149 | in any state: the ring is that of the nodes without this one, and the keys lose one for each replica index, as far as there are any; right keys stay right exactly if there was no stray index, as on rings of full replicas |
| ConsistentHashes.ConsistentHash.RemoveRingNode | core/hash/consistenthash.go:151-165 | drops the node from the list at one hash, and the list if nothing is left |
| ConsistentHashes.ConsistentHash.Get | core/hash/consistenthash.go:100-124 | in any state: it takes a remainder by zero if and only if there are nodes in the ring but no keys, and else returns the node of the first key at or after the hash; while the keys are right that is the first point of the ring, and there is no remainder by zero |
| RollingWindows.RollingWindow.Add | core/collection/rollingwindow.go:57-62 | the event is logged under the interval that `now` lies in, after any idle gap |
| RollingWindows.RollingWindow.UpdateOffset | core/collection/rollingwindow.go:92-108 | after the resets every bucket holds exactly the events of its interval, and the last time is aligned |
| RollingWindows.RollingWindow.Span | core/collection/rollingwindow.go:83-90 | the number of intervals passed, capped at the size |
| RollingWindows.RollingWindow.Reduce | core/collection/rollingwindow.go:65-81 | the buckets of the last size intervals that are not expired or ignored, oldest first, each holding exactly its interval's events |
| GoogleBreakers.RunsOfBuckets | core/breaker/googlebreaker.go:133-152 | the working and failing buckets are those since the last failure and since the last success; not both are positive |
| GoogleBreakers.BucketCounts | core/breaker/bucket.go:17-48 | the counters of a bucket are the numbers of its events |
| GoogleBreakers.RecentCounts | core/breaker/googlebreaker.go:133-152 | accepts and total count exactly the events of the 40 latest intervals, and neither run exceeds 40 |
| GoogleBreakers.EmptyTail | core/breaker/googlebreaker.go:136-149 | buckets of intervals without events, left out by the window, would not change the fold |
| GoogleBreakers.RatiosAreBounded | core/breaker/googlebreaker.go:56-71 | the weight is in [1.1, 1.5] and the ratio used in [0, 1) |
| GoogleBreakers.RejectedOnlyIfFailing | core/breaker/googlebreaker.go:60-75 | no rejection while total - 5 is at most 1.1 times the accepts, while all buckets work, or over a second after the last pass |
| GoogleBreakers.PassesExactly | core/breaker/googlebreaker.go:53-80 | outside a forced pass a request is rejected if and only if draw * 40 * (total + 1) < (total - 5 - w * accepts) * (40 - workingBuckets), where 100 * w is 150 - failingBuckets |
| GoogleBreakers.GoogleBreaker.History | core/breaker/googlebreaker.go:133-152 | equals the fold over the event log |
| GoogleBreakers.GoogleBreaker.Accept | core/breaker/googlebreaker.go:53-80 | that decision, in numbers of the event log, the clock and the draw, and the last pass with it |
| GoogleBreakers.GoogleBreaker.Allow | core/breaker/googlebreaker.go:82-91 | a rejection is recorded as a drop and happens only with more than five failures and drops in the window |
| GoogleBreakers.GoogleBreaker.DoReq | core/breaker/googlebreaker.go:93-119 | the request runs exactly if Accept passes it, and records exactly one event: a drop at once, or a success or failure at its end, behind whatever other requests recorded meanwhile |
| StableRunner.ResultsComeInOrder | core/threading/stablerunner.go:58-106 | in every run the k-th successful Get returns the result for the k-th message; Get fails only after Wait was called and all was returned; Wait returns only when all was |
| StableRunner.InvStep | core/threading/stablerunner.go:58-106 | every step keeps each slot's lock, channel and turn |
| StableRunner.TakesNext | core/threading/stablerunner.go:61-71 | whatever Get finds in its slot is the result for the next message in order, across the ring's wrap-around |
| StableRunner.SendInTurn | core/threading/stablerunner.go:88-93 | a result is sent only after the one a ring length before it was taken |
| StableRunner.BusyTasksAreLimited | core/threading/taskrunner.go:28-43 | at most `workers` tasks are unfinished, and busy ones use different slots |
| StableRunner.OnlyCallsAreMissing | core/threading/stablerunner.go:58-106 | no deadlock: when nothing moves, Get waits for a message, Push and Wait for a Get, and Push only with more results outstanding than there are slots |
| StableRunner.RunsEnd | core/threading/stablerunner.go:58-106 | without new calls every run ends after a bounded number of steps |
| StableRunner.GetsAreCounted | core/threading/stablerunner.go:57-75 | every call of Get, failed or not, moves on by one index |
| MapReduceProof.WorkersAreLimited | core/mr/mapreduce.go:225-252 | at most `workers` mappers run at once |
| MapReduceProof.ItemsAreConsumedOnce | core/mr/mapreduce.go:193-234 | every received item is mapped by one mapper or drained, not both; at the end of the dispatcher all were received |
| MapReduceProof.CollectorClosesLast | core/mr/mapreduce.go:216-222 | the collector is closed once, after all mappers have returned, and nothing is ever sent on it closed |
| MapReduceProof.NothingIsLost | core/mr/mapreduce.go:216-338 | when the reducer and its drain are through, they received each mapper's writes in order, all of them unless a cancel or the context's end came before; without a mapper's panic either, every item was mapped |
| MapReduceProof.WritesGoOutInOrder | core/mr/mapreduce.go:370-377 | in every run what was sent for a mapper is a prefix of its writes; the rest is in its hand or was dropped, and Write drops only after a cancel or the context's end |
| MapReduceProof.InvStep | core/mr/mapreduce.go:193-377 | every step keeps pool and wait group counts, items, writes and the reasons to stop consistent |
| MapReduceProof.OnlyReportsHang | core/mr/mapreduce.go:216-338 | when all user functions have returned and nothing moves on its own, everything has ended if and only if no panic waits for the caller; and it waits only after the caller has left its select |
| MapReduceProof.CallReturnsUnless | core/mr/mapreduce.go:258-338 | in such states the call has returned unless the caller cancels while a panicked generator waits for it, or waits for the end of output while done is not closed and a panic waits for it |
| MapReduceProof.WithoutPanicsAllEnds | core/mr/mapreduce.go:216-338 | if no user function panics, everything ends once they have returned |
| MapReduceProof.CallerCanHang | core/mr/mapreduce.go:284-322 | a run in which the caller waits for ever: it cancels at the end of the context and drains the source, which a panicking generator does not close before its panic is taken |
| MapReduceProof.EarlyOutputCanHang | core/mr/mapreduce.go:263-335 | a run without cancel and end of the context in which the call waits for ever: it has taken an early output and ranges over output, which stays open because a mapper that panics after that waits for the caller |
| MapReduceProof.RunsEnd | core/mr/mapreduce.go:193-338 | while no user function moves, every run ends after a bounded number of steps |
| MapReduceRuns.EveryStateIsTidy | core/mr/mapreduce.go:258-322 | the collector holds at most `workers` values; the call returns, and a cancel is over, only when done is closed, a cancel only after the source has ended; the caller cancels only at the end of the context; what was taken while the reducer ran, it got |
| MapReduceRuns.StopsAfterFailure | core/mr/mapreduce.go:224-250 | once a mapper has panicked, at most one more is started |
| MapReduceRuns.StopFreezesOutput | core/mr/mapreduce.go:370-377 | once the context has ended or done is closed, no mapper sends more than what was past the guard of Write |
| MapReduceRuns.FailuresAreCounted | core/mr/mapreduce.go:241-246 | `failed` counts the mappers that have panicked |
| MapReduceRuns.OnePanicIsReported | core/mr/mapreduce.go:323-326 | when everything has ended, the caller has taken exactly one panic if some user function panicked, and none otherwise |
| MapReduceRuns.WaitsForOutput | core/mr/mapreduce.go:319-335 | once the reducer has returned, nothing but a panic, the end of the context or the end of output brings the caller on |
| RouteSpec.SplitJoins | core/search/tree.go:99-104 | the tokens joined by slashes are the path again |
| RouteSpec.JoinSplits | core/search/tree.go:99-104 | and slash-free tokens joined are split into themselves |
| RouteSpec.PatternOfCons | core/search/tree.go:152-198 | a route is well formed exactly if its first token is not empty and the rest is well formed |
| RouteSpec.FitsCons | core/search/tree.go:216-229 | a route fits a path exactly if its first token does and the rest fits the rest |
| RouteSpec.ParamsAreEarliest | core/search/tree.go:107-114 | each name is bound to the earliest segment of the route that bears it, and no other names are bound |
| RouteSpec.BestOverall | core/search/tree.go:132-142 | trying the fixed tokens before the names finds a route that no fitting one precedes |
| SearchTree.Tree.Add | core/search/tree.go:62-80 | registers exactly the route's pattern, or returns the right error and leaves the registered routes as they were |
| SearchTree.Tree.AddTo | core/search/tree.go:152-198 | the same below a node, with nodes created on the way that hold nothing |
| SearchTree.Tree.Search | core/search/tree.go:83-91 | finds something exactly if some registered route fits; the item is that of a route no fitting one precedes, the parameters are that route's |
| SearchTree.Tree.Next | core/search/tree.go:93-130 | the same below a node, with the node's own item first, then fixed tokens, then names, in any order of the maps |
| SearchTree.Tree.TryChild | core/search/tree.go:105-129 | one child yields a best route through it, or none fits through it |
| LineChunks.LineEndIsEnd | core/filex/lookup.go:82-108 | the stop follows the first line breaks from the offset on, up to the end of their buffer, and is found exactly if there is one |
| LineChunks.CrLfIsCutWhen | core/filex/lookup.go:83-106 | the stop for an offset separates a CR from its LF if and only if the first line breaks from there on run up to that CR within a buffer that it ends |
| LineChunks.RangeCutsCrLfWhen | core/filex/lookup.go:42-64 | the same for the ranges that SplitLineChunks returns |
| LineChunks.SplitCanCutCrLf | core/filex/lookup.go:93-106 | a file of 4096 bytes that is split in two between a CR and its LF |
| LineChunks.StopsAreChunked | core/filex/lookup.go:43-64 | every chunk but the last is longer than the preferred size and follows a line break |
| LineChunks.AtMostChunks | core/filex/lookup.go:42-64 | such chunks are at most the number asked for |
| LineChunks.PreferIsLeast | core/filex/lookup.go:42 | the preferred size is the least number of which `chunks` are more than the size of the file |
| LineChunks.RangesEndAsked | core/filex/lookup.go:43-64 | each range ends the line that goes on at the preferred size behind its start, and only the last one starts so near the end that it takes the rest |
| LineChunks.FailsExactly | core/filex/lookup.go:53-56 | splitting fails exactly if the last chunk starts too far from the end and no line break is left behind its preferred stop; where it starts depends on all the lines before |
| LineChunks.SplitCanFail | core/filex/lookup.go:53-56 | splitting three characters without a line break in two fails |
| LineChunks.TerminatedIsSplit | core/filex/lookup.go:17-67 | a file that is empty or ends with a line break is always split |
| LineChunks.LongTailFails | core/filex/lookup.go:53-56 | an unterminated last line longer than the preferred size always makes it fail |
| LineChunks.FailsByTail | core/filex/lookup.go:53-56 | with an unterminated last line it fails exactly if the preferred stop of the last chunk lies in that line |
| LineChunks.SkipPartialLine | core/filex/lookup.go:82-108 | the loops over the buffers compute that stop |
| LineChunks.NextRange | core/filex/lookup.go:69-80 | the range up to that stop, or EOF |
| LineChunks.SplitLineChunks | core/filex/lookup.go:17-67 | contiguous ranges from 0 to the size, cut only behind line breaks, at most max(1, chunks), each up to the end of the line at the preferred size behind its start; EOF exactly when splitting fails |
| LruCache.RunIsLru | core/collection/cache.go:79-122 | after any operations the keys are distinct, within the limit and in the order of their last use, with the values last set |
| LruCache.SetEvictsTheOldest | core/collection/cache.go:241-249 | a Set evicts only when a new key finds the cache full, and then the key whose last use is longest ago |
| LruCache.SetsKeepTheMostRecent | core/collection/cache.go:235-262 | after any Sets the cache holds exactly the most recently used keys, as many as the limit allows |
| LruCache.LeavesOnlyBy | core/collection/cache.go:79-122 | a key leaves the cache by its own Del, or by the Set of a new key while it is the one used longest ago in a full cache, and by nothing else |
| LruCache.KeyLru.Add | core/collection/cache.go:235-249 | list and elements change together, and the evicted key leaves the data |
| LruCache.KeyLru.Remove | core/collection/cache.go:251-255 | the key leaves list, elements and data |
| LruCache.KeyLru.RemoveOldest | core/collection/cache.go:257-262 | the last of the list leaves all three |
| LruCache.KeyLru.RemoveElement | core/collection/cache.go:264-269 | one element leaves all three |
| LruCache.Cache.WithLimit | core/collection/cache.go:189-195 | a positive limit gives an empty abstract cache, any other a plain map |
| LruCache.Cache.SetWithExpire | core/collection/cache.go:109-122 | is a Set of the abstract cache |
| LruCache.Cache.DoGet | core/collection/cache.go:164-174 | returns the value and is a Get of the abstract cache |
| LruCache.Cache.Del | core/collection/cache.go:79-89 | is a Del of the abstract cache |

## Left out

- Strings are sequences of characters: decoding UTF-8 into runes and, for routes, ranging over bytes are not modelled.
- Integers are unbounded, so the 64-bit and 32-bit counters do not wrap around; `float64` rounding is not modelled.
- Fields that Go leaves nil until first use (`children`, `Params`) start empty.
- The periodical executor, the stable runner and map-reduce are state machines over steps rather than methods; the
  shutdown listener, `Sync` and panics inside `Execute` are left out, and a batch of unknown kind, which `hasTasks`
  always executes, is not modelled.
- The interval test of `shallQuit` is an arbitrary answer, and ticks arrive at any time; fairness of the scheduler is
  not modelled.
- PeriodicalExecutorProof.WaitGuarantee: assumes that nothing is outside the wait group at the waiter's RemoveAll, because the plain promise is false; see WaitCanMissATask and WaitIsExact.
- TimingWheels.TimingWheel.MoveTask: states the ticks the code really leaves, not delay / interval, because the two differ in the cases of MoveIsExactWhen.
- The timing wheel's list items are numbers that point into a store, and `timers` holds its entries by value, so two
  entries that share an object are not captured; tasks are returned instead of run in goroutines; `Drain`, `Stop` and
  the argument checks of the exported wrappers are left out.
- ConsistentHashes.ConsistentHash.AddWithReplicas: guarantees right keys only under the condition it states, because Remove can take keys of other nodes.
- The methods of the hash ring are the sections that hold its lock; Add and AddWithWeight are taken without other calls
  between their two sections.
- Hash functions, `lang.Repr` and the inner representation are arbitrary functions on arbitrary node values.
- Each rolling-window operation uses one clock reading where the code reads the clock twice
  (core/collection/rollingwindow.go:84 and 105), and clocks do not run backwards; buckets are values.
- The breaker's promises, fallbacks and error logging; a panic in a request is an unacceptable outcome.
- The stable runner has one pusher and one getter, Wait is called while no Push is in progress, and handlers do not
  panic; the code promises no order otherwise.
- `ForEach` and the race between writing and closing `output` in map-reduce; the error values that callers receive.
- Route tree nodes hold their children in two maps of their own, so the error for a nil child cannot arise.
- I/O errors while reading a file and files that change meanwhile.
- In the cache a key stands for its list element, and expiry through the timing wheel, `Take` and statistics are left out.
- Network clients, middleware, configuration and code generation, which are wrappers around I/O.
