# Lura gateway: verified model of the pipe's algorithmic core

Lura takes one client request, calls several backends, and assembles one response. This project models
the parts of it that decide *what* comes out, and proves what they promise:

* **Merging.** `MergeSpec` says on values what a sequence of backend outcomes amounts to; `Accumulator`
  is the accumulator as it runs, with data maps that are shared and written to, and `Collector` the loop
  that feeds it. `WorkerPool` is a labelled step relation for goroutines that send one outcome each into
  two buffered channels; `ParallelMerge` and `Concurrent` put the two collectors on top of it, so that
  their theorems hold for every interleaving; `ArrivalOrders` shows that every arrival order is possible.
  `SequentialSpec` and `Sequential` run one backend after the other and carry values of earlier responses into
  later calls; `SequentialSources` says whose values these are, `SequentialBodies` who gets a body.
* **Response filters.** `Json` has documents and paths, `AllowFilter` and `DenyFilter` the two filters on
  values with their path-level meaning, `MapHeap` nested mutable maps under a ghost ownership tree,
  `AllowMethods` and `DenyMethods` the code that grows the trees and prunes documents in place, and
  `Formatter` the whole entity formatter, with its path-level meaning in `FormatterPaths`.
* **Service discovery.** `Weights` scales and reduces SRV weights (RFC 2782, "The format of the SRV RR"),
  `Discovery` turns records into the cached host list, `RoundRobin` is the balancer with its wrapping
  64-bit ticket, and `Fairness` joins them end to end.
* **URL templates.** `UrlConfig` accepts and rewrites the placeholders of a backend URL, `UrlRewrite` says
  when that has the intended meaning, `UrlRequest` fills the template, `UrlOrder` says when the map order
  of the parameters matters, and `UrlTemplate` has the algebra of repeated text replacement under all this.
* **Request cloning.** `CloneRequest` clones requests through a pooled scratch buffer.

`Sorting`, `Strings`, `Sequences`, `Parameters` and `Wrappers` are shared. Loops that Go runs over a map are nondeterministic
here: every order of the keys is covered. Values that Go holds in `interface{}` are `Value`s or heap cells.

## Where the code does not do what one might expect

Each of these is a theorem with the exact condition, or a concrete counterexample:

* The order of an allow list matters exactly when two entries conflict, that is, when one is a proper
  prefix of the other (`AllowFilter.OrderFreeIffPrefixFree`). The order of a deny list never matters.
* The result of the key mapping depends on Go's map order exactly when two entries rename to the same key
  or one renames to a key that another one moves away (`Formatter.OrderFreeIffIndependent`).
* The arrival order of backend responses matters exactly when two of them disagree on a key
  (`MergeSpec.ConfluentIffCompatible`, and over all interleavings `ArrivalOrders.OrderFreeIffAgree`).
* Whole rounds of round-robin calls are fair exactly when they stay below the wrap of the counter, or the
  number of hosts divides 2^64, or they cross the wrap once, at a round boundary (`RoundRobin.FairIff`,
  `RoundRobin.UnfairAtTheWrap`).
* Rewriting `{name}` to `{{.Name}}` name by name goes wrong exactly when a variable is itself the text of
  a placeholder that comes later in the sorted order (`UrlRewrite.RewriteIntendedIff`,
  `UrlRewrite.ClashExample`). Names that do not start with a dot never clash; others can be declared as
  inputs only with `DisableStrictREST`, because the strict pattern for endpoint parameters has no dots.
* The generated path depends on the map order of the parameters, for some template, exactly when the
  variable `{{.k}}` of one parameter can come about from values of others: inside one value, at the end of
  one value, or across two values next to each other (`UrlOrder.OrderFreeIffNoHiddenTag`; an input is
  `UrlRequest.BracesInValuesMatter`). A single parameter, and values without opening braces, are harmless.
* In a sequential merge, the response that lent its data map to the merge shows the merged data from then
  on. A replacement that names its backend takes the value of a later backend exactly when the latest
  response that has the key is a later one and does not agree with it (`SequentialSources.OwnValueIff`, `SequentialSources.OwnTextPropagatedIff`;
  an input is `SequentialSources.LaterValueExample`). The response that lends its map is the one with data
  that has at most one response, without data, before it.
* A body can be read once. A replacement by a full response with a readable body, to a destination not yet
  settled, gets it exactly when no earlier replacement of the run, to a destination not settled at that
  moment, has read it; else it gets the empty text (`SequentialBodies.WholeBodyIff`).
* When the very first sequential backend fails, its error is returned as it is, not wrapped
  (`Sequential.SequentialMerge`).

## Model

| member | source | states |
|---|---|---|
| MergeSpec.ExactCompleteness | proxy/merging.go:440-484 | over any sequence of outcomes: no response iff none replied, no error iff all did, complete iff nothing is missing or failed, every reply is complete, and there is one reply or all carry data |
| MergeSpec.CollectShape | proxy/merging.go:455-473 | pending goes down by one per outcome, and the number of errors is the number of outcomes that are not replies |
| MergeSpec.CollectComplete | proxy/merging.go:455-473 | without failures the collected flag is exact, and nil data survive only in a single response |
| MergeSpec.LatestWins | proxy/merging.go:591-615 | each key of the merged data holds the value of the latest arriving response that has it |
| MergeSpec.ResultData | proxy/merging.go:476-484 | the response returned holds under each key the value of the latest arriving response that has it |
| MergeSpec.OverlayLast | proxy/merging.go:591-615 | for any number of parts, a key is in the overlay iff some part has it, with the value of the last one that does |
| MergeSpec.ErrorCount | proxy/merging.go:455-466 | the collected errors are, with multiplicity, the failures and the null results |
| MergeSpec.ErrorsInOrder | proxy/merging.go:455-466 | the errors of earlier outcomes are a prefix of the errors of all |
| MergeSpec.ErrorList | proxy/merging.go:455-466 | the errors are exactly the failure texts and null results, from the first outcome to the last |
| MergeSpec.NilData | proxy/merging.go:467-472 | merged data are nil exactly when a single response came and has none |
| MergeSpec.Confluence | proxy/merging.go:296-308 | any two arrival orders of the same outcomes give the same response and the same multiset of errors when responses agree on shared keys |
| MergeSpec.ConfluentIffCompatible | proxy/merging.go:296-308 | arrival order is irrelevant for all permutations if and only if responses agree on every key they share |
| MergeSpec.ArriveLast | proxy/merging.go:604-606 | the response that arrives last decides every key it has |
| Accumulator.CopyInto | proxy/merging.go:604-606 | in every order of the keys the destination ends up overlaid with the source, also when both are one map |
| Accumulator.AddPart | proxy/merging.go:594-607 | one round of the combiner, for any part: the first one with data lends its map, later ones are laid over it, missing data clear the flag |
| Accumulator.CombineData | proxy/merging.go:591-615 | for any parts, the new response is all contributions laid over each other, complete iff all parts came, have data and are complete; it shares the first map, no other map or part is written to, and its data are never nil; a later part that has the lent map adds nothing |
| Accumulator.UnsharedContributions | proxy/merging.go:591-615 | without shared maps every part contributes exactly what it shows |
| Accumulator.TwoContributions | proxy/merging.go:472-472 | the two parts that the accumulator combines contribute what they show even if they share a map |
| Accumulator.IncrementalMergeAccumulator.constructor | proxy/merging.go:447-453 | nothing collected, everything pending |
| Accumulator.IncrementalMergeAccumulator.Merge | proxy/merging.go:455-473 | the heap accumulator does what the value-level one does, whatever response it gets; errors are appended; and exactly which response and which map it holds afterwards |
| Accumulator.IncrementalMergeAccumulator.Result | proxy/merging.go:475-484 | the response is marked incomplete when something is pending or failed; the error is nil iff no error was collected |
| Collector.MergeNext | proxy/merging.go:298-303 | one arrival is merged as it shows at that moment; responses still to come are not touched if nothing is shared |
| Collector.CollectAll | proxy/merging.go:296-308 | in any order of arrival the collecting loop on the heap gives the response of the value-level merge of the outcomes as they show when received, and the error texts received, in order of arrival; the outcomes are those sent when responses share nothing |
| WorkerPool.NextConserved | proxy/merging.go:486-506 | every step of every goroutine keeps the law: buffered plus collected messages are exactly one per finished worker, each in its channel |
| WorkerPool.SentExact | proxy/merging.go:486-506 | a message is sent exactly when its worker has finished, with that worker's outcome, and only once |
| WorkerPool.MessagesCount | proxy/merging.go:285-286 | the number of messages is the number of finished calls, so a channel of one slot per worker suffices |
| WorkerPool.SendNeverBlocks | proxy/merging.go:486-506 | a worker that has not sent yet finds room in both channels |
| WorkerPool.NextUsesEnergy | proxy/merging.go:486-506 | every step lowers a measure, so no schedule goes on for ever |
| WorkerPool.NextFifo | proxy/merging.go:283-306 | both channels are queues: received and buffered messages of a kind are always those sent, in the order of sending |
| WorkerPool.WorkerCanStep | proxy/concurrent.go:73-93 | a worker that was started and has not finished always has a step, once its call returns |
| ParallelMerge.RunKeepsInv | proxy/merging.go:272-310 | the protocol invariant holds in every reachable state of every interleaving, whatever backends return and whenever the context expires |
| ParallelMerge.ChannelsNeverBlock | proxy/merging.go:285-304 | in every reachable state buffered plus collected outcomes are the finished calls, no channel exceeds its capacity and no worker blocks on its send |
| ParallelMerge.Progress | proxy/merging.go:297-304 | until the merge returns, some step other than the context's expiry is possible |
| ParallelMerge.EveryMaximalRunReturns | proxy/merging.go:288-308 | no run is longer than 5 n + 3 steps, and one that cannot be prolonged has returned |
| ParallelMerge.ReturnedExact | proxy/merging.go:288-304 | on return both channels are empty and exactly one outcome per unfiltered backend has been taken |
| ParallelMerge.OutcomesOfBackends | proxy/merging.go:296-304 | a property holds of all collected outcomes iff it holds of what every unfiltered backend sent |
| ParallelMerge.ResponseExact | proxy/merging.go:296-308 | in every interleaving: no error iff every unfiltered backend's outcome is a reply; complete iff moreover there is one, all are complete, and it is the only one or all carry data |
| ParallelMerge.ReturnedData | proxy/merging.go:296-308 | the errors returned are those received, in order of arrival, and each key has the value of the latest arriving reply with it |
| ParallelMerge.RunFaithful | proxy/merging.go:486-506 | while the context lives, every outcome sent is the one its backend's call stands for (runs with an expiry: SentIsReturned) |
| ParallelMerge.SentIsReturned | proxy/merging.go:486-506 | in every run, expiry included: a finished worker is an unfiltered one, its call returned exactly once, and it sent the call's error, the null result or the reply, or, only if the call replied and the context had expired, the context's error |
| ParallelMerge.GiveUpIff | proxy/merging.go:500-504 | a worker holding a reply can take the other branch of its select exactly when the context has expired |
| ParallelMerge.ExpireIff | proxy/merging.go:280-280 | the context can expire exactly once, until the merge returns |
| ParallelMerge.SelectIff | proxy/merging.go:297-304 | until all outcomes are in, the collector can receive from exactly the channels that hold something |
| ParallelMerge.ErrorsExplained | proxy/merging.go:296-308 | every error returned is an unfiltered backend's own, that of a missing reply, or after an expiry the context's |
| ParallelMerge.ReceivedInOrder | proxy/merging.go:286-304 | in every run both channels hand on what was sent in the order of sending |
| ParallelMerge.InterleavingIrrelevant | proxy/merging.go:272-310 | two undisturbed runs over the same backends return the same response and the same errors, when replies agree on shared keys |
| ArrivalOrders.EveryOrderHappens | proxy/merging.go:288-308 | every order of the unfiltered backends is the arrival order of an undisturbed run that returns, with the merge of the outcomes in that order |
| ArrivalOrders.OrderFreeIffAgree | proxy/merging.go:272-310 | any two undisturbed runs that return agree if and only if unfiltered replies agree on the keys they share |
| Concurrent.RunKeepsInv | proxy/concurrent.go:31-61 | in every reachable state no complete message has been passed over, and response and error are the last ones received |
| Concurrent.SendsNeverBlock | proxy/concurrent.go:34-43 | every worker can take its send in every reachable state, also after the collector returned early |
| Concurrent.Progress | proxy/concurrent.go:48-60 | the call can go on without either context expiring, once backend calls return |
| Concurrent.EveryMaximalRunReturns | proxy/concurrent.go:48-61 | runs are bounded by 6 n + 4 steps and a maximal one has returned |
| Concurrent.ResultExact | proxy/concurrent.go:48-61 | a complete response comes with a nil error and from some worker; without rounds lost to the caller's context it is returned iff some worker sent one by then; otherwise the last response and the last error are returned |
| Concurrent.NoSpinsWithoutExpiry | proxy/concurrent.go:56-57 | only a done caller context makes the loop give a round away |
| Concurrent.CompleteResponseWins | proxy/concurrent.go:48-61 | if the caller's context is never done and a complete response is sent, a complete response with nil error is returned |
| Concurrent.SentIsReturned | proxy/concurrent.go:73-94 | in every run, expiry included: a worker sends what its call gave, or, only if the call replied and a context was done or the call had returned, the context's error |
| Concurrent.GiveUpIff | proxy/concurrent.go:88-92 | a worker holding a reply can give it up exactly when one of the contexts is done or the call has returned |
| Concurrent.ExpireIff | proxy/concurrent.go:38-38 | each context can expire exactly while it is not done |
| Concurrent.SelectIff | proxy/concurrent.go:54-62 | a round can receive from exactly the channels that hold something, or see the caller's context done |
| Concurrent.ErrorExplained | proxy/concurrent.go:50-66 | the error returned is one that a call gave, that of a missing reply, or after an expiry the context's |
| Concurrent.ReceivedInOrder | proxy/concurrent.go:40-62 | in every run both channels hand on what was sent in the order of sending |
| Concurrent.LastExact | proxy/concurrent.go:50-66 | the reply and the error given back are the last ones received |
| SequentialSpec.ReplaceAllSound | proxy/merging.go:333-406 | over a whole round a non-empty propagated value stays, and every new value is what some replacement finds at an earlier backend: rendered data, its body, or nothing if that was read before |
| SequentialSpec.ReplaceAllComplete | proxy/merging.go:333-406 | every replacement that finds something leaves its destination set |
| SequentialSpec.FirstNonEmptyWins | proxy/merging.go:356-405 | a round of data replacements leaves at each destination the first non-empty one of the value it had and the values found, empty only if all are |
| SequentialSpec.ErrorOfRun | proxy/merging.go:417-437 | an uninterrupted run has at most one error, that of its last visit, bare iff it is the first |
| SequentialSpec.FoundEarlier | proxy/merging.go:331-407 | over a whole run, what a backend is called with was found in its own or an earlier round by a replacement that names a strictly earlier backend |
| SequentialSpec.NeverChanges | proxy/merging.go:356-359 | over a whole run, once a non-empty value has been propagated every later backend is called with it |
| Sequential.PropagateBody | proxy/merging.go:361-371 | a body is read to its end, even if reading fails, and only a successful read is propagated |
| Sequential.PropagateOne | proxy/merging.go:356-405 | one replacement does exactly what it is to do to registry and parameters, which agree, and to the body it reads |
| Sequential.Propagate | proxy/merging.go:332-407 | the loop is exactly the round's replacements in order; bodies read before are empty, all others as they were sent |
| Sequential.SequentialRequestPart | proxy/merging.go:508-523 | with both one-slot channels empty exactly one message goes into exactly one of them, so the send does not block and the select that follows finds it |
| Sequential.SkipFiltered | proxy/merging.go:409-413 | a filtered backend leaves a complete placeholder with an empty map of its own and lowers pending by one; the merged state is otherwise unchanged |
| Sequential.TakeReply | proxy/merging.go:425-430 | a reply is merged; a complete one is kept, shows its own data unless it lent its map, and later replies are untouched |
| Sequential.CallAndMerge | proxy/merging.go:409-431 | one round, in terms of the backend: filtered goes on; an error, a missing reply or a done context aborts with its text in the first round and stops later; a reply goes on iff it is complete; both channels are empty again |
| Sequential.Prepare | proxy/merging.go:331-407 | nothing is replaced before the first call; before any other, parameters and registry are exactly those of the round, read from the responses as they are at that moment |
| Sequential.Round | proxy/merging.go:331-432 | replacements and call together keep the run's log, the empty channels and the agreement of registry and parameters |
| Sequential.SequentialMerge | proxy/merging.go:320-437 | in terms of the backends: a visit is without outcome iff the backend is filtered, else its outcome is the call's error, the missing reply, the done context or the reply as it was sent; all but the last are filtered or complete; result and error are the merge of exactly these, at most one error, bare iff it is that of the first call; every call was made with exactly the parameters to be propagated to it; pending is what was not reached |
| SequentialSpec.ShownData | proxy/merging.go:336-404 | under each key an earlier response shows its own value, except the one that lent its map, which shows the latest backend's value |
| SequentialSources.OwnerIffLends | proxy/merging.go:455-473 | the response that lends its map is the one with data before which there was at most one response, without data |
| SequentialSources.DataOfRun | proxy/merging.go:424-437 | what a run returns holds under each key the entry of the latest visit whose response has one |
| SequentialSources.OwnValueIff | proxy/merging.go:336-404 | an earlier response shows its own entry under a key iff it has not lent its map, or no later response has the key, or the latest one that has it agrees |
| SequentialSources.OwnValuePropagated | proxy/merging.go:333-406 | a replacement whose keys keep their own entries propagates what the backend it names has sent |
| SequentialSources.OwnTextPropagatedIff | proxy/merging.go:386-405 | for a top-level text value and a destination not yet set this condition is exact |
| SequentialSources.LaterValueExample | proxy/merging.go:333-406 | in every run of three backends where 0 and 1 reply with different values of a key and 2 asks for that of 0, backend 2 is called with the value of 1 |
| SequentialSources.LaterValueRun | proxy/merging.go:333-406 | there is such a run |
| SequentialBodies.ReadIff | proxy/merging.go:361-373 | at every moment of a run a body has been read iff some earlier full-response replacement, unsettled at its moment, named its backend |
| SequentialBodies.WholeBodyIff | proxy/merging.go:356-373 | over a whole run, a full-response replacement to an unsettled destination gets the whole body iff no earlier one has read it, else the empty text; nothing when there is no body or reading fails |
| SequentialBodies.WholeBodyReaches | proxy/merging.go:356-373 | a whole, non-empty body that a replacement gets is what every backend from its round on is called with |
| SequentialSpec.LentMapStays | proxy/merging.go:600-606 | once a response has lent its map, the merged response has data for the rest of the run |
| SequentialSpec.MergedFiltered | proxy/merging.go:409-413 | a filtered backend lowers the pending count and changes nothing else |
| SequentialSpec.MergedPending | proxy/merging.go:326-432 | pending is always the number of backends not reached |
| SequentialSpec.CompleteMeansAll | proxy/merging.go:320-437 | a complete result means exactly: every backend was reached, one was called, all called ones gave complete replies, and there was one or all carry data |
| Json.LeavesAntichain | proxy/formatter.go:121-127 | the leaf paths of a filter tree are an antichain under the prefix order |
| Json.SameCoverSameTree | proxy/formatter.go:158-194 | filter trees without empty maps that cover the same paths are equal |
| AllowFilter.PruneExact | proxy/formatter.go:97-119 | a path survives iff it was there and an allow leaf is a prefix of it or it leads to an allow leaf that exists; subtrees at allow leaves are untouched |
| AllowFilter.SurvivesIffReached | proxy/formatter.go:103-111 | a branch is kept iff some allow leaf below it exists in the input |
| AllowFilter.PruneIdempotent | proxy/formatter.go:97-119 | pruning twice changes nothing more |
| AllowFilter.InsertIsPathThenLeaf | proxy/formatter.go:124-126 | creating the path and then writing the leaf is one insertion |
| AllowFilter.InsertLeaves | proxy/formatter.go:123-127 | an insertion leaves exactly the new path and the old leaves not prefix-comparable with it |
| AllowFilter.CompileLeaves | proxy/formatter.go:121-127 | the leaves of the compiled tree are exactly the entries that no later, different entry conflicts with |
| AllowFilter.CompileShape | proxy/formatter.go:121-127 | the compiled tree has no empty branch and only true marks |
| AllowFilter.PrefixFreeLeaves | proxy/formatter.go:121-127 | for a prefix-free list the leaf set is the list |
| AllowFilter.PrefixFreeOrderFree | proxy/formatter.go:121-127 | prefix-free lists with the same entries compile to the same tree |
| AllowFilter.AllowListExact | proxy/formatter.go:121-136 | for any list, conflicting entries included: exactly the subtrees at the entries that no later entry evicts, and the maps leading to them, are kept |
| AllowFilter.PrefixFreeListExact | proxy/formatter.go:121-136 | for a prefix-free list these are exactly the listed subtrees |
| AllowFilter.OrderFreeIffPrefixFree | proxy/formatter.go:121-127 | the tree is independent of the order of the list if and only if the list is prefix-free |
| AllowMethods.AllowlistPrune | proxy/formatter.go:97-119 | in every iteration order the document is pruned in place to the specified value, and the flag is true iff nothing is left |
| AllowMethods.PruneEntry | proxy/formatter.go:101-111 | one key: whether it goes, and its value pruned when it stays |
| AllowMethods.BuildDictPath | proxy/formatter.go:138-156 | afterwards every field leads to a map, missing or conflicting ones are replaced, and the map at the end is returned |
| AllowMethods.MakeMaps | proxy/formatter.go:150-154 | the second loop completes the path with new maps |
| AllowMethods.InsertEntry | proxy/formatter.go:124-126 | one list entry is inserted into the tree in place |
| AllowMethods.BuildTree | proxy/formatter.go:121-127 | the tree in memory is the compiled list, made of new objects |
| DenyFilter.DeleteExact | proxy/formatter.go:196-213 | a path survives iff it was there and no leaf of the tree is a prefix of it; values keep their kind and scalars their value |
| DenyFilter.InsertCovers | proxy/formatter.go:158-194 | an insertion adds exactly the paths at or below the entry to what is denied, also next to shorter and longer entries |
| DenyFilter.CompileCovers | proxy/formatter.go:215-220 | the compiled tree denies exactly what the list denies |
| DenyFilter.DenyListExact | proxy/formatter.go:215-225 | the paths left are exactly the input paths with no listed path as a prefix |
| DenyFilter.SameTreeIffSameDenied | proxy/formatter.go:215-220 | two lists compile to the same tree iff they deny the same paths |
| DenyFilter.PermutationSameTree | proxy/formatter.go:215-220 | permuting the list gives an equal tree |
| DenyMethods.BuildDenyTree | proxy/formatter.go:158-194 | one path is inserted into the tree in place |
| DenyMethods.BuildTree | proxy/formatter.go:215-220 | the tree in memory is the compiled list, made of new objects |
| DenyMethods.RecDelete | proxy/formatter.go:196-213 | in every iteration order the document is reduced in place to the specified value; the tree is not touched |
| MapHeap.SetKey | proxy/formatter.go:152-152 | assigning to one key of an owned map keeps ownership and changes the document at that key only |
| MapHeap.RemoveKey | proxy/formatter.go:113-113 | deleting a key of a map takes exactly that entry out of the document |
| MapHeap.PutOwned | proxy/formatter.go:144-154 | a change below a path leaves the rest of the document intact and unshared |
| Formatter.RenameExact | proxy/formatter.go:68-75 | for an independent mapping every iteration order gives the simultaneous renaming |
| Formatter.SimultaneousUnique | proxy/formatter.go:68-75 | the simultaneous renaming is unique |
| Formatter.OrderFreeIffIndependent | proxy/formatter.go:69-74 | the iteration order is irrelevant for every document if and only if the mapping is independent |
| Formatter.ExtractExact | proxy/formatter.go:82-95 | the target is the map at the dotted path when every part leads to a map, else an empty map |
| Formatter.ExtractTarget | proxy/formatter.go:82-95 | following the target in the heap gives that map, still owned |
| Formatter.RenameKey | proxy/formatter.go:70-73 | one round of the mapping moves the value; a key mapped to itself is lost |
| Formatter.ApplyMapping | proxy/formatter.go:69-74 | the loop over the mapping is the renaming in some order of all its entries |
| Formatter.AllDeleted | proxy/formatter.go:130-134 | when the pruning says that nothing is left, the loop that empties the map has nothing to delete |
| Formatter.EntityFormatter.constructor | proxy/formatter.go:36-58 | an allow list makes the deny list irrelevant; new keys end at their first dot; the tree is compiled once |
| Formatter.EntityFormatter.FilterData | proxy/formatter.go:65-67 | the filter step, skipped for empty data, is the compiled filter's value |
| Formatter.EntityFormatter.Format | proxy/formatter.go:61-80 | target, filter, renaming and grouping in this order, in place, and the formatter can be used again |
| FormatterPaths.KeptExact | proxy/formatter.go:61-67 | after target and filter exactly those paths exist that exist below the target and that the allow list lets survive, or the deny list does not name |
| FormatterPaths.FormatPaths | proxy/formatter.go:61-80 | end to end, for an independent mapping in any order: the paths of the formatted document are, below the group key, those kept at a key that moves to the new key, or at a key that neither moves nor is moved to |
| Weights.NormalizeBounds | sd/dnssrv/subscriber.go:185-204 | when it scales, each weight is the floor of its exact share and at most the original; the sum is at most the scale and more than the scale less the number of weights |
| Weights.NoOverflow | sd/dnssrv/subscriber.go:191-201 | sums and products stay within int64 for up to 2^31 weights |
| Weights.Normalize | sd/dnssrv/subscriber.go:185-204 | the loop computes the specified weights, including the narrowing |
| Weights.EuclidExact | sd/dnssrv/subscriber.go:211-216 | the divisors of the result are the common divisors of both arguments |
| Weights.LocalGcd | sd/dnssrv/subscriber.go:211-216 | the loop on 16-bit values is Euclid's recursion |
| Weights.GcdExact | sd/dnssrv/subscriber.go:218-223 | the divisors of the folded result are the common divisors of all weights |
| Weights.ComputeGcd | sd/dnssrv/subscriber.go:206-224 | the code computes the greatest common divisor of all weights, 0 for none |
| Weights.Compact | sd/dnssrv/subscriber.go:170-183 | the code computes the specified compaction |
| Weights.CompactTimesGcd | sd/dnssrv/subscriber.go:170-183 | the compacted weights times the divisor are the normalised weights |
| Weights.CompactCoprime | sd/dnssrv/subscriber.go:170-183 | the result's own divisor is 0 or 1 |
| Weights.CompactSum | sd/dnssrv/subscriber.go:170-204 | the compacted weights sum to at most max(100, n) |
| Weights.CompactIdempotent | sd/dnssrv/subscriber.go:170-183 | compacting twice is compacting once, on every input |
| Weights.CompactKeepsOrder | sd/dnssrv/subscriber.go:170-204 | a heavier record never ends up lighter than a lighter one |
| Weights.CompactPositive | sd/dnssrv/subscriber.go:170-204 | some compacted weight is positive iff some weight is |
| Discovery.BeforeStrictOrder | sd/dnssrv/subscriber.go:136-147 | the comparison is a strict total order on records (SortedRecords says which) |
| Discovery.SortedRecords | sd/dnssrv/subscriber.go:136-147 | in the sorted list priorities rise; at equal priority weights fall; then targets rise, then ports |
| Discovery.Resolve | sd/dnssrv/subscriber.go:128-168 | the records are sorted in place and the instances are those of the minimum-priority records |
| Discovery.ExpandHosts | sd/dnssrv/subscriber.go:161-166 | every host is repeated as often as its weight says |
| Discovery.ExpandInOrder | sd/dnssrv/subscriber.go:162-167 | the instances come in blocks, one per record and in the order of the records |
| Discovery.HeavierFirst | sd/dnssrv/subscriber.go:128-168 | an input: of two records of weights 1 and 3 the heavier one comes first, three times |
| Discovery.MinCountExact | sd/dnssrv/subscriber.go:153-159 | the loop stops after exactly the minimum-priority records |
| Discovery.InstancesFromBest | sd/dnssrv/subscriber.go:150-167 | every instance is the host of a minimum-priority record |
| Discovery.InstancesExact | sd/dnssrv/subscriber.go:150-167 | each host appears exactly its compacted weight times, the list has at most max(100, n) entries, and it is non-empty iff some minimum-priority weight is positive |
| Discovery.ShuffledOnlyWhenMany | sd/dnssrv/subscriber.go:121-125 | the list is shuffled only with more than 100 minimum-priority records |
| Discovery.AnswerOrderIrrelevant | sd/dnssrv/subscriber.go:134-148 | the order of the DNS answer has no influence on the host list |
| Discovery.Shuffle | sd/subscriber.go:41-49 | the random subscriber has the hosts in the order of the given permutation, so with the same multiplicities |
| Discovery.Subscriber.Update | sd/dnssrv/subscriber.go:112-126 | a failed lookup keeps the cache; otherwise a new list replaces it: the instances of the sorted records, in their order up to 100 and in the order of the given permutation beyond |
| Discovery.Subscriber.Hosts | sd/dnssrv/subscriber.go:98-110 | readers get a copy of their own |
| RoundRobin.NewRoundRobinLB | sd/loadbalancing.go:33-47 | a single fixed host needs no counter, several fixed hosts start at the random position below their number, anything else at 0 |
| RoundRobin.Balancer.NextHost | sd/loadbalancing.go:55-62 | a ticket is drawn modulo 2^64 and only when there are hosts; the host is the one at the ticket modulo the length |
| RoundRobin.BelowExact | sd/loadbalancing.go:60-61 | closed form of how often each slot is hit from counter 0 |
| RoundRobin.HitsTotal | sd/loadbalancing.go:55-62 | hits of any run of calls, however often the counter wraps |
| RoundRobin.NearlyEven | sd/loadbalancing.go:55-62 | any m calls below the wrap hit each slot floor(m/L) or ceil(m/L) times |
| RoundRobin.FairWithoutWrap | sd/loadbalancing.go:55-62 | K*L calls below the wrap hit each slot exactly K times |
| RoundRobin.FairIff | sd/loadbalancing.go:55-62 | exactly when whole rounds are fair, for any number of rounds and wraps |
| RoundRobin.UnfairAtTheWrap | sd/loadbalancing.go:55-62 | three hosts and three calls from the last counter value are not fair |
| RoundRobin.PicksCount | sd/loadbalancing.go:60-61 | a host is returned as often as its slots are hit |
| RoundRobin.FairPicks | sd/loadbalancing.go:55-62 | fair rounds return each host as often as the list holds it, times the rounds |
| Fairness.AnyInterleaving | sd/loadbalancing.go:55-62 | however callers interleave reading the list, drawing the ticket and handing out the host, the hosts handed out or still held are those of one caller drawing all tickets |
| Fairness.OneCall | sd/loadbalancing.go:55-62 | an undisturbed call hands out the host at the counter modulo the length and advances the counter; without hosts it draws no ticket |
| Fairness.RoundsReachable | sd/loadbalancing.go:55-62 | for every k some schedule makes k whole rounds |
| Fairness.WeightedFairness | sd/dnssrv/subscriber.go:112-168 | end to end, in any interleaving and after any permutation, k whole rounds of used tickets pick each host k times its compacted weight |
| Fairness.WeightedFairnessPerRecord | sd/dnssrv/subscriber.go:112-168 | the same per minimum-priority record when hosts are distinct |
| UrlConfig.UniqueOutput | config/config.go:680-698 | sorted and compacted in place to the strictly sorted set of names; the count omits the last distinct one |
| UrlConfig.KeyExact | config/config.go:664-664 | only a leading lower-case letter of the name changes, to the corresponding capital |
| UrlConfig.CleanPathExact | config/uri.go:92-95 | the cleaned path starts with a slash; it is the path itself if that does, else has it as its rest |
| UrlConfig.NameChars | config/config.go:383-383 | the characters of a placeholder name |
| UrlConfig.StrictlySortedUnique | config/config.go:680-698 | that list is determined by the set |
| UrlConfig.Pigeonhole | config/config.go:640-648 | accepted names that are not sequential are at most as many as the declared inputs |
| UrlConfig.CountCheckIsImplied | config/config.go:640-648 | the count check never rejects what the membership check accepts |
| UrlConfig.SortedInputs | config/config.go:671-678 | the sorted listing of the set |
| UrlConfig.Backend.InitURLMappings | config/config.go:630-669 | the path is cleaned; succeeds iff every placeholder is sequential or a declared input; which error otherwise, and what the pattern and the keys are then, the keys in sorted order of the names |
| UrlConfig.Backend.RewriteNames | config/config.go:650-668 | the loop rewrites the accepted names in sorted order and stops at the first undeclared one |
| UrlRewrite.ExtractExact | config/config.go:554-561 | the names extracted from a pattern are those of its placeholders, in order |
| UrlRewrite.ExtractOccurs | config/config.go:383-383 | in any text exactly the names that stand between braces are extracted |
| UrlRewrite.AcceptsExact | config/config.go:651-663 | a pattern is accepted iff every name in braces is a sequential one or a declared input |
| UrlRewrite.RewriteExact | config/config.go:664-665 | repeated replacement on the text acts on each placeholder by itself |
| UrlRewrite.PlaceholderExact | config/config.go:664-665 | a placeholder becomes its variable iff that variable is not a later placeholder's text |
| UrlRewrite.RewriteIntendedIff | config/config.go:649-667 | the configured template is the intended one if and only if no variable clashes |
| UrlRewrite.LettersNeverClash | config/config.go:649-667 | names that do not start with a dot never clash |
| UrlRewrite.ClashExample | config/config.go:649-667 | a clash exists: for the placeholders -x and .-x the configured text is not the intended one |
| UrlTemplate.ReplaceTokens | proxy/request.go:30-37 | replacing a braced name in a text replaces it in every token and nowhere else |
| UrlTemplate.MatchAtBraces | proxy/request.go:33-36 | the braced key matches only a tag of its own name at the right brace |
| UrlRequest.Request.GeneratePath | proxy/request.go:24-39 | the path is the pattern with the parameters replaced one after the other in some order of all of them |
| UrlRequest.SubstitutionExact | proxy/request.go:24-39 | unless some variable is hidden in other parameters' values, every order is one simultaneous substitution; unbound variables stay |
| UrlRequest.PatternToPath | proxy/request.go:24-39 | from the configured pattern to the path: every placeholder becomes the parameter of its key, in any map order |
| UrlRequest.UsersExample | config/config.go:630-669 | an input: users/{id} is configured as /users/{{.Id}} with key Id, and Id = 42 gives /users/42 |
| UrlRequest.BracesInValuesMatter | proxy/request.go:30-37 | an input on which two orders give different paths |
| UrlOrder.OrderFreeIffNoHiddenTag | proxy/request.go:24-39 | for all templates and brace-free keys: the map order is irrelevant, and the path is the template filled at once, if and only if no variable that would be replaced is hidden in other parameters' values |
| UrlOrder.BraceFreeValuesHideNothing | proxy/request.go:24-39 | values without opening braces hide no variable |
| UrlOrder.PathHoldsNoVariable | proxy/request.go:30-37 | if the order is irrelevant, no path holds the variable of a parameter that its template does not mention |
| UrlTemplate.UnchangedMeansAbsent | proxy/request.go:36-36 | a replacement by something else leaves a text as it is only if there is nothing to replace |
| CloneRequest.Buffer.ReadFrom | proxy/request.go:82-82 | everything left of the body is appended, in reads of any size |
| CloneRequest.Pool.Get | proxy/request.go:79-79 | a buffer put back before, with whatever it holds, or a new one |
| CloneRequest.Drain | proxy/request.go:81-83 | after the reset the buffer holds exactly the body, whatever it held before |
| CloneRequest.DuplicateBody | proxy/request.go:79-92 | original and clone get bodies with the original bytes in new arrays that neither share nor belong to the pool |
| CloneRequest.CloneRequestHeaders | proxy/request.go:98-107 | an equal map with new value slices |
| CloneRequest.CloneRequestParams | proxy/request.go:109-115 | an equal new map |
| CloneRequest.CloneUrl | proxy/request.go:46-50 | the URL is parsed from its text; without one, or if that fails, the clone has none |
| CloneRequest.Clone | proxy/request.go:46-95 | everything but the query is separate afterwards and says the same, the URL after being parsed anew; both bodies carry the original bytes, and the pool stays sound |
| CloneRequest.CloneMany | proxy/request.go:72-95 | k successive clones through one pool all carry the original bytes and say the same as the original; none shares anything but the query with it or with another |
| CloneRequest.CloneExact | proxy/request.go:72-114 | what a clone is, field by field: equal header values and parameters in containers of its own, the parsed URL, and a body of its own with the content |
| CloneRequest.AddClone | proxy/request.go:72-95 | one more clone leaves the clones made before as they are and apart from it |
| CloneRequest.EditHeader | proxy/request.go:98-107 | a later change of one side's header value does not show in the other |
| CloneRequest.EditParam | proxy/request.go:109-115 | a later change of one side's parameters does not show in the other |
| Strings.JoinSplit | proxy/formatter.go:124-124 | splitting an entry at the dots loses nothing |
| Strings.LessExact | config/config.go:674-681 | the string order of the sorted lists: a proper prefix, or smaller at the first difference |
| Sorting.SortedUnique | sd/dnssrv/subscriber.go:134-148 | a sorted permutation is unique under a strict total order, so any sorting algorithm gives the same list |

## Left out

- HTTP clients and servers, TLS, routers, encoders, plugins, logging: input and output. A backend is anything that returns an error, nothing, or a response.
- Flatmap formatter (proxy/formatter.go:229-318): the tree library it needs is not part of this model.
- Time: contexts expire at any moment by a step of their own; timeouts are not computed. That a merge returns is proved when the backend calls return.
- Random numbers and the random balancer; the permutation of the host list and the start of the round-robin counter are arbitrary.
- `Host` of the balancer for a single fixed host (sd/loadbalancing.go:104-106), which returns it.
- DNS lookup, the refresh loop and the string form of a host: the answer and the naming function are parameters. Lock and unlock are atomic steps.
- The regular expressions for endpoint parameters and for sequential parameters: the latter is an arbitrary test on names. Title-casing is modelled for the ASCII names the placeholder pattern allows.
- The lookup of a nested source and the rendering of its value in sequential merging: an arbitrary function of the response's data at that moment and the source path. What this model's data hold under a key is not looked into.
- Backend filters are verdicts and calls are outcomes that are fixed for a run, in sequential merging together with the response objects; the theorems hold for all choices.
- Response combiners other than the default one, metadata of responses, and error texts beyond the list of messages.
- `sort.Slice` and `sort.Strings` are an insertion sort; by `Sorting.SortedUnique` the result does not depend on the algorithm.
- What parsing a URL's text yields (an arbitrary function), and requests with nil header or parameter maps (the clone gets empty ones).
- Errors while a body is read for cloning; the code ignores them.
- Messages in the channels of `WorkerPool` carry the index of their sender, which the code does not have; it is never read by the collectors.
- Loop bodies of some longer functions are methods of their own (for example `AllowMethods.PruneKey`, `DenyMethods.DeleteStep`, `Sequential.Round`).
- UrlOrder.OrderFreeIffNoHiddenTag: parameter keys are brace-free, as the names that placeholders can have are.
- UrlRequest.Request.GeneratePath: on templates outside the token form (stray opening braces in the free text) it is modelled, but only its step-by-step meaning is stated.
- Weights: sums and products are unbounded integers; `Weights.NoOverflow` shows that int64 does not matter.
- Sequential.SequentialMerge: replies are different objects with different data maps and bodies, as decoded responses are.
- Collector.CollectAll: for responses that share data maps only the outcomes as they show on arrival are merged; it is not said what these are.
- Formatter.EntityFormatter.Format: without data the group key holds null, where the code stores a nil map (proxy/formatter.go:76-78) that later type assertions still accept as a map.
- Fairness.WeightedFairness: all callers read the same resolved list; a list replaced in the middle of a round is not part of it.
