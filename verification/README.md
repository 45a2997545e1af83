# Redactor, consumer runtimes, error reporting and backoff of go-app, verified

This project models the parts of the go-app microframework that hold algorithms or concurrency, and
proves what they promise. `dafny verify dfyconfig.toml` checks all of it.

- **The redactor** (`common/redactor.go`). Go values are finite trees as reflection shows them
  (`GoValue`), filters live in three lists with precedence (`Filters`), and `Redaction` gives the
  recursive rebuild with its flag as functions. `RedactorObject` holds the object itself, with the
  loops of the source, proved to compute those functions. The laws: what a lookup means for the filters
  that were added (`Filters`), what is left at every path (`Paths`, `PathMeaning`), what PartialRedact
  reveals (`PartialMeaning`), what a redaction hides (`Noninterference`) and what exactly it does not
  (`Leak`), independence of map order (`Order`), and when redacting twice is redacting once
  (`Idempotence`).
- **The Pulsar consumer manager** (`plugins/pulsar/consumer.go`). `Pulsar` is a step system: one loop per
  consumer, Start, Shutdown and AddConsumer, the mutex, the wait group, the stop flag and the cancel
  signal, with every interleaving of their steps. `PulsarManager` is the object; its methods
  update its fields, and its Shutdown runs to the end under an arbitrary scheduler of the other goroutines.
- **The SQS worker** (`plugins/sqs_worker/worker.go`). `Sqs` is the step system of the producer loop, the
  bounded queue, the handler loop with one goroutine per message, and Shutdown. `SqsWorker` is the object,
  with a Shutdown under an arbitrary scheduler.
- **Deadline, recovery and reporting of gRPC calls** (`plugins/grpc`). `Deadline` races the handler's
  goroutine against the timer; `Recovery`, `Errors` and `Reporting` are what stands inside and outside of it
  in the preset with error reporting.
- **The exponential backoff** (`plugins/pulsar/backoff.go`), with 64-bit wrap-around, alone and shared.

Proofs about the redactor first establish one law per level of the recursion (`Paths.OneLevel`) and then
argue about any function with that law. Proofs about step systems show an invariant step by step and carry
it along runs (`Runs`); a run is a sequence of states in which each follows from the one before by some step.
Methods of the two objects that have no row below are single steps, from which Start and Shutdown are built; each
states its effect on the fields. Statements that name actions are about runs with the actions taken (`Trace`).

## Where the code departs from its documentation or its purpose

The model follows the code in all of these.

- `common/README.md` lists csrf, access_token, api_key and cvv as fully redacted; they are redacted
  partially (`Filters.DefaultModes`).
- It also says that a general filter redacts every field of its name; it never applies to a struct under
  that name (`PathMeaning.FilteredFieldExactly`, `PathMeaning.StructStaysReadable`).
- It says as well that a filter made from ABC and "Name" redacts the field Name of ABC; the name is compared
  to the rendered key, not to the field's own name (`PathMeaning.NamedFieldExactly`,
  `PathMeaning.RenamedFieldReadable`).
- The camel and snake spellings of a struct-field filter never apply to that struct, because
  `filterWithFields` passes a reflect.Type where `NewFilter` expects a sample of the struct
  (`Filters.SpellingsExactly`, `Filters.SnakeSpellingLost`).
- Redact is not idempotent for structs under a redacted key and for pointers behind pointers
  (`Idempotence.IdempotentExactly`).
- A Pulsar handler that calls AddConsumer during Shutdown deadlocks both (`Pulsar.StuckExactly`,
  `Pulsar.DeadlockFromCall`, `Pulsar.DeadlockExactly`, `Pulsar.DeadlockHappens`).
- Shutdown of the SQS worker, documented as graceful, can hang (`Sqs.HangExactly`), can leave received
  batches unhandled for good (`Sqs.AbandonExactly`), and can return before a batch is handled
  (`Sqs.LateHandlingPossible`). Each has a run from the start.
- A backoff with a maximum of 2^62 ns or more overflows unless it is constant, one whose minimum exceeds
  its maximum ignores the maximum, and jitter on a base near 2^63 ns gives a negative delay (`Backoff.ClosedFormExactly`,
  `Backoff.CapExactly`, `Backoff.DelayBoundsExactly`).

## Model

| member | source | states |
|---|---|---|
| GoValue.FieldKey | common/redactor.go:57-66 | The rendered key of a field is its name when its json tag is empty or gives no name or `-` as the name; otherwise it is the tag up to its first comma. |
| GoValue.ExportedFieldsExact | common/redactor.go:84-94 | The rendered children of a struct are its exported fields, no more and no fewer; unexported ones are never visited. |
| Filters.BatchesJoin | common/redactor.go:151-167 | Splitting a batch of filters never changes the three lists. |
| Filters.LookupMeaning | common/redactor.go:139-194 | After any filters have been added, a field lookup answers with the first added filter that answers for the struct, failing that the first general one, failing that not at all: the three lists refine one flat list. |
| Filters.StructLookupMeaning | common/redactor.go:169-176 | A struct lookup answers with the first added filter without a field for exactly that type. |
| Filters.SpellingsExactly | common/redactor.go:139-149 | The camel and snake spellings filed for a struct-field filter are filed under the type of reflect.Type values. A lookup therefore answers with the filter that was meant if and only if the key folds to the raw name of the first filter meant for it, or none is. |
| Filters.SnakeSpellingLost | common/redactor.go:162-165 | An input: a filter on AccessToken of a struct does not find access_token there, while the same general filter does. |
| Filters.DefaultModes | common/redactor.go:17-26 | The default redactor redacts fully under password, address and cipher, partially under email, csrf, accessToken, access_token, apiKey, api_key and cvv, and under no other key. |
| RedactorObject.Redactor.AddFilters | common/redactor.go:151-167 | The appending loop leaves the lists that the lookup lemmas speak of. |
| RedactorObject.Redactor.FilterStruct | common/redactor.go:169-176 | The scan returns the first filter of exactly this type, and none only if there is none. |
| RedactorObject.Redactor.FilterField | common/redactor.go:178-194 | The two scans return a filter whose name folds to the key, with the mode that LookupMeaning characterises. |
| RedactorObject.Redactor.Redact | common/redactor.go:196-203 | nil gives nil; any other value is redacted from the root, under no type and no key. |
| RedactorObject.Redactor.RedactValue | common/redactor.go:205-287 | The recursion with its flag computes that function at every place. |
| RedactorObject.Redactor.RedactFields | common/redactor.go:221-239 | The loop over fields fills the map and accumulates the flag field by field, in order. |
| RedactorObject.Redactor.RedactEntries | common/redactor.go:245-258 | The loop over map keys does so entry by entry, in the order in which they are listed. |
| RedactorObject.Redactor.RedactElements | common/redactor.go:264-277 | The loop over elements keeps the place of the slice for each of them. |
| RedactorObject.PartialRedactValue | common/redactor.go:72-118 | The recursion of PartialRedact computes the function that the lemmas on what it reveals are about. |
| RedactorObject.PartialRedactFields | common/redactor.go:84-95 | Its loop over the exported fields. |
| RedactorObject.PartialRedactEntries | common/redactor.go:97-103 | Its loop over the entries of a map. |
| Paths.RedactIsLawful | common/redactor.go:205-287 | With distinct rendered keys every level obeys one law: a match replaces the node, a container is rebuilt if and only if something below it was redacted, everything else comes back as it was. |
| PathMeaning.PathMeaning | common/redactor.go:205-287 | At every path of every value: up to the first match the original, or a rebuilt container with exactly its keys or length; from the first match on, what the mode of that filter makes of the node. |
| PathMeaning.RootMeaning | common/redactor.go:196-203 | The same for what a call of Redact returns, from the root on. |
| PathMeaning.MatchMeaning | common/redactor.go:178-287 | A struct is matched by a struct filter for its type, any other node by a field filter for the type and key it is reached under, and is replaced by `<REDACTED>`, by its partial redaction or by what the custom mode makes of it. |
| PathMeaning.PlaceOfField | common/redactor.go:232-232 | A field is reached under its struct's type and its rendered key. |
| PathMeaning.PlaceOfEntry | common/redactor.go:251-251 | An entry is reached under its map's type and its key, a string as it is and anything else as it is printed. |
| PathMeaning.PlaceOfElement | common/redactor.go:270-270 | An element is reached under the type and key of its slice. |
| PathMeaning.FlagExact | common/redactor.go:206-286 | The flag is true if and only if a match is reachable past no earlier one; when it is false the output is the input without its outer pointer and interfaces. |
| PathMeaning.FilteredFieldExactly | common/redactor.go:216-219 | A node under a filtered key, with no match above it, is replaced by that filter's mode if and only if it is not a struct; a struct is replaced if and only if a struct filter applies to it, by that one, and is otherwise left as if the key were not filtered. |
| PathMeaning.StructStaysReadable | common/redactor.go:216-219 | An input: a struct under the only filtered key comes back readable. |
| PathMeaning.NamedFieldExactly | common/redactor.go:178-185 | With a filter on a name of a struct alone, a field that holds no struct is replaced if and only if the key that it is rendered under folds to that name; its own name does not matter. |
| PathMeaning.RenamedFieldReadable | common/redactor.go:178-185 | An input: a filter on Name of a struct leaves its field Name, which the json tag renames, readable. |
| PartialMeaning.PartialStringShape | common/redactor.go:122-127 | Thirty percent of the runes are revealed, rounded down and as a prefix, followed by a star for each other rune but at most five; at least one star unless the string is empty; the length is kept if and only if there are at most seven runes. |
| PartialMeaning.StringLeak | common/redactor.go:122-127 | Exactly which strings PartialRedact cannot tell apart. |
| PartialMeaning.PartialRedactMeaning | common/redactor.go:72-118 | At every path of every value: nil stays nil, records keep exactly their rendered keys, slices their length, and every leaf is its shortened text. |
| PartialMeaning.PartialRedactLeak | common/redactor.go:72-118 | Two values have the same output if and only if their visible parts are the same. |
| Noninterference.RedactNoninterference | common/redactor.go:68-127 | Inputs that agree except below first matches, and there in what the matching mode shows, have the same output and the same flag. |
| Leak.RedactLeak | common/redactor.go:205-287 | With FullRedact and PartialRedact filters, two values have the same output if and only if they show the same: untouched parts entirely, around matches the keys and lengths, and of a match what its mode leaves. |
| Order.PartialRedactOrderFree | common/redactor.go:96-103 | PartialRedact gives the same output for every order in which maps list their keys, at every depth. |
| Order.RedactOrderFree | common/redactor.go:240-258 | Redact gives the same flag and the same output for every such order. |
| Idempotence.GeneralFullFilters | common/redactor.go:151-156 | Adding only general FullRedact filters gives a redactor of the kind that the idempotence lemmas are about. |
| Idempotence.IdempotentExactly | common/redactor.go:205-287 | For such redactors, redacting an output again changes nothing if and only if the value was stable: it has no pointer behind a pointer on an untouched branch, and no rebuilt struct under a redacted key. |
| Idempotence.PlainIdempotent | common/redactor.go:205-287 | In particular Redact is idempotent on values made of maps, slices, interfaces and scalars. |
| Idempotence.StructNotIdempotent | common/redactor.go:214-239 | An input on which it is not: a map with a struct under a redacted key. The first pass redacts its field, the second the whole. |
| Idempotence.PointerNotIdempotent | common/redactor.go:214-214 | Another: a pointer behind a pointer loses one pointer each time. |
| Pulsar.ActionKeepsInvariant | plugins/pulsar/consumer.go:64-191 | Every step of every goroutine, AddConsumer included, keeps the invariant: the wait group counts the running loops, deliveries are accounted for, closings are exact. |
| Pulsar.InvariantOnRuns | plugins/pulsar/consumer.go:119-191 | Hence it holds in every state of every run, whatever the interleaving. |
| Pulsar.Safety | plugins/pulsar/consumer.go:119-191 | In every run from the start: the wait group is the number of unfinished loops; a consumer is closed only when no loop runs; every delivery is with its loop or was acked once (nil error), nacked once (error) or neither (panic). |
| Pulsar.OneInFlight | plugins/pulsar/consumer.go:163-166 | In every run a consumer has at most one delivery that its handler has not returned from. |
| Pulsar.ReturnDecides | plugins/pulsar/consumer.go:119-145 | After a handler has returned in a run, its delivery is acked at most once and only if there was no error, nacked at most once and only if there was one, neither after a panic; and it has been once its loop does not hold it any more. |
| Pulsar.AnswerHasReturn | plugins/pulsar/consumer.go:137-144 | Conversely, a delivery that was acked or nacked in a run is one that its handler has returned from without, or with, an error. |
| Pulsar.AddingStep | plugins/pulsar/consumer.go:115-115 | Adding a consumer gives its label, and no other, a consumer that is new; no other step changes the map. |
| Pulsar.LabelStays | plugins/pulsar/consumer.go:64-191 | In a run, no label is dropped or given another consumer but by adding one under it. |
| Pulsar.StartedHasLoop | plugins/pulsar/consumer.go:151-173 | When Start has returned, every consumer that was under a label when it began has a loop. |
| Pulsar.ShutdownClosesAdded | plugins/pulsar/consumer.go:188-190 | When Shutdown has returned, every consumer that was added before and is still under its label has been closed once. |
| Pulsar.LoopsStay | plugins/pulsar/consumer.go:157-171 | No loop leaves before the stop flag is set. |
| Pulsar.ClosedExactlyOnce | plugins/pulsar/consumer.go:186-190 | Shutdown closes each consumer of the map exactly once, and no other, and that stays so after it has returned. |
| Pulsar.NothingAfterClose | plugins/pulsar/consumer.go:184-190 | Once a consumer is closed nothing is received, acked or nacked any more. |
| Pulsar.AtMostOneMore | plugins/pulsar/consumer.go:157-171 | After the stop flag is set a loop takes at most one more message, and only if it was already in its select. |
| Pulsar.WorkDecreases | plugins/pulsar/consumer.go:155-191 | While Shutdown is under way every step of anyone decreases a measure. |
| Pulsar.RunsEnd | plugins/pulsar/consumer.go:155-191 | So no run is longer than the measure says. |
| Pulsar.StuckExactly | plugins/pulsar/consumer.go:64-191 | Before Shutdown returns, nobody can move without a new message if and only if every running loop is in a handler that waits in AddConsumer for the mutex that Shutdown holds. |
| Pulsar.ShutdownReturns | plugins/pulsar/consumer.go:155-191 | Once the stop flag is set, every run that goes on as long as it can without new messages has passed the return of Shutdown or ends in that deadlock; where no handler is waiting in AddConsumer at its end, Shutdown has returned. |
| Pulsar.DeadlockExactly | plugins/pulsar/consumer.go:64-191 | From the stop flag on, a run that ends in the deadlock exists if and only if some loop is in its handler or in the select that may take it there. |
| Pulsar.DeadlockFromCall | plugins/pulsar/consumer.go:176-186 | When Shutdown is called, or has just taken the mutex, such a run exists if and only if some loop is running and not already on its way out. |
| Pulsar.BlockedForever | plugins/pulsar/consumer.go:64-66 | A handler that waits there when Shutdown has taken the mutex is never let in, and Shutdown never returns. |
| Pulsar.DeadlockHappens | plugins/pulsar/consumer.go:176-186 | A run from the start that ends in that deadlock, with one consumer. |
| PulsarManager.PulsarConsumerManager.constructor | plugins/pulsar/consumer.go:193-200 | A new manager has no consumers and satisfies the invariant. |
| PulsarManager.PulsarConsumerManager.AddConsumer | plugins/pulsar/consumer.go:64-117 | The label is in the map and stands for a new consumer, that nothing was delivered to; every other label stays and keeps its consumer; the invariant is kept. |
| PulsarManager.PulsarConsumerManager.Start | plugins/pulsar/consumer.go:147-174 | Afterwards exactly the consumers of the map have a loop, the wait group counts them, and the mutex is free. |
| PulsarManager.PulsarConsumerManager.ReceiveMessage | plugins/pulsar/consumer.go:163-166 | The invariant is kept, and the handler has returned from every earlier delivery of this consumer, but not from this one. |
| PulsarManager.PulsarConsumerManager.AnswerMessage | plugins/pulsar/consumer.go:137-144 | The invariant is kept, and the delivery now has exactly the one answer that its handler's return calls for. |
| PulsarManager.PulsarConsumerManager.Shutdown | plugins/pulsar/consumer.go:176-191 | Under an arbitrary scheduler of all goroutines the method ends deadlocked, or with every consumer of the map closed once and every delivery answered as its handler returned; it cannot end deadlocked if no handler waits in AddConsumer or calls it. |
| PulsarManager.PulsarConsumerManager.WaitForLoops | plugins/pulsar/consumer.go:184-186 | After the stop flag the wait ends, with an empty wait group or in the deadlock, whatever the scheduler does. |
| PulsarManager.PulsarConsumerManager.ShutdownClose | plugins/pulsar/consumer.go:186-191 | From an empty wait group on, it closes every consumer of the map once, answers nothing meanwhile, and releases the mutex. |
| Backoff.BackoffPolicy.Next | plugins/pulsar/backoff.go:31-46 | The method, with 64-bit wrap-around, updates base and minimum and returns the delay that the lemmas speak of. |
| Backoff.JitterExactly | plugins/pulsar/backoff.go:43-45 | The jitter is a fifth of the drawn part of the base, with the fraction dropped. |
| Backoff.BackoffPolicy.IsMaxBackoffReached | plugins/pulsar/backoff.go:49-51 | For a policy with bounds in order, it holds if and only if no further call of Next changes the state. |
| Backoff.ReachedIsFinal | plugins/pulsar/backoff.go:31-51 | The maximum is reached if and only if every further call leaves the state as it is. |
| Backoff.ClosedForm | plugins/pulsar/backoff.go:31-41 | For 0 < min <= max < 2^62 the n-th call sets the base to the lesser of min * 2^(n-1) and max, and no doubling overflows. |
| Backoff.ClosedFormExactly | plugins/pulsar/backoff.go:37-42 | Up to int64, that holds for all n if and only if max < 2^62 or min = max; otherwise a doubling overflows and the base falls back to the minimum. |
| Backoff.OverflowsAt | plugins/pulsar/backoff.go:37-42 | The call at which it does. |
| Backoff.ZeroMinimum | plugins/pulsar/backoff.go:32-34 | A policy without a minimum behaves as one with 500,000,000 ns. |
| Backoff.CapExactly | plugins/pulsar/backoff.go:38-42 | No base exceeds the maximum, whether or not doubling overflows, if and only if the minimum does not: the minimum is applied first. |
| Backoff.DelayBounds | plugins/pulsar/backoff.go:43-45 | As long as the base with the most jitter is within int64, a delay is at least its base and at most six fifths of it. |
| Backoff.DelayBoundsExactly | plugins/pulsar/backoff.go:43-45 | Otherwise, and only then, some draw gives a delay below the base, and a negative one. |
| Backoff.DelayRatio | plugins/pulsar/backoff_test.go:28-31 | While uncapped, each delay is at least five thirds and at most twelve fifths of the one before, tighter than the 1.6 and 2.5 that the tests promise. |
| Backoff.MaxReachedExactly | plugins/pulsar/backoff.go:49-51 | IsMaxBackoffReached holds after n calls if and only if n > 0 and min * 2^(n-1) >= max. |
| Backoff.SharedPolicy | plugins/pulsar/consumer.go:95-97 | When consumers share one policy, under every interleaving each sees bases that never fall, never exceed the maximum and are never below those of a policy of its own. |
| Sqs.ConservedStep | plugins/sqs_worker/worker.go:55-102 | Every step keeps the batches in order: none lost, duplicated or overtaken, queue and batches within their bounds. |
| Sqs.InvariantOnRuns | plugins/sqs_worker/worker.go:45-167 | The invariant holds in every state of every run. |
| Sqs.Safety | plugins/sqs_worker/worker.go:45-139 | In every run: received = finished + being handled + queued + in the producer's hand, in receipt order; at most max * (max + 2) messages are unfinished; a message gets one delete request if OnEvent succeeded or OnError said so, and none otherwise or before. |
| Sqs.RulingStands | plugins/sqs_worker/worker.go:122-134 | In every run, after OnEvent returned without an error or OnError said to delete, there is at most one delete request for the message, and one by the time its batch is finished; after OnError said to keep it, or a panic, there is none, ever. |
| Sqs.DeleteHasCause | plugins/sqs_worker/worker.go:128-134 | Conversely, a delete request in a run was preceded by OnEvent returning without an error for that message, or OnError saying to delete it. |
| Sqs.FailedEventAsks | plugins/sqs_worker/worker.go:123-126 | When OnEvent returns an error, OnError is asked about the message and nothing is settled; no other step asks it. |
| Sqs.AskedAfterFailure | plugins/sqs_worker/worker.go:123-126 | Hence in every run OnError is asked only about messages that OnEvent has returned an error for. |
| Sqs.RunsEnd | plugins/sqs_worker/worker.go:58-102 | Once disabled, every step of anyone decreases a measure, so no run is longer than it. |
| Sqs.StuckExactly | plugins/sqs_worker/worker.go:83-102 | Once disabled, nobody can move if and only if Shutdown has returned and both loops are gone, or the handler loop is gone and the producer holds a batch for a full queue. |
| Sqs.HangExactly | plugins/sqs_worker/worker.go:161-167 | Once the worker is disabled, a run that hangs Shutdown exists if and only if the queue is full while the producer fetches or holds another batch. |
| Sqs.FreeSlotCompletes | plugins/sqs_worker/worker.go:161-167 | Otherwise, as with a free slot, every run that goes on as long as it can ends with Shutdown returned and both loops gone. |
| Sqs.AtMostOneMore | plugins/sqs_worker/worker.go:84-101 | After the worker is disabled at most one more batch is received, and only if it was already being fetched. |
| Sqs.AbandonExactly | plugins/sqs_worker/worker.go:66-78 | Once the worker is disabled, a run that ends for good with received batches that are never handled exists if and only if a batch is queued or may still be and the producer is not shut out by a full queue that nobody empties. The same holds for Shutdown returning with batches outstanding and an empty wait group. |
| Sqs.AbandonHappens | plugins/sqs_worker/worker.go:66-78 | A run from Serve that leaves a batch behind. |
| Sqs.LateHandlingExactly | plugins/sqs_worker/worker.go:66-78 | After Shutdown has returned a batch may still be handled if and only if the handler goroutine had not reached its wg.Add and a batch is queued. |
| Sqs.LateHandlingPossible | plugins/sqs_worker/worker.go:66-78 | Before Shutdown returns, a run in which a batch is handled after its return exists if and only if the handler goroutine has not run yet and a batch is queued or can still be. |
| Sqs.HangHappens | plugins/sqs_worker/worker.go:83-102 | A run from Serve that ends with Shutdown hanging. |
| Sqs.LateHandlingHappens | plugins/sqs_worker/worker.go:66-78 | A run from Serve in which a batch is handled after Shutdown has returned. |
| SqsWorker.AwsSqsWorker.Serve | plugins/sqs_worker/worker.go:55-81 | The worker starts with an empty channel as wide as a batch is long and two goroutines that have not run. |
| SqsWorker.AwsSqsWorker.Shutdown | plugins/sqs_worker/worker.go:161-167 | Under an arbitrary scheduler of all goroutines the method ends with both loops gone, or hanging, and that only if the queue was full with another batch on its way. At most one more batch is received. In the end every batch was handled or is left in the channel, in order of receipt; the messages of the former are settled and those of the latter untouched. |
| Errors.AsAppIsOutermost | plugins/grpc/error.go:69-75 | However errors are wrapped and joined, errors.As finds the first ApplicationError met going inwards. |
| Errors.EnclosedKeepsApp | plugins/grpc/error.go:69-75 | However deep an error is wrapped or joined, errors.As finds from outside what it finds in the error alone, unless something joined before it (or after, if it has none) carries an ApplicationError. |
| Recovery.Handler | plugins/grpc/interceptors/recovery.go:28-52 | Every panic becomes an unexpected Internal ApplicationError with the trace ID of the context around what was thrown: an error with its own stack trace as it is, any other error in a wrapper, the text of anything else. Values and errors pass, Goexit unwinds. |
| Deadline.InvariantOnRuns | plugins/grpc/interceptors/timeout.go:31-54 | In every state of every run the channels hold only what the handler produced, and a returned call stays returned. |
| Deadline.ReturnsOnce | plugins/grpc/interceptors/timeout.go:46-53 | A call that has returned does not return again, nor otherwise. |
| Deadline.NeverBlocksOnSend | plugins/grpc/interceptors/timeout.go:35-44 | The worker goroutine never blocks on its send, even when the call was given up. |
| Deadline.CrashExactly | plugins/grpc/presets/grpc_with_error_reporting.go:48-57 | The process can crash if and only if the handler panics and recovery does not run inside the goroutine. |
| Deadline.RunsEnd | plugins/grpc/interceptors/timeout.go:31-54 | Every run is finite. |
| Deadline.StuckHasReturned | plugins/grpc/interceptors/timeout.go:46-53 | A run that cannot go on has returned, even if the handler never ends. |
| Deadline.StuckWorkerEnded | plugins/grpc/interceptors/timeout.go:35-44 | Nor is the worker goroutine left behind, even after the call was given up: it has ended unless the handler never does. |
| Deadline.ResultsExactly | plugins/grpc/interceptors/timeout.go:46-53 | Over all interleavings a call can return exactly the allowed results. |
| Deadline.GuardedResults | plugins/grpc/presets/grpc_with_error_reporting.go:48-57 | With recovery inside, a run that returns a result exists if and only if it is the value, the error with a nil response, an unexpected Internal ApplicationError with the trace ID for a panic, or DeadlineExceeded, which is the only result after Goexit or an overrun. |
| Deadline.BareResults | plugins/grpc/interceptors/timeout.go:31-54 | Without recovery inside, the same, but after a panic only DeadlineExceeded can still be returned. |
| Reporting.Request.Sentry | plugins/grpc/interceptors/sentry.go:59-86 | An error is captured, once, if and only if it is non-nil and its outermost ApplicationError, if any, is unexpected. |
| Reporting.Request.Newrelic | plugins/grpc/interceptors/newrelic.go:71-96 | The same for NoticeError, noted with the trace ID of that ApplicationError; the trace ID goes back into the context. |
| Reporting.Request.TraceId | plugins/grpc/interceptors/trace_id.go:23-40 | The trace ID is the first x-trace-id of the metadata, else the first trace_id, else the new one; the context, the response header and the transaction carry it. |
| Reporting.Call | plugins/grpc/presets/grpc_with_error_reporting.go:48-57 | A whole call of the chain: New Relic and Sentry record the same errors, at most one each; every deadline and every recovered panic is among them, the panic with the trace ID that the outermost interceptor chose; values record nothing. |
| Reporting.EnclosedReport | plugins/grpc/error.go:69-75 | Such an error is reported as it would be alone, with the same trace ID; an ApplicationError around all of it decides alone. |

## Left out

- PathMeaning: stated for values whose rendered keys are distinct at every node; with equal keys the last one stored wins, so that the children at a path would depend on it.
- FlagExact: stated for values whose rendered keys are distinct at every node; with equal keys the last one stored wins while the flag is raised by all of them.
- PartialRedactMeaning: stated for values whose rendered keys are distinct at every node; with equal keys the last one stored wins.
- RedactNoninterference: stated for values whose rendered keys are distinct at every node that is not below a FullRedact or custom match; with equal keys the last one stored wins.
- RedactLeak: stated for values whose rendered keys are distinct at every node, and without custom modes, whose outputs can be anything; the flag, which Redact does not return, is not compared.
- RedactOrderFree: stated for values whose rendered keys are distinct at every node; with equal keys the last one stored wins, and the order of map keys is random. Outputs are compared up to the order of map entries inside values that were returned untouched, and custom modes must not look at that order; fmt.Sprint is taken to print maps in key order, as it does.
- IdempotentExactly: stated for values whose rendered keys are distinct at every node; with equal keys the last one stored wins.
- DelayBounds: the jitter is computed over the reals, not over float64; the random draw is a parameter in [0, 1).
- Call: the context that reaches the deadline is abstracted to its trace ID, and the result of everything inside is any function of that ID which the deadline step system allows.
- PartialString: the count of revealed runes is the integer part of 3n/10, which is what the float64 expression gives for every length that fits in memory; strings are sequences of runes, so invalid UTF-8 is not modelled.
- Cyclic values, and values on which reflection or fmt panics: values are finite trees.
- strcase and strings.EqualFold: arbitrary functions of the environment, EqualFold as equality of folded strings.
- The capacity of slices and of the maps that are made, and arrays as distinct from slices: not observable in the output.
- DefaultModes: the spellings that strcase makes of the eight default names, and that folding keeps the full names apart from the partial ones, are stated as a condition on the environment; DefaultRedactor as a global is not modelled.
- Pulsar, AWS, New Relic, Sentry, OpenTelemetry, fx and Kitex internals, and logging: steps that always succeed, or nothing.
- AddConsumer that is rejected for its topic or by Subscribe from outside: it changes nothing; inside a handler both outcomes are steps.
- Repeated Start, Shutdown before Start or for a second time, and Shutdown without a client.
- A Pulsar handler that calls Start or Shutdown itself.
- Atomicity: reads and writes of IsStopped and enabled are atomic steps, although the source does not synchronise them.
- SQS: a topic that is not found in Serve, a queue of capacity zero, a receive that returns more messages than were asked for, and panics that do not carry an error, which would crash the process.
- SQS receives that never return: a fetch ends with an error or with messages.
- The cancellation of the caller's context in the deadline interceptor: it is the same step as the timer.
- Attributes, tags and contexts that the reporters set besides the trace ID, and the locale, request log and otel interceptors, which pass results through.
- plugins/kitex/middlewares/timeout.go: repeats the gRPC deadline machine.
- plugins/pulsar/producer.go, plugins/env, common/map.go, plugins/mongodb and the option setters: record and map updates without further content.
- plugins/grpc/interceptors/request_log.go: its request path only calls the redactor.
