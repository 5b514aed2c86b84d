# Verified model of the Chainlink node's utility core

A Dafny model of the parts of the node that carry state machines, protocols, codecs and exact
arithmetic, with proofs about them:

| file | component |
|---|---|
| `Basics.dfy` | small notions that several components share |
| `Lifecycle.dfy` | `StartStopOnce`: a start/stop state machine built from a compare-and-swap outside a read-write lock and work under it |
| `SleeperTask.dfy` | the worker loop behind a one-slot wake-up channel, on top of `Lifecycle` |
| `Mailbox.dfy`, `MailboxNotify.dfy` | the drop-oldest mailbox, and the notification of its consumer under every interleaving |
| `BoundedQueues.dfy` | `BoundedQueue` and `BoundedPriorityQueue` |
| `Sorting.dfy` | what the code needs from Go's `sort` on the keys of a map |
| `Decimals.dfy`, `Wei.dfy` | decimal text, and amounts of wei with unit suffixes |
| `NormalizedJson.dfy` | the JSON normaliser, with a reader for exactly its output |
| `EvmWords.dfy` | 32-byte EVM words and padded byte strings (Solidity Contract ABI Specification, section "Formal Specification of the Encoding") |
| `Bridges.dfy` | the bridge ORM with its read-through/write-through cache |
| `Versions.dfy` | the printer and parser of the versions file |
| `Pagination.dfy` | page requests, page links and page slices |

`dafny verify dfyconfig.toml` checks the whole project.

**How concurrency is modelled.** `Lifecycle`, `SleeperTask` and `MailboxNotify` are state machines with one
program point for each of any number of goroutines. A goroutine's call is cut at its atomic steps
(compare-and-swap, load, lock, unlock, channel operation, return of a callback), and a run is any
sequence of enabled steps. A read-write lock is a writer flag and a reader count, a channel of capacity
one is a bool, and the 15 second timeout of `Stop` is a choice that may be taken at any time. Counters
and logs in the states are for the theorems only; no step depends on them.

**How updates in place are modelled.** `StartStopOnce`, `Mailbox`, `BoundedQueue`,
`BoundedPriorityQueue`, `Writer`, `Wei` and `Orm` are classes whose methods follow the source statement by
statement. Each method is proved against a specification on values (a step of the machine, `Perform`,
`Performs`, `Print`, `Parse`, `TableStep`), and the lemmas are about that specification. A Go panic or error is a
result value, not a precondition.

## Model

| member | source | states |
|---|---|---|
| Lifecycle.StepInv | lib/chainlink/core/utils/utils.go:883-985 | Each atomic step of each goroutine keeps the invariant: lock mutual exclusion, one owner of Starting and of Stopping, exact run counts, and what each program point knows about the phase |
| Lifecycle.WriterAlone | lib/chainlink/core/utils/utils.go:891-892 | Whoever is in a write section has the lock to itself: no second writer and no reader; derived from the flag and the count, not assumed |
| Lifecycle.RunsAtMostOnce | lib/chainlink/core/utils/utils.go:883-951 | In every run of any number of goroutines neither "unreachable state" panic is reached, a start function runs at most once, and a stop function at most once and only after a start function that returned nil |
| Lifecycle.FunctionsExcludeEachOther | lib/chainlink/core/utils/utils.go:960-985 | While an IfStarted function runs the phase is Started, while an IfNotStopped function runs it is not Stopped, and a start or stop function overlaps no other function |
| Lifecycle.StopReplies | lib/chainlink/core/utils/utils.go:883-951 | Phase by phase, the only replies a StartOnce or StopOnce can give when it releases the lock: "already stopped" (or its own success) in phase Stopped, nil in phase Started, and each refusal or failure in the phase it names |
| Lifecycle.ReaderReplies | lib/chainlink/core/utils/utils.go:960-985 | When it releases the lock, an IfStarted answers false if and only if the phase is not Started, and an IfNotStopped if and only if the phase is Stopped |
| Lifecycle.StepFollowsDiagram | lib/chainlink/core/utils/README.md:5-17 | Helper of the row below: each step leaves the phase alone or moves it along an edge of the documented state diagram |
| Lifecycle.AtMostFourChanges | lib/chainlink/core/utils/utils.go:851-951 | Along a run the number of phase changes is bounded by the rank of the phase reached, so no run has more than four |
| Lifecycle.StuckIffPanicked | lib/chainlink/core/utils/utils.go:883-951 | In every reachable state: the phase is Starting or Stopping with no call under way that owns it, if and only if a start or stop function has panicked |
| Lifecycle.PanicIsFinal | lib/chainlink/core/utils/utils.go:883-951 | After such a panic the phase stays Starting or Stopping in every later state, no start or stop function is ever entered again, and whatever a writer comes to report is that the service cannot be stopped from that phase |
| Lifecycle.SettledUnlessPanicked | lib/chainlink/core/utils/utils.go:851-951 | Once every call has returned, the phase is still Starting or Stopping if and only if a start or stop function has panicked |
| Lifecycle.OthersMayDo | lib/chainlink/core/utils/utils.go:883-985 | All that any number of steps of other goroutines can change under a goroutine that stays where it is: under the write lock only Unstarted to Starting, under the read lock no other phase either, nothing of the phase for the owner of Starting, and otherwise only what the diagram allows |
| Lifecycle.SomeoneCanStep | lib/chainlink/core/utils/utils.go:883-985 | As long as some call is under way, some call can take a step without waiting, even if the lock holds back some of those it could let in (but, when it is free, not all of them), as Go does for waiting writers and readers |
| Lifecycle.NoDeadlock | lib/chainlink/core/utils/utils.go:883-985 | A reachable state in which no call can go on is one in which every call has returned, whoever the lock holds back |
| Lifecycle.CallsEnd | lib/chainlink/core/utils/utils.go:883-985 | The steps that calls already begun can still take are bounded by a measure of the state, under every schedule |
| Lifecycle.CallsReturn | lib/chainlink/core/utils/utils.go:883-985 | So all calls return: from every reachable state each continuation without new calls is bounded, and one that cannot be extended, whoever the lock holds back, is exactly one that ends with every goroutine idle |
| Lifecycle.StartStopOnce.StartOnce | lib/chainlink/core/utils/utils.go:883-911 | A second call is refused at once, whoever holds the lock, and names whatever phase others have led to by then; the first one owns phase Starting before it waits for a lock that it finds held; otherwise phase, reply and run counts for every outcome of the start function, panic included. Each statement is one step of the machine |
| Lifecycle.StartStopOnce.StartLocked | lib/chainlink/core/utils/utils.go:891-910 | The rest of a StartOnce that has waited, from the moment the lock is free: the second compare-and-swap succeeds and the lock is released |
| Lifecycle.StartStopOnce.StopOnce | lib/chainlink/core/utils/utils.go:915-951 | Waits for a held lock without having done anything; with the lock free, as StopLocked |
| Lifecycle.StartStopOnce.StopLocked | lib/chainlink/core/utils/utils.go:919-951 | From the moment the lock is free, in whatever phase that is and whenever another StartOnce comes in between: the reply is "already stopped" if and only if the phase was Stopped, each other reply and new phase by old phase and outcome, and the same reply as the machine's |
| Lifecycle.StartStopOnce.Refuse | lib/chainlink/core/utils/utils.go:923-933 | The three kinds of refusal, one for Stopped, one for Unstarted, and one that names any other phase |
| Lifecycle.StartStopOnce.RunFn | lib/chainlink/core/utils/utils.go:896-910 | The end that both calls share: a nil, an error and a panic lead to the done phase, the failed phase and the unchanged phase, each with the lock released |
| Lifecycle.StartStopOnce.CompareAndSwap | lib/chainlink/core/utils/utils.go:886 | Succeeds exactly when the state is the expected one, and changes it only then |
| Lifecycle.StartStopOnce.IfStarted | lib/chainlink/core/utils/utils.go:960-971 | Waits for a writer and for no reader; otherwise as IfStartedLocked |
| Lifecycle.StartStopOnce.IfStartedLocked | lib/chainlink/core/utils/utils.go:961-971 | Answers false if and only if the phase is not Started, otherwise runs the function; the phase is unchanged and the read lock is given back even on a panic |
| Lifecycle.StartStopOnce.IfNotStopped | lib/chainlink/core/utils/utils.go:974-985 | Waits for a writer and for no reader; otherwise as IfNotStoppedLocked |
| Lifecycle.StartStopOnce.IfNotStoppedLocked | lib/chainlink/core/utils/utils.go:975-985 | Answers false if and only if the phase is Stopped, otherwise runs the function; the phase is unchanged and the read lock is given back |
| SleeperTask.RefinesLifecycle | lib/chainlink/core/utils/sleeper_task.go:42-83 | Helper that carries the life-cycle theorems over: every step of the task leaves its StartStopOnce alone or is a step of the life-cycle machine |
| SleeperTask.StepInv | lib/chainlink/core/utils/sleeper_task.go:54-97 | Each step of each goroutine and of the worker keeps the invariant that ties slot, log, channels, worker and phase together |
| SleeperTask.WakeUpsWaitInTheSlot | lib/chainlink/core/utils/sleeper_task.go:66-97 | No wake-up is lost in the channel: in every reachable state some WakeUp still waits for a later Work if and only if the slot is full, default-branch sends included; accepted sends are receives plus the slot; calls to Work never overlap |
| SleeperTask.ServedWithinTwoTurns | lib/chainlink/core/utils/sleeper_task.go:86-97 | Along every run: once the worker has taken two turns (a receive from chQueue, or the return of Work), with any steps of anybody in between, every WakeUp logged before the first of them has been followed by a call to Work |
| SleeperTask.FullSlotKeepsWorkerGoing | lib/chainlink/core/utils/sleeper_task.go:86-97 | Until chStop is closed a worker with a full slot waits for nobody: its next turn is enabled, and a selecting worker has no other choice than to receive |
| SleeperTask.StopIsClean | lib/chainlink/core/utils/sleeper_task.go:54-64 | chStop is open whenever a Stop is about to close it, so close never panics, and in phase Stopped the worker loop has exited |
| SleeperTask.StopOutcome | lib/chainlink/core/utils/sleeper_task.go:54-64 | A Stop whose wait is ended by the exit of the loop returns nil and leaves phase Stopped; one that times out returns the error and leaves phase StopFailed |
| SleeperTask.WakeUpLooksFirst | lib/chainlink/core/utils/sleeper_task.go:66-84 | WakeUp never blocks; it goes on to its send if and only if the phase it loads is not Stopped, and otherwise changes nothing; a send fills the slot and is accepted if and only if the slot was empty |
| SleeperTask.SendsAreLetThrough | lib/chainlink/core/utils/sleeper_task.go:66-84 | Along every run, a WakeUp that sends has loaded a phase other than Stopped before, and a WakeUpIfStarted sends only in phase Started |
| SleeperTask.StoppedTaskRefuses | lib/chainlink/core/utils/sleeper_task.go:76-84 | From phase Stopped on, with no earlier WakeUp still about to send: no further event, and the slot stays as it is |
| SleeperTask.ExitIsFinal | lib/chainlink/core/utils/sleeper_task.go:86-97 | After the loop has exited no Work is in progress, none begins in any later state, and a full slot stays full |
| SleeperTask.StoppedIsFinal | lib/chainlink/core/utils/sleeper_task.go:54-97 | Once the phase is Stopped no Work is in progress and none ever starts again |
| SleeperTask.WorkerExits | lib/chainlink/core/utils/sleeper_task.go:86-97 | Along every run, from the closing of chStop on: the worker takes at most five more steps, and two more for each further send; until it has exited it can take one without waiting; after the last of them it has exited |
| SleeperTask.WakeUpBeforeStopMayBeLost | lib/chainlink/core/utils/sleeper_task.go:32-36 | A complete run in which a WakeUp is accepted, Stop returns nil and Work is never called, so the documented "at least once for every WakeUp" fails |
| SleeperTask.PromiseKeptIffSlotEmpty | lib/chainlink/core/utils/sleeper_task.go:32-36 | Exactly when that promise holds, seen from the closing of chStop or any later state: every run that goes on from there serves all wake-ups so far if and only if the slot is empty, that is, if and only if a call to Work has begun after the last WakeUp; with a full slot some run breaks it |
| SleeperTask.PromiseMayBeKeptIff | lib/chainlink/core/utils/sleeper_task.go:86-97 | From every reachable state some run serves all wake-ups so far, closed chStop or not, unless the slot is full and the worker has already left its select: the select may still prefer the queue |
| SleeperTask.ServedAfterExit | lib/chainlink/core/utils/sleeper_task.go:86-97 | After the loop has exited it is settled which wake-ups are served: all of them, if and only if the slot was empty |
| SleeperTask.LogAfterExit | lib/chainlink/core/utils/sleeper_task.go:86-97 | After the exit the past is kept and only wake-ups are ever added to it |
| Mailbox.Mailbox.Deliver | lib/chainlink/core/utils/mailbox.go:69-86 | The new message is queued, the oldest one dropped exactly when the non-zero capacity was used up, which is also what is reported; the notification slot is full afterwards; queueLen stays the queue length |
| Mailbox.Mailbox.Retrieve | lib/chainlink/core/utils/mailbox.go:89-100 | Hands out the first message of the queue and removes exactly it, at every length, or reports that there is none |
| Mailbox.Mailbox.RetrieveAll | lib/chainlink/core/utils/mailbox.go:103-113 | Hands out the whole queue, oldest first, and leaves it empty: the two-index loop reverses the stored list |
| Mailbox.Mailbox.RetrieveLatestAndClear | lib/chainlink/core/utils/mailbox.go:116-126 | Hands out the message delivered last, or the zero value from an empty queue, and leaves the queue empty |
| Mailbox.WhichIsRetrieved | lib/chainlink/core/utils/mailbox.go:69-126 | After any run: RetrieveLatestAndClear gives the last delivery if anything is queued, Retrieve the first of those queued and removes only it, and RetrieveAll what one Retrieve after the other would give |
| Mailbox.PerformFates | lib/chainlink/core/utils/mailbox.go:69-126 | What an operation hands out joins, in delivery order, the messages whose fate is "retrieved" |
| Mailbox.RunIsDropOldestFifo | lib/chainlink/core/utils/mailbox.go:69-126 | Over any run of the four operations: the past is exactly the deliveries, what was returned is their subsequence with fate "retrieved" in order, and a non-zero capacity is never exceeded |
| Mailbox.Conservation | lib/chainlink/core/utils/mailbox.go:69-126 | Delivered is retrieved plus dropped plus cleared plus queued, as multisets |
| Mailbox.HoldsLatest | lib/chainlink/core/utils/mailbox.go:69-86 | After deliveries alone the queue holds exactly the latest `capacity` of them (all of them for capacity zero) |
| MailboxNotify.StepLock | lib/chainlink/core/utils/mailbox.go:69-126 | The mutex has one holder at a time, over all interleavings of producers and the consumer |
| MailboxNotify.StepAwake | lib/chainlink/core/utils/mailbox.go:69-100 | Each step keeps: a queue with messages and a sleeping consumer have a notification in the channel or about to be sent |
| MailboxNotify.StylesTake | lib/chainlink/core/utils/mailbox.go:89-126 | What each style of consumer takes out when it has the lock: everything in order, the newest, or the oldest message |
| MailboxNotify.NeverSleepsOnMessages | lib/chainlink/core/utils/mailbox.go:69-126 | A consumer that empties the queue on each notification (with capacity one a single Retrieve does) never sleeps on messages: the slot is full, or a Deliver holds the lock between its push and its send |
| MailboxNotify.SleepPossibleIff | lib/chainlink/core/utils/mailbox.go:69-126 | Exactly who may sleep on messages with no notification due: a consumer with a single Retrieve per notification and a capacity other than one |
| MailboxNotify.LeftBehindIsRun | lib/chainlink/core/utils/mailbox.go:69-100 | A complete run, for every capacity other than one, in which two deliveries share one notification and the second message is slept on |
| MailboxNotify.StepMatched | lib/chainlink/core/utils/mailbox.go:69-100 | With a capacity other than one, each step keeps a message of its own for every pending notification |
| MailboxNotify.WokenForNothing | lib/chainlink/core/utils/mailbox.go:18-20 | For every capacity and consumer that empties the queue, a complete run in which the consumer is notified and its first operation finds the queue empty: two deliveries, the second one before the consumer has the lock |
| MailboxNotify.EmptyRetrievePossibleIff | lib/chainlink/core/utils/mailbox.go:18-20 | Over all capacities and consumer styles: the first operation after a notification may find nothing if and only if the consumer empties the queue each time, that is, unless it retrieves once at a capacity other than one |
| MailboxNotify.HistoryIsSequential | lib/chainlink/core/utils/mailbox.go:69-126 | Under every interleaving the history of the mailbox is that of some sequence of whole operations, so the theorems about such sequences hold of concurrent runs |
| BoundedQueues.BoundedQueue.Add | lib/chainlink/core/utils/utils.go:530-538 | Keeps the last `capacity` items; with a negative capacity the slice expression panics after the append |
| BoundedQueues.BoundedQueue.Take | lib/chainlink/core/utils/utils.go:541-550 | Removes and returns the oldest item, or the zero value from an empty queue |
| BoundedQueues.BoundedQueue.Empty | lib/chainlink/core/utils/utils.go:553-557 | True exactly for a queue without items |
| BoundedQueues.BoundedQueue.Full | lib/chainlink/core/utils/utils.go:560-564 | True exactly when the next Add, of whatever item, has to drop the oldest one; always true for a negative capacity |
| BoundedQueues.BoundedPriorityQueue.constructor | lib/chainlink/core/utils/utils.go:576-590 | One empty queue object for each priority with its capacity, no two shared, and the priorities in increasing order whatever order the map yields |
| BoundedQueues.BoundedPriorityQueue.Add | lib/chainlink/core/utils/utils.go:593-603 | Appends to the items of its priority, dropping the oldest beyond the capacity, and changes no other priority; panics exactly for an unknown priority or a negative capacity |
| BoundedQueues.BoundedPriorityQueue.Take | lib/chainlink/core/utils/utils.go:606-618 | Takes the oldest item of a non-empty priority below which all are empty, and changes nothing else; the zero value if all are empty |
| BoundedQueues.BoundedPriorityQueue.FirstNonEmpty | lib/chainlink/core/utils/utils.go:610-616 | The scan over the sorted priorities stops at the smallest non-empty one, or reports that there is none |
| BoundedQueues.BoundedPriorityQueue.Empty | lib/chainlink/core/utils/utils.go:622-633 | True exactly when no sub-queue has items |
| BoundedQueues.RunKeepsLatest | lib/chainlink/core/utils/utils.go:529-618 | In every run of Add and Take each sub-queue is a suffix of the items added at its priority, within its non-negative capacity: only the oldest ever leave |
| BoundedQueues.RunAccountsForAll | lib/chainlink/core/utils/utils.go:529-618 | In every run, at each priority: the items added are those that have left followed by those still queued, and those that have left are an interleaving of the ones handed out by Take and the ones dropped, both in order of arrival |
| BoundedQueues.RunConserves | lib/chainlink/core/utils/utils.go:529-618 | So added is taken plus dropped plus queued, as multisets, at each priority |
| BoundedQueues.AddsKeepExactly | lib/chainlink/core/utils/utils.go:529-538 | Without Take a sub-queue is exactly the last `capacity` items added at its priority |
| Sorting.SortSorts | lib/chainlink/core/utils/utils.go:583 | Sorting distinct keys gives the same keys in strictly increasing order |
| Sorting.IncreasingUnique | lib/chainlink/core/utils/json_normalization.go:86-93 | A set of keys has only one increasing enumeration |
| Sorting.OrderDoesNotShow | lib/chainlink/core/utils/json_normalization.go:86-93 | Two iteration orders of one map sort to the same list |
| Sorting.BeforeMeans | lib/chainlink/core/utils/json_normalization.go:91 | The string comparison, without recursion: a comes before b if and only if it is a proper prefix of b or has the smaller character at the first difference |
| Sorting.BeforeIsOrder | lib/chainlink/core/utils/json_normalization.go:91 | It is a strict total order |
| Sorting.OrderedKeys | lib/chainlink/core/utils/json_normalization.go:86-93 | The keys of the map, each once, every one preceding the next in the sense of BeforeMeans, whatever order the map yields them in |
| Decimals.ValueOfNatural | lib/chainlink/core/assets/wei.go:110-114 | The printed digits of a natural number have its value |
| Decimals.DigitsOf | lib/chainlink/core/assets/wei.go:110-114 | The digits are 0 to 9 in this order, most significant first |
| Decimals.IntegerRoundTrip | lib/chainlink/core/web/api.go:53-59 | Parsing the decimal text of an integer gives the integer back |
| Decimals.ShowThenRead | lib/chainlink/core/assets/wei.go:110-114 | A decimal with an exponent from -2^31 to 0 is printed as plain text that reads back as the same number, although trailing zeros are dropped |
| Decimals.ShowWhole | lib/chainlink/core/assets/wei.go:110-114 | From 10^k up, the text before the decimal point of n * 10^-k is the quotient of n and 10^k |
| Decimals.ShowExact | lib/chainlink/core/assets/wei.go:110-114 | A whole number of units is printed as the integer, without a point |
| Decimals.NoTrailingZeros | lib/chainlink/core/assets/wei.go:110-114 | A printed number with a point ends neither in '0' nor in the point |
| Decimals.ReadScientific | lib/chainlink/core/assets/wei.go:181 | Sign, digits, fraction and exponent: the number read has the digits' value and the exponent less the length of the fraction, or is refused outside 32 bits |
| Decimals.OnlyNumbersAreRead | lib/chainlink/core/assets/wei.go:181-184 | Nothing that is empty or holds any other character is read as a number |
| WeiText.Wei.UnmarshalText | lib/chainlink/core/assets/wei.go:169-211 | The suffix loop computes Parse, and writes through the receiver only on success |
| WeiText.NamedAmounts | lib/chainlink/core/assets/wei.go:18-59 | For each of the eleven suffix texts with its worth in wei, and every integer i: "i suffix", with or without the space, is read as i times the worth, Text prints i times the worth as "i suffix", and i without a suffix is read as i wei |
| WeiText.OtherSuffixIsWei | lib/chainlink/core/assets/wei.go:79-84 | Text with any other suffix prints in wei |
| WeiText.ReadingFails | lib/chainlink/core/assets/wei.go:181-210 | Which error comes when: no number, not a whole number of wei, or no integer where the suffix is missing |
| WeiText.ParseNumberIsExact | lib/chainlink/core/assets/wei.go:181-198 | Parsing a number in a unit succeeds with w if and only if the text denotes exactly w wei, whichever of the two branches is taken |
| WeiText.FirstIsLongest | lib/chainlink/core/assets/wei.go:171-178 | The first unit in the parser's list that ends the text is the longest one that does |
| WeiText.PrintedSuffix | lib/chainlink/core/assets/wei.go:114 | Behind a printed number the parser finds the printed unit and no earlier one ("tether" is not "ether"), and trimming gives the number back |
| WeiText.TextInRoundTrip | lib/chainlink/core/assets/wei.go:79-116 | For every integer, negative or arbitrarily large, and every unit: parsing the printed text gives the integer |
| WeiText.TextRoundTrip | lib/chainlink/core/assets/wei.go:79-211 | The same for Text with any suffix string, known or not, and for String |
| WeiText.TextsAreDistinct | lib/chainlink/core/assets/wei.go:79-167 | Different amounts never print alike, even in different units |
| WeiText.UnitOfIsGreatest | lib/chainlink/core/assets/wei.go:131-167 | The uint64 switch and the big-integer comparisons together are one scan for the greatest unit not above the amount; negative amounts are in ether |
| WeiText.WholePartBelowThousand | lib/chainlink/core/assets/wei.go:131-167 | From 1 to 10^33 - 1 wei the text of String begins with the quotient by its unit, which lies in 1..999, followed by nothing or a decimal point |
| NormalizedJson.Writer.Marshal | lib/chainlink/core/utils/json_normalization.go:52-69 | Appends exactly the normal form of the value to the shared writer |
| NormalizedJson.Writer.MarshalArray | lib/chainlink/core/utils/json_normalization.go:125-149 | Appends the items with commas between and brackets around, for any length |
| NormalizedJson.Writer.MarshalObject | lib/chainlink/core/utils/json_normalization.go:71-84 | Appends the members under the strictly increasing list of the map's keys, whatever the iteration order |
| NormalizedJson.Writer.MarshalMapOrderedKeys | lib/chainlink/core/utils/json_normalization.go:95-123 | Appends key, colon and value for each key in order, with commas between |
| NormalizedJson.PrintedAre | lib/chainlink/core/utils/json_normalization.go:52-149 | The text for each kind of value, with literal brackets, commas, colons and words, and two members in the order of their keys |
| NormalizedJson.EscapesAre | lib/chainlink/core/utils/json_normalization.go:151-158 | The escape of every character in a string, as literal text |
| NormalizedJson.QuotedAre | lib/chainlink/core/utils/json_normalization.go:151-158 | Strings are escaped character by character between quotation marks |
| NormalizedJson.FloatsAre | lib/chainlink/core/utils/json_normalization.go:160-163 | A number text has one digit, a point, six decimals, and an exponent with a sign and at least two digits |
| NormalizedJson.ReadQuoted | lib/chainlink/core/utils/json_normalization.go:151-158 | A printed string is self-delimiting: the reader takes exactly it from any text that begins with it |
| NormalizedJson.ReadPrinted | lib/chainlink/core/utils/json_normalization.go:52-163 | The reader recovers every value tree from its normal form, whatever text follows (other than a further digit) |
| NormalizedJson.ReadIsPrinted | lib/chainlink/core/utils/json_normalization.go:52-163 | The reader accepts nothing else: whatever it takes is the normal form of what it returns, keys strictly increasing at every depth |
| NormalizedJson.ReadExactlyPrinted | lib/chainlink/core/utils/json_normalization.go:52-163 | A text is the normal form of a value if and only if the reader takes all of it and returns that value |
| NormalizedJson.NormalFormIsUnambiguous | lib/chainlink/core/utils/json_normalization.go:14-23 | Values with the same normal form are the same, numbers compared by their printed text |
| EvmWords.EVMBytesToUint64 | lib/chainlink/core/utils/utils.go:813-819 | The big-endian value of a buffer of any length modulo 2^64 |
| EvmWords.EVMWordUint64 | lib/chainlink/core/utils/ethabi.go:181-185 | A word of 32 bytes with the given big-endian value, in its last 8 bytes |
| EvmWords.EVMWordUint32 | lib/chainlink/core/utils/ethabi.go:188-192 | A word of 32 bytes with the given big-endian value |
| EvmWords.Uint64RoundTrip | lib/chainlink/core/utils/ethabi.go:181-185 | EVMBytesToUint64 inverts EVMWordUint64 on every uint64 |
| EvmWords.ValueOfLowBytes | lib/chainlink/core/utils/ethabi.go:183 | Writing the k low-order bytes of a number is reduction modulo 256^k |
| EvmWords.BigEndianConcat | lib/chainlink/core/utils/ethabi.go:181-192 | The most significant byte comes first: a concatenation has the value of its front shifted by the bytes behind it |
| EvmWords.BytesAreBits | lib/chainlink/core/utils/ethabi.go:209 | 256^k is 2^(8k), which links the test on bits to the number of bytes |
| EvmWords.UnsignedWord | lib/chainlink/core/utils/ethabi.go:221-230 | Accepted if and only if 0 <= val < 2^256, and then 32 bytes whose big-endian value is val |
| EvmWords.Uint128Word | lib/chainlink/core/utils/ethabi.go:195-203 | Accepted if and only if 0 <= val < 2^128, and then the word of EVMWordBigInt |
| EvmWords.SignedWord | lib/chainlink/core/utils/ethabi.go:207-217 | Accepted if and only if the magnitude is below 2^255, and then 32 bytes whose two's-complement value is val |
| EvmWords.MinusOne | lib/chainlink/core/utils/ethabi.go:212-215 | Minus one is the word of 32 bytes 0xff |
| EvmWords.WordsAreDistinct | lib/chainlink/core/utils/ethabi.go:207-230 | Both encodings are injective |
| EvmWords.EncodingsAgree | lib/chainlink/core/utils/ethabi.go:207-230 | Signed and unsigned encoding succeed with the same bytes if and only if 0 <= val < 2^255 |
| EvmWords.MinInt256IsRefused | lib/chainlink/core/utils/ethabi.go:207-211 | -2^255 has a two's-complement word and is refused |
| EvmWords.EVMEncodeBytes | lib/chainlink/core/utils/ethabi.go:62-77 | The length as a word, the bytes, and zeros up to the next whole word: one word and as many as the bytes need |
| EvmWords.DecodeBytes | lib/chainlink/core/utils/ethabi.go:71-77 | Reading the first word with EVMBytesToUint64 and taking that many bytes returns the input, whatever follows the encoding |
| EvmWords.EncodingsArePrefixFree | lib/chainlink/core/utils/ethabi.go:71-77 | No encoding is a proper prefix of another, so encodings can be concatenated |
| Bridges.Orm.FindBridge | lib/chainlink/core/bridges/orm.go:52-63 | Equals a plain table lookup, hit or miss; exactly a found row is cached, and every cached entry stays equal to its row |
| Bridges.Orm.Split | lib/chainlink/core/bridges/orm.go:73-82 | The first loop: cached rows and names still to search for make up the request, in order |
| Bridges.Orm.FindBridges | lib/chainlink/core/bridges/orm.go:68-105 | Succeeds exactly under a stated condition (all names exist and the uncached ones are distinct), then returns each name's row as often as asked; otherwise the right error; afterwards exactly the existing names are cached in addition |
| Bridges.CountTells | lib/chainlink/core/bridges/orm.go:84-104 | Comparing lengths detects exactly the missing names and the repeated uncached names |
| Bridges.DistinctNamesIgnoreCache | lib/chainlink/core/bridges/orm.go:65-68 | On distinct names the condition is that there is a name and all exist, for every split into cached and uncached |
| Bridges.RepeatedNamesShowCache | lib/chainlink/core/bridges/orm.go:65-68 | For every table and every non-empty request for existing names: it succeeds with some coherent cache, and with every coherent cache if and only if the names are distinct |
| Bridges.Orm.CreateBridgeType | lib/chainlink/core/bridges/orm.go:144-160 | The new row field by field, with both times set, in table and cache, or the unique-name error and no change |
| Bridges.Orm.UpdateBridgeType | lib/chainlink/core/bridges/orm.go:163-171 | The row with exactly url, confirmations and minimum payment replaced, in table and cache, or no-rows and no change |
| Bridges.Orm.DeleteBridgeType | lib/chainlink/core/bridges/orm.go:108-124 | Row and cache entry gone, found or not; the reply tells which |
| Bridges.Orm.Session | lib/chainlink/core/bridges/orm.go:52-171 | The cache is invisible: every sequence of operations gets the replies, and leaves the table, of a table without a cache |
| Versions.ReadVersionsDB | lib/chainlink/core/gethwrappers/versions.go:59-98 | The scan loop computes ReadLines of the text's lines, including which of error and panic comes first; it panics if and only if a line without fields comes before any other failure |
| Versions.PanicIffBlankLine | lib/chainlink/core/gethwrappers/versions.go:66-71 | That condition as a theorem about lines: the index out of range happens exactly at a line without fields all of whose predecessors could be read |
| Versions.EmptyFirstLinePanics | lib/chainlink/core/gethwrappers/versions.go:66-71 | Every text that begins with an empty line makes the reader panic |
| Versions.FailureStays | lib/chainlink/core/gethwrappers/versions.go:66-96 | The first failing line decides the outcome |
| Versions.OneMoreLine | lib/chainlink/core/gethwrappers/versions.go:66-96 | What one more line does, in terms of its fields: panic without a field, error without the colon, with a wrong number of fields, with a second GETH_VERSION or a repeated package, and otherwise which entry is made from which field |
| Versions.FieldsSplit | lib/chainlink/core/gethwrappers/versions.go:67 | Fields are separated by any amount of any ASCII white space |
| Versions.WriteVersionsDB | lib/chainlink/core/gethwrappers/versions.go:102-142 | The version line, then one line for each package, in strictly increasing order of names |
| Versions.TwoPackagesWritten | lib/chainlink/core/gethwrappers/versions.go:116-140 | The literal text for two packages: every field in its place, the package that precedes the other first |
| Versions.ReadsExactlyDenoted | lib/chainlink/core/gethwrappers/versions.go:66-97 | Reading succeeds with db if and only if the lines are, as a multiset, the entries of db, each once |
| Versions.LineOrderDoesNotMatter | lib/chainlink/core/gethwrappers/versions.go:66-97 | Any reordering of the lines gives the same database, or fails as well |
| Versions.WrittenDenotes | lib/chainlink/core/gethwrappers/versions.go:116-140 | Each entry of a well-formed database is on exactly one line of its file, and nothing else is |
| Versions.RoundTripIffWellFormed | lib/chainlink/core/gethwrappers/versions.go:59-142 | Reading the written text gives the database back if and only if it has a geth version, no white space in names and fields, no empty field, and no package named GETH_VERSION |
| Versions.EmptyBinaryPathIsNotReadBack | lib/chainlink/core/gethwrappers/versions.go:23-24 | No database with an empty BinaryPath, which the comment on the field allows, is read back from its own file |
| Pagination.RequestsAccepted | lib/chainlink/core/web/api.go:32-51 | Numbers from 1 to 2^63 - 1 are accepted as size and page and no others; a missing size means 25, a missing page 1 |
| Pagination.OnlyNumbersAccepted | lib/chainlink/core/web/api.go:37-47 | A parameter that is no number is refused |
| Pagination.PaginatedLinks | lib/chainlink/core/web/api.go:97-105 | There is a "next" link if and only if the list is longer than a page and page times size, with Go's 64-bit wrap-around, is below its length; a "prev" link if and only if it is longer than a page and this is not page 1; and no other |
| Pagination.LinkRoundTrip | lib/chainlink/core/web/api.go:32-59 | Following a link requests exactly the size and page it was made for |
| Pagination.NextThenPrev | lib/chainlink/core/web/api.go:61-67 | Helper: the page behind a next link has a previous link back to this page |
| Pagination.NextLinks | lib/chainlink/core/web/api.go:98-101 | Every page before the last has a next link; the last has one if and only if page times size overflows |
| Pagination.PageItems | lib/chainlink/core/chains/config_v2.go:37-52 | For every size, page and list: the page holds exactly the elements of its range if and only if its offset does not overflow an int or wraps to a number beyond the list; it panics if and only if the offset wraps to a negative number |
| Pagination.HugePages | lib/chainlink/core/web/api.go:32-51 | Two accepted requests that fail: size 4 and page 2^61 + 1 panics on every list, size 4 and page 2^62 + 1 is answered with page 1 |
| Pagination.UnlimitedPage | lib/chainlink/core/chains/config_v2.go:37-52 | A limit of zero or less gives everything from the offset on |
| Pagination.FirstPagesAre | lib/chainlink/core/chains/config_v2.go:37-52 | The first k pages, one after the other, are the first k * size elements |
| Pagination.WalkPartitions | lib/chainlink/core/chains/config_v2.go:37-86 | If the last page fits into an int, the walk along next links from page 1 ends at the last page and its slices concatenate to the whole list |
| Pagination.WalkOverflows | lib/chainlink/core/web/api.go:49-101 | Otherwise every page has a next link, and the one behind the last page has a negative offset, on which slicing panics |
| Pagination.WalkEndsIffLastPageFits | lib/chainlink/core/web/api.go:32-107 | For every list and every size from 1: the walk ends if and only if the list rounded up to whole pages has fewer than 2^63 elements |

## Where the code and its documentation disagree

The model follows the code.

- `sleeper_task.go:32-36` promises a call to Work for every WakeUp. A Stop after the WakeUp can win the
  worker's select (`WakeUpBeforeStopMayBeLost`); `PromiseKeptIffSlotEmpty` says exactly when the promise holds.
- `mailbox.go:18-20` notes an empty Retrieve after a notification for capacity one only. It may occur at every
  capacity, for every consumer that empties the queue on each notification (`EmptyRetrievePossibleIff`); the one
  consumer it cannot happen to, a single Retrieve at another capacity, may instead leave messages behind
  (`SleepPossibleIff`).
- `wei.go:134` and `wei.go:153` give 9.22... ether as the limit of the uint64 branch. That is the limit of int64;
  the branch ends at 2^64 - 1, about 18.4 ether.
- `ethabi.go:219-220` says that EVMWordBigInt supports a signed representation. It refuses negative numbers.
- `ethabi.go:262-271` calls -(2^255 - 1) the smallest signed word. A word for -2^255 exists and is refused.
- `utils.go:559` says that Full means over capacity. It means at or over capacity.
- The state diagram in `utils/README.md` has no edge for a start or stop function that panics. The deferred
  unlock runs and the phase stays Starting or Stopping for good (`StuckIffPanicked`, `PanicIsFinal`).
- `versions.go:66-71` reports a malformed line as an error, but a line without fields indexes an empty slice and
  panics (`EmptyFirstLinePanics`; exactly when, `PanicIffBlankLine`).
- `versions.go:23-24` allows an empty BinaryPath. The line written for it has a field too few and is not read back
  (`EmptyBinaryPathIsNotReadBack`).
- `bridges/orm.go:67` expects distinct names without saying what happens otherwise: the outcome then depends on the
  cache (`RepeatedNamesShowCache`).
- `web/api.go:49` computes the offset of any page the request names; beyond 2^63 it wraps, and the request panics or
  gets another page (`PageItems`, `HugePages`).

## Left out

- ErrorBuffer (and the call in StartOnce that sets its capacity): it would only repeat the drop-oldest property of the two queues in a simpler form; its Flush changes the buffer under a read lock, so only a sequential model would make sense.
- The order in which Go's RWMutex lets waiting goroutines in: the machine lets in any of them. The safety results then hold for more schedules than Go allows, and the progress results hold for every policy that does not hold back all of them (`HoldsBack`).
- Lifecycle.StartStopOnce.IfStartedLocked: without another goroutine's change from Unstarted to Starting in between, which alters neither the reply nor whether the function runs (`OthersMayDo`).
- Lifecycle.StartStopOnce.IfNotStoppedLocked: likewise.
- Callbacks that call back into the same StartStopOnce, and a Work that panics (the process ends).
- Mailbox.Mailbox.RetrieveAll: the slice is a value, so the model does not capture that the reversal happens in the array that Deliver filled.
- Mailbox load percentage, the close hook, and the mailbox monitor: one division and I/O.
- Mailbox.Mailbox.Deliver: queueLen is an unbounded integer, not an int64.
- BoundedQueues.BoundedPriorityQueue.Add: priorities are natural numbers without the width of uint.
- Real time: the 15 second timeout of Stop may happen at any moment, or never.
- The internals of the decimal library beyond coefficient, exponent and the int32 range of a parsed exponent.
- NormalizedJson.NormalFormIsUnambiguous: is about the text before Unicode normalisation, which the source applies while writing; NFC maps some different strings to the same text.
- Numbers in JSON are the text that "%e" prints; float arithmetic, json.Unmarshal and invalid UTF-8 in strings are not modelled.
- EVMTranscode and ABIEncode functions of ethabi.go: calls into foreign JSON and ABI libraries.
- SQL text, transactions and database errors; the table is a map with unique names and each operation is one atomic step of its only writer. A lookup interleaved with a delete is not modelled.
- Bridges.Orm.Session: asks FindBridges only for distinct names, as the comment on FindBridges demands; FindBridges itself is modelled for all requests.
- External initiators, cached bridge responses and BridgeTypes pagination by SQL.
- Files, permissions and the scanner's buffer limit around the versions file; the model is on text.
- URL query encoding apart from the size and page parameters, and the JSON:API document around the links.
- Command line, web controllers, logging, metrics, configuration, cryptography and sessions.
