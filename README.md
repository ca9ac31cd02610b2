# with — a Dafny model of the Go helper package

The Go package `with` is a set of small higher-order helpers. This project
models the ones with sequential behaviour and proves what they promise:

- `Errors` (module `Sequential`) runs callbacks of type `func() error` one by one
  in list order and stops at the first non-nil error. The model returns that
  error and the trace of the indices it invoked.
- `GetSecond` (module `Sequential`) adapts a `func() (any, error)` into a
  `func() error` that keeps only the error.
- `Reader` and `Readers` (module `Files`) open one file or a list of files,
  call a callback with them and close each file they opened through `defer`.
  The operating system is a `Process` object with three parts:
  - an open oracle that gives, for each name, the error `os.Open` fails with
    (None when the name opens);
  - a descriptor counter, so every opened file is distinct;
  - a trace of the events the helpers cause: a file opened, the callback
    entered with its readers, a file closed.

  Deferred closes run when the helper returns, most recently deferred first,
  as Go's `defer` does. `Readers` fills its `readers` slice in place; the
  model uses an `array<Option<File>>` for it, where None is a nil `io.Reader`.
  `ReadersRun` is the specification of one call of `Readers`: the error it
  returns and the events it causes.
- `Recover` (module `FaultBarrier`) turns a callback's panic into the error
  `"panic: " + value`. A callback's ending is an `Outcome`: `Returned(err)`
  or `Panicked(value)`.

Errors are `Wrappers.Error(message)`, and Go's nil error is `None`. Callbacks
are Dafny function values. `Readers` returns the open error exactly as `os.Open`
gave it. The file name is part of `os.Open`'s own error text (as in
`open two.txt: no such file or directory`), so the helper adds nothing.

## Model

| member | source | states |
|---|---|---|
| Sequential.GetSecond | with.go:54-59 | the adapted callback returns exactly the error component of the wrapped callback |
| Sequential.GetSecondIgnoresValue | with.go:54-58 | two wrapped callbacks with the same error adapt to callbacks with the same result, whatever the discarded first values are; the adapted callback returns nil exactly when the error component is nil |
| Sequential.Outcomes | with.go:66 | what each callback returns when invoked, one result per callback, in list order |
| Sequential.FirstError | with.go:63-72 | the error the aggregator reports is one of the callbacks' results |
| Sequential.CallsMade | with.go:65-70 | the aggregator invokes at most as many callbacks as it was given, and at least one when the list is not empty |
| Sequential.FirstErrorAt | with.go:65-69 | when callback i is the first to return an error, that error is returned unchanged after exactly i + 1 invocations |
| Sequential.FirstErrorNone | with.go:64-71 | the result is nil exactly when every callback returns nil, and then every callback was invoked |
| Sequential.FirstErrorAppend | with.go:63-72 | aggregating a + b equals aggregating the two nested aggregations of a and b; b's callbacks run only when a reported nil |
| Sequential.Errors | with.go:63-72 | invokes callbacks 0, 1, ... in order, each at most once; returns nil only if all were invoked and all returned nil; otherwise returns the last invoked callback's error unchanged, and every earlier one returned nil; agrees with FirstError and CallsMade |
| Sequential.ErrorsTableCases | with_test.go:178-202 | empty list gives nil with no calls; two successes give nil with both called; nil, "error two", x gives "error two" after two calls |
| Sequential.GetSecondFeedsErrors | example_test.go:11-24 | four adapted callbacks whose third fails with "KABOOM" report "KABOOM", and the fourth is never invoked |
| Files.Process.Open | with.go:14 | os.Open fails with the oracle's error and changes nothing, or returns a new file under the next descriptor and records its opening |
| Files.Process.Close | with.go:18 | closing a file records exactly that close |
| Files.Process.Enter | with.go:19 | entering the callback records it with exactly the readers passed |
| Files.Descriptors | with.go:24-32 | the files opened from names are one per name, in name order, with consecutive descriptors |
| Files.Opens | with.go:26 | one open event per file, in order |
| Files.Closes | with.go:31 | deferred closes happen one per file, last deferred first |
| Files.FirstFailure | with.go:25-29 | the index at which the loop stops: every earlier name opens and, when below the length, that name fails |
| Files.FirstFailureIs | with.go:25-29 | the loop stops at i when name i fails and every earlier name opens |
| Files.DescriptorsOfPrefix | with.go:24-32 | files opened one per name with consecutive descriptors are exactly Descriptors of the names opened so far |
| Files.OpenedSnoc | with.go:26-30 | opening name i after names 0..i-1 gives the next descriptor to name i, in order |
| Files.OpensSnoc | with.go:26 | opening one more file adds exactly its open event at the end |
| Files.ReadersRun | with.go:23-34 | one call of Readers: the error and the events; the call causes two events per file opened plus one callback call when every name opened, and returns an error whenever an open failed |
| Files.Count | with.go:25-33 | counts the occurrences of an event: never more than there are events, and zero exactly when it does not occur |
| Files.CountAppend | with.go:25-33 | the occurrences in events that happen one after another add up |
| Files.OpensOnce | with.go:26 | among distinct files the opens open each file exactly once |
| Files.ClosesOnce | with.go:31 | among distinct files the deferred closes close each file exactly once |
| Files.OpensAndClosesApart | with.go:26-31 | an open event never closes a file and a close event never opens one |
| Files.OpenedOnceAround | with.go:26-33 | opens, then callback events only, then the deferred closes: each file is opened exactly once |
| Files.ClosedOnceAround | with.go:26-33 | opens, then callback events only, then the deferred closes: each file is closed exactly once |
| Files.OnlyOpenedFilesTouched | with.go:25-31 | opening files and closing them again touches only those files and never calls the callback |
| Files.ReadersOpenFailure | with.go:25-31 | when name i is the first to fail, that open error is returned unchanged and the callback is never called; there are exactly 2i events, every one of them opens or closes a file of names 0..i-1, and each of those files is opened once and closed once |
| Files.CallBetweenOpensAndCloses | with.go:24-33 | a successful call opens the files in order, then enters the callback, and only then closes |
| Files.EachClosedOnce | with.go:24-33 | a successful call opens each file exactly once and closes it exactly once |
| Files.ReadersAllOpen | with.go:24-33 | when every name opens, the callback is called once, with as many readers as names in the same order, after all opens and before all closes; its error is returned unchanged and each file is opened and closed exactly once |
| Files.ReadersNoNames | with.go:23-34 | with no names the callback is called with no readers and its error is returned unchanged |
| Files.RunDeferred | with.go:31 | running the deferred closes appends their close events, most recently deferred first |
| Files.OpenEach | with.go:24-32 | the open loop stops at the first failure, returns that error, and fills slots 0..k-1 with the files opened, in order |
| Files.Readers | with.go:23-34 | returns the error and causes exactly the events that ReadersRun specifies; one descriptor is used per file opened |
| Files.Reader | with.go:13-20 | on an open failure returns that error with no event and no callback; otherwise opens, calls the callback with the file, closes it once and returns the callback's error |
| FaultBarrier.Recover | with.go:37-44 | a panic with value v becomes the error "panic: v"; a returned error or nil passes through unchanged |
| FaultBarrier.PanicValue | with.go:40 | removes the "panic: " prefix exactly when the message carries it |
| FaultBarrier.RecoverKeepsPanicValue | with.go:38-41 | the error a recovered panic becomes gives back the panic value |
| FaultBarrier.RecoverNilIff | with.go:37-44 | the barrier returns nil exactly when the callback returned nil without panicking |
| FaultBarrier.RecoverIdempotent | with.go:37-44 | a second barrier around the first changes nothing |
| FaultBarrier.RecoverTableCases | with_test.go:106-123 | nil stays nil; a panic "can not handle that" becomes "panic: can not handle that"; "callback error" passes through |

## Left out

- `Run` (with.go:81-83) calls its function and returns the result. In Dafny that is just function application, so there is nothing to state.
- `MathRand` (with.go:76-78) seeds a `math/rand` generator. That generator's algorithm is outside this package.
- `Mutex` (with.go:86-93) exists for mutual exclusion between goroutines. The model has no concurrency.
- Real file I/O is replaced by the open oracle. Error texts such as "no such file or directory" come from the operating system and are not modelled.
- The oracle gives a fixed answer for each name. A file that appears or disappears during a call is not modelled.
- Descriptor reuse after a close is not modelled. Descriptors only grow, which keeps every file of a call distinct.
- Callbacks are pure Dafny functions. Their own side effects (such as the printing in the documented example) are not modelled. Which callbacks run is recorded instead: the invocation trace of `Errors` and the `Called` event of the openers.
- A callback passed to `Reader` or `Readers` that panics is not modelled. `defer` would still close the files.
- `Recover` keeps a panic value only as the text `%s` renders it as. Go's `recover` machinery and `fmt.Errorf` formatting of arbitrary values are not modelled.
