# Shutdown registry and email validator

A Dafny model of the two parts of this Go platform-utilities layer that have logic of
their own:

- **`closer`**: a registry of cleanup callbacks (`func() error`). It has a one-shot gate
  (`sync.Once`) and a `done` latch. `Add` appends callbacks. `CloseAll` goes through the
  gate once: it drains the list, runs every drained callback, collects one result per
  callback, logs one line per error and then closes `done`. `Wait` blocks until `done` is
  closed.
- **`validator`**: `IsValidEmail`, which is the anchored pattern
  `^[a-zA-Z0-9._%+-]+@[a-zA-Z0-9.-]+\.[a-zA-Z]{2,}$`, and `ValidEmails`, which builds an
  error text from the invalid entries of a list.

`closer.dfy` (module `Closer`) has three layers:

- the registry as a value: `State`, `Init`, `AddSpec`, `CloseAllSpec` and the invariant
  `Inv`;
- whole lifetimes as traces of `Op`s, folded by `Run`, with the exactly-once properties
  proved over every trace;
- the class `Closer`, with the fields `funcs`, `started` (the gate) and `done`, plus a ghost
  execution log `executed` and a ghost count `logLines` of logged error lines. Its methods
  are proved to move these fields exactly as `AddSpec` and `CloseAllSpec` move a `State`.

A callback is represented by an identifier and the outcome (`Ok` or `Err`) it returns.

`validator.dfy` (module `Validator`) states the pattern in two ways:

- `MatchesPattern`: the pattern's own meaning, a split of the whole string into its five
  pieces;
- `IsValidEmail`: a scan that uses the first `@` and the last `.`.

The two are proved equivalent. The error text of `ValidEmails` is specified by `Invalid` (the
invalid entries in input order) and `Message` (their segments, concatenated). Go's `nil`
error is `None`, and a non-nil error is `Some(text)`.

## Model

| member | source | states |
|---|---|---|
| `Closer.Closer.constructor` | closer/closer.go:40-52 | a new closer has an empty callback list, an open `done` latch, an unpassed gate, and nothing run or logged |
| `Closer.InitInv` | closer/closer.go:41 | the initial state satisfies the registry invariant, with an empty list and `done` unsignalled |
| `Closer.Closer.Add` | closer/closer.go:55-59 | the given callbacks are appended to `funcs` in argument order; no other field changes; the invariant is kept |
| `Closer.AddPreservesInv` | closer/closer.go:55-59 | registration keeps the invariant, appends in order, and adding zero callbacks changes nothing |
| `Closer.Closer.Wait` | closer/closer.go:62-64 | `Wait` returns exactly when `done` is closed; between calls (each call being atomic here) that coincides with the gate having been passed |
| `Closer.Closer.CloseAll` | closer/closer.go:71-96 | on the first call: `funcs` becomes empty, the log of runs is exactly the drained snapshot, the results received from `errs` are exactly the outcomes of the snapshot in order (so exactly `len(funcs)` of them), the log has one line per `Err` received, and `done` is closed only after the collection loop; on later calls nothing changes |
| `Closer.ErrorCountIsFailures` | closer/closer.go:90-94 | counting the `Err` results received is the same as counting the failing callbacks |
| `Closer.CloseAllPreservesInv` | closer/closer.go:72-78 | a trigger keeps the invariant and closes the latch; the first one empties the pending list and runs exactly what was pending; later ones are no-ops |
| `Closer.CloseAllIdempotent` | closer/closer.go:72 | triggering twice has the same effect as triggering once |
| `Closer.CloseAllEmpty` | closer/closer.go:81-94 | with zero callbacks the trigger closes `done` at once, runs nothing and logs nothing |
| `Closer.ErrorCountBound` | closer/closer.go:90-94 | there are never more log lines than callbacks, and there are none exactly when no callback fails |
| `Closer.LateAddInert` | closer/closer.go:57 | a callback added after the trigger is stored in `funcs`, but a later trigger neither runs it nor logs for it |
| `Closer.RunAfterStart` | closer/closer.go:72 | once the gate has been passed, any sequence of further calls only lengthens the pending list |
| `Closer.RunBeforeStart` | closer/closer.go:71-95 | from a registry whose gate is still shut, a trace runs what was pending plus everything registered before its first trigger, and nothing else |
| `Closer.ExactlyOnce` | closer/closer.go:66-95 | over any lifetime from `New`: the runs are exactly the callbacks registered before the first `CloseAll`; the log has one line per failing run; the gate and latch are set exactly when some `CloseAll` happened; the pending list then holds just the late registrations |
| `Closer.ExactlyOnceCounted` | closer/closer.go:27-29 | each callback runs exactly as many times as it was registered before the first trigger, however many triggers follow |
| `Closer.LateCallsInert` | closer/closer.go:72-78 | calls made after a trigger change neither the runs nor the log; they only add to the pending list |
| `Closer.DoneIsPermanent` | closer/closer.go:73 | once `done` is closed it stays closed for every later sequence of calls |
| `Validator.IsValidEmailMatchesPattern` | utils/validator/validator.go:27-33 | the scan accepts a string iff it splits as local part, `@`, domain body, `.`, and a label of at least two letters (both anchors included) |
| `Validator.SplitIsScan` | utils/validator/validator.go:28 | any split of the pattern uses the first `@` and the last `.` of the string |
| `Validator.SplitIsUnique` | utils/validator/validator.go:28 | the pattern matches a string in at most one way |
| `Validator.AtOnlyAtSplit` | utils/validator/validator.go:28 | in a string the pattern matches, the separating `@` is the only `@`, since neither character class admits one |
| `Validator.ValidHasOneAt` | utils/validator/validator.go:28 | a valid address contains exactly one `@` |
| `Validator.ValidEndsWithLabel` | utils/validator/validator.go:28 | a valid address has at least 6 characters and ends with a `.` followed by two or more letters |
| `Validator.ValidIsVisibleAscii` | utils/validator/validator.go:28 | every character of a valid address is printable ASCII other than space |
| `Validator.InvalidInputs` | utils/validator/validator.go:28 | the empty string, a string with no `@`, and a string containing a space or a non-ASCII character are rejected |
| `Validator.ExampleAccepted` | utils/validator/validator.go:28 | `user@example.com` is accepted |
| `Validator.ExampleShortLabelRejected` | utils/validator/validator.go:28 | `user@example.c` is rejected (one-letter label) |
| `Validator.MessageStep` | utils/validator/validator.go:14-16 | one more address extends the text by its segment `email: <e> не валиден;\n`, or by nothing when it is valid |
| `Validator.MessageEmptyIff` | utils/validator/validator.go:19-21 | the text is empty iff no address is reported, so the `errtext != ""` test is the same as "some address is invalid" |
| `Validator.InvalidEmptyIff` | utils/validator/validator.go:13-23 | nothing is reported iff every address is valid (in particular for the empty list) |
| `Validator.InvalidCounts` | utils/validator/validator.go:14-15 | each invalid address is reported as many times as it occurs, duplicates counted; a valid one is never reported |
| `Validator.ValidContributesNothing` | utils/validator/validator.go:14-15 | inserting a valid address anywhere in the list leaves the text unchanged |
| `Validator.ValidEmails` | utils/validator/validator.go:10-24 | returns nil iff every address is valid; otherwise the error text is the segments of the invalid addresses in input order, and it is non-empty |

## Left out

- The package-level `Add`, `Wait` and `CloseAll` (closer/closer.go:10-25) only forward to the global instance `globalCloser`, so they are not modelled separately.
- The OS signal subscription in `New` (closer/closer.go:42-50) is left out. It is a background goroutine that calls `CloseAll` once when a signal arrives; in the model that is just one more `Trigger` in a trace.
- The mutex (closer/closer.go:31, 56, 58, 75, 78) and real concurrency (racing `Add`/`CloseAll`, a second concurrent `CloseAll` blocking inside `sync.Once`) are left out. Each call is atomic in the model.
- The draining window is collapsed: in Go, once the gate is entered (closer/closer.go:72) a concurrent `Wait` keeps blocking until the deferred `close(done)` runs (line 73). The model never observes that window, so `done` and `started` are equal between calls.
- The goroutines and the buffered `errs` channel (closer/closer.go:81-88) are left out. They become a sequential launch loop over the snapshot followed by the counted collection loop. In Go, results arrive in an unspecified order. The model receives them in launch order. The number of log lines does not depend on the order.
- `log.Println` is left out. It is replaced by the ghost count `logLines`.
- Callback bodies are foreign code. Each callback is only an identifier and the outcome it returns. A callback that never returns, and so blocks `CloseAll` forever, is not modelled.
- A callback that panics, including a nil callback passed to `Add`, is not modelled. In Go such a call inside the goroutine (closer/closer.go:85-87) ends the process, so `done` is never closed. In the model every callback returns `Ok` or `Err`.
- `Closer.Closer.Wait`: is a predicate saying whether `Wait` would return, not a blocking call, because a sequential model cannot block.
- Go's `regexp` engine is left out (utils/validator/validator.go:30-32). The pattern is restated as character predicates. Go strings are bytes that the engine decodes as UTF-8. The model works on `string` (Unicode characters). Every class in the pattern is ASCII, so non-ASCII text and invalid bytes are rejected either way.
- `fmt.Sprintf("%v", email)` is written as plain string concatenation. `errors.New` becomes `Some(text)`.
