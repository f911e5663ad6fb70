# Social poll: vote counter, request paths and request variables

This project models three parts of the `socialpoll` application in Dafny
and proves properties about them.

- **Vote counter** (`socialpoll/counter`). Votes arrive as queue messages
  whose body is the option voted for. The counter adds each vote to an
  in-memory map from option to pending count. Once a second, a timer
  callback sends each pending count to the poll store as an increment of
  that option's result. It sets an option to 0 when its update succeeds
  and keeps the count of an option whose update fails. When every update
  succeeds it drops the map, which Go expresses as nil. An empty map is
  skipped without touching the store. Either way, the timer is rearmed.
- **Request paths** (`socialpoll/api/path.go`). `NewPath` trims `/` from
  both ends of a request path and splits it on `/`. When there is more
  than one segment, the last one is the ID and the rest, joined again, is
  the path. `HasID` says whether the ID is non-empty.
- **Request variables** (`socialpoll/api/vars.go`). A package-level map
  from HTTP request to that request's own key/value map, with
  `OpenVars`, `CloseVars`, `GetVar` and `SetVar`.

Files:
- `wrappers.dfy`: `Option`. It stands for a Go nil meaning "absent".
- `paths.dfy`: module `Paths`. Pure functions and lemmas.
- `vars.dfy`: module `Vars`. A class `Store` whose methods update the map
  in place.
- `counter.dfy`: module `Counter`. It has four parts:
  - the class `Tally` with the message handler and the timer callback;
  - the callback's body as methods on map values: `Flush`, and the loop
    `SendAll`;
  - the pure step functions those methods are specified by;
  - a trace model that replays any interleaving of votes and callbacks.

How the model is built:
- **The store.** Calls to the store are an oracle `stores: string -> bool`,
  which says which options' updates succeed during one callback.
- **What the store holds.** The counter records, as a ghost map
  `stored`, the totals of the updates the store acknowledged, alongside
  `received`, the votes handled.
- **The invariant.** The class keeps "no vote is lost": what the store
  accepted plus what is pending equals what was received.
- **Any run.** The same fact, `NoVoteLost`, is proved for every sequence
  of events.
- **Nil maps.** A Go nil map is a map plus an `isNil` flag. The invariant
  says a nil map is empty.

Two points of the code's behaviour shape the counter model:

- **Success resets to zero.** A succeeded option is set to 0
  (main.go:117); the amount sent is not subtracted from it. The map
  becomes nil when every update succeeded (main.go:121).
- **One lock around the whole callback.** The callback holds
  `countsLock` from line 79 until it returns, store calls included. The
  handler takes the same lock (line 59). So the handler and the callback
  are each one atomic step, and no vote arrives during a flush.

## Model

| member | source | states |
|---|---|---|
| Paths.TrimLeft | socialpoll/api/path.go:19 | the result is the longest suffix not starting with `/`, and everything removed is `/` |
| Paths.TrimRight | socialpoll/api/path.go:19 | the result is the longest prefix not ending with `/`, and everything removed is `/` |
| Paths.Trim | socialpoll/api/path.go:19 | the result neither starts nor ends with `/`; an input without `/` is returned unchanged |
| Paths.TrimIdempotent | socialpoll/api/path.go:19 | trimming an already trimmed string changes nothing |
| Paths.Join | socialpoll/api/path.go:23 | no contract of its own; it is specified by `JoinSnoc` and by `Split`, whose segments it joins back to the input |
| Paths.JoinSnoc | socialpoll/api/path.go:23 | joining one more segment appends `/` and that segment |
| Paths.Split | socialpoll/api/path.go:20 | the segments are non-empty as a list, contain no `/`, and join back to the input; there is more than one segment exactly when the input contains `/` |
| Paths.SplitSnoc | socialpoll/api/path.go:20 | splitting `x + "/" + last` gives the segments of `x` followed by `last` |
| Paths.SplitLast | socialpoll/api/path.go:20-23 | with a `/`, the input is the join of all segments but the last, then `/`, then the last segment |
| Paths.NewPath | socialpoll/api/path.go:17-29 | the ID has no `/`; it is non-empty exactly when the trimmed input contains `/`; path + `/` + ID is the trimmed input when there is an ID, and the path alone is when there is none |
| Paths.HasID | socialpoll/api/path.go:32-34 | no contract of its own; `HasIDIff` states what it says about a parsed path |
| Paths.NewPathWithoutSeparator | socialpoll/api/path.go:17-29 | when the trimmed input has no `/`, the result is the trimmed input with an empty ID, and `HasID` is false |
| Paths.NewPathWithSeparator | socialpoll/api/path.go:19-24 | when the trimmed input has a `/`, the ID is non-empty and has no `/`; the path is non-empty and does not start with `/`; path + `/` + ID is the trimmed input |
| Paths.HasIDIff | socialpoll/api/path.go:32-34 | `HasID(NewPath(p))` holds exactly when the trimmed input contains `/` |
| Paths.NewPathOfJoined | socialpoll/api/path.go:17-29 | parsing `path + "/" + id` gives back `path` and `id` |
| Paths.NewPathIgnoresEdges | socialpoll/api/path.go:19 | parsing depends only on the input trimmed of `/` |
| Paths.NewPathSurrounded | socialpoll/api/path.go:17-29 | any run of `/` before and after `path/id` (as in "/polls/123/") is ignored |
| Paths.NewPathEmptySegment | socialpoll/api/path.go:20-23 | "a//b" gives the path "a/" and the ID "b" |
| Vars.Lookup | socialpoll/api/vars.go:33 | no contract of its own; it is Go's `vars[r][key]`, and the `ensures` of `GetVar`, `OpenVars`, `CloseVars` and `SetVar` are stated through it |
| Vars.Store.constructor | socialpoll/api/vars.go:9-11 | the package variable starts as a nil, empty map |
| Vars.Store.OpenVars | socialpoll/api/vars.go:14-21 | the outer map is created if nil; `r` gets a fresh empty map, so every key of `r` reads as absent; other requests are unchanged |
| Vars.Store.CloseVars | socialpoll/api/vars.go:24-28 | the entry of `r` is deleted, and nothing else changes; deleting a missing entry, or from a nil map, is a no-op |
| Vars.Store.GetVar | socialpoll/api/vars.go:31-36 | returns the stored value exactly when `r` is open and has `key`, and absent otherwise (always absent on a nil map); the store is not changed |
| Vars.Store.SetVar | socialpoll/api/vars.go:39-43 | with `r` open, `key` of `r` now holds `value`, and every other (request, key) pair is unchanged |
| Counter.Counted | socialpoll/counter/main.go:64-66 | the vote's count goes up by one, every other option's count is unchanged, and the vote becomes a key |
| Counter.AfterFlush | socialpoll/counter/main.go:81-122 | the pending counts after a callback keep no new keys; a succeeded option reads 0, and a failed one keeps its count |
| Counter.Reconciled | socialpoll/counter/main.go:87-118 | no contract of its own; it is the map at the end of the loop, per option 0 on success and the old count on failure; `ProgressEnd` and `SendAll` state that the loop computes it |
| Counter.StoredAfter | socialpoll/counter/main.go:107-112 | no contract of its own; it is the store's totals after the `$inc` of every succeeded update; `FlushOutcome` and `FlushConserves` state what it holds |
| Counter.FlushOutcome | socialpoll/counter/main.go:112-117 | a succeeded option ends at 0 pending and its count is added to the store; a failed one keeps its count and the store is unchanged for it |
| Counter.FlushConserves | socialpoll/counter/main.go:86-122 | for every option, store total plus pending count is the same before and after a flush |
| Counter.FlushKeepsBalance | socialpoll/counter/main.go:78-125 | if received equals stored plus pending before a callback, it still does after it |
| Counter.FailedFlushKeepsKeys | socialpoll/counter/main.go:112-122 | when some update fails, the map keeps all its keys, so the next callback is not skipped; failed options keep their counts and succeeded ones are 0 |
| Counter.FlushDropsIffAllStored | socialpoll/counter/main.go:119-122 | a non-empty map ends up empty exactly when every update succeeded |
| Counter.EmptyFlush | socialpoll/counter/main.go:81-82 | an empty map makes no store call and changes neither the counts nor the store |
| Counter.ProgressStep | socialpoll/counter/main.go:87-118 | one loop iteration sends the option's current count, sets it to 0 on success, and clears `ok` on failure |
| Counter.ProgressEnd | socialpoll/counter/main.go:87-118 | after the loop, every option has been sent exactly once with its count, and `ok` says whether all updates succeeded |
| Counter.NoVoteLost | socialpoll/counter/main.go:58-125 | over any sequence of votes and callbacks, whatever fails, the store total plus the pending count of an option is its number of votes |
| Counter.RetryCarriesForward | socialpoll/counter/main.go:112-117 | an option whose update failed stays pending with its count plus the votes for it that arrive before the next callback |
| Counter.Tally.constructor | socialpoll/counter/main.go:47-48 | the counts start as a nil map, with nothing received or stored |
| Counter.Tally.HandleMessage | socialpoll/counter/main.go:58-68 | the map is made if nil; the body's count goes up by one and no other changes; the handler succeeds; the no-loss invariant is kept |
| Counter.Tally.OnTimer | socialpoll/counter/main.go:78-125 | runs only from the armed timer, which it rearms; the counts become the flush result and the store gains each succeeded count; the map is nil exactly when all updates succeeded (else as before for an empty map); one store call per option; the no-loss invariant is kept |
| Counter.Flush | socialpoll/counter/main.go:81-122 | an empty map makes no call; otherwise each option is sent once with its count; the counts become the flush result, and the map is dropped exactly when it was non-empty and every update succeeded |
| Counter.SendAll | socialpoll/counter/main.go:86-118 | the loop sets each succeeded option to 0, adds it to the store, and reports whether all succeeded, with one call per option carrying its count |

## Left out

- Counter.Tally.HandleMessage: a count is an unbounded `nat`. Go's platform-width `int` (32 or 64 bits) would wrap after 2^31 or 2^63 votes for one option, which the model does not capture.
- Counter.Counted: the same applies; no wrap-around is modelled.
- Connecting to the queue and the database, the BSON selector and update documents, logging, and flags and fatal errors in `main` are all left out. The store is the oracle `stores`.
- The timer's one-second period is not modelled. Each callback is an explicit call; the single-shot timer is the `armed` flag, cleared when the callback starts and set again by `updater.Reset`.
- The model assumes the process stays alive to handle messages and callbacks. The source's `main` returns right after `time.AfterFunc` (main.go:78-126) without waiting, which would close the database and end the process; the model does not capture that.
- The mutexes and goroutines are not modelled. Each handler or callback runs under the lock, so each is one atomic step.
- Counter.Tally.OnTimer: the order of the `range` loop is left unspecified, as in Go. Only the set of calls, one per option, is stated, not their order.
- Vars.Store.GetVar: Go returns nil both for a missing key and for a key set to nil. The model's `Option` tells those two apart.
- Vars.Store.SetVar: it requires an open request, because Go panics when it writes into a missing inner map. The panic itself is not modelled.
- The read/write lock of `vars.go` is not modelled. The request is a type with equality, standing in for a pointer.
- Message bodies are strings (`string(m.Body)`). The byte-to-string conversion is not modelled.
- Go strings are byte sequences, while `Paths` works on `seq<char>`. Since `/` is ASCII, splitting agrees on valid UTF-8; a path holding invalid UTF-8 bytes has no counterpart in the model.
- A failed update is taken to have changed nothing in the store, and a succeeded one to have added the count once. An `UpdateAll` error after the `$inc` was applied makes the retry count those votes twice, and a succeeded update whose selector matches no poll adds them nowhere; the model captures neither.
- The chat, synonyms and thesaurus programs are not part of this model.
