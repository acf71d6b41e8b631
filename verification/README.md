# web-streams-finally: finalization bookkeeping

The library wraps the user callbacks of a WHATWG stream source or sink so that
one extra user hook, `finally`, is called when the stream stops. There are
three wrappers:

- `ReadableStreamWithSignal` calls `finally(why, reason)` with `why` one of
  `'close'`, `'cancel'` and `'error'`. It also aborts an `AbortSignal` that it
  hands to `start` and `pull` on the delegate controller.
- `WritableStreamWithFinally` calls `finally(why, reason)` with `why` one of
  `'close'`, `'abort'` and `'error'`.
- `ReadableStreamWithFinally` calls `finally()` with no arguments once a
  `closing` flag is set.

This project models each wrapper as a state machine over immutable state. It
has one module per source file and a shared module `Settlement`.

- State. It holds the recorded `why`/`reason` (or `closing`) and the memoised
  `cleanup` result. It also holds the delegate controller, built once, and the
  abort flag of the signal. Every wrapped call the engine made is kept with
  its current phase: waiting on its own thenable, past that thenable's
  rejection handler but not yet its `.finally` handler, waiting on the
  memoised `finally` thenable, or settled. A log keeps every call of
  `finally`, with its arguments and what it did.
- Events. The engine invokes a wrapped callback. During that synchronous run
  the user code calls the delegate's `close()`/`error(e)` zero or more times.
  The user callback then returns, throws or hands back a thenable. When
  `finally` is called it returns, throws or hands back a thenable. Other
  events: a pending callback thenable settles and its rejection handler runs;
  its `.finally` handler runs, as a separate later event; the memoised
  `finally` thenable settles; or the delegate's `close()`/`error(e)` is called
  outside a run. `Step` applies one event and `Run` folds a trace.
- Values. `Payload` only distinguishes `undefined`, falsy and truthy values,
  because the wrappers only ever test `if (error)`.

The proofs are of three kinds:

- an invariant of every reachable state (`Inv`, `StepInv`, `RunInv`);
- properties of single steps and of whole traces;
- the scenarios the repository's tests describe, as concrete traces.

The doc comments of the two readable wrappers
(src/ReadableStreamWithSignal.ts:34-37, src/ReadableStreamWithFinally.ts:14-17)
describe `finally` as called once the stream is closing, whatever the reason.
The code behaves as follows, and the model follows the code:

- Not exactly once. In the two memoising wrappers, a `finally` that throws
  stores nothing, so the next trigger calls it again; only a `finally` that
  returns is called at most once per stream. In `ReadableStreamWithFinally`
  nothing is memoised, so every wrapped call that finishes after `closing` is
  set calls `finally()` again.
- The last reason wins. The delegate's `close()`/`error(e)` overwrite any
  recorded reason, including `cancel` or `abort`. A failing callback
  overwrites `close`, `error` and an unset reason; only `cancel` or `abort`
  is kept.
- Between the two handlers of a callback's thenable. The rejection handler
  records the failure and the `.finally` handler, a later microtask, reads the
  reason. A delegate `close()` or `error(x)` in between replaces the recorded
  failure, so `finally` can see `('close', e)` or `('error', x)` while the
  call rejects with `e`.
- Awaiting `finally`. In the two memoising wrappers (signal and writable),
  the call that first triggers `finally` does not await a thenable it
  returns: the first `cleanup` returns the one-element array, not the
  thenable. Only later triggers wait for it, and they take on its rejection.
  ReadableStreamWithFinally keeps no memo: it calls `finally()` again from
  every wrapped call that finishes while `closing` is set, and each of those
  calls awaits the thenable its own `finally()` returned.
- Falsy errors. A synchronous callback that throws a falsy value is recorded
  as `('error', value)` unless `cancel` or `abort` was recorded, but either
  way the wrapped call then returns `undefined` instead of rethrowing.
- No eventual call. `finally` is only called from a wrapped call that
  finishes. A stream closed or errored through the delegate outside any
  wrapped call, with no wrapped call after, never calls `finally`.

## Model

| member | source | states |
|---|---|---|
| Settlement.SurfaceNormalizes | src/ReadableStreamWithSignal.ts:138-141 | A synchronous wrapped call never ends with a falsy throw. Its outcome passes through unchanged exactly when it is not a falsy throw, and surfacing twice is surfacing once. |
| ReadableStreamWithSignal.InterposeAll | src/ReadableStreamWithSignal.ts:74-91 | Across several delegate calls in one run, the last one decides `why`. The payload is that of the last `error(e)`, whatever `close()` calls follow it, and stays the old one when every call is `close()`. No calls leave the state unchanged. |
| ReadableStreamWithSignal.Finish | src/ReadableStreamWithSignal.ts:123-137 | The end of a call, synchronous tail or `.finally` handler, calls `finally` with the recorded reason if and only if a reason is recorded and nothing is memoised, and changes only the log, memo and signal. With no memo the call settles at once: with the exception of `finally` exactly when a reason is recorded and `finally` throws, otherwise as it would have. With a memo and a reason it takes the stored result. |
| ReadableStreamWithSignal.Enter | src/ReadableStreamWithSignal.ts:145-159 | The cancel wrapper records `('cancel', reason)` before the user callback and keeps the delegate. `start`/`pull` keep the reason and are handed the cached delegate, or one built over this controller when there is none. |
| ReadableStreamWithSignal.RunUser | src/ReadableStreamWithSignal.ts:155-159 | Without a user `cancel`, cancelling yields `undefined` and changes nothing. Otherwise the call yields what the user callback did; its delegate calls are seen only once a delegate exists, the last one decides `why`, the payload is that of the last `error(e)` (later `close()` calls keep it), only `close()` calls keep the old payload, and a reason is never cleared. |
| ReadableStreamWithSignal.StepInv | src/ReadableStreamWithSignal.ts:94-141 | Every event preserves the invariant. The signal is aborted exactly when something is memoised. `finally` is called only with a reason recorded. All logged calls but the last threw. The memo is the last call's result. Only calls on the memoised unsettled thenable wait. |
| ReadableStreamWithSignal.RunInv | src/ReadableStreamWithSignal.ts:94-141 | The invariant holds after any trace. |
| ReadableStreamWithSignal.StepLog | src/ReadableStreamWithSignal.ts:94-100 | One event calls `finally` at most once. The call happens only while nothing is memoised, with the reason recorded when it happens; otherwise the log is unchanged. |
| ReadableStreamWithSignal.SyncCallCallsFinally | src/ReadableStreamWithSignal.ts:129-137 | A synchronous wrapped call calls `finally` if and only if nothing is memoised and a reason is recorded once the callback ran; it passes that reason. |
| ReadableStreamWithSignal.PendingCallDefersFinally | src/ReadableStreamWithSignal.ts:114-128 | A call whose user callback hands back a thenable calls nothing yet and only joins the pending calls. |
| ReadableStreamWithSignal.SettleRecordsFailure | src/ReadableStreamWithSignal.ts:116-122 | The rejection handler records `('error', e)` unless `cancel` is recorded, which keeps its payload; a fulfilment records nothing. It never calls `finally` and only moves its call on to the `.finally` handler. |
| ReadableStreamWithSignal.HandlerCallsFinally | src/ReadableStreamWithSignal.ts:123-127 | The `.finally` handler calls `finally` if and only if a reason is recorded and nothing is memoised, with the reason recorded when it runs, and records no reason itself. |
| ReadableStreamWithSignal.SyncFailureRecorded | src/ReadableStreamWithSignal.ts:105-113 | A synchronous failure records `('error', e)` unless `cancel` survives the run. `cancel` survives exactly when it was recorded before or by the cancel wrapper and no delegate call of the run overwrote it; it keeps its payload. |
| ReadableStreamWithSignal.FirstTriggerNeverWaits | src/ReadableStreamWithSignal.ts:94-100 | While nothing is memoised no event leaves any call waiting on a `finally` thenable: the call that first calls `finally` settles at once. |
| ReadableStreamWithSignal.LaterTriggerWaits | src/ReadableStreamWithSignal.ts:129-136 | While the memoised `finally` thenable is unsettled, every later synchronous call calls nothing and waits on that thenable. |
| ReadableStreamWithSignal.AbortOnlyWithFinally | src/ReadableStreamWithSignal.ts:97-98 | The signal becomes aborted only in a step that logs one new call of `finally` that returned. |
| ReadableStreamWithSignal.ReasonNeverCleared | src/ReadableStreamWithSignal.ts:74-159 | Once recorded, `why` is never unset by any event. |
| ReadableStreamWithSignal.ControllerCallOverwrites | src/ReadableStreamWithSignal.ts:74-91 | A delegate `close()`/`error(e)` outside a run overwrites `why`, a recorded `cancel` included. `error(e)` sets the payload to `e` and `close()` keeps the old one. Nothing else changes, so `finally` is not called. |
| ReadableStreamWithSignal.DelegateStable | src/ReadableStreamWithSignal.ts:71-73 | No event replaces an existing delegate. |
| ReadableStreamWithSignal.DelegateBuiltOnce | src/ReadableStreamWithSignal.ts:145-154 | Over any trace, `start` and `pull` keep getting the first delegate. |
| ReadableStreamWithSignal.NoReasonNoCleanup | src/ReadableStreamWithSignal.ts:105-141 | A synchronous call that ends with no reason recorded neither calls `finally` nor touches the memo. Its user callback then succeeded, because a failing callback always records a reason, and the call settles with that success. |
| ReadableStreamWithSignal.NoReasonNoCleanupPending | src/ReadableStreamWithSignal.ts:123-127 | The `.finally` handler with no reason recorded changes nothing but its call, which settles as its thenable did. |
| ReadableStreamWithSignal.SyncOutcomePreserved | src/ReadableStreamWithSignal.ts:129-141 | A synchronous call appends exactly one call and keeps all earlier ones. How it ends depends only on the reason recorded by the end of the run, the memo and `finally` (`EndsAs`). With no reason, or no memo and a `finally` that does not throw, or a stored plain value, it ends as the callback did (falsy throws dropped). With no memo and a throwing `finally` it fails with that exception. With a pending stored thenable it waits on it. With a settled stored thenable it fails with its rejection, or else ends as the callback did. |
| ReadableStreamWithSignal.PendingOutcomePreserved | src/ReadableStreamWithSignal.ts:123-127 | The `.finally` handler changes only its own call. That call ends by the same cases (`EndsAs`) over the recorded reason, the memo and `finally`: as the thenable did, even on a falsy rejection, unless `finally` throws with no memo (its exception) or a stored thenable is pending (wait) or rejected (its rejection). |
| ReadableStreamWithSignal.WaitersSettleTogether | src/ReadableStreamWithSignal.ts:131-135 | When the memoised thenable settles, every waiting call settles: rejected with it if it rejected, otherwise as it would have. No call is left waiting. |
| ReadableStreamWithSignal.MemoFreezesLog | src/ReadableStreamWithSignal.ts:95-98 | Once `finally` has returned, no later trace calls it again, and the signal stays aborted. |
| ReadableStreamWithSignal.AtMostOneReturns | src/ReadableStreamWithSignal.ts:94-100 | On every trace from a fresh stream, at most the last call of `finally` returned. The signal is aborted exactly when one returned, and `finally` ran only with a reason. |
| ReadableStreamWithSignal.RunLogReturned | src/ReadableStreamWithSignal.ts:94-100 | If no `finally` call on the trace throws, none in the log threw. |
| ReadableStreamWithSignal.AtMostOnceWhenFinallyReturns | src/ReadableStreamWithSignal.ts:94-100 | If `finally` never throws, it is called at most once per stream. |
| ReadableStreamWithSignal.StartThrowsIsError | test/ReadableStreamWithSignal.test.ts:133-152 | `start` throwing `e` with an async `finally`: `finally` sees `('error', e)`, `start` fails with `e` at once and the signal is aborted. |
| ReadableStreamWithSignal.CloseThenEnqueueIsError | test/ReadableStreamWithSignal.test.ts:235-254 | `close()` then an enqueue that throws `e` in `pull`: `finally` sees `('error', e)`. |
| ReadableStreamWithSignal.AsyncCloseThenEnqueueIsError | test/ReadableStreamWithSignal.test.ts:255-274 | The same with an async `pull` that rejects with `e`: `close` is recorded first, the rejection handler replaces it, and the `.finally` handler logs `('error', e)`. |
| ReadableStreamWithSignal.CloseBetweenHandlers | src/ReadableStreamWithSignal.ts:116-127 | A delegate `close()` between the rejection handler and the `.finally` handler of a `pull` rejecting with `e`: `finally` sees `('close', e)` while the pull rejects with `e`, whether `e` is truthy or falsy. |
| ReadableStreamWithSignal.CancelWithoutImplementation | test/ReadableStreamWithSignal.test.ts:464-474 | Without a user `cancel`, cancelling still logs `('cancel', r)` and returns `undefined`. |
| ReadableStreamWithSignal.CancelThrowsKeepsCancel | test/ReadableStreamWithSignal.test.ts:521-538 | A user `cancel` that throws `e`: `finally` sees `('cancel', r)` and the call fails with `e`. |
| ReadableStreamWithSignal.CancelRejectsKeepsCancel | test/ReadableStreamWithSignal.test.ts:557-574 | The same for a user `cancel` that rejects. |
| ReadableStreamWithSignal.FalsyThrowIsDropped | src/ReadableStreamWithSignal.ts:105-141 | `start` throwing a falsy value logs `('error', value)`, but the call returns `undefined`. |
| ReadableStreamWithSignal.FirstTriggerDoesNotWait | src/ReadableStreamWithSignal.ts:94-100 | The first trigger of an async `finally` settles at once. A later trigger waits on that thenable and takes on its rejection. |
| ReadableStreamWithSignal.ThrowingFinallyIsRetried | src/ReadableStreamWithSignal.ts:96-98 | A throwing `finally` fails the call and stores nothing. The signal is not aborted, and the next trigger calls `finally` again. |
| ReadableStreamWithSignal.StartAndPullShareDelegate | src/ReadableStreamWithSignal.ts:145-154 | `pull` on a second controller gets the delegate built for `start`. |
| WritableStreamWithFinally.InterposeAll | src/WritableStreamWithFinally.ts:32-38 | Across several `error` calls in one run, the last payload wins. No calls leave the state unchanged. |
| WritableStreamWithFinally.Finish | src/WritableStreamWithFinally.ts:72-86 | The end of a call, synchronous tail or `.finally` handler, calls `finally` with the recorded reason if and only if a reason is recorded and nothing is memoised, and changes only the log and memo. With no memo the call settles at once: with the exception of `finally` exactly when a reason is recorded and `finally` throws, otherwise as it would have. With a memo and a reason it takes the stored result. |
| WritableStreamWithFinally.Enter | src/WritableStreamWithFinally.ts:94-112 | The close wrapper records `close` and keeps the old payload. The abort wrapper records `('abort', reason)`. Both keep the delegate. `start`/`write` keep the reason and are handed the cached delegate, or one built over this controller. |
| WritableStreamWithFinally.RunUser | src/WritableStreamWithFinally.ts:104-112 | Without a user `close`/`abort`, the wrapped call yields `undefined` and changes nothing. Otherwise it yields what the user callback did; its `error` calls are seen only once a delegate exists and the last payload wins. |
| WritableStreamWithFinally.StepInv | src/WritableStreamWithFinally.ts:42-90 | Every event preserves the invariant: `finally` is called only with a reason recorded, all logged calls but the last threw, the memo is the last call's result, and only calls on the memoised unsettled thenable wait. |
| WritableStreamWithFinally.RunInv | src/WritableStreamWithFinally.ts:42-90 | The invariant holds after any trace. |
| WritableStreamWithFinally.StepLog | src/WritableStreamWithFinally.ts:42-47 | One event calls `finally` at most once. The call happens only while nothing is memoised, with the reason recorded when it happens. |
| WritableStreamWithFinally.SyncCallCallsFinally | src/WritableStreamWithFinally.ts:78-86 | A synchronous wrapped call calls `finally` if and only if nothing is memoised and a reason is recorded once the callback ran; it passes that reason. |
| WritableStreamWithFinally.PendingCallDefersFinally | src/WritableStreamWithFinally.ts:63-77 | A call whose user callback hands back a thenable calls nothing yet and only joins the pending calls. |
| WritableStreamWithFinally.SettleRecordsFailure | src/WritableStreamWithFinally.ts:65-71 | The rejection handler records `('error', e)` unless `abort` is recorded, which keeps its payload; a fulfilment records nothing. It never calls `finally`. |
| WritableStreamWithFinally.HandlerCallsFinally | src/WritableStreamWithFinally.ts:72-76 | The `.finally` handler calls `finally` if and only if a reason is recorded and nothing is memoised, with the reason recorded when it runs. |
| WritableStreamWithFinally.SyncFailureRecorded | src/WritableStreamWithFinally.ts:54-62 | A synchronous failure records `('error', e)` unless `abort` survives the run. It survives exactly when the abort wrapper recorded it, or it was recorded before and this is not the close wrapper, and no delegate `error` of the run overwrote it. |
| WritableStreamWithFinally.FirstTriggerNeverWaits | src/WritableStreamWithFinally.ts:42-47 | While nothing is memoised no event leaves any call waiting on a `finally` thenable. |
| WritableStreamWithFinally.LaterTriggerWaits | src/WritableStreamWithFinally.ts:78-85 | While the memoised `finally` thenable is unsettled, every later synchronous call calls nothing and waits on it. |
| WritableStreamWithFinally.ReasonNeverCleared | src/WritableStreamWithFinally.ts:32-112 | Once recorded, `why` is never unset. |
| WritableStreamWithFinally.ControllerErrorOverwrites | src/WritableStreamWithFinally.ts:32-38 | Delegate `error(e)` outside a run records `('error', e)`, a recorded `abort` included, without calling `finally`. |
| WritableStreamWithFinally.CloseRecordsNoPayload | src/WritableStreamWithFinally.ts:104-107 | A close whose user callback neither fails nor errors the controller ends with `close` recorded and the previous payload kept. It logs `('close', previous payload)` if it calls `finally`. |
| WritableStreamWithFinally.DelegateStable | src/WritableStreamWithFinally.ts:28-31 | No event replaces an existing delegate. |
| WritableStreamWithFinally.DelegateBuiltOnce | src/WritableStreamWithFinally.ts:94-103 | Over any trace, `start` and `write` keep getting the first delegate. |
| WritableStreamWithFinally.NoReasonNoCleanup | src/WritableStreamWithFinally.ts:54-90 | A synchronous call that ends with no reason recorded neither calls `finally` nor touches the memo. Its user callback then succeeded, because a failing callback always records a reason, and the call settles with that success. |
| WritableStreamWithFinally.NoReasonNoCleanupPending | src/WritableStreamWithFinally.ts:72-76 | The `.finally` handler with no reason recorded changes nothing but its call, which settles as its thenable did. |
| WritableStreamWithFinally.SyncOutcomePreserved | src/WritableStreamWithFinally.ts:78-90 | A synchronous call appends one call and keeps the earlier ones. How it ends depends only on the reason recorded by the end of the run, the memo and `finally` (`EndsAs`). With no reason, or no memo and a `finally` that does not throw, or a stored plain value, it ends as the callback did (falsy throws dropped). With no memo and a throwing `finally` it fails with that exception. With a pending stored thenable it waits on it. With a settled stored thenable it fails with its rejection, or else ends as the callback did. |
| WritableStreamWithFinally.PendingOutcomePreserved | src/WritableStreamWithFinally.ts:72-76 | The `.finally` handler changes only its own call. That call ends by the same cases (`EndsAs`) over the recorded reason, the memo and `finally`: as the thenable did, unless `finally` throws with no memo (its exception) or a stored thenable is pending (wait) or rejected (its rejection). |
| WritableStreamWithFinally.WaitersSettleTogether | src/WritableStreamWithFinally.ts:80-84 | When the memoised thenable settles, every waiting call settles: rejected with it or as it would have. No call stays waiting. |
| WritableStreamWithFinally.MemoFreezesLog | src/WritableStreamWithFinally.ts:43-46 | Once `finally` has returned, no later trace calls it again. |
| WritableStreamWithFinally.AtMostOneReturns | src/WritableStreamWithFinally.ts:42-47 | On every trace, at most the last call of `finally` returned, and `finally` ran only with a reason. |
| WritableStreamWithFinally.RunLogReturned | src/WritableStreamWithFinally.ts:42-47 | If no `finally` call on the trace throws, none in the log threw. |
| WritableStreamWithFinally.AtMostOnceWhenFinallyReturns | src/WritableStreamWithFinally.ts:42-47 | If `finally` never throws, it is called at most once per stream. |
| WritableStreamWithFinally.CloseThrowsIsError | test/WritableStreamWithFinally.test.ts:327-347 | A user `close` throwing `e` logs `('error', e)` and fails with `e`. |
| WritableStreamWithFinally.AbortThrowsKeepsAbort | test/WritableStreamWithFinally.test.ts:439-459 | A user `abort` throwing `e` logs `('abort', reason)` and fails with `e`. |
| WritableStreamWithFinally.AbortRejectsKeepsAbort | test/WritableStreamWithFinally.test.ts:481-501 | The same for a user `abort` that rejects. |
| WritableStreamWithFinally.ErrorBetweenHandlers | src/WritableStreamWithFinally.ts:65-76 | A delegate `error(x)` between the rejection handler and the `.finally` handler of a `write` rejecting with `e`: `finally` sees `('error', x)` while the write rejects with `e`. |
| WritableStreamWithFinally.CloseWithoutImplementation | src/WritableStreamWithFinally.ts:104-112 | Without a user `close`, closing still logs `('close', undefined)` and returns `undefined`. |
| WritableStreamWithFinally.WriteErrorsController | test/WritableStreamWithFinally.test.ts:227-241 | `write` calling `controller.error(e)` logs `('error', e)` while the write itself succeeds. |
| WritableStreamWithFinally.FirstTriggerDoesNotWait | src/WritableStreamWithFinally.ts:42-47 | The first trigger of an async `finally` settles at once. A later trigger waits and takes on its rejection. |
| WritableStreamWithFinally.ThrowingFinallyIsRetried | src/WritableStreamWithFinally.ts:43-46 | A throwing `finally` fails the call and stores nothing. The next trigger calls it again with the new `why` and the old payload. |
| ReadableStreamWithFinally.InterposeAll | src/ReadableStreamWithFinally.ts:50-55 | After a run's delegate calls, `closing` is set exactly when it was set or one of them is `close()`. |
| ReadableStreamWithFinally.Finish | src/ReadableStreamWithFinally.ts:75-89 | The end of a call, synchronous tail or `.finally` handler, calls `finally()` if and only if `closing` is set and changes only the log. The call then settles as it would have, fails with the exception of `finally()`, or waits on the thenable `finally()` just returned. |
| ReadableStreamWithFinally.Enter | src/ReadableStreamWithFinally.ts:97-110 | The cancel wrapper sets `closing` before the user callback and keeps the delegate. `start`/`pull` leave `closing` and are handed the cached delegate, or one built over this controller. |
| ReadableStreamWithFinally.RunUser | src/ReadableStreamWithFinally.ts:107-110 | Without a user `cancel`, cancelling yields `undefined` and changes nothing. Otherwise the call yields what the user callback did, and once a delegate exists `closing` ends set exactly when it was set or the run called `close()`. |
| ReadableStreamWithFinally.StepInv | src/ReadableStreamWithFinally.ts:59-95 | Every event preserves the invariant. `finally()` has run only if `closing` is set. Log entries plus unfinished calls never exceed the calls made. Waiting calls wait on an unsettled `finally()` thenable. |
| ReadableStreamWithFinally.RunInv | src/ReadableStreamWithFinally.ts:59-95 | The invariant holds after any trace. |
| ReadableStreamWithFinally.ClosingMonotone | src/ReadableStreamWithFinally.ts:45-110 | No event clears `closing`. |
| ReadableStreamWithFinally.ClosingStaysSet | src/ReadableStreamWithFinally.ts:45-110 | Once set, `closing` stays set over any trace. |
| ReadableStreamWithFinally.FinallyAtMostOncePerCall | src/ReadableStreamWithFinally.ts:59-95 | On every trace, `finally()` runs at most once per finished wrapped call, and only once `closing` is set. |
| ReadableStreamWithFinally.EverySyncCallCallsFinally | src/ReadableStreamWithFinally.ts:81-89 | A synchronous wrapped call calls `finally()` if and only if `closing` is set once the callback ran; once it is set, every such call calls `finally()` again, since nothing is memoised. |
| ReadableStreamWithFinally.SettleSetsClosing | src/ReadableStreamWithFinally.ts:71-74 | The rejection handler sets `closing` exactly when the thenable rejected and never calls `finally()`. |
| ReadableStreamWithFinally.EveryPendingCallCallsFinally | src/ReadableStreamWithFinally.ts:75-79 | The `.finally` handler calls `finally()` if and only if `closing` is set when it runs, so every settling thenable calls it again once `closing` is set. |
| ReadableStreamWithFinally.NotClosingNoFinally | src/ReadableStreamWithFinally.ts:81-93 | A synchronous call that ends with `closing` unset does not call `finally()` and settles as the callback did. |
| ReadableStreamWithFinally.NotClosingNoFinallyPending | src/ReadableStreamWithFinally.ts:75-79 | The `.finally` handler with `closing` unset changes nothing but its call, which settles as its thenable did. |
| ReadableStreamWithFinally.OnlyCloseIsIntercepted | src/ReadableStreamWithFinally.ts:46-58 | Delegate `close()` sets `closing`, delegate `error(e)` does not, and neither calls `finally()`. |
| ReadableStreamWithFinally.CancelCallsFinally | src/ReadableStreamWithFinally.ts:107-110 | Cancelling, with or without a user `cancel`, sets `closing`. It calls `finally()` at once when there is no user `cancel` or it finishes synchronously; when it hands back a thenable, the call only joins the pending calls. |
| ReadableStreamWithFinally.SyncThrowRethrownAfterFinally | src/ReadableStreamWithFinally.ts:63-93 | A synchronous throw of a truthy `e` sets `closing` and calls `finally()`. The call fails with `e` after a plain return or after the `finally()` thenable, and with `finally()`'s own exception if it throws. |
| ReadableStreamWithFinally.DelegateBuiltOnce | src/ReadableStreamWithFinally.ts:97-106 | Over any trace, `start` and `pull` keep getting the first delegate. |
| ReadableStreamWithFinally.FinallyRunsTwice | src/ReadableStreamWithFinally.ts:81-89 | `start` closing and then a cancel call `finally()` twice. |
| ReadableStreamWithFinally.PullRejectsAwaitsFinally | test/ReadableStreamWithFinally.test.ts:253-273 | A rejecting async `pull` with an async `finally()`: the rejection sets `closing`, the `.finally` handler calls `finally()`, and the pull rejects only once that thenable settles. |
| ReadableStreamWithFinally.CloseBetweenHandlers | src/ReadableStreamWithFinally.ts:69-80 | A `close()` between the two handlers of a fulfilled `pull` thenable makes its `.finally` handler call `finally()`. |

## Left out

- The stream engine (queues, `enqueue`, `desiredSize`, backpressure, locking). Its behaviour reaches the wrappers only as a callback's outcome: an invalid-state error from `enqueue` is a callback failure.
- Byte-stream fields (`type`, `autoAllocateChunkSize`) and the other pass-through fields, because the wrappers copy them and never read them.
- Microtask ordering beyond the two handlers of a callback's thenable. The rejection handler (`Settle`) and the `.finally` handler (`Handle`) are separate events, so delegate calls and other calls can come between them. Every event may otherwise arrive in any order the state allows, so the model admits orderings the event loop never picks; a stored `finally` thenable that has already settled is taken on at once rather than one microtask later.
- `isPromise` duck-typing. `Pending` stands for a native promise, which has `.catch` and `.finally`. A bare thenable without them passes the `isPromise` test and then makes the wrapper throw a `TypeError` at src/ReadableStreamWithSignal.ts:116, src/WritableStreamWithFinally.ts:65 and src/ReadableStreamWithFinally.ts:71; that path, and thenables whose `then` misbehaves, are not modelled.
- The `AbortController`/`AbortSignal` objects. The signal is one boolean; `'abort'` event listeners are user code.
- The value `finally` returns or resolves to. Only whether it returns, throws or hands back a thenable matters to the wrappers.
- Re-entrancy: the model assumes that no wrapped callback is invoked while another one's synchronous run is in progress, and treats each run as one step.
- The TypeScript overloads, type declarations and the repository's test helpers (`abortable`, `slurp`, `safeIterateReadableStream`), because they carry no runtime bookkeeping.
- Delegate methods other than `close()` and `error(e)`, because the wrappers pass them straight through.
- ReadableStreamWithSignal.AtMostOnceWhenFinallyReturns: states "at most once per stream" under the assumption that `finally` never throws. "At least once per stream" does not hold, because `finally` is called only from a wrapped call that finishes; per trigger, the if-and-only-if is stated by ReadableStreamWithSignal.SyncCallCallsFinally and ReadableStreamWithSignal.HandlerCallsFinally.
- WritableStreamWithFinally.AtMostOnceWhenFinallyReturns: at most once per stream, for the same reason; per trigger, see WritableStreamWithFinally.SyncCallCallsFinally and WritableStreamWithFinally.HandlerCallsFinally.
- ReadableStreamWithFinally.FinallyAtMostOncePerCall: bounds the number of `finally()` calls by the number of finished wrapped calls, not by one, because nothing is memoised.
