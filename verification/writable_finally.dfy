/**
 The cleanup handler behind `WritableStreamWithFinally`: the wrapper it puts
 around a user sink's `start`, `write`, `close` and `abort`, the delegate
 controller whose `error(e)` it intercepts, and the memoised call of the
 user's `finally`. There is no abort signal.

 One stream is one `State`; the stream engine and the user code drive it
 through `Event`s, and `Run` folds a whole trace of them.
 */
module WritableStreamWithFinally {
  import opened Settlement

  /** The reasons a writable stream ends, as passed to `finally`. */
  datatype Why = Close | Abort | Error

  /** Which optional callbacks the user sink supplies (`finally` is always there). */
  datatype Sink = Sink(hasStart: bool, hasWrite: bool, hasClose: bool, hasAbort: bool)

  /** The callbacks the stream engine invokes on the handler. */
  datatype Callback = OnStart | OnWrite | OnClose | OnAbort

  /** One call of the user's `finally`: its arguments and what it did. */
  datatype Invocation = Invocation(why: Why, reason: Payload, result: FinallyResult)

  /** Per-stream state of the handler. `delegate` is the engine controller the
      cached delegate was built over; `calls` holds every wrapped call made so
      far; `log` records every call of `finally`. */
  datatype State = State(
    sink: Sink,
    why: Option<Why>,
    reason: Payload,
    memo: Option<Memo>,
    delegate: Option<nat>,
    calls: seq<Phase>,
    log: seq<Invocation>)

  /** What happens to a stream. An `Invoke` is one synchronous run of a wrapped
      callback: the engine calls it with `controller` (for `start`/`write`) or
      `arg` (the chunk, or the abort reason), the user code calls the
      delegate's `error` with each payload of `errors` and hands back `result`;
      `fin` is what `finally` does if it is called during this run. A
      `ControllerError` is a delegate `error(e)` made outside such a run.
      `Settle` is the thenable of call number `call` settling, with its
      rejection handler running; `Handle` is that call's `.finally` handler
      running, a later microtask, so controller calls can come in between.
      `FinallySettles` is the memoised `finally` thenable settling. */
  datatype Event =
    | Invoke(callback: Callback, controller: nat, arg: Payload, errors: seq<Payload>,
             result: SyncResult, fin: FinallyResult)
    | ControllerError(error: Payload)
    | Settle(call: nat, outcome: Outcome)
    | Handle(call: nat, fin: FinallyResult)
    | FinallySettles(outcome: Outcome)

  function Init(sink: Sink): State {
    State(sink, None, Undefined, None, None, [], [])
  }

  /** `start` and `write` are wrapped only when the sink has them; the
      `close` and `abort` wrappers are always installed. */
  predicate Installed(sink: Sink, callback: Callback) {
    match callback
    case OnStart => sink.hasStart
    case OnWrite => sink.hasWrite
    case OnClose => true
    case OnAbort => true
  }

  /** Whether the user sink itself has the callback the wrapper forwards to. */
  predicate HasUserCallback(sink: Sink, callback: Callback) {
    match callback
    case OnStart => sink.hasStart
    case OnWrite => sink.hasWrite
    case OnClose => sink.hasClose
    case OnAbort => sink.hasAbort
  }

  /** The delegate's `error(e)` records `('error', e)`, whatever was recorded
      before, and then forwards to the engine. */
  function Interpose(s: State, error: Payload): (t: State)
    ensures t == s.(why := Some(Error), reason := error)
  {
    s.(why := Some(Error), reason := error)
  }

  /** A sequence of delegate `error` calls made in one synchronous run: the
      last one decides the recorded payload. */
  function InterposeAll(s: State, errors: seq<Payload>): (t: State)
    ensures t == s.(why := t.why, reason := t.reason)
    ensures |errors| == 0 ==> t == s
    ensures |errors| > 0 ==> t.why == Some(Error) && t.reason == errors[|errors| - 1]
    decreases |errors|
  {
    if |errors| == 0 then s else InterposeAll(Interpose(s, errors[0]), errors[1..])
  }

  /** A callback that threw or rejected records `('error', err)` unless the
      stream is being aborted. */
  function RecordFailure(s: State, error: Payload): (t: State)
    ensures s.why == Some(Abort) ==> t == s
    ensures s.why != Some(Abort) ==> t.why == Some(Error) && t.reason == error
    ensures t == s.(why := t.why, reason := t.reason)
  {
    if s.why == Some(Abort) then s else s.(why := Some(Error), reason := error)
  }

  /** The memoised call of `finally`. Once a call has returned, the stored
      result is handed back and the arguments are ignored; the first time, the
      array around the result is handed back. A `finally` that throws stores
      nothing. No other state is touched. */
  function Cleanup(s: State, why: Why, reason: Payload, fin: FinallyResult): (r: (State, Trigger))
    ensures s.memo.Some? ==> r == (s, Stored(s.memo.value))
    ensures s.memo.None? ==> r.0.log == s.log + [Invocation(why, reason, fin)]
    ensures s.memo.None? && fin.FinallyThrew? ==>
              r.1 == Raised(fin.error) && r.0 == s.(log := r.0.log)
    ensures s.memo.None? && !fin.FinallyThrew? ==>
              r.1 == Tuple && r.0 == s.(log := r.0.log, memo := Some(MemoOf(fin, |s.log|)))
  {
    if s.memo.Some? then (s, Stored(s.memo.value))
    else
      var s1 := s.(log := s.log + [Invocation(why, reason, fin)]);
      if fin.FinallyThrew? then (s1, Raised(fin.error))
      else (s1.(memo := Some(MemoOf(fin, |s.log|))), Tuple)
  }

  /** The end of a wrapped call that is about to settle as `after`: clean up
      when a reason is recorded, then settle, after the stored `finally`
      thenable when there is one. Both the synchronous tail of a call and the
      `.finally` handler of a callback's thenable end this way. `finally` is
      called exactly when a reason is recorded and nothing is memoised; the
      call that makes that first call never waits. */
  function Finish(s: State, after: Outcome, fin: FinallyResult): (r: (State, Phase))
    ensures r.0 == s.(log := r.0.log, memo := r.0.memo)
    ensures r.0.log == (if s.why.Some? && s.memo.None?
                        then s.log + [Invocation(s.why.value, s.reason, fin)]
                        else s.log)
    ensures s.why.None? ==> r == (s, Settled(after))
    ensures s.memo.None? ==>
              r.1 == Settled(if s.why.Some? && fin.FinallyThrew? then Err(fin.error) else after)
    ensures s.why.Some? && s.memo.Some? ==> r.0 == s && r.1 == AwaitStored(s.memo.value, after)
  {
    if s.why.None? then (s, Settled(after))
    else
      var (t, trigger) := Cleanup(s, s.why.value, s.reason, fin);
      match trigger
      case Raised(e) => (t, Settled(Err(e)))
      case Tuple => (t, Settled(after))
      case Stored(m) => (t, AwaitStored(m, after))
  }

  /** What the wrapper does before the user callback runs: the close wrapper
      records `close` and leaves the payload as it was, the abort wrapper
      records `('abort', reason)`, the start and write wrappers build the
      delegate. */
  function Enter(s: State, callback: Callback, controller: nat, arg: Payload): (t: State)
    ensures t == s.(why := t.why, reason := t.reason, delegate := t.delegate)
    ensures callback.OnClose? ==> t.why == Some(Close) && t.reason == s.reason && t.delegate == s.delegate
    ensures callback.OnAbort? ==> t.why == Some(Abort) && t.reason == arg && t.delegate == s.delegate
    ensures (callback.OnStart? || callback.OnWrite?) ==>
              t.why == s.why && t.reason == s.reason && t.delegate == WrapController(s.delegate, controller)
  {
    match callback
    case OnClose => s.(why := Some(Close))
    case OnAbort => s.(why := Some(Abort), reason := arg)
    case _ => s.(delegate := WrapController(s.delegate, controller))
  }

  /** The user callback itself. A missing user `close` or `abort` yields
      `undefined` and nothing else happens; otherwise the callback's result is
      what it hands back, and its `error` calls reach the wrapper once a
      delegate exists. */
  function RunUser(s: State, callback: Callback, errors: seq<Payload>, result: SyncResult)
    : (r: (State, SyncResult))
    ensures r.0 == s.(why := r.0.why, reason := r.0.reason)
    ensures s.why.Some? ==> r.0.why.Some?
    ensures !HasUserCallback(s.sink, callback) ==> r == (s, Sync(Ok(Undefined)))
    ensures HasUserCallback(s.sink, callback) ==> r.1 == result
    ensures (|errors| == 0 || s.delegate.None?) ==> r.0 == s
    ensures |errors| > 0 && s.delegate.Some? && HasUserCallback(s.sink, callback) ==>
              r.0.why == Some(Error) && r.0.reason == errors[|errors| - 1]
  {
    if !HasUserCallback(s.sink, callback) then (s, Sync(Ok(Undefined)))
    else if s.delegate.None? then (s, result)
    else (InterposeAll(s, errors), result)
  }

  /** One synchronous run of an installed wrapper; the call is appended to `calls`. */
  function Call(s: State, callback: Callback, controller: nat, arg: Payload,
                errors: seq<Payload>, result: SyncResult, fin: FinallyResult): State
  {
    var s1 := Enter(s, callback, controller, arg);
    var (s2, res) := RunUser(s1, callback, errors, result);
    match res
    case Pending => s2.(calls := s2.calls + [AwaitInner])
    case Sync(out) =>
      var s3 := if out.Err? then RecordFailure(s2, out.error) else s2;
      var (s4, phase) := Finish(s3, Surface(out), fin);
      s4.(calls := s4.calls + [phase])
  }

  /** One event. An event that cannot happen in `s` (a callback that is not
      installed, a controller call before any delegate exists, a settlement
      of a call that is not pending) leaves the state as it is. */
  function Step(s: State, e: Event): State {
    match e
    case Invoke(cb, c, arg, errors, res, fin) =>
      if Installed(s.sink, cb) then Call(s, cb, c, arg, errors, res, fin) else s
    case ControllerError(error) =>
      if s.delegate.Some? then Interpose(s, error) else s
    case Settle(i, o) =>
      if i < |s.calls| && s.calls[i].AwaitInner? then
        var t := if o.Err? then RecordFailure(s, o.error) else s;
        t.(calls := t.calls[i := Caught(o)])
      else s
    case Handle(i, fin) =>
      if i < |s.calls| && s.calls[i].Caught? then
        var (t, phase) := Finish(s, s.calls[i].outcome, fin);
        t.(calls := t.calls[i := phase])
      else s
    case FinallySettles(o) =>
      if s.memo.Some? && s.memo.value.MemoPromise? && s.memo.value.settled.None? then
        var k := s.memo.value.invocation;
        s.(memo := Some(MemoPromise(k, Some(o))), calls := Release(s.calls, k, o))
      else s
  }

  function Run(s: State, events: seq<Event>): State
    decreases |events|
  {
    if |events| == 0 then s else Run(Step(s, events[0]), events[1..])
  }

  // ---------------------------------------------------------------------
  // Invariant of every reachable state
  // ---------------------------------------------------------------------

  predicate Returned(inv: Invocation) {
    !inv.result.FinallyThrew?
  }

  /** The memo holds exactly the last logged call of `finally`, and only when
      that call did not throw; all earlier calls threw; `finally` is only
      ever called once a reason is recorded; calls wait only on the
      memoised, unsettled thenable. */
  ghost predicate Inv(s: State) {
    && (|s.log| > 0 ==> s.why.Some?)
    && (forall i :: 0 <= i < |s.log| - 1 ==> !Returned(s.log[i]))
    && (s.memo.Some? <==> |s.log| > 0 && Returned(s.log[|s.log| - 1]))
    && (s.memo.Some? ==> s.memo.value == MemoFor(s.log[|s.log| - 1].result, |s.log| - 1, s.memo.value))
    && (forall i :: 0 <= i < |s.calls| && s.calls[i].AwaitFinally? ==>
          s.memo == Some(MemoPromise(s.calls[i].invocation, None)))
  }

  lemma InitInv(sink: Sink)
    ensures Inv(Init(sink))
  {
  }

  /** Recording a reason or building the delegate never breaks the invariant. */
  lemma ReasonChangeInv(s: State, t: State)
    requires Inv(s)
    requires t == s.(why := t.why, reason := t.reason, delegate := t.delegate)
    requires s.why.Some? ==> t.why.Some?
    ensures Inv(t)
  {
  }

  lemma FinishInv(s: State, after: Outcome, fin: FinallyResult)
    requires Inv(s)
    ensures var (t, p) := Finish(s, after, fin);
      && t.calls == s.calls
      && Inv(t)
      && (p.AwaitFinally? ==> t.memo == Some(MemoPromise(p.invocation, None)))
  {
  }

  /** Placing a call that only waits on the memoised, unsettled thenable
      keeps the invariant, at the end or in place of an existing call. */
  lemma PlaceInv(t: State, i: nat, p: Phase)
    requires Inv(t)
    requires i <= |t.calls|
    requires p.AwaitFinally? ==> t.memo == Some(MemoPromise(p.invocation, None))
    ensures i == |t.calls| ==> Inv(t.(calls := t.calls + [p]))
    ensures i < |t.calls| ==> Inv(t.(calls := t.calls[i := p]))
  {
  }

  lemma CallInv(s: State, cb: Callback, c: nat, arg: Payload,
                errors: seq<Payload>, res: SyncResult, fin: FinallyResult)
    requires Inv(s)
    ensures Inv(Call(s, cb, c, arg, errors, res, fin))
  {
    var s1 := Enter(s, cb, c, arg);
    ReasonChangeInv(s, s1);
    var (s2, r) := RunUser(s1, cb, errors, res);
    ReasonChangeInv(s1, s2);
    match r
    case Pending =>
      PlaceInv(s2, |s2.calls|, AwaitInner);
      assert Call(s, cb, c, arg, errors, res, fin) == s2.(calls := s2.calls + [AwaitInner]);
    case Sync(out) =>
      var s3 := if out.Err? then RecordFailure(s2, out.error) else s2;
      ReasonChangeInv(s2, s3);
      FinishInv(s3, Surface(out), fin);
      var (s4, p) := Finish(s3, Surface(out), fin);
      PlaceInv(s4, |s4.calls|, p);
      assert Call(s, cb, c, arg, errors, res, fin) == s4.(calls := s4.calls + [p]);
  }

  lemma StepInv(s: State, e: Event)
    requires Inv(s)
    ensures Inv(Step(s, e))
  {
    match e
    case Invoke(cb, c, arg, errors, res, fin) =>
      if Installed(s.sink, cb) {
        CallInv(s, cb, c, arg, errors, res, fin);
      }
    case ControllerError(error) =>
    case Settle(i, o) =>
      if i < |s.calls| && s.calls[i].AwaitInner? {
        var t := if o.Err? then RecordFailure(s, o.error) else s;
        ReasonChangeInv(s, t);
        PlaceInv(t, i, Caught(o));
      }
    case Handle(i, fin) =>
      if i < |s.calls| && s.calls[i].Caught? {
        FinishInv(s, s.calls[i].outcome, fin);
        var (t, p) := Finish(s, s.calls[i].outcome, fin);
        PlaceInv(t, i, p);
      }
    case FinallySettles(o) =>
  }

  lemma {:induction false} RunInv(s: State, events: seq<Event>)
    requires Inv(s)
    ensures Inv(Run(s, events))
    decreases |events|
  {
    if |events| > 0 {
      StepInv(s, events[0]);
      RunInv(Step(s, events[0]), events[1..]);
    }
  }

  // ---------------------------------------------------------------------
  // Properties of single steps
  // ---------------------------------------------------------------------

  /** What `finally` does if the event calls it. */
  function FinOf(e: Event): Option<FinallyResult> {
    match e
    case Invoke(_, _, _, _, _, fin) => Some(fin)
    case Handle(_, fin) => Some(fin)
    case _ => None
  }

  /** An event calls `finally` at most once, always with the reason recorded
      when it returns, and only if the memo was empty; the log only grows. */
  lemma StepLog(s: State, e: Event)
    ensures var t := Step(s, e);
      || t.log == s.log
      || (&& s.memo.None?
          && FinOf(e).Some?
          && t.why.Some?
          && t.log == s.log + [Invocation(t.why.value, t.reason, FinOf(e).value)])
  {
    match e
    case Invoke(cb, c, arg, errors, res, fin) =>
      if Installed(s.sink, cb) {
        var s1 := Enter(s, cb, c, arg);
        var (s2, r) := RunUser(s1, cb, errors, res);
        if r.Sync? {
          var s3 := if r.outcome.Err? then RecordFailure(s2, r.outcome.error) else s2;
          var (s4, p) := Finish(s3, Surface(r.outcome), fin);
          assert Step(s, e) == s4.(calls := s4.calls + [p]);
        }
      }
    case ControllerError(error) =>
    case Settle(i, o) =>
    case Handle(i, fin) =>
    case FinallySettles(o) =>
  }

  /** A synchronous wrapped call calls `finally` exactly when, once its user
      callback has run and its failure (if any) is recorded, a reason is
      recorded and nothing is memoised; it passes that reason. */
  lemma SyncCallCallsFinally(s: State, cb: Callback, c: nat, arg: Payload,
                             errors: seq<Payload>, out: Outcome, fin: FinallyResult)
    requires Installed(s.sink, cb)
    ensures var t := Step(s, Invoke(cb, c, arg, errors, Sync(out), fin));
      t.log == (if s.memo.None? && t.why.Some?
                then s.log + [Invocation(t.why.value, t.reason, fin)]
                else s.log)
  {
    var s1 := Enter(s, cb, c, arg);
    var (s2, r) := RunUser(s1, cb, errors, Sync(out));
    var s3 := if r.outcome.Err? then RecordFailure(s2, r.outcome.error) else s2;
    var (s4, p) := Finish(s3, Surface(r.outcome), fin);
    assert Step(s, Invoke(cb, c, arg, errors, Sync(out), fin)) == s4.(calls := s4.calls + [p]);
  }

  /** A call whose user callback hands back a thenable calls nothing yet:
      it only joins the pending calls. */
  lemma PendingCallDefersFinally(s: State, cb: Callback, c: nat, arg: Payload,
                                 errors: seq<Payload>, fin: FinallyResult)
    requires Installed(s.sink, cb)
    requires HasUserCallback(s.sink, cb)
    ensures var t := Step(s, Invoke(cb, c, arg, errors, Pending, fin));
      t.log == s.log && t.memo == s.memo && t.calls == s.calls + [AwaitInner]
  {
  }

  /** The rejection handler of a callback's thenable records `('error', e)`
      unless `abort` is recorded, which it keeps with its payload; it never
      calls `finally`. */
  lemma SettleRecordsFailure(s: State, i: nat, o: Outcome)
    requires i < |s.calls| && s.calls[i].AwaitInner?
    ensures var t := Step(s, Settle(i, o));
      && t.log == s.log && t.memo == s.memo
      && t.calls == s.calls[i := Caught(o)]
      && (o.Ok? || s.why == Some(Abort) ==> t.why == s.why && t.reason == s.reason)
      && (o.Err? && s.why != Some(Abort) ==> t.why == Some(Error) && t.reason == o.error)
  {
  }

  /** The `.finally` handler of a callback's thenable calls `finally`
      exactly when a reason is recorded and nothing is memoised, with that
      reason, and records no reason of its own. */
  lemma HandlerCallsFinally(s: State, i: nat, fin: FinallyResult)
    requires i < |s.calls| && s.calls[i].Caught?
    ensures var t := Step(s, Handle(i, fin));
      && t.why == s.why && t.reason == s.reason
      && t.log == (if s.why.Some? && s.memo.None?
                   then s.log + [Invocation(s.why.value, s.reason, fin)]
                   else s.log)
  {
  }

  /** A synchronous failure of a user callback records `('error', e)`, unless
      `abort` survives its run: `abort` survives exactly when it was recorded
      before (and this is not the close wrapper, which records `close`) or by
      the abort wrapper, and no delegate `error` of the run overwrote it; it
      then keeps its payload. */
  lemma SyncFailureRecorded(s: State, cb: Callback, c: nat, arg: Payload,
                            errors: seq<Payload>, e: Payload, fin: FinallyResult)
    requires Installed(s.sink, cb)
    requires HasUserCallback(s.sink, cb)
    ensures var t := Step(s, Invoke(cb, c, arg, errors, Sync(Err(e)), fin));
      var overwritten := |errors| > 0 && (cb.OnStart? || cb.OnWrite? || s.delegate.Some?);
      && (t.why == Some(Abort) <==>
            (cb.OnAbort? || (s.why == Some(Abort) && !cb.OnClose?)) && !overwritten)
      && (t.why == Some(Abort) ==> t.reason == (if cb.OnAbort? then arg else s.reason))
      && (t.why != Some(Abort) ==> t.why == Some(Error) && t.reason == e)
  {
    var s1 := Enter(s, cb, c, arg);
    var (s2, r) := RunUser(s1, cb, errors, Sync(Err(e)));
    var s3 := RecordFailure(s2, e);
    var (s4, p) := Finish(s3, Surface(Err(e)), fin);
    assert Step(s, Invoke(cb, c, arg, errors, Sync(Err(e)), fin)) == s4.(calls := s4.calls + [p]);
  }

  /** The call that first calls `finally` never waits on it, and neither
      does any other call then: nothing waits before a memo exists. */
  lemma FirstTriggerNeverWaits(s: State, e: Event)
    requires Inv(s)
    requires s.memo.None?
    ensures forall j :: 0 <= j < |Step(s, e).calls| ==> !Step(s, e).calls[j].AwaitFinally?
  {
    match e
    case Invoke(cb, c, arg, errors, res, fin) =>
      if Installed(s.sink, cb) {
        var s1 := Enter(s, cb, c, arg);
        var (s2, r) := RunUser(s1, cb, errors, res);
        if r.Sync? {
          var s3 := if r.outcome.Err? then RecordFailure(s2, r.outcome.error) else s2;
          var (s4, p) := Finish(s3, Surface(r.outcome), fin);
          assert Step(s, e) == s4.(calls := s4.calls + [p]);
        } else {
          assert Step(s, e) == s2.(calls := s2.calls + [AwaitInner]);
        }
      }
    case ControllerError(error) =>
    case Settle(i, o) =>
    case Handle(i, fin) =>
    case FinallySettles(o) =>
  }

  /** Every later trigger, while the memoised `finally` thenable is
      unsettled, waits on it and calls nothing. */
  lemma LaterTriggerWaits(s: State, k: nat, cb: Callback, c: nat, arg: Payload,
                          errors: seq<Payload>, out: Outcome, fin: FinallyResult)
    requires Inv(s)
    requires s.memo == Some(MemoPromise(k, None))
    requires Installed(s.sink, cb)
    ensures var t := Step(s, Invoke(cb, c, arg, errors, Sync(out), fin));
      && t.log == s.log
      && |t.calls| == |s.calls| + 1
      && t.calls[|s.calls|].AwaitFinally? && t.calls[|s.calls|].invocation == k
  {
    var s1 := Enter(s, cb, c, arg);
    var (s2, r) := RunUser(s1, cb, errors, Sync(out));
    var s3 := if r.outcome.Err? then RecordFailure(s2, r.outcome.error) else s2;
    assert s3.why.Some?;
    var (s4, p) := Finish(s3, Surface(r.outcome), fin);
    assert Step(s, Invoke(cb, c, arg, errors, Sync(out), fin)) == s4.(calls := s4.calls + [p]);
  }

  /** Once recorded, a reason is never cleared. */
  lemma ReasonNeverCleared(s: State, e: Event)
    requires s.why.Some?
    ensures Step(s, e).why.Some?
  {
  }

  /** The delegate's `error(e)` overwrites any recorded reason, `abort` included. */
  lemma ControllerErrorOverwrites(s: State, error: Payload)
    requires s.delegate.Some?
    ensures Step(s, ControllerError(error)).why == Some(Error)
    ensures Step(s, ControllerError(error)).reason == error
    ensures Step(s, ControllerError(error)).log == s.log
  {
  }

  /** The `close` wrapper records `close` before the user `close` runs and
      leaves the payload as it was; unless that run fails or errors the
      controller, `close` is the reason `finally` sees. */
  lemma CloseRecordsNoPayload(s: State, c: nat, arg: Payload, result: SyncResult, fin: FinallyResult)
    requires result.Pending? || result.outcome.Ok?
    ensures var t := Step(s, Invoke(OnClose, c, arg, [], result, fin));
      && t.why == Some(Close)
      && t.reason == s.reason
      && (result.Sync? && s.memo.None? ==> t.log == s.log + [Invocation(Close, s.reason, fin)])
  {
  }

  /** The delegate is built once: later `start`/`write` runs get the same one. */
  lemma DelegateStable(s: State, e: Event)
    requires s.delegate.Some?
    ensures Step(s, e).delegate == s.delegate
  {
  }

  /** A call made with no reason recorded after the user callback ran does not
      clean up and ends exactly as the user callback did, which then succeeded:
      a callback that fails always records a reason. */
  lemma NoReasonNoCleanup(s: State, cb: Callback, c: nat, arg: Payload,
                          errors: seq<Payload>, out: Outcome, fin: FinallyResult)
    requires Installed(s.sink, cb)
    requires Step(s, Invoke(cb, c, arg, errors, Sync(out), fin)).why.None?
    ensures out.Ok?
    ensures var t := Step(s, Invoke(cb, c, arg, errors, Sync(out), fin));
      && t.log == s.log && t.memo == s.memo
      && t.calls == s.calls + [Settled(out)]
  {
  }

  /** The same for the `.finally` handler of a thenable when no reason is
      recorded: the call settles as its thenable did. */
  lemma NoReasonNoCleanupPending(s: State, i: nat, fin: FinallyResult)
    requires i < |s.calls| && s.calls[i].Caught?
    requires s.why.None?
    ensures var t := Step(s, Handle(i, fin));
      t == s.(calls := s.calls[i := Settled(s.calls[i].outcome)])
  {
  }

  /** A wrapped call whose user callback finished synchronously with `out`
      ends as `EndsAs` says for the reason recorded by then: as `out` (a
      falsy exception dropped) unless the cleanup fails, in which case with
      the failure of `finally` itself. */
  lemma SyncOutcomePreserved(s: State, cb: Callback, c: nat, arg: Payload,
                             errors: seq<Payload>, out: Outcome, fin: FinallyResult)
    requires Installed(s.sink, cb)
    requires HasUserCallback(s.sink, cb)
    ensures var t := Step(s, Invoke(cb, c, arg, errors, Sync(out), fin));
      && |t.calls| == |s.calls| + 1
      && t.calls[..|s.calls|] == s.calls
      && EndsAs(t.calls[|s.calls|], t.why, s.memo, Surface(out), fin)
  {
    var t := Step(s, Invoke(cb, c, arg, errors, Sync(out), fin));
    assert t.calls[..|s.calls|] == s.calls;
  }

  /** A thenable that settled as `o` makes its wrapped call end as `o`
      (falsy rejections included) unless the cleanup fails, possibly after
      the memoised `finally` thenable, as `EndsAs` says. */
  lemma PendingOutcomePreserved(s: State, i: nat, fin: FinallyResult)
    requires i < |s.calls| && s.calls[i].Caught?
    ensures var t := Step(s, Handle(i, fin));
      var o := s.calls[i].outcome;
      && |t.calls| == |s.calls|
      && (forall j :: 0 <= j < |s.calls| && j != i ==> t.calls[j] == s.calls[j])
      && EndsAs(t.calls[i], s.why, s.memo, o, fin)
  {
  }

  /** When the memoised `finally` thenable settles, every call waiting on it
      settles: with the rejection if it rejected, as it would have otherwise. */
  lemma WaitersSettleTogether(s: State, o: Outcome)
    requires Inv(s)
    requires s.memo.Some? && s.memo.value.MemoPromise? && s.memo.value.settled.None?
    ensures var t := Step(s, FinallySettles(o));
      && |t.calls| == |s.calls|
      && (forall j :: 0 <= j < |t.calls| ==> !t.calls[j].AwaitFinally?)
      && (forall j :: 0 <= j < |s.calls| && s.calls[j].AwaitFinally? ==>
            t.calls[j] == Settled(if o.Err? then o else s.calls[j].after))
      && (forall j :: 0 <= j < |s.calls| && !s.calls[j].AwaitFinally? ==> t.calls[j] == s.calls[j])
  {
  }

  // ---------------------------------------------------------------------
  // Properties of whole traces
  // ---------------------------------------------------------------------

  /** After `finally` has once returned, nothing calls it again, whatever
      reasons are recorded later. */
  lemma {:induction false} MemoFreezesLog(s: State, events: seq<Event>)
    requires Inv(s)
    requires s.memo.Some?
    ensures Run(s, events).log == s.log
    ensures Run(s, events).memo.Some?
    decreases |events|
  {
    if |events| > 0 {
      StepInv(s, events[0]);
      StepLog(s, events[0]);
      MemoFreezesLog(Step(s, events[0]), events[1..]);
    }
  }

  /** On every trace at most one call of `finally` returns, and every earlier
      call threw. */
  lemma AtMostOneReturns(sink: Sink, events: seq<Event>)
    ensures var t := Run(Init(sink), events);
      && (forall i :: 0 <= i < |t.log| && Returned(t.log[i]) ==> i == |t.log| - 1)
      && (t.memo.Some? <==> exists i :: 0 <= i < |t.log| && Returned(t.log[i]))
      && (|t.log| > 0 ==> t.why.Some?)
  {
    RunInv(Init(sink), events);
  }

  predicate NeverThrows(e: Event) {
    FinOf(e).Some? ==> !FinOf(e).value.FinallyThrew?
  }

  lemma {:induction false} RunLogReturned(s: State, events: seq<Event>)
    requires Inv(s)
    requires forall i :: 0 <= i < |s.log| ==> Returned(s.log[i])
    requires forall k :: 0 <= k < |events| ==> NeverThrows(events[k])
    ensures forall i :: 0 <= i < |Run(s, events).log| ==> Returned(Run(s, events).log[i])
    decreases |events|
  {
    if |events| > 0 {
      var t := Step(s, events[0]);
      StepInv(s, events[0]);
      StepLog(s, events[0]);
      assert NeverThrows(events[0]);
      assert forall i :: 0 <= i < |t.log| ==> Returned(t.log[i]);
      assert forall k :: 0 <= k < |events[1..]| ==> NeverThrows(events[1..][k]) by {
        forall k | 0 <= k < |events[1..]| ensures NeverThrows(events[1..][k]) {
          assert events[1..][k] == events[k + 1];
        }
      }
      RunLogReturned(t, events[1..]);
      assert Run(s, events) == Run(t, events[1..]);
    } else {
      assert Run(s, events) == s;
    }
  }

  /** When `finally` never throws, it is called at most once per stream. */
  lemma AtMostOnceWhenFinallyReturns(sink: Sink, events: seq<Event>)
    requires forall k :: 0 <= k < |events| ==> NeverThrows(events[k])
    ensures |Run(Init(sink), events).log| <= 1
  {
    RunInv(Init(sink), events);
    RunLogReturned(Init(sink), events);
    var t := Run(Init(sink), events);
    assert |t.log| == 0 || Returned(t.log[0]);
  }

  /** Once built, the delegate handed to `start` and `write` never changes. */
  lemma {:induction false} DelegateBuiltOnce(s: State, events: seq<Event>)
    requires s.delegate.Some?
    ensures Run(s, events).delegate == s.delegate
    decreases |events|
  {
    if |events| > 0 {
      DelegateStable(s, events[0]);
      DelegateBuiltOnce(Step(s, events[0]), events[1..]);
    }
  }

  // ---------------------------------------------------------------------
  // Scenarios from the behaviour the repository's tests describe
  // ---------------------------------------------------------------------

  /** A user `close` that throws `e`: the stream ends as `('error', e)` and
      the close call fails with `e`. */
  lemma CloseThrowsIsError(e: Payload)
    requires IsTruthy(e)
    ensures var t := Run(Init(Sink(false, false, true, false)),
                         [Invoke(OnClose, 0, Undefined, [], Sync(Err(e)), FinallyReturned)]);
      t.log == [Invocation(Error, e, FinallyReturned)] && t.calls == [Settled(Err(e))]
  {
  }

  /** A user `abort` that throws `e`: `finally` still sees
      `('abort', undefined)` and the abort call still fails with `e`. */
  lemma AbortThrowsKeepsAbort(e: Payload)
    requires IsTruthy(e)
    ensures var t := Run(Init(Sink(false, false, false, true)),
                         [Invoke(OnAbort, 0, Undefined, [], Sync(Err(e)), FinallyReturned)]);
      t.log == [Invocation(Abort, Undefined, FinallyReturned)] && t.calls == [Settled(Err(e))]
  {
  }

  /** A user `abort` whose thenable rejects with `e`. */
  lemma AbortRejectsKeepsAbort(r: Payload, e: Payload)
    ensures var s0 := Init(Sink(false, false, false, true));
      var s1 := Step(s0, Invoke(OnAbort, 0, r, [], Pending, FinallyReturned));
      var s2 := Step(s1, Settle(0, Err(e)));
      var s3 := Step(s2, Handle(0, FinallyReturned));
      && s3.log == [Invocation(Abort, r, FinallyReturned)] && s3.calls == [Settled(Err(e))]
  {
  }

  /** A delegate `error(x)` that comes between the rejection handler and the
      `.finally` handler of a `write` thenable rejected with `e` overwrites
      the recorded payload: `finally` sees `('error', x)`, while the write
      still rejects with `e`. */
  lemma ErrorBetweenHandlers(c: nat, chunk: Payload, e: Payload, x: Payload)
    ensures var s0 := Init(Sink(false, true, false, false));
      var s1 := Step(s0, Invoke(OnWrite, c, chunk, [], Pending, FinallyReturned));
      var s2 := Step(s1, Settle(0, Err(e)));
      var s3 := Step(s2, ControllerError(x));
      var s4 := Step(s3, Handle(0, FinallyReturned));
      && s2.why == Some(Error) && s2.reason == e
      && s4.log == [Invocation(Error, x, FinallyReturned)] && s4.calls == [Settled(Err(e))]
  {
  }

  /** A sink with neither `close` nor `abort`: both wrappers are still there,
      so closing records `('close', undefined)` and calls `finally`. */
  lemma CloseWithoutImplementation(errors: seq<Payload>, result: SyncResult)
    ensures var t := Run(Init(Sink(false, false, false, false)),
                         [Invoke(OnClose, 0, Undefined, errors, result, FinallyReturned)]);
      t.log == [Invocation(Close, Undefined, FinallyReturned)] && t.calls == [Settled(Ok(Undefined))]
  {
  }

  /** `write` calls `controller.error(e)` and returns: the stream ends as
      `('error', e)` while the write itself succeeds. */
  lemma WriteErrorsController(c: nat, chunk: Payload, e: Payload, v: Payload)
    ensures var t := Run(Init(Sink(false, true, false, false)),
                         [Invoke(OnWrite, c, chunk, [e], Sync(Ok(v)), FinallyReturned)]);
      t.log == [Invocation(Error, e, FinallyReturned)] && t.calls == [Settled(Ok(v))]
  {
  }

  /** An async `finally` is not awaited by the call that triggers it, but a
      later trigger waits for it and takes on its rejection. */
  lemma FirstTriggerDoesNotWait(c: nat, e: Payload, x: Payload)
    requires IsTruthy(e)
    ensures var s0 := Init(Sink(false, true, false, false));
      var s1 := Step(s0, Invoke(OnWrite, c, Undefined, [], Sync(Err(e)), FinallyPending));
      var s2 := Step(s1, Invoke(OnClose, c, Undefined, [], Sync(Ok(Undefined)), FinallyReturned));
      var s3 := Step(s2, FinallySettles(Err(x)));
      && s1.calls == [Settled(Err(e))] && s1.log == [Invocation(Error, e, FinallyPending)]
      && s2.calls == [Settled(Err(e)), AwaitFinally(Ok(Undefined), 0)] && s2.log == s1.log
      && s3.calls == [Settled(Err(e)), Settled(Err(x))]
  {
    var s0 := Init(Sink(false, true, false, false));
    var s1 := Step(s0, Invoke(OnWrite, c, Undefined, [], Sync(Err(e)), FinallyPending));
    var s2 := Step(s1, Invoke(OnClose, c, Undefined, [], Sync(Ok(Undefined)), FinallyReturned));
    assert s2.calls == [Settled(Err(e)), AwaitFinally(Ok(Undefined), 0)];
    var s3 := Step(s2, FinallySettles(Err(x)));
    assert s3.calls[1] == Settled(Err(x));
  }

  /** A `finally` that throws stores nothing: the call fails with its
      exception and the next trigger calls `finally` again. */
  lemma ThrowingFinallyIsRetried(c: nat, e: Payload, x: Payload)
    ensures var s0 := Init(Sink(false, true, true, false));
      var s1 := Step(s0, Invoke(OnWrite, c, Undefined, [e], Sync(Ok(Undefined)), FinallyThrew(x)));
      var s2 := Step(s1, Invoke(OnClose, c, Undefined, [], Sync(Ok(Undefined)), FinallyReturned));
      && s1.calls == [Settled(Err(x))] && s1.memo.None?
      && s2.log == [Invocation(Error, e, FinallyThrew(x)), Invocation(Close, e, FinallyReturned)]
      && s2.memo == Some(MemoValue)
  {
  }
}
