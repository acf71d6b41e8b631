/**
 The cleanup handler behind `ReadableStreamWithSignal`: the wrapper it puts
 around a user source's `start`, `pull` and `cancel`, the delegate controller
 it hands to `start` and `pull`, the memoised call of the user's `finally`,
 and the abort signal that flips right after that call.

 One stream is one `State`; the stream engine and the user code drive it
 through `Event`s, and `Run` folds a whole trace of them.
 */
module ReadableStreamWithSignal {
  import opened Settlement

  /** The reasons a readable stream ends, as passed to `finally`. */
  datatype Why = Close | Cancel | Error

  /** Which optional callbacks the user source supplies (`finally` is always there). */
  datatype Source = Source(hasStart: bool, hasPull: bool, hasCancel: bool)

  /** The callbacks the stream engine invokes on the handler. */
  datatype Callback = OnStart | OnPull | OnCancel

  /** The calls user code makes on the delegate controller that the wrapper
      intercepts; every other controller method passes straight through. */
  datatype ControllerCall = CloseCall | ErrorCall(error: Payload)

  /** One call of the user's `finally`: its arguments and what it did. */
  datatype Invocation = Invocation(why: Why, reason: Payload, result: FinallyResult)

  /** Per-stream state of the handler. `delegate` is the engine controller the
      cached delegate was built over; `calls` holds every wrapped call made so
      far; `log` records every call of `finally`. */
  datatype State = State(
    source: Source,
    why: Option<Why>,
    reason: Payload,
    memo: Option<Memo>,
    aborted: bool,
    delegate: Option<nat>,
    calls: seq<Phase>,
    log: seq<Invocation>)

  /** What happens to a stream. An `Invoke` is one synchronous run of a wrapped
      callback: the engine calls it with `controller` (for `start`/`pull`) or
      `arg` (the cancel reason), the user code makes `acts` on the delegate and
      hands back `result`; `fin` is what `finally` does if it is called during
      this run. A `Signal` is a controller call made outside such a run (after
      an `await`, from a timer). `Settle` is the thenable of call number `call`
      settling, with its rejection handler running; `Handle` is that call's
      `.finally` handler running, a later microtask, so controller calls can
      come in between. `FinallySettles` is the memoised `finally` thenable
      settling. */
  datatype Event =
    | Invoke(callback: Callback, controller: nat, arg: Payload, acts: seq<ControllerCall>,
             result: SyncResult, fin: FinallyResult)
    | Signal(act: ControllerCall)
    | Settle(call: nat, outcome: Outcome)
    | Handle(call: nat, fin: FinallyResult)
    | FinallySettles(outcome: Outcome)

  function Init(source: Source): State {
    State(source, None, Undefined, None, false, None, [], [])
  }

  /** `start` and `pull` are wrapped only when the source has them; the
      `cancel` wrapper is always installed. */
  predicate Installed(source: Source, callback: Callback) {
    match callback
    case OnStart => source.hasStart
    case OnPull => source.hasPull
    case OnCancel => true
  }

  function WhyOf(act: ControllerCall): Why {
    if act.CloseCall? then Close else Error
  }

  /** The delegate's `close()` and `error(e)`: they record the reason,
      whatever was recorded before, and then forward to the engine. */
  function Interpose(s: State, act: ControllerCall): (t: State)
    ensures t == s.(why := Some(WhyOf(act)), reason := t.reason)
    ensures t.reason == (if act.ErrorCall? then act.error else s.reason)
  {
    match act
    case CloseCall => s.(why := Some(Close))
    case ErrorCall(e) => s.(why := Some(Error), reason := e)
  }

  /** Position `j` of a run holds its last `error(e)`: only `close()` calls follow. */
  predicate LastError(acts: seq<ControllerCall>, j: int) {
    && 0 <= j < |acts|
    && acts[j].ErrorCall?
    && forall k :: j < k < |acts| ==> acts[k].CloseCall?
  }

  /** A sequence of delegate calls made in one synchronous run: the last one
      decides the recorded reason, and the payload is that of the last
      `error(e)`, whatever `close()` calls follow it, or the old one when
      every call was `close()`. */
  function InterposeAll(s: State, acts: seq<ControllerCall>): (t: State)
    ensures t == s.(why := t.why, reason := t.reason)
    ensures |acts| == 0 ==> t == s
    ensures |acts| > 0 ==> t.why == Some(WhyOf(acts[|acts| - 1]))
    ensures forall j :: LastError(acts, j) ==> t.reason == acts[j].error
    ensures (forall i :: 0 <= i < |acts| ==> acts[i].CloseCall?) ==> t.reason == s.reason
    decreases |acts|
  {
    if |acts| == 0 then s
    else
      var t := InterposeAll(Interpose(s, acts[0]), acts[1..]);
      assert forall i :: 1 <= i < |acts| ==> acts[1..][i - 1] == acts[i];
      assert forall j :: 1 <= j < |acts| && LastError(acts, j) ==> LastError(acts[1..], j - 1);
      t
  }

  /** A callback that threw or rejected records `('error', err)` unless the
      stream is being cancelled. */
  function RecordFailure(s: State, error: Payload): (t: State)
    ensures s.why == Some(Cancel) ==> t == s
    ensures s.why != Some(Cancel) ==> t.why == Some(Error) && t.reason == error
    ensures t == s.(why := t.why, reason := t.reason)
  {
    if s.why == Some(Cancel) then s else s.(why := Some(Error), reason := error)
  }

  /** The memoised call of `finally`. Once a call has returned, the stored
      result is handed back and the arguments are ignored; the first time, the
      array around the result is handed back and the signal is aborted. A
      `finally` that throws stores nothing and leaves the signal alone. */
  function Cleanup(s: State, why: Why, reason: Payload, fin: FinallyResult): (r: (State, Trigger))
    ensures s.memo.Some? ==> r == (s, Stored(s.memo.value))
    ensures s.memo.None? ==> r.0.log == s.log + [Invocation(why, reason, fin)]
    ensures s.memo.None? && fin.FinallyThrew? ==>
              r.1 == Raised(fin.error) && r.0 == s.(log := r.0.log)
    ensures s.memo.None? && !fin.FinallyThrew? ==>
              && r.1 == Tuple
              && r.0 == s.(log := r.0.log, memo := Some(MemoOf(fin, |s.log|)), aborted := true)
  {
    if s.memo.Some? then (s, Stored(s.memo.value))
    else
      var s1 := s.(log := s.log + [Invocation(why, reason, fin)]);
      if fin.FinallyThrew? then (s1, Raised(fin.error))
      else (s1.(memo := Some(MemoOf(fin, |s.log|)), aborted := true), Tuple)
  }

  /** The end of a wrapped call that is about to settle as `after`: clean up
      when a reason is recorded, then settle, after the stored `finally`
      thenable when there is one. Both the synchronous tail of a call and the
      `.finally` handler of a callback's thenable end this way. `finally` is
      called exactly when a reason is recorded and nothing is memoised; the
      call that makes that first call never waits. */
  function Finish(s: State, after: Outcome, fin: FinallyResult): (r: (State, Phase))
    ensures r.0 == s.(log := r.0.log, memo := r.0.memo, aborted := r.0.aborted)
    ensures r.0.log == (if s.why.Some? && s.memo.None?
                        then s.log + [Invocation(s.why.value, s.reason, fin)]
                        else s.log)
    ensures s.why.None? ==> r == (s, Settled(after))
    ensures s.memo.None? ==>
              r.1 == Settled(if s.why.Some? && fin.FinallyThrew? then Err(fin.error) else after)
    ensures s.why.Some? && s.memo.Some? ==> r.0 == s && r.1 == AwaitStored(s.memo.value, after)
  {
    if s.why.None? then (s, Settled(after))
    else
      var (t, trigger) := Cleanup(s, s.why.value, s.reason, fin);
      match trigger
      case Raised(e) => (t, Settled(Err(e)))
      case Tuple => (t, Settled(after))
      case Stored(m) => (t, AwaitStored(m, after))
  }

  /** What the wrapper does before the user callback runs: the cancel wrapper
      records the reason, the start and pull wrappers build the delegate. */
  function Enter(s: State, callback: Callback, controller: nat, arg: Payload): (t: State)
    ensures t == s.(why := t.why, reason := t.reason, delegate := t.delegate)
    ensures callback.OnCancel? ==> t.why == Some(Cancel) && t.reason == arg && t.delegate == s.delegate
    ensures !callback.OnCancel? ==>
              t.why == s.why && t.reason == s.reason && t.delegate == WrapController(s.delegate, controller)
  {
    match callback
    case OnCancel => s.(why := Some(Cancel), reason := arg)
    case _ => s.(delegate := WrapController(s.delegate, controller))
  }

  /** The user callback itself. A missing user `cancel` yields `undefined`
      and nothing else happens; otherwise the callback's result is what it
      hands back, and its delegate calls reach the wrapper once a delegate
      exists. */
  function RunUser(s: State, callback: Callback, acts: seq<ControllerCall>, result: SyncResult)
    : (r: (State, SyncResult))
    ensures r.0 == s.(why := r.0.why, reason := r.0.reason)
    ensures s.why.Some? ==> r.0.why.Some?
    ensures callback.OnCancel? && !s.source.hasCancel ==> r == (s, Sync(Ok(Undefined)))
    ensures !(callback.OnCancel? && !s.source.hasCancel) ==> r.1 == result
    ensures (|acts| == 0 || s.delegate.None?) ==> r.0 == s
    ensures |acts| > 0 && s.delegate.Some? && !(callback.OnCancel? && !s.source.hasCancel) ==>
              r.0.why == Some(WhyOf(acts[|acts| - 1]))
    ensures s.delegate.Some? && !(callback.OnCancel? && !s.source.hasCancel) ==>
              forall j :: LastError(acts, j) ==> r.0.reason == acts[j].error
    ensures (forall i :: 0 <= i < |acts| ==> acts[i].CloseCall?) ==> r.0.reason == s.reason
  {
    if callback.OnCancel? && !s.source.hasCancel then (s, Sync(Ok(Undefined)))
    else if s.delegate.None? then (s, result)
    else (InterposeAll(s, acts), result)
  }

  /** One synchronous run of an installed wrapper; the call is appended to `calls`. */
  function Call(s: State, callback: Callback, controller: nat, arg: Payload,
                acts: seq<ControllerCall>, result: SyncResult, fin: FinallyResult): State
  {
    var s1 := Enter(s, callback, controller, arg);
    var (s2, res) := RunUser(s1, callback, acts, result);
    match res
    case Pending => s2.(calls := s2.calls + [AwaitInner])
    case Sync(out) =>
      var s3 := if out.Err? then RecordFailure(s2, out.error) else s2;
      var (s4, phase) := Finish(s3, Surface(out), fin);
      s4.(calls := s4.calls + [phase])
  }

  /** One event. An event that cannot happen in `s` (a callback that is not
      installed, a controller call before any delegate exists, a settlement
      of a call that is not pending) leaves the state as it is. */
  function Step(s: State, e: Event): State {
    match e
    case Invoke(cb, c, arg, acts, res, fin) =>
      if Installed(s.source, cb) then Call(s, cb, c, arg, acts, res, fin) else s
    case Signal(act) =>
      if s.delegate.Some? then Interpose(s, act) else s
    case Settle(i, o) =>
      if i < |s.calls| && s.calls[i].AwaitInner? then
        var t := if o.Err? then RecordFailure(s, o.error) else s;
        t.(calls := t.calls[i := Caught(o)])
      else s
    case Handle(i, fin) =>
      if i < |s.calls| && s.calls[i].Caught? then
        var (t, phase) := Finish(s, s.calls[i].outcome, fin);
        t.(calls := t.calls[i := phase])
      else s
    case FinallySettles(o) =>
      if s.memo.Some? && s.memo.value.MemoPromise? && s.memo.value.settled.None? then
        var k := s.memo.value.invocation;
        s.(memo := Some(MemoPromise(k, Some(o))), calls := Release(s.calls, k, o))
      else s
  }

  function Run(s: State, events: seq<Event>): State
    decreases |events|
  {
    if |events| == 0 then s else Run(Step(s, events[0]), events[1..])
  }

  lemma RunTwo(s: State, a: Event, b: Event)
    ensures Run(s, [a, b]) == Step(Step(s, a), b)
  {
    assert [a, b][1..] == [b];
    assert [b][1..] == [];
    assert Run(s, [a, b]) == Run(Step(s, a), [b]);
    assert Run(Step(s, a), [b]) == Run(Step(Step(s, a), b), []);
  }

  // ---------------------------------------------------------------------
  // Invariant of every reachable state
  // ---------------------------------------------------------------------

  predicate Returned(inv: Invocation) {
    !inv.result.FinallyThrew?
  }

  /** The memo holds exactly the last logged call of `finally`, and only when
      that call did not throw; all earlier calls threw; the signal is aborted
      exactly when the memo is set; `finally` is only ever called once a
      reason is recorded; calls wait only on the memoised, unsettled thenable. */
  ghost predicate Inv(s: State) {
    && (s.aborted <==> s.memo.Some?)
    && (|s.log| > 0 ==> s.why.Some?)
    && (forall i :: 0 <= i < |s.log| - 1 ==> !Returned(s.log[i]))
    && (s.memo.Some? <==> |s.log| > 0 && Returned(s.log[|s.log| - 1]))
    && (s.memo.Some? ==> s.memo.value == MemoFor(s.log[|s.log| - 1].result, |s.log| - 1, s.memo.value))
    && (forall i :: 0 <= i < |s.calls| && s.calls[i].AwaitFinally? ==>
          s.memo == Some(MemoPromise(s.calls[i].invocation, None)))
  }

  lemma InitInv(source: Source)
    ensures Inv(Init(source))
  {
  }

  /** Recording a reason or building the delegate never breaks the invariant. */
  lemma ReasonChangeInv(s: State, t: State)
    requires Inv(s)
    requires t == s.(why := t.why, reason := t.reason, delegate := t.delegate)
    requires s.why.Some? ==> t.why.Some?
    ensures Inv(t)
  {
  }

  lemma FinishInv(s: State, after: Outcome, fin: FinallyResult)
    requires Inv(s)
    ensures var (t, p) := Finish(s, after, fin);
      && t.calls == s.calls
      && Inv(t)
      && (p.AwaitFinally? ==> t.memo == Some(MemoPromise(p.invocation, None)))
  {
  }

  /** Placing a call that only waits on the memoised, unsettled thenable
      keeps the invariant, at the end or in place of an existing call. */
  lemma PlaceInv(t: State, i: nat, p: Phase)
    requires Inv(t)
    requires i <= |t.calls|
    requires p.AwaitFinally? ==> t.memo == Some(MemoPromise(p.invocation, None))
    ensures i == |t.calls| ==> Inv(t.(calls := t.calls + [p]))
    ensures i < |t.calls| ==> Inv(t.(calls := t.calls[i := p]))
  {
  }

  lemma CallInv(s: State, cb: Callback, c: nat, arg: Payload,
                acts: seq<ControllerCall>, res: SyncResult, fin: FinallyResult)
    requires Inv(s)
    ensures Inv(Call(s, cb, c, arg, acts, res, fin))
  {
    var s1 := Enter(s, cb, c, arg);
    ReasonChangeInv(s, s1);
    var (s2, r) := RunUser(s1, cb, acts, res);
    ReasonChangeInv(s1, s2);
    match r
    case Pending =>
      PlaceInv(s2, |s2.calls|, AwaitInner);
      assert Call(s, cb, c, arg, acts, res, fin) == s2.(calls := s2.calls + [AwaitInner]);
    case Sync(out) =>
      var s3 := if out.Err? then RecordFailure(s2, out.error) else s2;
      ReasonChangeInv(s2, s3);
      FinishInv(s3, Surface(out), fin);
      var (s4, p) := Finish(s3, Surface(out), fin);
      PlaceInv(s4, |s4.calls|, p);
      assert Call(s, cb, c, arg, acts, res, fin) == s4.(calls := s4.calls + [p]);
  }

  lemma StepInv(s: State, e: Event)
    requires Inv(s)
    ensures Inv(Step(s, e))
  {
    match e
    case Invoke(cb, c, arg, acts, res, fin) =>
      if Installed(s.source, cb) {
        CallInv(s, cb, c, arg, acts, res, fin);
      }
    case Signal(act) =>
    case Settle(i, o) =>
      if i < |s.calls| && s.calls[i].AwaitInner? {
        var t := if o.Err? then RecordFailure(s, o.error) else s;
        ReasonChangeInv(s, t);
        PlaceInv(t, i, Caught(o));
      }
    case Handle(i, fin) =>
      if i < |s.calls| && s.calls[i].Caught? {
        FinishInv(s, s.calls[i].outcome, fin);
        var (t, p) := Finish(s, s.calls[i].outcome, fin);
        PlaceInv(t, i, p);
      }
    case FinallySettles(o) =>
  }

  lemma {:induction false} RunInv(s: State, events: seq<Event>)
    requires Inv(s)
    ensures Inv(Run(s, events))
    decreases |events|
  {
    if |events| > 0 {
      StepInv(s, events[0]);
      RunInv(Step(s, events[0]), events[1..]);
    }
  }

  // ---------------------------------------------------------------------
  // Properties of single steps
  // ---------------------------------------------------------------------

  /** What `finally` does if the event calls it. */
  function FinOf(e: Event): Option<FinallyResult> {
    match e
    case Invoke(_, _, _, _, _, fin) => Some(fin)
    case Handle(_, fin) => Some(fin)
    case _ => None
  }

  /** An event calls `finally` at most once, always with the reason recorded
      when it returns, and only if the memo was empty; the log only grows. */
  lemma StepLog(s: State, e: Event)
    ensures var t := Step(s, e);
      || t.log == s.log
      || (&& s.memo.None?
          && FinOf(e).Some?
          && t.why.Some?
          && t.log == s.log + [Invocation(t.why.value, t.reason, FinOf(e).value)])
  {
    match e
    case Invoke(cb, c, arg, acts, res, fin) =>
      if Installed(s.source, cb) {
        var s1 := Enter(s, cb, c, arg);
        var (s2, r) := RunUser(s1, cb, acts, res);
        if r.Sync? {
          var s3 := if r.outcome.Err? then RecordFailure(s2, r.outcome.error) else s2;
          var (s4, p) := Finish(s3, Surface(r.outcome), fin);
          assert Step(s, e) == s4.(calls := s4.calls + [p]);
        }
      }
    case Signal(act) =>
    case Settle(i, o) =>
    case Handle(i, fin) =>
    case FinallySettles(o) =>
  }

  /** A synchronous wrapped call calls `finally` exactly when, once its user
      callback has run and its failure (if any) is recorded, a reason is
      recorded and nothing is memoised; it passes that reason. */
  lemma SyncCallCallsFinally(s: State, cb: Callback, c: nat, arg: Payload,
                             acts: seq<ControllerCall>, out: Outcome, fin: FinallyResult)
    requires Installed(s.source, cb)
    ensures var t := Step(s, Invoke(cb, c, arg, acts, Sync(out), fin));
      t.log == (if s.memo.None? && t.why.Some?
                then s.log + [Invocation(t.why.value, t.reason, fin)]
                else s.log)
  {
    var s1 := Enter(s, cb, c, arg);
    var (s2, r) := RunUser(s1, cb, acts, Sync(out));
    var s3 := if r.outcome.Err? then RecordFailure(s2, r.outcome.error) else s2;
    var (s4, p) := Finish(s3, Surface(r.outcome), fin);
    assert Step(s, Invoke(cb, c, arg, acts, Sync(out), fin)) == s4.(calls := s4.calls + [p]);
  }

  /** A call whose user callback hands back a thenable calls nothing yet:
      it only joins the pending calls. */
  lemma PendingCallDefersFinally(s: State, cb: Callback, c: nat, arg: Payload,
                                 acts: seq<ControllerCall>, fin: FinallyResult)
    requires Installed(s.source, cb)
    requires cb.OnCancel? ==> s.source.hasCancel
    ensures var t := Step(s, Invoke(cb, c, arg, acts, Pending, fin));
      t.log == s.log && t.memo == s.memo && t.aborted == s.aborted && t.calls == s.calls + [AwaitInner]
  {
  }

  /** The rejection handler of a callback's thenable records `('error', e)`
      unless `cancel` is recorded, which it keeps with its payload; it never
      calls `finally`. */
  lemma SettleRecordsFailure(s: State, i: nat, o: Outcome)
    requires i < |s.calls| && s.calls[i].AwaitInner?
    ensures var t := Step(s, Settle(i, o));
      && t.log == s.log && t.memo == s.memo && t.aborted == s.aborted
      && t.calls == s.calls[i := Caught(o)]
      && (o.Ok? || s.why == Some(Cancel) ==> t.why == s.why && t.reason == s.reason)
      && (o.Err? && s.why != Some(Cancel) ==> t.why == Some(Error) && t.reason == o.error)
  {
  }

  /** The `.finally` handler of a callback's thenable calls `finally`
      exactly when a reason is recorded and nothing is memoised, with that
      reason, and records no reason of its own. */
  lemma HandlerCallsFinally(s: State, i: nat, fin: FinallyResult)
    requires i < |s.calls| && s.calls[i].Caught?
    ensures var t := Step(s, Handle(i, fin));
      && t.why == s.why && t.reason == s.reason
      && t.log == (if s.why.Some? && s.memo.None?
                   then s.log + [Invocation(s.why.value, s.reason, fin)]
                   else s.log)
  {
  }

  /** A synchronous failure of a user callback records `('error', e)`, unless
      `cancel` survives its run: `cancel` survives exactly when it was
      recorded before or by the cancel wrapper and no delegate call of the
      run overwrote it, and then it keeps its payload. */
  lemma SyncFailureRecorded(s: State, cb: Callback, c: nat, arg: Payload,
                            acts: seq<ControllerCall>, e: Payload, fin: FinallyResult)
    requires Installed(s.source, cb)
    requires cb.OnCancel? ==> s.source.hasCancel
    ensures var t := Step(s, Invoke(cb, c, arg, acts, Sync(Err(e)), fin));
      var overwritten := |acts| > 0 && (!cb.OnCancel? || s.delegate.Some?);
      && (t.why == Some(Cancel) <==> (cb.OnCancel? || s.why == Some(Cancel)) && !overwritten)
      && (t.why == Some(Cancel) ==> t.reason == (if cb.OnCancel? then arg else s.reason))
      && (t.why != Some(Cancel) ==> t.why == Some(Error) && t.reason == e)
  {
    var s1 := Enter(s, cb, c, arg);
    var (s2, r) := RunUser(s1, cb, acts, Sync(Err(e)));
    var s3 := RecordFailure(s2, e);
    var (s4, p) := Finish(s3, Surface(Err(e)), fin);
    assert Step(s, Invoke(cb, c, arg, acts, Sync(Err(e)), fin)) == s4.(calls := s4.calls + [p]);
  }

  /** The call that first calls `finally` never waits on it, and neither
      does any other call then: nothing waits before a memo exists. */
  lemma FirstTriggerNeverWaits(s: State, e: Event)
    requires Inv(s)
    requires s.memo.None?
    ensures forall j :: 0 <= j < |Step(s, e).calls| ==> !Step(s, e).calls[j].AwaitFinally?
  {
    match e
    case Invoke(cb, c, arg, acts, res, fin) =>
      if Installed(s.source, cb) {
        var s1 := Enter(s, cb, c, arg);
        var (s2, r) := RunUser(s1, cb, acts, res);
        if r.Sync? {
          var s3 := if r.outcome.Err? then RecordFailure(s2, r.outcome.error) else s2;
          var (s4, p) := Finish(s3, Surface(r.outcome), fin);
          assert Step(s, e) == s4.(calls := s4.calls + [p]);
        } else {
          assert Step(s, e) == s2.(calls := s2.calls + [AwaitInner]);
        }
      }
    case Signal(act) =>
    case Settle(i, o) =>
    case Handle(i, fin) =>
    case FinallySettles(o) =>
  }

  /** Every later trigger, while the memoised `finally` thenable is
      unsettled, waits on it and calls nothing. */
  lemma LaterTriggerWaits(s: State, k: nat, cb: Callback, c: nat, arg: Payload,
                          acts: seq<ControllerCall>, out: Outcome, fin: FinallyResult)
    requires Inv(s)
    requires s.memo == Some(MemoPromise(k, None))
    requires Installed(s.source, cb)
    ensures var t := Step(s, Invoke(cb, c, arg, acts, Sync(out), fin));
      && t.log == s.log
      && |t.calls| == |s.calls| + 1
      && t.calls[|s.calls|].AwaitFinally? && t.calls[|s.calls|].invocation == k
  {
    var s1 := Enter(s, cb, c, arg);
    var (s2, r) := RunUser(s1, cb, acts, Sync(out));
    var s3 := if r.outcome.Err? then RecordFailure(s2, r.outcome.error) else s2;
    assert s3.why.Some?;
    var (s4, p) := Finish(s3, Surface(r.outcome), fin);
    assert Step(s, Invoke(cb, c, arg, acts, Sync(out), fin)) == s4.(calls := s4.calls + [p]);
  }

  /** The signal flips only in the step whose call of `finally` returns. */
  lemma AbortOnlyWithFinally(s: State, e: Event)
    requires Inv(s)
    requires !s.aborted
    requires Step(s, e).aborted
    ensures var t := Step(s, e); |t.log| == |s.log| + 1 && Returned(t.log[|s.log|])
  {
    StepInv(s, e);
    StepLog(s, e);
  }

  /** Once recorded, a reason is never cleared. */
  lemma ReasonNeverCleared(s: State, e: Event)
    requires s.why.Some?
    ensures Step(s, e).why.Some?
  {
  }

  /** The delegate's `close()` and `error(e)` overwrite any recorded reason,
      `cancel` included: `close()` keeps the payload, `error(e)` replaces it,
      and nothing else changes. */
  lemma ControllerCallOverwrites(s: State, act: ControllerCall)
    requires s.delegate.Some?
    ensures Step(s, Signal(act)).why == Some(WhyOf(act))
    ensures act.ErrorCall? ==> Step(s, Signal(act)).reason == act.error
    ensures act.CloseCall? ==> Step(s, Signal(act)).reason == s.reason
    ensures Step(s, Signal(act)) == s.(why := Some(WhyOf(act)), reason := Step(s, Signal(act)).reason)
  {
  }

  /** The delegate is built once: later `start`/`pull` runs get the same one. */
  lemma DelegateStable(s: State, e: Event)
    requires s.delegate.Some?
    ensures Step(s, e).delegate == s.delegate
  {
  }

  /** A call made with no reason recorded after the user callback ran does not
      clean up and ends exactly as the user callback did, which then succeeded:
      a callback that fails always records a reason. */
  lemma NoReasonNoCleanup(s: State, cb: Callback, c: nat, arg: Payload,
                          acts: seq<ControllerCall>, out: Outcome, fin: FinallyResult)
    requires Installed(s.source, cb)
    requires Step(s, Invoke(cb, c, arg, acts, Sync(out), fin)).why.None?
    ensures out.Ok?
    ensures var t := Step(s, Invoke(cb, c, arg, acts, Sync(out), fin));
      && t.log == s.log && t.memo == s.memo && t.aborted == s.aborted
      && t.calls == s.calls + [Settled(out)]
  {
  }

  /** The same for the `.finally` handler of a thenable when no reason is
      recorded: the call settles as its thenable did. */
  lemma NoReasonNoCleanupPending(s: State, i: nat, fin: FinallyResult)
    requires i < |s.calls| && s.calls[i].Caught?
    requires s.why.None?
    ensures var t := Step(s, Handle(i, fin));
      t == s.(calls := s.calls[i := Settled(s.calls[i].outcome)])
  {
  }

  /** A wrapped call whose user callback finished synchronously with `out`
      ends as `EndsAs` says for the reason recorded by then: as `out` (a
      falsy exception dropped) unless the cleanup fails, in which case with
      the failure of `finally` itself. */
  lemma SyncOutcomePreserved(s: State, cb: Callback, c: nat, arg: Payload,
                             acts: seq<ControllerCall>, out: Outcome, fin: FinallyResult)
    requires Installed(s.source, cb)
    requires cb.OnCancel? ==> s.source.hasCancel
    ensures var t := Step(s, Invoke(cb, c, arg, acts, Sync(out), fin));
      && |t.calls| == |s.calls| + 1
      && t.calls[..|s.calls|] == s.calls
      && EndsAs(t.calls[|s.calls|], t.why, s.memo, Surface(out), fin)
  {
    var t := Step(s, Invoke(cb, c, arg, acts, Sync(out), fin));
    assert t.calls[..|s.calls|] == s.calls;
  }

  /** A thenable that settled as `o` makes its wrapped call end as `o`
      (falsy rejections included) unless the cleanup fails, possibly after
      the memoised `finally` thenable, as `EndsAs` says. */
  lemma PendingOutcomePreserved(s: State, i: nat, fin: FinallyResult)
    requires i < |s.calls| && s.calls[i].Caught?
    ensures var t := Step(s, Handle(i, fin));
      var o := s.calls[i].outcome;
      && |t.calls| == |s.calls|
      && (forall j :: 0 <= j < |s.calls| && j != i ==> t.calls[j] == s.calls[j])
      && EndsAs(t.calls[i], s.why, s.memo, o, fin)
  {
  }

  /** When the memoised `finally` thenable settles, every call waiting on it
      settles: with the rejection if it rejected, as it would have otherwise. */
  lemma WaitersSettleTogether(s: State, o: Outcome)
    requires Inv(s)
    requires s.memo.Some? && s.memo.value.MemoPromise? && s.memo.value.settled.None?
    ensures var t := Step(s, FinallySettles(o));
      && |t.calls| == |s.calls|
      && (forall j :: 0 <= j < |t.calls| ==> !t.calls[j].AwaitFinally?)
      && (forall j :: 0 <= j < |s.calls| && s.calls[j].AwaitFinally? ==>
            t.calls[j] == Settled(if o.Err? then o else s.calls[j].after))
      && (forall j :: 0 <= j < |s.calls| && !s.calls[j].AwaitFinally? ==> t.calls[j] == s.calls[j])
  {
  }

  // ---------------------------------------------------------------------
  // Properties of whole traces
  // ---------------------------------------------------------------------

  /** After `finally` has once returned, nothing calls it again, whatever
      reasons are recorded later, and the signal stays aborted. */
  lemma {:induction false} MemoFreezesLog(s: State, events: seq<Event>)
    requires Inv(s)
    requires s.memo.Some?
    ensures Run(s, events).log == s.log
    ensures Run(s, events).memo.Some?
    ensures Run(s, events).aborted
    decreases |events|
  {
    if |events| > 0 {
      StepInv(s, events[0]);
      StepLog(s, events[0]);
      MemoFreezesLog(Step(s, events[0]), events[1..]);
    }
  }

  /** On every trace at most one call of `finally` returns: every earlier
      call threw, and the signal is aborted exactly when one has returned. */
  lemma AtMostOneReturns(source: Source, events: seq<Event>)
    ensures var t := Run(Init(source), events);
      && (forall i :: 0 <= i < |t.log| && Returned(t.log[i]) ==> i == |t.log| - 1)
      && (t.aborted <==> exists i :: 0 <= i < |t.log| && Returned(t.log[i]))
      && (|t.log| > 0 ==> t.why.Some?)
  {
    RunInv(Init(source), events);
  }

  predicate NeverThrows(e: Event) {
    FinOf(e).Some? ==> !FinOf(e).value.FinallyThrew?
  }

  lemma {:induction false} RunLogReturned(s: State, events: seq<Event>)
    requires Inv(s)
    requires forall i :: 0 <= i < |s.log| ==> Returned(s.log[i])
    requires forall k :: 0 <= k < |events| ==> NeverThrows(events[k])
    ensures forall i :: 0 <= i < |Run(s, events).log| ==> Returned(Run(s, events).log[i])
    decreases |events|
  {
    if |events| > 0 {
      var t := Step(s, events[0]);
      StepInv(s, events[0]);
      StepLog(s, events[0]);
      assert NeverThrows(events[0]);
      assert forall i :: 0 <= i < |t.log| ==> Returned(t.log[i]);
      assert forall k :: 0 <= k < |events[1..]| ==> NeverThrows(events[1..][k]) by {
        forall k | 0 <= k < |events[1..]| ensures NeverThrows(events[1..][k]) {
          assert events[1..][k] == events[k + 1];
        }
      }
      RunLogReturned(t, events[1..]);
      assert Run(s, events) == Run(t, events[1..]);
    } else {
      assert Run(s, events) == s;
    }
  }

  /** When `finally` never throws, it is called at most once per stream. */
  lemma AtMostOnceWhenFinallyReturns(source: Source, events: seq<Event>)
    requires forall k :: 0 <= k < |events| ==> NeverThrows(events[k])
    ensures |Run(Init(source), events).log| <= 1
  {
    RunInv(Init(source), events);
    RunLogReturned(Init(source), events);
    var t := Run(Init(source), events);
    assert |t.log| == 0 || Returned(t.log[0]);
  }

  /** Once built, the delegate handed to `start` and `pull` never changes. */
  lemma {:induction false} DelegateBuiltOnce(s: State, events: seq<Event>)
    requires s.delegate.Some?
    ensures Run(s, events).delegate == s.delegate
    decreases |events|
  {
    if |events| > 0 {
      DelegateStable(s, events[0]);
      DelegateBuiltOnce(Step(s, events[0]), events[1..]);
    }
  }

  // ---------------------------------------------------------------------
  // Scenarios from the behaviour the repository's tests describe
  // ---------------------------------------------------------------------

  /** `pull` closes the controller and then enqueues; the engine's
      invalid-state error `e` is thrown and replaces the `close` reason. */
  lemma CloseThenEnqueueIsError(c: nat, e: Payload)
    requires IsTruthy(e)
    ensures var t := Run(Init(Source(false, true, false)),
                         [Invoke(OnPull, c, Undefined, [CloseCall], Sync(Err(e)), FinallyReturned)]);
      t.log == [Invocation(Error, e, FinallyReturned)] && t.calls == [Settled(Err(e))] && t.aborted
  {
  }

  /** The same with an async `pull`: the close happens before its first
      `await`, the enqueue error rejects its thenable and the rejection
      handler records it before the `.finally` handler calls `finally`. */
  lemma AsyncCloseThenEnqueueIsError(c: nat, e: Payload)
    ensures var s0 := Init(Source(false, true, false));
      var s1 := Step(s0, Invoke(OnPull, c, Undefined, [CloseCall], Pending, FinallyReturned));
      var s2 := Step(s1, Settle(0, Err(e)));
      var s3 := Step(s2, Handle(0, FinallyReturned));
      && s1.why == Some(Close) && s2.log == []
      && s3.log == [Invocation(Error, e, FinallyReturned)] && s3.calls == [Settled(Err(e))] && s3.aborted
  {
  }

  /** A controller `close()` that comes between the rejection handler and the
      `.finally` handler of a thenable overwrites the error the rejection
      recorded: `finally` sees `('close', e)`, while the call still rejects
      with `e`. */
  lemma CloseBetweenHandlers(c: nat, e: Payload)
    ensures var s0 := Init(Source(false, true, false));
      var s1 := Step(s0, Invoke(OnPull, c, Undefined, [], Pending, FinallyReturned));
      var s2 := Step(s1, Settle(0, Err(e)));
      var s3 := Step(s2, Signal(CloseCall));
      var s4 := Step(s3, Handle(0, FinallyReturned));
      && s2.why == Some(Error) && s2.reason == e
      && s4.log == [Invocation(Close, e, FinallyReturned)] && s4.calls == [Settled(Err(e))]
  {
  }

  /** `cancel(r)` whose user implementation throws `e`: `finally` still sees
      `('cancel', r)` and the cancel call still fails with `e`. */
  lemma CancelThrowsKeepsCancel(r: Payload, e: Payload)
    requires IsTruthy(e)
    ensures var t := Run(Init(Source(false, false, true)),
                         [Invoke(OnCancel, 0, r, [], Sync(Err(e)), FinallyReturned)]);
      t.log == [Invocation(Cancel, r, FinallyReturned)] && t.calls == [Settled(Err(e))]
  {
  }

  /** `cancel(r)` whose user implementation rejects with `e`. */
  lemma CancelRejectsKeepsCancel(r: Payload, e: Payload)
    ensures var s0 := Init(Source(false, false, true));
      var s1 := Step(s0, Invoke(OnCancel, 0, r, [], Pending, FinallyReturned));
      var s2 := Step(s1, Settle(0, Err(e)));
      var s3 := Step(s2, Handle(0, FinallyReturned));
      && s3.log == [Invocation(Cancel, r, FinallyReturned)] && s3.calls == [Settled(Err(e))]
  {
  }

  /** A source without `cancel`: cancelling still records `('cancel', r)`,
      calls `finally` and succeeds with `undefined`, whatever the event claims
      the (missing) callback would have done. */
  lemma CancelWithoutImplementation(r: Payload, acts: seq<ControllerCall>, result: SyncResult)
    ensures var t := Run(Init(Source(false, false, false)),
                         [Invoke(OnCancel, 0, r, acts, result, FinallyReturned)]);
      t.log == [Invocation(Cancel, r, FinallyReturned)] && t.calls == [Settled(Ok(Undefined))] && t.aborted
  {
  }

  /** `start` throws a falsy value: `finally` sees `('error', value)`, but the
      truthiness test drops it and `start` reports success. */
  lemma FalsyThrowIsDropped(c: nat, tag: nat)
    ensures var t := Run(Init(Source(true, false, false)),
                         [Invoke(OnStart, c, Undefined, [], Sync(Err(Falsy(tag))), FinallyReturned)]);
      t.log == [Invocation(Error, Falsy(tag), FinallyReturned)] && t.calls == [Settled(Ok(Undefined))]
  {
  }

  /** An async `finally` is not awaited by the call that triggers it (the
      first cleanup hands back the array around its thenable), but every later
      trigger waits for it and takes on its rejection. */
  lemma FirstTriggerDoesNotWait(c: nat, v: Payload, w: Payload, x: Payload)
    ensures var s0 := Init(Source(true, true, false));
      var s1 := Step(s0, Invoke(OnStart, c, Undefined, [CloseCall], Sync(Ok(v)), FinallyPending));
      var s2 := Step(s1, Invoke(OnPull, c, Undefined, [], Sync(Ok(w)), FinallyReturned));
      var s3 := Step(s2, FinallySettles(Err(x)));
      && s1.calls == [Settled(Ok(v))] && s1.log == [Invocation(Close, Undefined, FinallyPending)]
      && s2.calls == [Settled(Ok(v)), AwaitFinally(Ok(w), 0)] && s2.log == s1.log
      && s3.calls == [Settled(Ok(v)), Settled(Err(x))]
  {
    var s0 := Init(Source(true, true, false));
    var s1 := Step(s0, Invoke(OnStart, c, Undefined, [CloseCall], Sync(Ok(v)), FinallyPending));
    var s2 := Step(s1, Invoke(OnPull, c, Undefined, [], Sync(Ok(w)), FinallyReturned));
    assert s2.calls == [Settled(Ok(v)), AwaitFinally(Ok(w), 0)];
    var s3 := Step(s2, FinallySettles(Err(x)));
    assert s3.calls[1] == Settled(Err(x));
  }

  /** A `finally` that throws stores nothing and does not abort the signal:
      the call fails with its exception and the next trigger calls it again. */
  lemma ThrowingFinallyIsRetried(c: nat, x: Payload)
    ensures var s0 := Init(Source(true, true, false));
      var s1 := Step(s0, Invoke(OnStart, c, Undefined, [CloseCall], Sync(Ok(Undefined)), FinallyThrew(x)));
      var s2 := Step(s1, Invoke(OnPull, c, Undefined, [], Sync(Ok(Undefined)), FinallyReturned));
      && s1.calls == [Settled(Err(x))] && !s1.aborted && s1.memo.None?
      && s2.log == [Invocation(Close, Undefined, FinallyThrew(x)), Invocation(Close, Undefined, FinallyReturned)]
      && s2.aborted
  {
  }

  /** `start` throws `e`: `finally` sees `('error', e)` and `start` fails with `e`. */
  lemma StartThrowsIsError(c: nat, e: Payload)
    requires IsTruthy(e)
    ensures var t := Run(Init(Source(true, false, false)),
                         [Invoke(OnStart, c, Undefined, [], Sync(Err(e)), FinallyPending)]);
      t.log == [Invocation(Error, e, FinallyPending)] && t.calls == [Settled(Err(e))] && t.aborted
  {
  }

  /** `start` and `pull` are handed the delegate built over the first controller. */
  lemma StartAndPullShareDelegate(c1: nat, c2: nat)
    ensures var t := Run(Init(Source(true, true, false)),
                         [Invoke(OnStart, c1, Undefined, [], Sync(Ok(Undefined)), FinallyReturned),
                          Invoke(OnPull, c2, Undefined, [], Sync(Ok(Undefined)), FinallyReturned)]);
      t.delegate == Some(c1) && t.log == []
  {
    var s0 := Init(Source(true, true, false));
    var e1 := Invoke(OnStart, c1, Undefined, [], Sync(Ok(Undefined)), FinallyReturned);
    var e2 := Invoke(OnPull, c2, Undefined, [], Sync(Ok(Undefined)), FinallyReturned);
    var s1 := Step(s0, e1);
    assert s1.delegate == Some(c1) && s1.log == [];
    RunTwo(s0, e1, e2);
  }
}
