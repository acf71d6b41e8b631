/**
 The cleanup handler behind `ReadableStreamWithFinally`: the wrapper it puts
 around a user source's `start`, `pull` and `cancel`, the delegate controller
 whose `close()` it intercepts, and the `closing` flag that decides whether a
 finished wrapped call runs the user's `finally()`.

 Unlike the other two handlers nothing is memoised: every wrapped call that
 finishes while `closing` is set calls `finally()` again, and `finally()`
 takes no arguments.
 */
module ReadableStreamWithFinally {
  import opened Settlement

  /** Which optional callbacks the user source supplies (`finally` is always there). */
  datatype Source = Source(hasStart: bool, hasPull: bool, hasCancel: bool)

  /** The callbacks the stream engine invokes on the handler. */
  datatype Callback = OnStart | OnPull | OnCancel

  /** Calls user code makes on the delegate controller: only `close()` is
      intercepted; `error(e)` goes straight to the engine. */
  datatype ControllerCall = CloseCall | ErrorCall(error: Payload)

  /** One call of the user's `finally()`: what it did, and how its thenable
      (if it returned one) has settled so far. */
  datatype FinallyCall = FinallyCall(result: FinallyResult, settled: Option<Outcome>)

  /** Per-stream state of the handler. */
  datatype State = State(
    source: Source,
    closing: bool,
    delegate: Option<nat>,
    calls: seq<Phase>,
    log: seq<FinallyCall>)

  /** As for the other handlers: `Settle` is the thenable of call number
      `call` settling, with its rejection handler running; `Handle` is that
      call's `.finally` handler running, a later microtask;
      `FinallySettles(k, o)` is the thenable of the `k`-th call of
      `finally()` settling. */
  datatype Event =
    | Invoke(callback: Callback, controller: nat, arg: Payload, acts: seq<ControllerCall>,
             result: SyncResult, fin: FinallyResult)
    | Signal(act: ControllerCall)
    | Settle(call: nat, outcome: Outcome)
    | Handle(call: nat, fin: FinallyResult)
    | FinallySettles(invocation: nat, outcome: Outcome)

  function Init(source: Source): State {
    State(source, false, None, [], [])
  }

  /** `start` and `pull` are wrapped only when the source has them; the
      `cancel` wrapper is always installed. */
  predicate Installed(source: Source, callback: Callback) {
    match callback
    case OnStart => source.hasStart
    case OnPull => source.hasPull
    case OnCancel => true
  }

  /** The delegate's `close()` sets `closing`; `error(e)` is not intercepted. */
  function Interpose(s: State, act: ControllerCall): (t: State)
    ensures t == s.(closing := t.closing)
    ensures t.closing <==> s.closing || act.CloseCall?
  {
    match act
    case CloseCall => s.(closing := true)
    case ErrorCall(_) => s
  }

  function InterposeAll(s: State, acts: seq<ControllerCall>): (t: State)
    ensures t == s.(closing := t.closing)
    ensures t.closing <==> s.closing || exists i :: 0 <= i < |acts| && acts[i].CloseCall?
    decreases |acts|
  {
    if |acts| == 0 then s
    else
      var t := InterposeAll(Interpose(s, acts[0]), acts[1..]);
      assert forall i :: 1 <= i < |acts| ==> acts[1..][i - 1] == acts[i];
      t
  }

  /** One call of `finally()`; it is recorded in the log whatever it does. */
  function CallFinally(s: State, fin: FinallyResult): (t: State)
    ensures t == s.(log := s.log + [FinallyCall(fin, None)])
  {
    s.(log := s.log + [FinallyCall(fin, None)])
  }

  /** The end of a wrapped call that is about to settle as `after`:
      `finally()` runs when `closing` is set, then the call settles, after
      the thenable of `finally()` if it returned one. Both the synchronous
      tail of a call and the `.finally` handler of a callback's thenable end
      this way. */
  function Finish(s: State, after: Outcome, fin: FinallyResult): (r: (State, Phase))
    ensures r.0 == s.(log := r.0.log)
    ensures |r.0.log| == |s.log| + (if s.closing then 1 else 0)
    ensures r.0.log[..|s.log|] == s.log
    ensures s.closing ==> r.0.log[|s.log|] == FinallyCall(fin, None)
    ensures r.1.AwaitFinally? <==> s.closing && fin.FinallyPending?
    ensures r.1.AwaitFinally? ==> r.1 == AwaitFinally(after, |s.log|)
    ensures r.1.Settled? ==> r.1.outcome == (if s.closing && fin.FinallyThrew? then Err(fin.error) else after)
    ensures !r.1.Settled? ==> r.1.AwaitFinally?
  {
    if !s.closing then (s, Settled(after))
    else
      var t := CallFinally(s, fin);
      match fin
      case FinallyThrew(e) => (t, Settled(Err(e)))
      case FinallyReturned => (t, Settled(after))
      case FinallyPending => (t, AwaitFinally(after, |s.log|))
  }

  /** What the wrapper does before the user callback runs: the cancel wrapper
      sets `closing`, the start and pull wrappers build the delegate. */
  function Enter(s: State, callback: Callback, controller: nat): (t: State)
    ensures t == s.(closing := t.closing, delegate := t.delegate)
    ensures t.closing <==> s.closing || callback.OnCancel?
    ensures callback.OnCancel? ==> t.delegate == s.delegate
    ensures !callback.OnCancel? ==> t.delegate == WrapController(s.delegate, controller)
  {
    match callback
    case OnCancel => s.(closing := true)
    case _ => s.(delegate := WrapController(s.delegate, controller))
  }

  /** The user callback itself. A missing user `cancel` yields `undefined`
      and nothing else happens; otherwise the callback's result is what it
      hands back, and its `close()` calls reach the wrapper once a delegate
      exists. */
  function RunUser(s: State, callback: Callback, acts: seq<ControllerCall>, result: SyncResult)
    : (r: (State, SyncResult))
    ensures r.0 == s.(closing := r.0.closing)
    ensures s.closing ==> r.0.closing
    ensures callback.OnCancel? && !s.source.hasCancel ==> r == (s, Sync(Ok(Undefined)))
    ensures !(callback.OnCancel? && !s.source.hasCancel) ==> r.1 == result
    ensures (|acts| == 0 || s.delegate.None?) ==> r.0 == s
    ensures s.delegate.Some? && !(callback.OnCancel? && !s.source.hasCancel) ==>
              (r.0.closing <==> s.closing || exists i :: 0 <= i < |acts| && acts[i].CloseCall?)
  {
    if callback.OnCancel? && !s.source.hasCancel then (s, Sync(Ok(Undefined)))
    else if s.delegate.None? then (s, result)
    else (InterposeAll(s, acts), result)
  }

  /** One synchronous run of an installed wrapper; a synchronous throw sets
      `closing`. The call is appended to `calls`. */
  function Call(s: State, callback: Callback, controller: nat,
                acts: seq<ControllerCall>, result: SyncResult, fin: FinallyResult): State
  {
    var s1 := Enter(s, callback, controller);
    var (s2, res) := RunUser(s1, callback, acts, result);
    match res
    case Pending => s2.(calls := s2.calls + [AwaitInner])
    case Sync(out) =>
      var s3 := if out.Err? then s2.(closing := true) else s2;
      var (s4, phase) := Finish(s3, Surface(out), fin);
      s4.(calls := s4.calls + [phase])
  }

  /** One event; an event that cannot happen in `s` leaves it as it is. */
  function Step(s: State, e: Event): State {
    match e
    case Invoke(cb, c, _, acts, res, fin) =>
      if Installed(s.source, cb) then Call(s, cb, c, acts, res, fin) else s
    case Signal(act) =>
      if s.delegate.Some? then Interpose(s, act) else s
    case Settle(i, o) =>
      if i < |s.calls| && s.calls[i].AwaitInner? then
        var t := if o.Err? then s.(closing := true) else s;
        t.(calls := t.calls[i := Caught(o)])
      else s
    case Handle(i, fin) =>
      if i < |s.calls| && s.calls[i].Caught? then
        var (t, phase) := Finish(s, s.calls[i].outcome, fin);
        t.(calls := t.calls[i := phase])
      else s
    case FinallySettles(k, o) =>
      if k < |s.log| && s.log[k].result.FinallyPending? && s.log[k].settled.None? then
        s.(log := s.log[k := FinallyCall(FinallyPending, Some(o))], calls := Release(s.calls, k, o))
      else s
  }

  function Run(s: State, events: seq<Event>): State
    decreases |events|
  {
    if |events| == 0 then s else Run(Step(s, events[0]), events[1..])
  }

  lemma RunTwo(s: State, a: Event, b: Event)
    ensures Run(s, [a, b]) == Step(Step(s, a), b)
  {
    assert [a, b][1..] == [b];
    assert [b][1..] == [];
    assert Run(s, [a, b]) == Run(Step(s, a), [b]);
    assert Run(Step(s, a), [b]) == Run(Step(Step(s, a), b), []);
  }

  // ---------------------------------------------------------------------
  // Counting calls
  // ---------------------------------------------------------------------

  /** A call whose `.finally` handler has not run yet. */
  function Unfinished(p: Phase): nat {
    if p.AwaitInner? || p.Caught? then 1 else 0
  }

  /** The number of wrapped calls whose `.finally` handler has not run yet. */
  function PendingCount(calls: seq<Phase>): nat
    decreases |calls|
  {
    if |calls| == 0 then 0
    else PendingCount(calls[..|calls| - 1]) + Unfinished(calls[|calls| - 1])
  }

  lemma PendingCountAppend(calls: seq<Phase>, p: Phase)
    ensures PendingCount(calls + [p]) == PendingCount(calls) + Unfinished(p)
  {
    assert (calls + [p])[..|calls|] == calls;
  }

  /** Replacing one call changes the count by the difference. */
  lemma {:induction false} PendingCountUpdate(calls: seq<Phase>, i: nat, p: Phase)
    requires i < |calls|
    ensures PendingCount(calls[i := p]) + Unfinished(calls[i]) == PendingCount(calls) + Unfinished(p)
    decreases |calls|
  {
    var n := |calls| - 1;
    if i == n {
      assert calls[i := p][..n] == calls[..n];
    } else {
      assert calls[i := p][..n] == calls[..n][i := p];
      PendingCountUpdate(calls[..n], i, p);
    }
  }

  /** Waking waiters never touches an unfinished call. */
  lemma {:induction false} PendingCountRelease(calls: seq<Phase>, k: nat, o: Outcome)
    ensures PendingCount(Release(calls, k, o)) == PendingCount(calls)
    decreases |calls|
  {
    if |calls| > 0 {
      var n := |calls| - 1;
      assert Release(calls, k, o)[..n] == Release(calls[..n], k, o);
      PendingCountRelease(calls[..n], k, o);
    }
  }

  // ---------------------------------------------------------------------
  // Invariant of every reachable state
  // ---------------------------------------------------------------------

  /** `finally()` is only ever called while `closing` is set; each wrapped
      call has called it at most once, so the calls of `finally()` and the
      unfinished calls together never outnumber the wrapped calls; calls
      wait only on an unsettled thenable of `finally()`. */
  ghost predicate Inv(s: State) {
    && (|s.log| > 0 ==> s.closing)
    && |s.log| + PendingCount(s.calls) <= |s.calls|
    && (forall i :: 0 <= i < |s.calls| && s.calls[i].AwaitFinally? ==>
          && s.calls[i].invocation < |s.log|
          && s.log[s.calls[i].invocation].result.FinallyPending?
          && s.log[s.calls[i].invocation].settled.None?)
  }

  lemma InitInv(source: Source)
    ensures Inv(Init(source))
  {
  }

  lemma FinishInv(s: State, after: Outcome, fin: FinallyResult)
    requires Inv(s)
    ensures var (t, p) := Finish(s, after, fin);
      && t.calls == s.calls
      && (|t.log| > 0 ==> t.closing)
      && |t.log| <= |s.log| + 1
      && (forall i :: 0 <= i < |s.calls| && s.calls[i].AwaitFinally? ==>
            && s.calls[i].invocation < |t.log|
            && t.log[s.calls[i].invocation].result.FinallyPending?
            && t.log[s.calls[i].invocation].settled.None?)
      && Unfinished(p) == 0
      && (p.AwaitFinally? ==> p.invocation < |t.log| && t.log[p.invocation] == FinallyCall(FinallyPending, None))
  {
  }

  /** Setting `closing` (or building the delegate) never breaks the invariant. */
  lemma ClosingInv(s: State, t: State)
    requires Inv(s)
    requires t == s.(closing := t.closing, delegate := t.delegate)
    requires s.closing ==> t.closing
    ensures Inv(t)
  {
  }

  /** Appending a finished or pending call to a state that called `finally()`
      at most once more than the invariant allows. */
  lemma AppendInv(t: State, p: Phase)
    requires |t.log| > 0 ==> t.closing
    requires |t.log| + PendingCount(t.calls) <= |t.calls| + 1 - Unfinished(p)
    requires forall i :: 0 <= i < |t.calls| && t.calls[i].AwaitFinally? ==>
               && t.calls[i].invocation < |t.log|
               && t.log[t.calls[i].invocation].result.FinallyPending?
               && t.log[t.calls[i].invocation].settled.None?
    requires p.AwaitFinally? ==> p.invocation < |t.log| && t.log[p.invocation] == FinallyCall(FinallyPending, None)
    ensures Inv(t.(calls := t.calls + [p]))
  {
    PendingCountAppend(t.calls, p);
  }

  lemma InvokeInv(s: State, cb: Callback, c: nat, acts: seq<ControllerCall>,
                  res: SyncResult, fin: FinallyResult)
    requires Inv(s)
    ensures Inv(Call(s, cb, c, acts, res, fin))
  {
    var s1 := Enter(s, cb, c);
    ClosingInv(s, s1);
    var (s2, r) := RunUser(s1, cb, acts, res);
    ClosingInv(s1, s2);
    if r.Sync? {
      var s3 := if r.outcome.Err? then s2.(closing := true) else s2;
      ClosingInv(s2, s3);
      FinishInv(s3, Surface(r.outcome), fin);
      var (s4, p) := Finish(s3, Surface(r.outcome), fin);
      AppendInv(s4, p);
      assert Call(s, cb, c, acts, res, fin) == s4.(calls := s4.calls + [p]);
    } else {
      AppendInv(s2, AwaitInner);
      assert Call(s, cb, c, acts, res, fin) == s2.(calls := s2.calls + [AwaitInner]);
    }
  }

  lemma SettleInv(s: State, i: nat, o: Outcome)
    requires Inv(s)
    requires i < |s.calls| && s.calls[i].AwaitInner?
    ensures Inv(Step(s, Settle(i, o)))
  {
    PendingCountUpdate(s.calls, i, Caught(o));
  }

  lemma HandleInv(s: State, i: nat, fin: FinallyResult)
    requires Inv(s)
    requires i < |s.calls| && s.calls[i].Caught?
    ensures Inv(Step(s, Handle(i, fin)))
  {
    FinishInv(s, s.calls[i].outcome, fin);
    var (t, p) := Finish(s, s.calls[i].outcome, fin);
    PendingCountUpdate(s.calls, i, p);
    assert Step(s, Handle(i, fin)) == t.(calls := t.calls[i := p]);
  }

  lemma FinallySettlesInv(s: State, k: nat, o: Outcome)
    requires Inv(s)
    requires k < |s.log| && s.log[k].result.FinallyPending? && s.log[k].settled.None?
    ensures Inv(Step(s, FinallySettles(k, o)))
  {
    PendingCountRelease(s.calls, k, o);
    var t := Step(s, FinallySettles(k, o));
    forall i | 0 <= i < |t.calls| && t.calls[i].AwaitFinally?
      ensures t.calls[i].invocation < |t.log|
      ensures t.log[t.calls[i].invocation].result.FinallyPending?
      ensures t.log[t.calls[i].invocation].settled.None?
    {
      assert t.calls[i] == s.calls[i];
    }
  }

  lemma StepInv(s: State, e: Event)
    requires Inv(s)
    ensures Inv(Step(s, e))
  {
    match e
    case Invoke(cb, c, arg, acts, res, fin) =>
      if Installed(s.source, cb) {
        InvokeInv(s, cb, c, acts, res, fin);
      }
    case Signal(act) =>
    case Settle(i, o) =>
      if i < |s.calls| && s.calls[i].AwaitInner? {
        SettleInv(s, i, o);
      }
    case Handle(i, fin) =>
      if i < |s.calls| && s.calls[i].Caught? {
        HandleInv(s, i, fin);
      }
    case FinallySettles(k, o) =>
      if k < |s.log| && s.log[k].result.FinallyPending? && s.log[k].settled.None? {
        FinallySettlesInv(s, k, o);
      }
  }

  lemma {:induction false} RunInv(s: State, events: seq<Event>)
    requires Inv(s)
    ensures Inv(Run(s, events))
    decreases |events|
  {
    if |events| > 0 {
      StepInv(s, events[0]);
      RunInv(Step(s, events[0]), events[1..]);
    }
  }

  // ---------------------------------------------------------------------
  // Properties
  // ---------------------------------------------------------------------

  /** `closing` is only ever set, never cleared. */
  lemma ClosingMonotone(s: State, e: Event)
    requires s.closing
    ensures Step(s, e).closing
  {
  }

  lemma {:induction false} ClosingStaysSet(s: State, events: seq<Event>)
    requires s.closing
    ensures Run(s, events).closing
    decreases |events|
  {
    if |events| > 0 {
      ClosingMonotone(s, events[0]);
      ClosingStaysSet(Step(s, events[0]), events[1..]);
    }
  }

  /** Each wrapped call calls `finally()` at most once, so on every trace
      `finally()` runs at most as often as wrapped calls finished, and only
      once `closing` is set. */
  lemma FinallyAtMostOncePerCall(source: Source, events: seq<Event>)
    ensures var t := Run(Init(source), events);
      && |t.log| + PendingCount(t.calls) <= |t.calls|
      && (|t.log| > 0 ==> t.closing)
  {
    RunInv(Init(source), events);
  }

  /** Nothing is memoised: a wrapped call that finishes synchronously calls
      `finally()` exactly when `closing` is set once its user callback has
      run (and its throw, if any, has set it), so once `closing` is set every
      such call calls `finally()` again. */
  lemma EverySyncCallCallsFinally(s: State, cb: Callback, c: nat, arg: Payload,
                                  acts: seq<ControllerCall>, out: Outcome, fin: FinallyResult)
    requires Installed(s.source, cb)
    ensures var t := Step(s, Invoke(cb, c, arg, acts, Sync(out), fin));
      && (s.closing ==> t.closing)
      && t.log == (if t.closing then s.log + [FinallyCall(fin, None)] else s.log)
  {
  }

  /** The rejection handler of a callback's thenable sets `closing` exactly
      when the thenable rejected; it never calls `finally()`. */
  lemma SettleSetsClosing(s: State, i: nat, o: Outcome)
    requires i < |s.calls| && s.calls[i].AwaitInner?
    ensures var t := Step(s, Settle(i, o));
      && (t.closing <==> s.closing || o.Err?)
      && t.log == s.log
      && t.calls == s.calls[i := Caught(o)]
  {
  }

  /** The `.finally` handler calls `finally()` exactly when `closing` is set
      by the time it runs, so once it is set every wrapped call whose
      thenable settles calls `finally()` again. */
  lemma EveryPendingCallCallsFinally(s: State, i: nat, fin: FinallyResult)
    requires i < |s.calls| && s.calls[i].Caught?
    ensures var t := Step(s, Handle(i, fin));
      && t.closing == s.closing
      && t.log == (if s.closing then s.log + [FinallyCall(fin, None)] else s.log)
  {
  }

  /** A wrapped call that ends with `closing` unset never calls `finally()`
      and ends exactly as the user callback did. */
  lemma NotClosingNoFinally(s: State, cb: Callback, c: nat, arg: Payload,
                            acts: seq<ControllerCall>, out: Outcome, fin: FinallyResult)
    requires Installed(s.source, cb)
    requires !Step(s, Invoke(cb, c, arg, acts, Sync(out), fin)).closing
    ensures var t := Step(s, Invoke(cb, c, arg, acts, Sync(out), fin));
      t.log == s.log && t.calls == s.calls + [Settled(out)]
  {
  }

  /** The same for the `.finally` handler of a thenable: the call settles as
      its thenable did. */
  lemma NotClosingNoFinallyPending(s: State, i: nat, fin: FinallyResult)
    requires i < |s.calls| && s.calls[i].Caught?
    requires !s.closing
    ensures var t := Step(s, Handle(i, fin));
      t == s.(calls := s.calls[i := Settled(s.calls[i].outcome)])
  {
  }

  /** `controller.error(e)` does not set `closing`; `controller.close()` does. */
  lemma OnlyCloseIsIntercepted(s: State, act: ControllerCall)
    requires s.delegate.Some?
    ensures Step(s, Signal(act)).closing <==> s.closing || act.CloseCall?
    ensures Step(s, Signal(act)).log == s.log
  {
  }

  /** The cancel wrapper is always installed and sets `closing` before the
      optional user `cancel` runs, so cancelling calls `finally()`: at once
      when there is no user `cancel` or it finishes synchronously, from the
      `.finally` handler when it hands back a thenable. */
  lemma CancelCallsFinally(s: State, arg: Payload, acts: seq<ControllerCall>, result: SyncResult,
                           fin: FinallyResult)
    ensures var t := Step(s, Invoke(OnCancel, 0, arg, acts, result, fin));
      && t.closing
      && (result.Sync? || !s.source.hasCancel ==> t.log == s.log + [FinallyCall(fin, None)])
      && (result.Pending? && s.source.hasCancel ==> t.log == s.log && t.calls == s.calls + [AwaitInner])
  {
  }

  /** A synchronous throw of `e` sets `closing`; the call fails with `e`
      after `finally()`, or after its thenable if it returned one. */
  lemma SyncThrowRethrownAfterFinally(s: State, cb: Callback, c: nat, arg: Payload,
                                      acts: seq<ControllerCall>, e: Payload, fin: FinallyResult)
    requires Installed(s.source, cb)
    requires cb.OnCancel? ==> s.source.hasCancel
    requires IsTruthy(e)
    ensures var t := Step(s, Invoke(cb, c, arg, acts, Sync(Err(e)), fin));
      && t.closing
      && t.log == s.log + [FinallyCall(fin, None)]
      && t.calls[|s.calls|] == (match fin
                                case FinallyReturned => Settled(Err(e))
                                case FinallyThrew(x) => Settled(Err(x))
                                case FinallyPending => AwaitFinally(Err(e), |s.log|))
  {
  }

  /** Once built, the delegate handed to `start` and `pull` never changes. */
  lemma {:induction false} DelegateBuiltOnce(s: State, events: seq<Event>)
    requires s.delegate.Some?
    ensures Run(s, events).delegate == s.delegate
    decreases |events|
  {
    if |events| > 0 {
      assert Step(s, events[0]).delegate == s.delegate;
      DelegateBuiltOnce(Step(s, events[0]), events[1..]);
    }
  }

  /** `start` closes the controller, then the stream is cancelled: with no
      memo `finally()` runs twice. */
  lemma FinallyRunsTwice(c: nat)
    ensures var t := Run(Init(Source(true, false, false)),
                         [Invoke(OnStart, c, Undefined, [CloseCall], Sync(Ok(Undefined)), FinallyReturned),
                          Invoke(OnCancel, 0, Undefined, [], Sync(Ok(Undefined)), FinallyReturned)]);
      |t.log| == 2 && t.calls == [Settled(Ok(Undefined)), Settled(Ok(Undefined))]
  {
    RunTwo(Init(Source(true, false, false)),
           Invoke(OnStart, c, Undefined, [CloseCall], Sync(Ok(Undefined)), FinallyReturned),
           Invoke(OnCancel, 0, Undefined, [], Sync(Ok(Undefined)), FinallyReturned));
  }

  /** An async `pull` that rejects with `e`: the rejection handler sets
      `closing`, the `.finally` handler runs `finally()`, and its thenable is
      awaited before the pull rejects. */
  lemma PullRejectsAwaitsFinally(c: nat, e: Payload)
    ensures var s0 := Init(Source(false, true, false));
      var s1 := Step(s0, Invoke(OnPull, c, Undefined, [], Pending, FinallyReturned));
      var s2 := Step(s1, Settle(0, Err(e)));
      var s3 := Step(s2, Handle(0, FinallyPending));
      var s4 := Step(s3, FinallySettles(0, Ok(Undefined)));
      && s2.closing && s2.log == []
      && s3.calls == [AwaitFinally(Err(e), 0)] && s3.log == [FinallyCall(FinallyPending, None)]
      && s4.calls == [Settled(Err(e))]
  {
    var s0 := Init(Source(false, true, false));
    var s1 := Step(s0, Invoke(OnPull, c, Undefined, [], Pending, FinallyReturned));
    var s2 := Step(s1, Settle(0, Err(e)));
    var s3 := Step(s2, Handle(0, FinallyPending));
    assert s3.calls == [AwaitFinally(Err(e), 0)];
    var s4 := Step(s3, FinallySettles(0, Ok(Undefined)));
    assert s4.calls[0] == Settled(Err(e));
  }

  /** A `pull` whose thenable fulfils while `closing` is unset, followed by a
      `close()` from user code before its `.finally` handler runs: the
      handler sees `closing` and runs `finally()`. */
  lemma CloseBetweenHandlers(c: nat, v: Payload)
    ensures var s0 := Init(Source(false, true, false));
      var s1 := Step(s0, Invoke(OnPull, c, Undefined, [], Pending, FinallyReturned));
      var s2 := Step(s1, Settle(0, Ok(v)));
      var s3 := Step(s2, Signal(CloseCall));
      var s4 := Step(s3, Handle(0, FinallyReturned));
      && !s2.closing
      && s4.log == [FinallyCall(FinallyReturned, None)] && s4.calls == [Settled(Ok(v))]
  {
  }
}
