/**
 Values, outcomes and the "settle after cleanup" step shared by the three
 stream wrappers.

 The wrappers never look inside the values that flow through them: they only
 ask whether a value is truthy (`if (error)`) and whether it is a thenable.
 Thenables are not values here: a callback that hands back a thenable is
 modelled as `Pending`, and the later settlement of that thenable is a
 separate event of the wrapper's state machine.
 */
module Settlement {

  /** A JavaScript value as the wrappers see it. `Falsy` stands for `null`,
      `false`, `0`, `""` and `NaN`; the tag keeps distinct values distinct. */
  datatype Payload = Undefined | Falsy(tag: nat) | Truthy(tag: nat)

  predicate IsTruthy(p: Payload) {
    p.Truthy?
  }

  datatype Option<+T> = None | Some(value: T)

  /** How a call ended: it returned (or resolved to) a value, or it threw
      (or rejected with) one. */
  datatype Outcome = Ok(value: Payload) | Err(error: Payload)

  /** What a user callback hands back when it is called: an outcome known at
      once, or a thenable that settles later. */
  datatype SyncResult = Sync(outcome: Outcome) | Pending

  /** What the user's `finally` hook does when it is called: it returns a
      plain value, throws, or returns a thenable that settles later. */
  datatype FinallyResult = FinallyReturned | FinallyThrew(error: Payload) | FinallyPending

  /** Where one wrapped call stands, as the stream engine sees it. */
  datatype Phase =
      /** the user callback returned a thenable that has not settled yet */
    | AwaitInner
      /** that thenable settled as `outcome` and its rejection handler has
          run; the `.finally` handler, a later microtask, has not run yet */
    | Caught(outcome: Outcome)
      /** the call will settle as `after` once the pending result of the
          `invocation`-th call of `finally` fulfils */
    | AwaitFinally(after: Outcome, invocation: nat)
    | Settled(outcome: Outcome)

  /** The memoised result of the first `finally` call that did not throw:
      a plain value, or the thenable it returned (with its settlement once
      known). `invocation` is that call's position in the wrapper's log. */
  datatype Memo = MemoValue | MemoPromise(invocation: nat, settled: Option<Outcome>)

  /** The delegate controller is built over the first controller a wrapper
      sees and cached; later controllers are ignored. Controllers are
      identified by number. */
  function WrapController(delegate: Option<nat>, controller: nat): (r: Option<nat>)
    ensures delegate.Some? ==> r == delegate
    ensures delegate.None? ==> r == Some(controller)
  {
    if delegate.Some? then delegate else Some(controller)
  }

  /** The end of a synchronous wrapped call: `if (error) throw error; return result`.
      A thrown value that is falsy is dropped and the call returns `undefined`. */
  function Surface(out: Outcome): (r: Outcome)
    ensures r.Err? <==> out.Err? && IsTruthy(out.error)
    ensures r.Err? || out.Ok? ==> r == out
    ensures r != out ==> r == Ok(Undefined)
  {
    match out
    case Ok(_) => out
    case Err(e) => if IsTruthy(e) then out else Ok(Undefined)
  }

  /** What a synchronous wrapped call can end with: never a falsy throw. The
      outcome passes through unchanged exactly when it is not a falsy throw,
      and surfacing twice changes nothing more. */
  lemma SurfaceNormalizes(out: Outcome)
    ensures !(Surface(out).Err? && !IsTruthy(Surface(out).error))
    ensures Surface(out) == out <==> !(out.Err? && !IsTruthy(out.error))
    ensures Surface(Surface(out)) == Surface(out)
  {
  }

  /** Waiting for a cleanup thenable and then settling as `after`: a rejected
      cleanup replaces the call's own outcome, a fulfilled one leaves it. */
  function Chain(after: Outcome, cleanup: Outcome): (r: Outcome)
    ensures cleanup.Ok? ==> r == after
    ensures cleanup.Err? ==> r == cleanup
  {
    if cleanup.Err? then cleanup else after
  }

  /** What a call that finds `finally` already memoised does with the stored
      result before settling as `after`. */
  function AwaitStored(m: Memo, after: Outcome): (p: Phase)
    ensures m.MemoValue? ==> p == Settled(after)
    ensures m.MemoPromise? && m.settled.None? ==> p == AwaitFinally(after, m.invocation)
    ensures m.MemoPromise? && m.settled.Some? ==> p == Settled(Chain(after, m.settled.value))
  {
    match m
    case MemoValue => Settled(after)
    case MemoPromise(k, None) => AwaitFinally(after, k)
    case MemoPromise(_, Some(o)) => Settled(Chain(after, o))
  }

  function Wake(p: Phase, k: nat, o: Outcome): Phase {
    if p.AwaitFinally? && p.invocation == k then Settled(Chain(p.after, o)) else p
  }

  /** The `finally` invocation number `k` settles as `o`: every call waiting on
      it settles, and no other call changes. */
  function Release(calls: seq<Phase>, k: nat, o: Outcome): (r: seq<Phase>)
    ensures |r| == |calls|
    ensures forall i :: 0 <= i < |r| ==> !(r[i].AwaitFinally? && r[i].invocation == k)
    ensures forall i :: 0 <= i < |r| && calls[i].AwaitFinally? && calls[i].invocation == k ==>
              r[i] == Settled(Chain(calls[i].after, o))
    ensures forall i :: 0 <= i < |r| && !(calls[i].AwaitFinally? && calls[i].invocation == k) ==>
              r[i] == calls[i]
  {
    seq(|calls|, i requires 0 <= i < |calls| => Wake(calls[i], k, o))
  }

  /** What `cleanup` hands back to its caller: the one-element array built
      around the first result, the stored result on every later call, or the
      exception `finally` threw. */
  datatype Trigger = Tuple | Stored(memo: Memo) | Raised(error: Payload)

  /** The memo a first call of `finally`, number `invocation`, leaves. */
  function MemoOf(fin: FinallyResult, invocation: nat): Memo {
    if fin.FinallyPending? then MemoPromise(invocation, None) else MemoValue
  }

  /** The memo a returned `finally` call at position `k` leaves, up to the
      settlement its thenable has reached since. */
  function MemoFor(result: FinallyResult, k: nat, current: Memo): Memo {
    if result.FinallyPending? then MemoPromise(k, if current.MemoPromise? then current.settled else None)
    else MemoValue
  }

  /** How a call whose own outcome is `after` ends, given the reason recorded
      and the memo found when it finishes and what `finally` does if it is
      called: untouched with no reason or with a stored plain value, with the
      error `finally` throws, waiting on a pending stored thenable, or with
      the rejection of a stored thenable that settled. */
  ghost predicate EndsAs<W>(p: Phase, why: Option<W>, memo: Option<Memo>, after: Outcome, fin: FinallyResult) {
    && (why.None? ==> p == Settled(after))
    && (why.Some? && memo.None? && !fin.FinallyThrew? ==> p == Settled(after))
    && (why.Some? && memo.None? && fin.FinallyThrew? ==> p == Settled(Err(fin.error)))
    && (why.Some? && memo == Some(MemoValue) ==> p == Settled(after))
    && (why.Some? && memo.Some? && memo.value.MemoPromise? && memo.value.settled.None? ==>
          p == AwaitFinally(after, memo.value.invocation))
    && (why.Some? && memo.Some? && memo.value.MemoPromise? && memo.value.settled.Some? ==>
          p == Settled(if memo.value.settled.value.Err? then memo.value.settled.value else after))
  }
}
