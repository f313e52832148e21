/**
 * The outcome of one poll (`Async`, `Poll<T, E>`) and the `try_ready!`
 * macro of futures/src/lib.rs, which unwraps a ready value and propagates
 * both `Pending` and errors to the caller by returning early.
 */
module Poll {
  import opened Core

  /** `Async<T>`: a poll either finished with a value or is not ready yet. */
  datatype Async<+T> = Ready(value: T) | Pending

  /** `Poll<T, E> = Result<Async<T>, E>`. */
  type PollResult<T, E> = Result<Async<T>, E>

  /**
   * What `try_ready!` can return early with: `Ok(Pending)` or an error;
   * there is no way to return early with a ready value.
   */
  datatype Early<+F> = ReturnPending | ReturnErr(error: F)

  /** The early return as a value of the enclosing function's `Poll<U, F>`. */
  function EarlyPoll<U, F>(e: Early<F>): (r: PollResult<U, F>)
    ensures r.Ok? <==> e.ReturnPending?
    ensures r.Ok? ==> r.value.Pending?
    ensures r.Err? ==> r.error == e.error
  {
    match e
    case ReturnPending => Ok(Pending)
    case ReturnErr(f) => Err(f)
  }

  /**
   * How a macro expression hands control back to the enclosing function:
   * either evaluation continues with a value, or the enclosing function
   * returns right away.
   */
  datatype Flow<+T, +F> = Continue(value: T) | EarlyReturn(early: Early<F>)

  /**
   * `try_ready!(p)`, where `from` is the `From<E> for F` conversion
   * applied to a propagated error.
   */
  function TryReady<T, E, F>(p: PollResult<T, E>, from: E -> F): (r: Flow<T, F>)
    // evaluation continues exactly on `Ok(Ready(t))`, and then with `t`
    ensures r.Continue? <==> p.Ok? && p.value.Ready?
    ensures r.Continue? ==> p == Ok(Ready(r.value))
    // `Ok(Pending)` is propagated as `Pending`, and only it
    ensures r == EarlyReturn(ReturnPending) <==> p == Ok(Pending)
    // an error is propagated as an error, converted by `From::from`
    ensures (r.EarlyReturn? && r.early.ReturnErr?) <==> p.Err?
    ensures p.Err? ==> r == EarlyReturn(ReturnErr(from(p.error)))
  {
    match p
    case Ok(Ready(t)) => Continue(t)
    case Ok(Pending) => EarlyReturn(ReturnPending)
    case Err(e) => EarlyReturn(ReturnErr(from(e)))
  }

  /**
   * The enclosing poll function `{ let t = try_ready!(p); rest(t) }`: the
   * value it returns, whether `try_ready!` returned early or not.
   */
  function PollThen<T, U, E, F>(p: PollResult<T, E>, from: E -> F, rest: T -> PollResult<U, F>): PollResult<U, F>
  {
    match TryReady(p, from)
    case Continue(t) => rest(t)
    case EarlyReturn(e) => EarlyPoll(e)
  }

  /** Rebuilds the poll result that a `Flow` came from (the inverse of `TryReady` without conversion). */
  function Resume<T, E>(f: Flow<T, E>): PollResult<T, E>
  {
    match f
    case Continue(t) => Ok(Ready(t))
    case EarlyReturn(e) => EarlyPoll(e)
  }

  /**
   * With the identity conversion (`From<E> for E`), `try_ready!` loses no
   * information: the poll result can be rebuilt from the flow it produced.
   */
  lemma {:induction false} TryReadyRoundTrip<T, E>(p: PollResult<T, E>)
    ensures Resume(TryReady(p, (e: E) => e)) == p
  {
  }

  /**
   * The three outcomes of a poll function that starts with `try_ready!`:
   * only a ready value reaches the rest of the body; `Pending` and errors
   * are what the function returns, whatever the rest would have done.
   */
  lemma {:induction false} PollThenCases<T, U, E, F>(p: PollResult<T, E>, from: E -> F, rest: T -> PollResult<U, F>)
    ensures p.Ok? && p.value.Ready? ==> PollThen(p, from, rest) == rest(p.value.value)
    ensures p == Ok(Pending) ==> PollThen(p, from, rest) == Ok(Pending)
    ensures p.Err? ==> PollThen(p, from, rest) == Err(from(p.error))
  {
  }
}
