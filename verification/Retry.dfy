/** The peer client's retry loop (internal/peer/client.go, doWithRetry). */
module Retry {
  import opened Text

  datatype CallResult = Success | Transport(message: string) | Api(status: int)

  /** What the environment does at attempt n: whether the caller's context ends during the wait before it,
      what the call returns, and whether the context has ended by then. */
  datatype Try = Try(waitCancelled: bool, result: CallResult, done: bool)

  datatype Outcome =
    | Delivered
    | CancelledWaiting
    | Cancelled(err: CallResult)
    | Unauthorized(status: int)
    | Rejected(status: int)
    | Unavailable(last: Option<CallResult>)

  /** The outcome a call settles on its own; None means transport error or 5xx, retryable. */
  function Settles(t: Try): Option<Outcome> {
    if t.result.Success? then Some(Delivered)
    else if t.done then Some(Cancelled(t.result))
    else if t.result.Api? && (t.result.status == 401 || t.result.status == 403) then Some(Unauthorized(t.result.status))
    else if t.result.Api? && t.result.status < 500 then Some(Rejected(t.result.status))
    else None
  }

  function CallsFrom(retries: int, env: nat -> Try, n: nat): (calls: nat)
    requires n <= Max(0, retries + 1)
    ensures n <= calls <= Max(0, retries + 1)
    decreases retries + 1 - n
  {
    if n > retries || (n > 0 && env(n).waitCancelled) then n
    else if Settles(env(n)).Some? then n + 1
    else CallsFrom(retries, env, n + 1)
  }

  function Max(a: int, b: int): int { if a < b then b else a }

  /** How often fn is called. */
  function Calls(retries: int, env: nat -> Try): nat { CallsFrom(retries, env, 0) }

  /** A transport error or a server error, with the caller still there. */
  predicate Retryable(t: Try) { !t.done && (t.result.Transport? || (t.result.Api? && t.result.status >= 500)) }

  /** doWithRetry. Every call but the last was retryable and every wait in between completed; the loop stops at
      the first settled call, at the first cancelled wait, or after 1 + retries calls, and only the last case
      is ErrPeerUnavailable, wrapping the last error. */
  method DoWithRetry(retries: int, env: nat -> Try) returns (out: Outcome, calls: nat)
    ensures calls == Calls(retries, env)
    ensures calls <= Max(0, retries + 1)
    ensures forall n: nat :: n + 1 < calls ==> Settles(env(n)).None?
    ensures forall n: nat :: 1 <= n < calls ==> !env(n).waitCancelled
    ensures out.CancelledWaiting? ==> 1 <= calls <= retries && env(calls).waitCancelled && Settles(env(calls - 1)).None?
    ensures out.Unavailable? <==> calls == Max(0, retries + 1) && (calls > 0 ==> Settles(env(calls - 1)).None?)
    ensures out.Unavailable? ==> out.last == if calls == 0 then None else Some(env(calls - 1).result)
    ensures !out.Unavailable? && !out.CancelledWaiting? ==> calls > 0 && Settles(env(calls - 1)) == Some(out)
    ensures forall n: nat :: n + 1 < calls ==> Retryable(env(n))
    ensures out == Delivered <==> calls > 0 && env(calls - 1).result == Success
    ensures out.Cancelled? <==> calls > 0 && !env(calls - 1).result.Success? && env(calls - 1).done
    ensures out.Cancelled? ==> out.err == env(calls - 1).result
    ensures out.Unauthorized? <==> calls > 0 && !env(calls - 1).done && env(calls - 1).result in {Api(401), Api(403)}
    ensures out.Unauthorized? ==> env(calls - 1).result == Api(out.status)
    ensures out.Rejected? <==>
              calls > 0 && !env(calls - 1).done && env(calls - 1).result.Api? && env(calls - 1).result.status < 500
              && env(calls - 1).result.status != 401 && env(calls - 1).result.status != 403
    ensures out.Rejected? ==> env(calls - 1).result == Api(out.status)
    ensures out.Unavailable? <==> calls == Max(0, retries + 1) && (calls > 0 ==> Retryable(env(calls - 1)))
  {
    var lastErr: Option<CallResult> := None;
    var attempt := 0;
    while attempt <= retries
      invariant 0 <= attempt <= Max(0, retries + 1)
      invariant Calls(retries, env) == CallsFrom(retries, env, attempt)
      invariant forall n: nat :: n < attempt ==> Settles(env(n)).None?
      invariant forall n: nat :: 1 <= n < attempt ==> !env(n).waitCancelled
      invariant lastErr == if attempt == 0 then None else Some(env(attempt - 1).result)
    {
      if attempt > 0 && env(attempt).waitCancelled {
        return CancelledWaiting, attempt;
      }
      var t := env(attempt);
      if t.result.Success? {
        return Delivered, attempt + 1;
      }
      if t.done {
        return Cancelled(t.result), attempt + 1;
      }
      if t.result.Api? {
        if t.result.status == 401 || t.result.status == 403 {
          return Unauthorized(t.result.status), attempt + 1;
        }
        if t.result.status < 500 {
          return Rejected(t.result.status), attempt + 1;
        }
      }
      lastErr := Some(t.result);
      attempt := attempt + 1;
    }
    return Unavailable(lastErr), attempt;
  }
}
