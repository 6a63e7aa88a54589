/**
 * The per-request counters that golb.go keeps in the request context under
 * the keys Attempts and Retry. A fresh request carries neither.
 */
module Counters {
  import opened PoolSpec

  /** The values stored under the Attempts and Retry keys, None when absent. */
  datatype Context = Context(attempts: Option<int>, retry: Option<int>)

  /** The context of a new inbound request. */
  const Fresh: Context := Context(None, None)

  /** GetAttemptsFromContext: the stored count, 1 when absent. */
  function GetAttempts(ctx: Context): int {
    match ctx.attempts
    case Some(a) => a
    case None => 1
  }

  /** GetRetryFromContext: the stored count, 0 when absent. */
  function GetRetry(ctx: Context): int {
    match ctx.retry
    case Some(r) => r
    case None => 0
  }

  /** context.WithValue(ctx, Attempts, v). */
  function WithAttempts(ctx: Context, v: int): Context {
    ctx.(attempts := Some(v))
  }

  /** context.WithValue(ctx, Retry, v). */
  function WithRetry(ctx: Context, v: int): Context {
    ctx.(retry := Some(v))
  }

  /** A request that carries no counters counts as its first attempt with no retries. */
  lemma FreshDefaults()
    ensures GetAttempts(Fresh) == 1 && GetRetry(Fresh) == 0
  {
  }

  /** Storing an attempts count is read back by GetAttempts and leaves the retry count alone. */
  lemma WithAttemptsReadBack(ctx: Context, v: int)
    ensures GetAttempts(WithAttempts(ctx, v)) == v
    ensures GetRetry(WithAttempts(ctx, v)) == GetRetry(ctx)
  {
  }

  /** Storing a retry count is read back by GetRetry and leaves the attempts count alone. */
  lemma WithRetryReadBack(ctx: Context, v: int)
    ensures GetRetry(WithRetry(ctx, v)) == v
    ensures GetAttempts(WithRetry(ctx, v)) == GetAttempts(ctx)
  {
  }
}
