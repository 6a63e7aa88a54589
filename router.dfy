/**
 * Request routing with retry and failover. `lb` (golb.go) picks a live peer
 * and forwards; when a forward fails, the backend's error handler (main.go)
 * either retries the same backend or marks it dead and re-enters `lb` with
 * one more attempt. HTTP forwarding is an oracle: the k-th forward made for
 * the request succeeds exactly when ok(k).
 *
 * Route, Relay and Recover give the value-level meaning of `lb`, of one
 * forward through a backend's reverse proxy, and of its error handler; the
 * methods Lb, ServeProxy and ErrorHandler do the same on a ServerPool object
 * and are proved to agree with them.
 */
module Router {
  import opened PoolSpec
  import opened Counters
  import opened Pool

  /** lb answers "service not available" once attempts exceed this. */
  const MaxAttempts: int := 3
  /** The error handler retries the same backend while retries are below this. */
  const MaxRetries: int := 3

  /** How a request ends: 503 "service not available", or answered by the backend with this URL. */
  datatype Response = Unavailable | Served(url: string)

  /** One forward through a backend's proxy, with the counters the request carried. */
  datatype Forward = Forward(url: string, attempts: int, retries: int)

  /** How a request ends, the pool after it, and every forward made for it, in order. */
  datatype Run = Run(response: Response, pool: PoolState, forwards: seq<Forward>)

  /** The error handler's decision on a failed forward, with the context it continues with. */
  datatype Action = RetrySame(next: Context) | Failover(next: Context)

  /**
   * The error handler's decision: while retries are below MaxRetries it
   * retries the same backend with one more retry; otherwise it fails over
   * with one more attempt and the retry count left as it was.
   */
  function OnError(ctx: Context): (act: Action)
    ensures act.RetrySame? <==> GetRetry(ctx) < MaxRetries
    ensures act.RetrySame? ==> GetRetry(act.next) == GetRetry(ctx) + 1 && GetAttempts(act.next) == GetAttempts(ctx)
    ensures act.Failover? ==> GetAttempts(act.next) == GetAttempts(ctx) + 1 && GetRetry(act.next) == GetRetry(ctx)
  {
    var retries := GetRetry(ctx);
    if retries < MaxRetries then RetrySame(WithRetry(ctx, retries + 1))
    else Failover(WithAttempts(ctx, GetAttempts(ctx) + 1))
  }

  /** The pool after ChangeBackendStatus(u, false). */
  function MarkDead(s: PoolState, u: string): (r: PoolState)
    requires s.Wf()
    ensures r.Wf() && r.urls == s.urls && r.current == s.current
  {
    s.(alive := MarkFirst(s.urls, s.alive, u, false))
  }

  /** `lb`: the attempts cutoff, then peer selection, then one forward to the peer. */
  function Route(s: PoolState, ctx: Context, k: nat, ok: nat -> bool): Run
    requires s.Wf()
    decreases MaxAttempts + 1 - GetAttempts(ctx), MaxRetries - GetRetry(ctx), 2
  {
    if GetAttempts(ctx) > MaxAttempts then Run(Unavailable, s, [])
    else
      var sel := Select(s.alive, s.current);
      var s' := s.(current := sel.cursor);
      match sel.peer
      case None => Run(Unavailable, s', [])
      case Some(i) => Relay(s', s.urls[i], ctx, k, ok)
  }

  /** One forward through the proxy of the backend with URL u; a failure goes to its error handler. */
  function Relay(s: PoolState, u: string, ctx: Context, k: nat, ok: nat -> bool): Run
    requires s.Wf() && GetAttempts(ctx) <= MaxAttempts
    decreases MaxAttempts + 1 - GetAttempts(ctx), MaxRetries - GetRetry(ctx), 1
  {
    var here := Forward(u, GetAttempts(ctx), GetRetry(ctx));
    if ok(k) then Run(Served(u), s, [here])
    else
      var rest := Recover(s, u, ctx, k + 1, ok);
      Run(rest.response, rest.pool, [here] + rest.forwards)
  }

  /** The error handler of the backend with URL u, after k forwards. */
  function Recover(s: PoolState, u: string, ctx: Context, k: nat, ok: nat -> bool): Run
    requires s.Wf() && GetAttempts(ctx) <= MaxAttempts
    decreases MaxAttempts + 1 - GetAttempts(ctx), MaxRetries - GetRetry(ctx), 0
  {
    match OnError(ctx)
    case RetrySame(next) => Relay(s, u, next, k, ok)
    case Failover(next) => Route(MarkDead(s, u), next, k, ok)
  }

  /** `lb` on the pool: 503 past the attempts limit or without a live peer, else a forward to the peer. */
  method Lb(pool: ServerPool, ctx: Context, ok: nat -> bool, k: nat) returns (resp: Response, fw: seq<Forward>)
    requires pool.Valid() && |pool.backends| > 0
    modifies pool, pool.backends
    ensures pool.Valid() && pool.backends == old(pool.backends)
    ensures var run := Route(old(pool.State()), ctx, k, ok);
            resp == run.response && fw == run.forwards && pool.State() == run.pool
    decreases MaxAttempts + 1 - GetAttempts(ctx), MaxRetries - GetRetry(ctx), 2
  {
    var attempts := GetAttempts(ctx);
    if attempts > MaxAttempts {
      return Unavailable, [];
    }
    ghost var s0 := pool.State();
    ghost var sel := Select(s0.alive, s0.current);
    var peer := pool.GetNextPeer();
    assert pool.Urls() == s0.urls;
    assert pool.State() == s0.(current := sel.cursor);
    if peer != null {
      assert peer.url == s0.urls[sel.peer.value];
      resp, fw := ServeProxy(pool, peer.url, ctx, ok, k);
      return;
    }
    return Unavailable, [];
  }

  /** The reverse proxy of the backend with URL u forwards the request; a failure runs its error handler. */
  method ServeProxy(pool: ServerPool, u: string, ctx: Context, ok: nat -> bool, k: nat) returns (resp: Response, fw: seq<Forward>)
    requires pool.Valid() && |pool.backends| > 0 && GetAttempts(ctx) <= MaxAttempts
    modifies pool, pool.backends
    ensures pool.Valid() && pool.backends == old(pool.backends)
    ensures var run := Relay(old(pool.State()), u, ctx, k, ok);
            resp == run.response && fw == run.forwards && pool.State() == run.pool
    decreases MaxAttempts + 1 - GetAttempts(ctx), MaxRetries - GetRetry(ctx), 1
  {
    var here := Forward(u, GetAttempts(ctx), GetRetry(ctx));
    if ok(k) {
      return Served(u), [here];
    }
    var rest;
    resp, rest := ErrorHandler(pool, u, ctx, ok, k + 1);
    fw := [here] + rest;
  }

  /**
   * The ErrorHandler closure of the backend with URL serverUrl: retry the
   * same backend while retries are below MaxRetries, otherwise mark that URL
   * dead and re-enter lb with one more attempt, the retry count unchanged.
   */
  method ErrorHandler(pool: ServerPool, serverUrl: string, ctx: Context, ok: nat -> bool, k: nat) returns (resp: Response, fw: seq<Forward>)
    requires pool.Valid() && |pool.backends| > 0 && GetAttempts(ctx) <= MaxAttempts
    modifies pool, pool.backends
    ensures pool.Valid() && pool.backends == old(pool.backends)
    ensures var run := Recover(old(pool.State()), serverUrl, ctx, k, ok);
            resp == run.response && fw == run.forwards && pool.State() == run.pool
    decreases MaxAttempts + 1 - GetAttempts(ctx), MaxRetries - GetRetry(ctx), 0
  {
    var retries := GetRetry(ctx);
    if retries < MaxRetries {
      resp, fw := ServeProxy(pool, serverUrl, WithRetry(ctx, retries + 1), ok, k);
      return;
    }
    pool.ChangeBackendStatus(serverUrl, false);
    var attempts := GetAttempts(ctx);
    resp, fw := Lb(pool, WithAttempts(ctx, attempts + 1), ok, k);
  }

  /** Past the attempts limit lb answers 503 without selecting a peer: the cursor stays and nothing is forwarded. */
  lemma RouteOverLimit(s: PoolState, ctx: Context, k: nat, ok: nat -> bool)
    requires s.Wf() && GetAttempts(ctx) > MaxAttempts
    ensures Route(s, ctx, k, ok) == Run(Unavailable, s, [])
  {
  }

  /** With no live backend lb answers 503 after one cursor increment, forwarding nothing. */
  lemma RouteNoLivePeer(s: PoolState, ctx: Context, k: nat, ok: nat -> bool)
    requires s.Wf() && GetAttempts(ctx) <= MaxAttempts
    requires forall i :: 0 <= i < |s.alive| ==> !s.alive[i]
    ensures Route(s, ctx, k, ok) == Run(Unavailable, s.(current := Inc(s.current)), [])
  {
    SelectNoneIff(s.alive, s.current);
  }

  /**
   * Within the attempts limit and with some backend alive, lb forwards first
   * to the live peer that Select returns, with the request's counters, and a
   * successful forward ends the request there.
   */
  lemma RouteForwardsToSelectedPeer(s: PoolState, ctx: Context, k: nat, ok: nat -> bool)
    requires s.Wf() && GetAttempts(ctx) <= MaxAttempts
    requires exists i :: 0 <= i < |s.alive| && s.alive[i]
    ensures var sel := Select(s.alive, s.current);
            var run := Route(s, ctx, k, ok);
            && sel.peer.Some? && s.alive[sel.peer.value]
            && |run.forwards| > 0
            && run.forwards[0] == Forward(s.urls[sel.peer.value], GetAttempts(ctx), GetRetry(ctx))
            && (ok(k) ==> run == Run(Served(s.urls[sel.peer.value]), s.(current := sel.cursor), run.forwards[..1]))
  {
    SelectNoneIff(s.alive, s.current);
  }

  /**
   * A failed forward with retries below the limit is followed by a forward
   * to the same backend with one more retry, the pool left as it was.
   */
  lemma RetrySameBackend(s: PoolState, u: string, ctx: Context, k: nat, ok: nat -> bool)
    requires s.Wf() && GetAttempts(ctx) <= MaxAttempts && GetRetry(ctx) < MaxRetries && !ok(k)
    ensures var next := WithRetry(ctx, GetRetry(ctx) + 1);
            var rest := Relay(s, u, next, k + 1, ok);
            && Relay(s, u, ctx, k, ok) == Run(rest.response, rest.pool, [Forward(u, GetAttempts(ctx), GetRetry(ctx))] + rest.forwards)
            && rest.forwards[0] == Forward(u, GetAttempts(ctx), GetRetry(ctx) + 1)
  {
  }

  /**
   * A failed forward with retries exhausted marks the first backend with that
   * URL dead and re-enters lb with one more attempt and the same retry count.
   */
  lemma FailoverMarksDead(s: PoolState, u: string, ctx: Context, k: nat, ok: nat -> bool)
    requires s.Wf() && GetAttempts(ctx) <= MaxAttempts && GetRetry(ctx) >= MaxRetries && !ok(k)
    ensures var next := WithAttempts(ctx, GetAttempts(ctx) + 1);
            var rest := Route(MarkDead(s, u), next, k + 1, ok);
            && GetAttempts(next) == GetAttempts(ctx) + 1 && GetRetry(next) == GetRetry(ctx)
            && Relay(s, u, ctx, k, ok) == Run(rest.response, rest.pool, [Forward(u, GetAttempts(ctx), GetRetry(ctx))] + rest.forwards)
            && MarkDead(s, u).alive == MarkFirst(s.urls, s.alive, u, false)
  {
  }

  /** What a route or relay may do to the pool: URLs stay, and liveness only goes from alive to dead. */
  ghost predicate OnlyKills(before: PoolState, after: PoolState) {
    && after.urls == before.urls
    && |after.alive| == |before.alive|
    && forall i :: 0 <= i < |before.alive| && after.alive[i] ==> before.alive[i]
  }

  /** Routing a request never revives a backend and never changes the pool's URLs. */
  lemma {:induction false} RouteOnlyKills(s: PoolState, ctx: Context, k: nat, ok: nat -> bool)
    requires s.Wf()
    ensures OnlyKills(s, Route(s, ctx, k, ok).pool)
    decreases MaxAttempts + 1 - GetAttempts(ctx), MaxRetries - GetRetry(ctx), 2
  {
    if GetAttempts(ctx) <= MaxAttempts {
      var sel := Select(s.alive, s.current);
      if sel.peer.Some? {
        RelayOnlyKills(s.(current := sel.cursor), s.urls[sel.peer.value], ctx, k, ok);
      }
    }
  }

  /** Relaying through one backend, retries and failovers included, never revives a backend. */
  lemma {:induction false} RelayOnlyKills(s: PoolState, u: string, ctx: Context, k: nat, ok: nat -> bool)
    requires s.Wf() && GetAttempts(ctx) <= MaxAttempts
    ensures OnlyKills(s, Relay(s, u, ctx, k, ok).pool)
    decreases MaxAttempts + 1 - GetAttempts(ctx), MaxRetries - GetRetry(ctx), 1
  {
    if !ok(k) {
      match OnError(ctx)
      case RetrySame(next) =>
        RelayOnlyKills(s, u, next, k + 1, ok);
      case Failover(next) =>
        var s' := MarkDead(s, u);
        RouteOnlyKills(s', next, k + 1, ok);
        assert OnlyKills(s, s');
    }
  }

  /** Most forwards a request can still make, given its counters. */
  function ForwardLimit(ctx: Context): int {
    if GetAttempts(ctx) > MaxAttempts then 0
    else (if GetRetry(ctx) < MaxRetries then MaxRetries - GetRetry(ctx) else 0) + MaxAttempts + 1 - GetAttempts(ctx)
  }

  /** The retry/failover chain of one request terminates after at most ForwardLimit(ctx) forwards. */
  lemma {:induction false} RouteBound(s: PoolState, ctx: Context, k: nat, ok: nat -> bool)
    requires s.Wf()
    ensures |Route(s, ctx, k, ok).forwards| <= ForwardLimit(ctx)
    decreases MaxAttempts + 1 - GetAttempts(ctx), MaxRetries - GetRetry(ctx), 2
  {
    if GetAttempts(ctx) <= MaxAttempts {
      var sel := Select(s.alive, s.current);
      if sel.peer.Some? {
        RelayBound(s.(current := sel.cursor), s.urls[sel.peer.value], ctx, k, ok);
      }
    }
  }

  /** Relaying through one backend makes at most ForwardLimit(ctx) forwards, and at least one. */
  lemma {:induction false} RelayBound(s: PoolState, u: string, ctx: Context, k: nat, ok: nat -> bool)
    requires s.Wf() && GetAttempts(ctx) <= MaxAttempts
    ensures 1 <= |Relay(s, u, ctx, k, ok).forwards| <= ForwardLimit(ctx)
    decreases MaxAttempts + 1 - GetAttempts(ctx), MaxRetries - GetRetry(ctx), 1
  {
    if !ok(k) {
      match OnError(ctx)
      case RetrySame(next) =>
        RelayBound(s, u, next, k + 1, ok);
      case Failover(next) =>
        RouteBound(MarkDead(s, u), next, k + 1, ok);
    }
  }

  /**
   * A request is answered by a backend exactly when its last forward
   * succeeded, and by the backend of that forward; every earlier forward failed.
   */
  lemma {:induction false} RouteOutcome(s: PoolState, ctx: Context, k: nat, ok: nat -> bool)
    requires s.Wf()
    ensures var run := Route(s, ctx, k, ok);
            var fw := run.forwards;
            && (forall m :: k <= m < k + |fw| - 1 ==> !ok(m))
            && (run.response.Served? <==> |fw| > 0 && ok(k + |fw| - 1))
            && (run.response.Served? ==> run.response.url == fw[|fw| - 1].url)
    decreases MaxAttempts + 1 - GetAttempts(ctx), MaxRetries - GetRetry(ctx), 2
  {
    if GetAttempts(ctx) <= MaxAttempts {
      var sel := Select(s.alive, s.current);
      if sel.peer.Some? {
        RelayOutcome(s.(current := sel.cursor), s.urls[sel.peer.value], ctx, k, ok);
      }
    }
  }

  /** The outcome of relaying through one backend, retries and failovers included. */
  lemma {:induction false} RelayOutcome(s: PoolState, u: string, ctx: Context, k: nat, ok: nat -> bool)
    requires s.Wf() && GetAttempts(ctx) <= MaxAttempts
    ensures var run := Relay(s, u, ctx, k, ok);
            var fw := run.forwards;
            && |fw| > 0
            && (forall m :: k <= m < k + |fw| - 1 ==> !ok(m))
            && (run.response.Served? <==> ok(k + |fw| - 1))
            && (run.response.Served? ==> run.response.url == fw[|fw| - 1].url)
    decreases MaxAttempts + 1 - GetAttempts(ctx), MaxRetries - GetRetry(ctx), 1
  {
    if !ok(k) {
      match OnError(ctx)
      case RetrySame(next) =>
        RelayOutcome(s, u, next, k + 1, ok);
      case Failover(next) =>
        RouteOutcome(MarkDead(s, u), next, k + 1, ok);
    }
  }

  /**
   * The retry phase on one backend: starting with r retries, the first
   * MaxRetries + 1 - r forwards all go to u, with retries r, r + 1, ...
   */
  lemma {:induction false} RetryPhaseTargets(s: PoolState, u: string, ctx: Context, k: nat, ok: nat -> bool)
    requires s.Wf() && GetAttempts(ctx) <= MaxAttempts && GetRetry(ctx) <= MaxRetries
    ensures var fw := Relay(s, u, ctx, k, ok).forwards;
            forall j :: 0 <= j < |fw| && j < MaxRetries + 1 - GetRetry(ctx) ==>
              fw[j] == Forward(u, GetAttempts(ctx), GetRetry(ctx) + j)
    decreases MaxRetries - GetRetry(ctx)
  {
    var a := GetAttempts(ctx);
    var r := GetRetry(ctx);
    if !ok(k) && r < MaxRetries {
      RetrySameBackend(s, u, ctx, k, ok);
      var next := WithRetry(ctx, r + 1);
      RetryPhaseTargets(s, u, next, k + 1, ok);
      var fw := Relay(s, u, ctx, k, ok).forwards;
      var rest := Relay(s, u, next, k + 1, ok).forwards;
      assert fw == [Forward(u, a, r)] + rest;
      assert forall j :: 1 <= j < |fw| ==> fw[j] == rest[j - 1];
    }
  }

  /** The pool, response and forwards after a retry phase in which all MaxRetries + 1 - r forwards failed. */
  function AfterRetries(s: PoolState, u: string, ctx: Context, k: nat, ok: nat -> bool): Run
    requires s.Wf() && GetAttempts(ctx) <= MaxAttempts && GetRetry(ctx) <= MaxRetries
  {
    Route(MarkDead(s, u), Context(Some(GetAttempts(ctx) + 1), Some(MaxRetries)), k + MaxRetries + 1 - GetRetry(ctx), ok)
  }

  /**
   * If every forward of the retry phase fails, the rest of the request is lb
   * re-entered on the pool with u marked dead, one more attempt, and the
   * retry count left at MaxRetries.
   */
  lemma {:induction false} RetryPhaseExhausted(s: PoolState, u: string, ctx: Context, k: nat, ok: nat -> bool)
    requires s.Wf() && GetAttempts(ctx) <= MaxAttempts && GetRetry(ctx) <= MaxRetries
    requires forall m :: k <= m < k + MaxRetries + 1 - GetRetry(ctx) ==> !ok(m)
    ensures var run := Relay(s, u, ctx, k, ok);
            var h := MaxRetries + 1 - GetRetry(ctx);
            var after := AfterRetries(s, u, ctx, k, ok);
            |run.forwards| >= h && run.forwards[h..] == after.forwards && run.pool == after.pool && run.response == after.response
    decreases MaxRetries - GetRetry(ctx)
  {
    var a := GetAttempts(ctx);
    var r := GetRetry(ctx);
    if r < MaxRetries {
      RetrySameBackend(s, u, ctx, k, ok);
      var next := WithRetry(ctx, r + 1);
      RetryPhaseExhausted(s, u, next, k + 1, ok);
      assert AfterRetries(s, u, next, k + 1, ok) == AfterRetries(s, u, ctx, k, ok);
      var fw := Relay(s, u, ctx, k, ok).forwards;
      var rest := Relay(s, u, next, k + 1, ok).forwards;
      assert fw == [Forward(u, a, r)] + rest;
      assert fw[MaxRetries + 1 - r..] == rest[MaxRetries - r..];
    } else {
      FailoverMarksDead(s, u, ctx, k, ok);
      assert ctx.retry == Some(MaxRetries);
      assert WithAttempts(ctx, a + 1) == Context(Some(a + 1), Some(MaxRetries));
    }
  }

  /** If some forward of the retry phase succeeds, the request makes no more than MaxRetries + 1 - r forwards. */
  lemma {:induction false} RetryPhaseAnswered(s: PoolState, u: string, ctx: Context, k: nat, ok: nat -> bool)
    requires s.Wf() && GetAttempts(ctx) <= MaxAttempts && GetRetry(ctx) <= MaxRetries
    requires exists m :: k <= m < k + MaxRetries + 1 - GetRetry(ctx) && ok(m)
    ensures |Relay(s, u, ctx, k, ok).forwards| <= MaxRetries + 1 - GetRetry(ctx)
    decreases MaxRetries - GetRetry(ctx)
  {
    var r := GetRetry(ctx);
    if !ok(k) {
      if r < MaxRetries {
        RetrySameBackend(s, u, ctx, k, ok);
        RetryPhaseAnswered(s, u, WithRetry(ctx, r + 1), k + 1, ok);
      }
    }
  }

  /**
   * After the retries are exhausted every further forward goes to a
   * different backend, none of them already dead, each with one more attempt
   * and the retry count unchanged: retries are not reset on failover, so each
   * of them is tried once and marked dead on its first failure.
   */
  lemma {:induction false} ExhaustedRetriesVisitDistinct(s: PoolState, ctx: Context, k: nat, ok: nat -> bool, dead: set<string>)
    requires s.Wf() && DistinctUrls(s.urls) && GetRetry(ctx) >= MaxRetries
    requires forall i :: 0 <= i < |s.urls| && s.urls[i] in dead ==> !s.alive[i]
    ensures var fw := Route(s, ctx, k, ok).forwards;
            var a := GetAttempts(ctx);
            && |fw| <= (if a > MaxAttempts then 0 else MaxAttempts + 1 - a)
            && (forall j :: 0 <= j < |fw| ==> fw[j].url !in dead && fw[j].attempts == a + j && fw[j].retries == GetRetry(ctx))
            && (forall i, j :: 0 <= i < j < |fw| ==> fw[i].url != fw[j].url)
    decreases MaxAttempts + 1 - GetAttempts(ctx)
  {
    var a := GetAttempts(ctx);
    if a <= MaxAttempts {
      var sel := Select(s.alive, s.current);
      if sel.peer.Some? {
        var i := sel.peer.value;
        var u := s.urls[i];
        var s' := s.(current := sel.cursor);
        assert u !in dead;
        if !ok(k) {
          var next := WithAttempts(ctx, a + 1);
          var s'' := MarkDead(s', u);
          FailoverMarksDead(s', u, ctx, k, ok);
          assert Route(s, ctx, k, ok) == Relay(s', u, ctx, k, ok);
          MarkFirstDistinct(s'.urls, s'.alive, i, false);
          forall i' | 0 <= i' < |s''.urls| && s''.urls[i'] in dead + {u}
            ensures !s''.alive[i']
          {
            if s''.urls[i'] == u {
              assert i' == i;
            }
          }
          ExhaustedRetriesVisitDistinct(s'', next, k + 1, ok, dead + {u});
          var tail := Route(s'', next, k + 1, ok).forwards;
          var fw := Route(s, ctx, k, ok).forwards;
          assert fw == [Forward(u, a, GetRetry(ctx))] + tail;
          assert forall j :: 1 <= j < |fw| ==> fw[j] == tail[j - 1];
        }
      }
    }
  }

  /**
   * A fresh request on a pool of distinct URLs makes at most six forwards:
   * up to four to the first backend it selects, with retries 0 to 3, then at
   * most one to each of two further backends, all different, with attempts 2
   * and 3 and the retry count still 3.
   */
  lemma {:induction false} FreshRequestForwards(s: PoolState, k: nat, ok: nat -> bool)
    requires s.Wf() && DistinctUrls(s.urls)
    ensures FreshTrace(Route(s, Fresh, k, ok).forwards)
  {
    FreshDefaults();
    var sel := Select(s.alive, s.current);
    if sel.peer.Some? {
      var s' := s.(current := sel.cursor);
      var u := s.urls[sel.peer.value];
      assert Route(s, Fresh, k, ok) == Relay(s', u, Fresh, k, ok);
      FreshRelayForwards(s', u, k, ok);
    }
  }

  /** The shape of the forwards of a fresh request, as FreshRequestForwards states it. */
  ghost predicate FreshTrace(fw: seq<Forward>) {
    && |fw| <= 6
    && (forall j :: 0 <= j < |fw| && j < 4 ==> fw[j] == Forward(fw[0].url, 1, j))
    && (forall j :: 4 <= j < |fw| ==> fw[j].attempts == j - 2 && fw[j].retries == MaxRetries && fw[j].url != fw[0].url)
    && (forall i, j :: 4 <= i < j < |fw| ==> fw[i].url != fw[j].url)
  }

  /** A fresh request relayed through the backend with URL u, on a pool of distinct URLs, has that shape. */
  lemma {:induction false} FreshRelayForwards(s: PoolState, u: string, k: nat, ok: nat -> bool)
    requires s.Wf() && DistinctUrls(s.urls)
    ensures var fw := Relay(s, u, Fresh, k, ok).forwards;
            |fw| > 0 && fw[0].url == u && FreshTrace(fw)
  {
    FreshDefaults();
    RetryPhaseTargets(s, u, Fresh, k, ok);
    RelayBound(s, u, Fresh, k, ok);
    if forall m :: k <= m < k + 4 ==> !ok(m) {
      FreshRelayExhausted(s, u, k, ok);
    } else {
      RetryPhaseAnswered(s, u, Fresh, k, ok);
    }
  }

  /** After four forwards to u: at most two more, to distinct backends other than u, with attempts 2 and 3 and retries 3. */
  ghost predicate FailoverTail(fw: seq<Forward>, u: string) {
    && 4 <= |fw| <= 6
    && (forall j :: 4 <= j < |fw| ==> fw[j].attempts == j - 2 && fw[j].retries == MaxRetries && fw[j].url != u)
    && (forall i, j :: 4 <= i < j < |fw| ==> fw[i].url != fw[j].url)
  }

  /** When the four forwards of the retry phase fail, the later forwards go to distinct other backends. */
  lemma {:induction false} FreshRelayExhausted(s: PoolState, u: string, k: nat, ok: nat -> bool)
    requires s.Wf() && DistinctUrls(s.urls)
    requires forall m :: k <= m < k + 4 ==> !ok(m)
    ensures FailoverTail(Relay(s, u, Fresh, k, ok).forwards, u)
  {
    var fw := Relay(s, u, Fresh, k, ok).forwards;
    var s' := MarkDead(s, u);
    var next := Context(Some(2), Some(MaxRetries));
    FreshFailsOver(s, u, k, ok);
    MarkDeadKills(s, u);
    assert forall i :: 0 <= i < |s'.urls| && s'.urls[i] in {u} ==> !s'.alive[i];
    ExhaustedRetriesVisitDistinct(s', next, k + 4, ok, {u});
    var tail := Route(s', next, k + 4, ok).forwards;
    assert |fw| == 4 + |tail|;
    forall j | 4 <= j < |fw|
      ensures fw[j].attempts == j - 2 && fw[j].retries == MaxRetries && fw[j].url != u
    {
      assert fw[j] == tail[j - 4];
    }
    forall i, j | 4 <= i < j < |fw|
      ensures fw[i].url != fw[j].url
    {
      assert fw[i] == tail[i - 4] && fw[j] == tail[j - 4];
    }
  }

  /** For a fresh request whose four forwards to u fail, the rest is lb with u marked dead, attempts 2 and retries 3. */
  lemma FreshFailsOver(s: PoolState, u: string, k: nat, ok: nat -> bool)
    requires s.Wf()
    requires forall m :: k <= m < k + 4 ==> !ok(m)
    ensures var fw := Relay(s, u, Fresh, k, ok).forwards;
            |fw| >= 4 && fw[4..] == Route(MarkDead(s, u), Context(Some(2), Some(MaxRetries)), k + 4, ok).forwards
  {
    FreshDefaults();
    RetryPhaseExhausted(s, u, Fresh, k, ok);
  }

  /** With distinct URLs, after marking u dead no backend with URL u is alive. */
  lemma MarkDeadKills(s: PoolState, u: string)
    requires s.Wf() && DistinctUrls(s.urls)
    ensures forall i :: 0 <= i < |s.urls| && s.urls[i] == u ==> !MarkDead(s, u).alive[i]
  {
    forall i | 0 <= i < |s.urls| && s.urls[i] == u
      ensures !MarkDead(s, u).alive[i]
    {
      MarkFirstDistinct(s.urls, s.alive, i, false);
    }
  }

  /**
   * With duplicate URLs the failover marks the wrong backend dead: on the pool
   * a, v, a with cursor 0 and every forward failing, the request is retried on
   * v, then fails over to the second a (index 2) twice, while
   * ChangeBackendStatus marks the first a (index 0), never tried, dead and
   * leaves the failing backend alive.
   */
  lemma DuplicateUrlMarksWrongBackend()
    ensures var fail: nat -> bool := m => false;
            var run := Route(PoolState(["a", "v", "a"], [true, true, true], 0), Fresh, 0, fail);
            && |run.forwards| == 6
            && run.forwards[4..] == [Forward("a", 2, 3), Forward("a", 3, 3)]
            && run.pool.alive == [false, false, true]
            && run.response == Unavailable
  {
    var fail: nat -> bool := m => false;
    DuplicateFirstBackend(fail);
    DuplicateSecondBackend(fail);
  }

  /** The first selection picks v (index 1); after its four failures v is dead and lb runs again with attempts 2. */
  lemma DuplicateFirstBackend(ok: nat -> bool)
    requires forall m :: !ok(m)
    ensures var run := Route(PoolState(["a", "v", "a"], [true, true, true], 0), Fresh, 0, ok);
            var after := Route(PoolState(["a", "v", "a"], [true, false, true], 1), Context(Some(2), Some(MaxRetries)), 4, ok);
            |run.forwards| >= 4 && run.forwards[4..] == after.forwards && run.pool == after.pool && run.response == after.response
  {
    var urls := ["a", "v", "a"];
    var s0 := PoolState(urls, [true, true, true], 0);
    AllAliveSelect(s0.alive, 0);
    var s1 := s0.(current := 1);
    assert Route(s0, Fresh, 0, ok) == Relay(s1, "v", Fresh, 0, ok);
    FreshDefaults();
    RetryPhaseExhausted(s1, "v", Fresh, 0, ok);
    assert FirstMatch(urls, "v") == Some(1);
    assert MarkDead(s1, "v") == PoolState(urls, [true, false, true], 1);
  }

  /** Then index 2 (the second a) is selected twice while index 0 is the one marked dead. */
  lemma DuplicateSecondBackend(ok: nat -> bool)
    requires forall m :: !ok(m)
    ensures Route(PoolState(["a", "v", "a"], [true, false, true], 1), Context(Some(2), Some(MaxRetries)), 4, ok)
         == Run(Unavailable, PoolState(["a", "v", "a"], [false, false, true], 2), [Forward("a", 2, 3), Forward("a", 3, 3)])
  {
    var urls := ["a", "v", "a"];
    var s2 := PoolState(urls, [true, false, true], 1);
    var c2 := Context(Some(2), Some(MaxRetries));
    assert ScanFrom(s2.alive, 2, 0) == Some(0);
    assert Select(s2.alive, 1) == Selection(Some(2), 2);
    var s3 := s2.(current := 2);
    assert Route(s2, c2, 4, ok) == Relay(s3, "a", c2, 4, ok);
    FailoverMarksDead(s3, "a", c2, 4, ok);
    assert FirstMatch(urls, "a") == Some(0);
    var s4 := PoolState(urls, [false, false, true], 2);
    assert MarkDead(s3, "a") == s4;
    assert WithAttempts(c2, 3) == Context(Some(3), Some(MaxRetries));
    DuplicateThirdSelection(ok);
  }

  /** The third selection finds only index 2 alive; its failure exhausts the attempts. */
  lemma DuplicateThirdSelection(ok: nat -> bool)
    requires forall m :: !ok(m)
    ensures var s4 := PoolState(["a", "v", "a"], [false, false, true], 2);
            Route(s4, Context(Some(3), Some(MaxRetries)), 5, ok) == Run(Unavailable, s4, [Forward("a", 3, 3)])
  {
    var urls := ["a", "v", "a"];
    var s4 := PoolState(urls, [false, false, true], 2);
    var c3 := Context(Some(3), Some(MaxRetries));
    assert ScanFrom(s4.alive, 0, 0) == Some(2);
    assert Select(s4.alive, 2) == Selection(Some(2), 2);
    assert Route(s4, c3, 5, ok) == Relay(s4, "a", c3, 5, ok);
    FailoverMarksDead(s4, "a", c3, 5, ok);
    assert FirstMatch(urls, "a") == Some(0);
    assert MarkDead(s4, "a") == s4;
    RouteOverLimit(s4, Context(Some(4), Some(MaxRetries)), 6, ok);
  }
}
