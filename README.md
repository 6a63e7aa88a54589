# golb: round-robin load balancer with retry and failover

This project models the core of golb, a reverse-proxy HTTP load balancer
written in Go, and proves properties of the model:

- the server pool (`golb.go`): backends with a liveness flag, a shared
  unsigned 64-bit cursor, round-robin peer selection that skips dead
  backends, status change by URL, the health check;
- the per-request counters `Attempts` and `Retry` kept in the request
  context, with their defaults;
- the entry handler `lb` and the `ErrorHandler` closure of every backend's
  reverse proxy (`main.go`): retry the same backend while retries are
  below 3, otherwise mark it dead and re-enter `lb` with one more attempt;
- start-up (`main.go`): the `-backends` list is split on commas and each
  token becomes a live backend, in order.

Modules:

- `PoolSpec` (poolspec.dfy): value-level meaning of the pool. `Inc` is the
  wrapping uint64 increment, `Select` is one `GetNextPeer` call on the
  liveness flags and the cursor, `Picks` is a run of consecutive calls,
  and `MarkFirst` is `ChangeBackendStatus` on the flags.
- `Pool` (pool.dfy): classes `Backend` and `ServerPool` with the fields the
  Go code updates in place. `NextIndex`, `GetNextPeer` and
  `ChangeBackendStatus` are proved against `PoolSpec` functions; `SetAlive`,
  `IsAlive`, `AddBackend` and `HealthCheck` are specified directly by the
  fields they read and write (and, for `HealthCheck`, the probe).
- `Counters` (counters.dfy): the request context as an explicit pair of
  optional counters.
- `Router` (router.dfy): `Route`/`Relay`/`Recover` give the meaning of `lb`,
  of one forward through a backend's proxy, and of the error handler, as
  mutually recursive functions. `Lb`/`ServeProxy`/`ErrorHandler` are the
  same steps on a `ServerPool` object, proved equal to them. Forwarding is
  an oracle `ok`: the k-th forward of the request succeeds exactly when
  `ok(k)`. A `Run` records the response, the final pool and every forward,
  with the counters it carried.
- `Startup` (startup.dfy): `Split` (Go's `strings.Split(s, ",")`), its inverse
  `Join`, and the configuration loop of `main`.

Behaviour of the code that a reader might not expect, as the model has it:

- One might expect the retry counter to start again at 0 when routing moves
  to another backend. `main.go:57` stores only the new attempts count, so
  retries stay at 3 after the first failover. With distinct backend URLs,
  each later backend therefore gets exactly one forward and is marked dead
  on its failure. `Router.FreshRequestForwards` proves the resulting shape:
  at most 6 forwards for a fresh request.
- The comment at `main.go:54` says attempts increase per backend tried. The
  cutoff `attempts > 3` (`golb.go:117`) allows at most three peer
  selections per request.
- With duplicate URLs the failover can mark the wrong backend dead:
  `ChangeBackendStatus` (`golb.go:77-80`) marks the first backend with the
  URL, which need not be the one that failed. `Router.DuplicateUrlMarksWrongBackend`
  shows a pool a, v, a where the second a fails twice while the first a,
  never tried, is the one marked dead.
- Round robin is exact while the cursor does not wrap around 2^64
  (`PoolSpec.RoundRobin`). When the number of backends does not divide
  2^64, the wrap breaks the rotation: `PoolSpec.WrapRepeatsBackend` shows
  that with three backends the same backend is chosen twice in a row.
  When it divides 2^64 the wrap leaves the rotation intact, as
  `PoolSpec.WrapKeepsRotationForTwo` shows for two backends.

## Model

| member | source | states |
|---|---|---|
| PoolSpec.Inc | golb.go:34 | the atomic add of 1 to the uint64 cursor: old+1, or 0 when old was 2^64-1 |
| PoolSpec.StartIndex | golb.go:33-35 | the index NextIndex returns is below the number of backends |
| PoolSpec.ScanFrom | golb.go:42-51 | the scan finds the least offset whose cyclic index is alive; None means no index from that offset on is alive |
| PoolSpec.Select | golb.go:38-53 | a peer returned by GetNextPeer is a valid index and is alive |
| PoolSpec.SelectNoneIff | golb.go:42-52 | GetNextPeer returns nil exactly when no backend is alive |
| PoolSpec.SelectFirstInCyclicOrder | golb.go:39-50 | the peer is the first alive backend in cyclic order from the start index; every backend strictly before it in that order is dead |
| PoolSpec.SelectCursor | golb.go:46-48 | the cursor after GetNextPeer is old+1 when the peer sits at the start index or no peer is found, else the peer's index, so the next call starts just after the peer |
| PoolSpec.AllAliveSelect | golb.go:39-49 | with all backends alive the peer is the start index and the cursor is only incremented |
| PoolSpec.RoundRobin | golb.go:33-53 | with all backends alive and no wrap, n consecutive selections return (current+1+j) mod n: each backend exactly once, in cyclic order |
| PoolSpec.WrapRepeatsBackend | golb.go:34 | across the 2^64 wrap with three live backends, two consecutive selections both return backend 0 |
| PoolSpec.WrapKeepsRotationForTwo | golb.go:34 | across the 2^64 wrap with two live backends, two consecutive selections return backends 1 and 0, still (current+1+j) mod 2 |
| PoolSpec.FirstMatch | golb.go:77-78 | the first index whose URL equals u, None exactly when no URL equals u |
| PoolSpec.MarkFirst | golb.go:76-83 | the first backend with URL u gets the new flag; every other one, later duplicates included, keeps its flag; no match changes nothing |
| PoolSpec.MarkFirstDistinct | golb.go:76-83 | with distinct URLs, changing the status of urls[i] changes exactly flag i |
| Pool.Backend.SetAlive | golb.go:56-60 | the flag holds the value set |
| Pool.Backend.IsAlive | golb.go:63-68 | returns the current flag, that is, the last value set |
| Pool.ServerPool.NextIndex | golb.go:33-35 | the cursor is incremented with wrap-around and the result is the new cursor mod n, below n |
| Pool.ServerPool.GetNextPeer | golb.go:38-53 | returns the backend and sets the cursor that Select gives for the old flags and cursor; null exactly when Select finds no peer; no flag changes |
| Pool.ServerPool.AddBackend | golb.go:71-73 | appends at the end, keeping the order of the existing backends; the pool keeps distinct objects exactly when the new one was not already in it |
| Pool.ServerPool.ChangeBackendStatus | golb.go:76-83 | the new flags are MarkFirst of the old ones; URLs and cursor unchanged |
| Pool.ServerPool.HealthCheck | golb.go:86-96 | every backend's flag equals the probe's verdict on its URL, whatever it was; URLs and cursor unchanged |
| Counters.FreshDefaults | golb.go:99-112 | a request without counters has attempts 1 and retries 0 |
| Counters.WithAttemptsReadBack | golb.go:99-104 | a stored attempts count is read back and leaves the retry count alone |
| Counters.WithRetryReadBack | golb.go:107-112 | a stored retry count is read back and leaves the attempts count alone |
| Router.OnError | main.go:41-58 | below 3 retries the handler retries with retries+1 and the same attempts; otherwise it fails over with attempts+1 and retries unchanged |
| Router.MarkDead | main.go:52 | marking a backend dead keeps the pool's URLs and cursor |
| Router.Lb | golb.go:114-130 | lb on the pool object gives the response, forwards and final pool of Route |
| Router.ServeProxy | main.go:38-46 | one forward through the proxy, and the error handler on failure, agree with Relay |
| Router.ErrorHandler | main.go:39-59 | the error handler on the pool object agrees with Recover: a retry to the same backend, or ChangeBackendStatus(u, false) followed by lb with attempts+1 |
| Router.RouteOverLimit | golb.go:117-121 | with attempts above 3 lb answers 503, forwards nothing and leaves the pool, cursor included, unchanged |
| Router.RouteNoLivePeer | golb.go:123-129 | with no live backend lb answers 503 after one cursor increment and forwards nothing |
| Router.RouteForwardsToSelectedPeer | golb.go:123-127 | otherwise lb first forwards to the live peer from Select, with the request's counters, and a successful forward returns that backend's answer |
| Router.RetrySameBackend | main.go:42-48 | a failed forward with retries below 3 is followed by a forward to the same backend with retries+1, the pool unchanged |
| Router.FailoverMarksDead | main.go:51-58 | a failed forward with retries at 3 marks the first backend with that URL dead and re-enters lb with attempts+1 and retries unchanged |
| Router.RouteOnlyKills | main.go:52 | routing a request keeps the pool's URLs and never revives a backend |
| Router.RelayOnlyKills | main.go:42-58 | the same for the retry and failover chain of one backend |
| Router.RouteBound | main.go:42-58 | the retry/failover chain terminates: a request makes at most ForwardLimit(ctx) forwards (7 - attempts - retries for counters in range) |
| Router.RelayBound | main.go:42-58 | forwarding through a backend makes at least one and at most ForwardLimit(ctx) forwards |
| Router.RouteOutcome | golb.go:123-129 | a request is served exactly when its last forward succeeded, by that forward's backend; all earlier forwards failed |
| Router.RelayOutcome | main.go:39-59 | the same for forwarding through one backend |
| Router.RetryPhaseTargets | main.go:42-48 | starting with r retries, the first 4 - r forwards all go to the same backend, with retries r, r+1, ... |
| Router.RetryPhaseExhausted | main.go:42-58 | when all of those fail, the rest of the request is lb on the pool with that backend marked dead, attempts+1, retries 3 |
| Router.RetryPhaseAnswered | main.go:42-48 | when one of them succeeds, no more than 4 - r forwards are made |
| Router.ExhaustedRetriesVisitDistinct | main.go:45-58 | once retries reach 3, each later forward goes to a different backend not already dead, with attempts counting up and retries 3: every later backend is forwarded to once and marked dead on failure |
| Router.FreshRequestForwards | main.go:42-58 | a fresh request on distinct URLs makes at most 6 forwards: up to 4 to the first selected backend with retries 0..3, then at most one to each of two other, distinct backends with attempts 2 and 3 and retries 3 |
| Router.FreshRelayForwards | main.go:42-58 | the same shape for a fresh request already handed to a backend |
| Router.FreshRelayExhausted | main.go:51-58 | after four failed forwards to a backend, the following forwards go to distinct other backends with attempts 2 and 3 |
| Router.MarkDeadKills | main.go:52 | with distinct URLs, no backend with the marked URL is alive afterwards |
| Router.DuplicateUrlMarksWrongBackend | golb.go:77-80 | on the pool a, v, a with every forward failing, the last two forwards both go to index 2 while index 0, never tried, is marked dead; the request ends 503 with flags false, false, true |
| Startup.Split | main.go:31 | strings.Split on "," yields at least one token |
| Startup.SplitCommaFree | main.go:31 | no token contains a comma |
| Startup.SplitCount | main.go:31 | there is one token more than there are commas |
| Startup.JoinSplit | main.go:31 | joining the tokens with commas gives back the list |
| Startup.SplitJoin | main.go:31 | splitting comma-free tokens joined with commas gives back the tokens |
| Startup.ParseTokens | main.go:32-36 | the parsed URLs of the tokens before the first one url.Parse rejects, in order |
| Startup.Configure | main.go:26-67 | an empty list is rejected before any backend is added; otherwise one fresh live backend per parsed token is appended in token order, and the first unparsable token is reported |
| Startup.RegisterAll | main.go:32-67 | the loop over the tokens appends fresh live backends with the parsed URLs, in order, and stops at the first bad token |
| Startup.Register | main.go:61-65 | one fresh live backend with the given URL is appended; the pool keeps distinct objects |

## Left out

- Concurrency: `sync.RWMutex` and `sync/atomic` are read as plain sequential reads and writes; no atomicity or linearizability claim is made.
- HTTP forwarding (`httputil.ReverseProxy.ServeHTTP`), `http.Error` and response writing: forwarding is the oracle `ok`, a 503 is the response `Unavailable`.
- `isBackendAlive` is not part of this model: `HealthCheck` takes the probe as a function from URL to bool. The `HealthChecker` goroutine and its interval are left out.
- The 10 ms backoff before a retry (`main.go:44`).
- Logging (`log.Printf`) and flag parsing (`flag`); the port and `ListenAndServe` are left out.
- `url.Parse` and `(*url.URL).String()`: URLs are strings compared by equality, and parsing is a given function to `Option<string>`; `log.Fatal` is an error result, with the backends added so far left in the pool.
- In the source, `lb` reads the package-level `serverPool` of `main.go` and `main.go` calls `golb.LB`; the model passes the pool explicitly to `Lb` and the error handler.
- The reverse proxy object and the closure's capture of `serverUrl` are represented by the backend's URL.
- Pool.ServerPool.ChangeBackendStatus: requires the pool to hold distinct Backend objects (as `main.go` always builds it), so that writing one flag cannot change another entry.
- Router.Lb: requires a non-empty pool, because `NextIndex` divides by the number of backends; `main.go` never starts with an empty pool.
- Router.ServeProxy: requires attempts at most 3, which holds for every call made through `lb`.
- Router.ErrorHandler: requires attempts at most 3, which holds for every call made through `lb`.
- PoolSpec.RoundRobin: requires that the cursor does not wrap around 2^64 during the n selections; when n does not divide 2^64 the rotation breaks at the wrap, as `PoolSpec.WrapRepeatsBackend` shows for n = 3, and when n divides 2^64 it continues (`PoolSpec.WrapKeepsRotationForTwo` for n = 2), which the lemma does not state in general.
- PoolSpec.SelectCursor: requires fewer than 2^64 backends, so that an index stored as uint64 is unchanged.
- Router.FreshRequestForwards: requires distinct backend URLs; with duplicate URLs `ChangeBackendStatus` marks only the first of them dead, and a duplicate can be selected again (`Router.DuplicateUrlMarksWrongBackend`).
- Router.FreshRelayForwards: requires distinct backend URLs, for the same reason.
- Router.FreshRelayExhausted: requires distinct backend URLs, for the same reason.
- Router.ExhaustedRetriesVisitDistinct: requires distinct backend URLs; with duplicates a failing backend can stay alive and be forwarded to again.
- Router.MarkDeadKills: requires distinct backend URLs; with duplicates only the first backend with the URL is marked dead.
