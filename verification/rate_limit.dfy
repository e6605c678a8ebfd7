/** The admission gate in front of mining: a decision on the shared counter store's
    `INCR` result when that store is reachable, and otherwise the in-process fallback
    counter. Time is a natural number of nanoseconds from a monotonic clock (the
    resolution of Rust's `Instant`); the store's I/O is abstracted into the value its
    `INCR` returned. */
module RateLimit {
  import opened Wrappers

  const NANOS_PER_SEC: nat := 1_000_000_000

  /** The fallback's fixed window: 60 seconds. */
  const FALLBACK_WINDOW: nat := 60 * NANOS_PER_SEC

  /** The fallback rejects a request when the count before it exceeds this. */
  const FALLBACK_THRESHOLD: nat := 10

  /** The defaults of `RATE_LIMIT` and `RATE_WINDOW_SECS`. */
  const DEFAULT_RATE_LIMIT: nat := 10
  const DEFAULT_WINDOW_SECS: nat := 60

  /** The client key used when the remote address is unknown. */
  const UNKNOWN_CLIENT: string := "unknown"

  /** One fallback entry: the counter and the start of its window. */
  datatype Entry = Entry(count: nat, windowStart: nat)

  type Limits = map<string, Entry>

  /** The fallback's verdict and its table afterwards. */
  datatype Fallback = Fallback(admitted: bool, limits: Limits)

  /** `Instant::duration_since`, which saturates at zero. */
  function Elapsed(start: nat, now: nat): (d: nat)
    ensures start <= now ==> d == now - start
  {
    if now >= start then now - start else 0
  }

  /** `fallback_in_memory`: a new client gets a fresh entry; once more than 60 s have
      passed since the window start the entry restarts at one and the request passes;
      otherwise the counter is incremented and the request passes when the count before
      the increment is at most 10. Only the requesting client's entry changes. */
  function FallbackInMemory(limits: Limits, ip: string, now: nat): (r: Fallback)
    ensures ip in r.limits && r.limits == limits[ip := r.limits[ip]]
    ensures ip !in limits ==> r == Fallback(true, limits[ip := Entry(1, now)])
    ensures ip in limits && Elapsed(limits[ip].windowStart, now) > FALLBACK_WINDOW
            ==> r == Fallback(true, limits[ip := Entry(1, now)])
    ensures ip in limits && Elapsed(limits[ip].windowStart, now) <= FALLBACK_WINDOW
            ==> && r.limits[ip] == Entry(limits[ip].count + 1, limits[ip].windowStart)
                && (r.admitted <==> limits[ip].count <= FALLBACK_THRESHOLD)
  {
    var e := if ip in limits then limits[ip] else Entry(0, now);
    if Elapsed(e.windowStart, now) > FALLBACK_WINDOW then
      Fallback(true, limits[ip := Entry(1, now)])
    else
      Fallback(e.count <= FALLBACK_THRESHOLD, limits[ip := Entry(e.count + 1, e.windowStart)])
  }

  /** Entries of other clients are untouched. */
  lemma FallbackIsolatesClients(limits: Limits, ip: string, now: nat, other: string)
    requires other != ip
    ensures other in FallbackInMemory(limits, ip, now).limits <==> other in limits
    ensures other in limits ==> FallbackInMemory(limits, ip, now).limits[other] == limits[other]
  {
  }

  /** How many of a client's requests, at the given times, the fallback admits, and its
      table afterwards. */
  datatype RunResult = RunResult(admitted: nat, limits: Limits)

  function Run(limits: Limits, ip: string, times: seq<nat>): RunResult
    decreases |times|
  {
    if times == [] then RunResult(0, limits)
    else
      var f := FallbackInMemory(limits, ip, times[0]);
      var rest := Run(f.limits, ip, times[1..]);
      RunResult((if f.admitted then 1 else 0) + rest.admitted, rest.limits)
  }

  function Min(a: nat, b: nat): nat {
    if a <= b then a else b
  }

  /** Requests from a known client that all fall inside its current window: the counter
      grows by one per request, and the first `11 - count` of them pass. */
  lemma {:induction false} RunWithinWindow(limits: Limits, ip: string, times: seq<nat>)
    requires ip in limits
    requires forall k :: 0 <= k < |times| ==> Elapsed(limits[ip].windowStart, times[k]) <= FALLBACK_WINDOW
    ensures var r := Run(limits, ip, times);
            && ip in r.limits
            && r.limits[ip] == Entry(limits[ip].count + |times|, limits[ip].windowStart)
            && r.admitted == Min(|times|, if limits[ip].count <= FALLBACK_THRESHOLD then FALLBACK_THRESHOLD + 1 - limits[ip].count else 0)
    decreases |times|
  {
    if times != [] {
      var f := FallbackInMemory(limits, ip, times[0]);
      RunWithinWindow(f.limits, ip, times[1..]);
    }
  }

  /** A new client's burst inside one window: the first request opens the window and
      exactly `min(n, 11)` of `n` requests pass, so up to 11 per window, not 10. */
  lemma FreshClientBurst(limits: Limits, ip: string, times: seq<nat>)
    requires ip !in limits && |times| >= 1
    requires forall k :: 0 <= k < |times| ==> Elapsed(times[0], times[k]) <= FALLBACK_WINDOW
    ensures Run(limits, ip, times).admitted == Min(|times|, FALLBACK_THRESHOLD + 1)
    ensures Run(limits, ip, times).admitted <= 11
  {
    var f := FallbackInMemory(limits, ip, times[0]);
    assert f.limits[ip] == Entry(1, times[0]);
    RunWithinWindow(f.limits, ip, times[1..]);
  }

  /** Twelve requests at the same instant from a new client: eleven pass. */
  lemma TwelveAtOnce(limits: Limits, ip: string, now: nat)
    requires ip !in limits
    ensures Run(limits, ip, seq(12, k => now)).admitted == 11
  {
    FreshClientBurst(limits, ip, seq(12, k => now));
  }

  /** Once a request is refused, every later request in the same window is refused. */
  lemma RefusedStaysRefused(limits: Limits, ip: string, t1: nat, t2: nat)
    requires !FallbackInMemory(limits, ip, t1).admitted
    requires Elapsed(FallbackInMemory(limits, ip, t1).limits[ip].windowStart, t2) <= FALLBACK_WINDOW
    ensures !FallbackInMemory(FallbackInMemory(limits, ip, t1).limits, ip, t2).admitted
  {
  }

  /** The counter store's settings: `RATE_LIMIT` and `RATE_WINDOW_SECS`. */
  datatype RateConfig = RateConfig(limit: nat, windowSecs: nat)

  /** Settings from the environment: a variable that is unset or not a u32 is `None`
      here and takes its default. */
  function ConfigFromEnv(limitVar: Option<nat>, windowVar: Option<nat>): (cfg: RateConfig)
    ensures limitVar.None? ==> cfg.limit == 10
    ensures windowVar.None? ==> cfg.windowSecs == 60
    ensures limitVar.Some? ==> cfg.limit == limitVar.value
    ensures windowVar.Some? ==> cfg.windowSecs == windowVar.value
  {
    RateConfig(limitVar.GetOr(DEFAULT_RATE_LIMIT), windowVar.GetOr(DEFAULT_WINDOW_SECS))
  }

  /** The counter-store verdict: whether to admit, and the expiry to set, if any. */
  datatype StoreVerdict = StoreVerdict(admitted: bool, expire: Option<nat>)

  /** The decision on an `INCR` result (`None` when the command failed, read as 0): the
      expiry is set only on the first count of a window, and a request passes when the
      count is at most the limit. */
  function StoreDecision(cfg: RateConfig, incr: Option<nat>): (v: StoreVerdict)
    ensures incr.None? ==> v == StoreVerdict(true, None)
    ensures incr.Some? ==> (v.admitted <==> incr.value <= cfg.limit)
    ensures v.expire.Some? <==> incr == Some(1)
    ensures v.expire.Some? ==> v.expire.value == cfg.windowSecs
  {
    var count := incr.GetOr(0);
    StoreVerdict(count <= cfg.limit, if count == 1 then Some(cfg.windowSecs) else None)
  }

  /** How many of `n` requests pass when the store's counter starts at `start`. */
  function StoreRun(cfg: RateConfig, start: nat, n: nat): nat
    decreases n
  {
    if n == 0 then 0
    else (if StoreDecision(cfg, Some(start + 1)).admitted then 1 else 0) + StoreRun(cfg, start + 1, n - 1)
  }

  /** From a counter at `start`, exactly `min(n, limit - start)` of `n` requests in a
      window pass (none once `start` is past the limit). */
  lemma {:induction false} StoreRunAdmitsLimit(cfg: RateConfig, start: nat, n: nat)
    ensures StoreRun(cfg, start, n) == Min(n, if start <= cfg.limit then cfg.limit - start else 0)
    decreases n
  {
    if n > 0 {
      StoreRunAdmitsLimit(cfg, start + 1, n - 1);
    }
  }

  /** Which store answered the request. */
  datatype Backend = Store(incr: Option<nat>) | StoreUnreachable

  /** The gate's verdict, the expiry it sets on the store, and the fallback table. */
  datatype GateResult = GateResult(admitted: bool, expire: Option<nat>, limits: Limits)

  /** The client key: the remote address, or "unknown". */
  function ClientKey(addr: Option<string>): string {
    addr.GetOr(UNKNOWN_CLIENT)
  }

  /** `rate_limited`: the store's verdict when it is reachable (the fallback table is
      untouched), the fallback's otherwise (no expiry is set). */
  function RateLimited(cfg: RateConfig, backend: Backend, limits: Limits, addr: Option<string>, now: nat): (r: GateResult)
    ensures backend.Store? ==> r == GateResult(StoreDecision(cfg, backend.incr).admitted, StoreDecision(cfg, backend.incr).expire, limits)
    ensures backend.StoreUnreachable? ==> r.expire.None? && Fallback(r.admitted, r.limits) == FallbackInMemory(limits, ClientKey(addr), now)
  {
    match backend
    case Store(incr) =>
      var v := StoreDecision(cfg, incr);
      GateResult(v.admitted, v.expire, limits)
    case StoreUnreachable =>
      var f := FallbackInMemory(limits, ClientKey(addr), now);
      GateResult(f.admitted, None, f.limits)
  }

  /** The gate's admission in terms of its inputs alone: with the store answering, a
      request passes when `INCR` failed or its count is within the limit; with the store
      unreachable, it passes for a new client, after the window has expired, or while
      the count before it is at most 10. */
  lemma GateAdmission(cfg: RateConfig, backend: Backend, limits: Limits, addr: Option<string>, now: nat)
    ensures backend.Store? ==>
              (RateLimited(cfg, backend, limits, addr, now).admitted
               <==> backend.incr.None? || backend.incr.value <= cfg.limit)
    ensures backend.StoreUnreachable? ==>
              var key := ClientKey(addr);
              (RateLimited(cfg, backend, limits, addr, now).admitted
               <==> || key !in limits
                    || Elapsed(limits[key].windowStart, now) > FALLBACK_WINDOW
                    || limits[key].count <= FALLBACK_THRESHOLD)
  {
  }

  /** With the store unreachable, the configured limit and window play no part. */
  lemma FallbackIgnoresConfig(cfg1: RateConfig, cfg2: RateConfig, limits: Limits, addr: Option<string>, now: nat)
    ensures RateLimited(cfg1, StoreUnreachable, limits, addr, now) == RateLimited(cfg2, StoreUnreachable, limits, addr, now)
  {
  }

  /** The two backends disagree under the default settings: the eleventh request of a
      window is refused by the store (count 11 > 10) but admitted by the fallback (count
      before it 10, not above 10). */
  lemma BackendsDisagree(ip: string, start: nat, now: nat)
    requires start <= now <= start + FALLBACK_WINDOW
    ensures var cfg := ConfigFromEnv(None, None);
            && !RateLimited(cfg, Store(Some(11)), map[], Some(ip), now).admitted
            && RateLimited(cfg, StoreUnreachable, map[ip := Entry(10, start)], Some(ip), now).admitted
  {
  }
}
