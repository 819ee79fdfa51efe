/** The per-IP token buckets, their idle eviction, and what a client can notice of it. Times
    are in seconds, as reals. */
module RateLimiters {

  datatype Config = Config(rate: real, burst: int)

  /** `tokens` as of time `last`, the last time a token was taken. */
  datatype Bucket = Bucket(tokens: real, last: real)

  datatype Client = Client(bucket: Bucket, lastSeen: real)

  type Clients = map<string, Client>

  const IDLE: real := 600.0

  function MinReal(a: real, b: real): real {
    if a < b then a else b
  }

  /** Tokens at time `t`: refilled since `last`, capped at the burst. */
  function Level(cfg: Config, b: Bucket, t: real): real {
    var elapsed := if t < b.last then 0.0 else t - b.last;
    MinReal(cfg.burst as real, b.tokens + elapsed * cfg.rate)
  }

  function NewBucket(cfg: Config, t: real): Bucket {
    Bucket(cfg.burst as real, t)
  }

  /** `Allow`: takes a token if one is there; a refusal leaves the bucket as it was. */
  function Take(cfg: Config, b: Bucket, t: real): (Bucket, bool) {
    var level := Level(cfg, b, t);
    if level >= 1.0 then (Bucket(level - 1.0, t), true) else (b, false)
  }

  /** The lookup that creates a missing client and marks it seen. */
  function Seen(cfg: Config, m: Clients, ip: string, t: real): (r: Clients)
    ensures ip in r
  {
    m[ip := if ip in m then m[ip].(lastSeen := t) else Client(NewBucket(cfg, t), t)]
  }

  function Served(cfg: Config, m: Clients, ip: string, t: real): (Clients, bool) {
    var seen := Seen(cfg, m, ip, t);
    var (b, ok) := Take(cfg, seen[ip].bucket, t);
    (seen[ip := seen[ip].(bucket := b)], ok)
  }

  /** One cleanup pass: clients idle for more than ten minutes are forgotten. */
  function Swept(m: Clients, t: real): Clients {
    map ip | ip in m && t - m[ip].lastSeen <= IDLE :: m[ip]
  }

  /** After a pass exactly those clients are known whose last request is at most 600 seconds old,
      with the buckets they had. */
  lemma SweptExactly(m: Clients, t: real, ip: string)
    ensures ip in Swept(m, t) <==> ip in m && m[ip].lastSeen >= t - 600.0
    ensures ip in Swept(m, t) ==> Swept(m, t)[ip] == m[ip]
  {}

  // ---------- Runs ----------

  datatype Event = Request(ip: string, t: real) | Cleanup(t: real)

  predicate ClockFrom(from: real, es: seq<Event>)
    decreases |es|
  {
    es == [] || (from <= es[0].t && ClockFrom(es[0].t, es[1..]))
  }

  datatype Decision = Decision(ip: string, t: real, ok: bool)

  /** The decisions of a run, request by request. */
  function Decisions(cfg: Config, m: Clients, es: seq<Event>): seq<Decision>
    decreases |es|
  {
    if es == [] then []
    else match es[0]
      case Cleanup(t) => Decisions(cfg, Swept(m, t), es[1..])
      case Request(ip, t) =>
        var (m', ok) := Served(cfg, m, ip, t);
        [Decision(ip, t, ok)] + Decisions(cfg, m', es[1..])
  }

  /** The decisions a single bucket takes on requests at the given times. */
  function Alone(cfg: Config, b: Bucket, ip: string, ts: seq<real>): seq<Decision>
    decreases |ts|
  {
    if ts == [] then []
    else
      var (b', ok) := Take(cfg, b, ts[0]);
      [Decision(ip, ts[0], ok)] + Alone(cfg, b', ip, ts[1..])
  }

  function Of(ip: string, ds: seq<Decision>): seq<Decision> {
    if ds == [] then []
    else (if ds[0].ip == ip then [ds[0]] else []) + Of(ip, ds[1..])
  }

  function TimesOf(ip: string, es: seq<Event>): seq<real> {
    if es == [] then []
    else (if es[0].Request? && es[0].ip == ip then [es[0].t] else []) + TimesOf(ip, es[1..])
  }

  function WithoutCleanup(es: seq<Event>): (r: seq<Event>)
    ensures |r| <= |es|
  {
    if es == [] then []
    else (if es[0].Cleanup? then [] else [es[0]]) + WithoutCleanup(es[1..])
  }

  predicate FullAt(cfg: Config, b: Bucket, t: real) {
    Level(cfg, b, t) == cfg.burst as real
  }

  /** Ten idle minutes refill any bucket. */
  predicate Refills(cfg: Config) {
    cfg.rate > 0.0 && cfg.rate * IDLE >= cfg.burst as real
  }

  /** A bucket holds no debt: none was ever taken that was not there. */
  predicate Sound(cfg: Config, b: Bucket) {
    b.tokens >= 0.0 || b.tokens == cfg.burst as real
  }

  /** From `now` on, the limiter treats `ip` as the lone bucket `b` would: it holds that bucket,
      or both it (if it holds one) and `b` are full. */
  ghost predicate Mirrors(cfg: Config, m: Clients, ip: string, b: Bucket, now: real) {
    && Sound(cfg, b) && b.last <= now
    && (ip in m ==> m[ip].bucket.last <= m[ip].lastSeen <= now && Sound(cfg, m[ip].bucket))
    && ((ip in m && m[ip].bucket == b)
        || (FullAt(cfg, b, now) && (ip in m ==> FullAt(cfg, m[ip].bucket, now))))
  }

  /** Tokens flowing in between three moments. */
  lemma Flow(rate: real, s: real, t: real, e: real)
    requires rate > 0.0 && s <= t <= e
    ensures (e - s) * rate == (t - s) * rate + (e - t) * rate
    ensures (t - s) * rate >= 0.0 && (e - t) * rate >= 0.0 && rate * (e - s) == (e - s) * rate
  {
    Product(t - s, rate);
    Product(e - t, rate);
    assert (e - s) == (t - s) + (e - t);
  }

  lemma Product(x: real, y: real)
    requires x >= 0.0 && y >= 0.0
    ensures x * y >= 0.0
  {}

  lemma LevelNonNegative(cfg: Config, b: Bucket, t: real)
    requires cfg.rate > 0.0 && cfg.burst >= 0 && Sound(cfg, b) && b.last <= t
    ensures Level(cfg, b, t) >= 0.0
  {
    Product(t - b.last, cfg.rate);
  }

  lemma LevelGrows(cfg: Config, b: Bucket, s: real, t: real)
    requires cfg.rate > 0.0 && s <= t
    ensures Level(cfg, b, s) <= Level(cfg, b, t) <= cfg.burst as real
    ensures Level(cfg, b, t) <= Level(cfg, b, s) + (t - s) * cfg.rate
  {
    var ds := if s < b.last then 0.0 else s - b.last;
    var dt := if t < b.last then 0.0 else t - b.last;
    Flow(cfg.rate, 0.0, ds, dt);
    Flow(cfg.rate, 0.0, dt - ds, t - s);
    assert (dt - 0.0) * cfg.rate == (ds - 0.0) * cfg.rate + (dt - ds) * cfg.rate;
  }

  lemma IdleBucketIsFull(cfg: Config, b: Bucket, t: real)
    requires Refills(cfg) && Sound(cfg, b) && t - b.last > IDLE
    ensures FullAt(cfg, b, t)
  {
    Flow(cfg.rate, 0.0, IDLE, t - b.last);
  }

  lemma MirrorsLater(cfg: Config, m: Clients, ip: string, b: Bucket, now: real, t: real)
    requires cfg.rate > 0.0 && Mirrors(cfg, m, ip, b, now) && now <= t
    ensures Mirrors(cfg, m, ip, b, t)
  {
    LevelGrows(cfg, b, now, t);
    if ip in m {
      LevelGrows(cfg, m[ip].bucket, now, t);
    }
  }

  lemma MirrorsSwept(cfg: Config, m: Clients, ip: string, b: Bucket, t: real)
    requires Refills(cfg) && Mirrors(cfg, m, ip, b, t)
    ensures Mirrors(cfg, Swept(m, t), ip, b, t)
  {
    if ip in m && ip !in Swept(m, t) && m[ip].bucket == b {
      IdleBucketIsFull(cfg, b, t);
    }
  }

  lemma MirrorsServed(cfg: Config, m: Clients, ip: string, b: Bucket, t: real)
    requires cfg.rate > 0.0 && Mirrors(cfg, m, ip, b, t)
    ensures Served(cfg, m, ip, t).1 == Take(cfg, b, t).1
    ensures Mirrors(cfg, Served(cfg, m, ip, t).0, ip, Take(cfg, b, t).0, t)
  {
    assert Level(cfg, NewBucket(cfg, t), t) == cfg.burst as real;
  }

  /** What the limiter decides for one client depends only on that client's own requests,
      whenever idle buckets refill or nothing is ever forgotten. */
  lemma {:induction false} ClientSeesOwnBucket(cfg: Config, m: Clients, ip: string, b: Bucket, now: real,
      es: seq<Event>)
    requires cfg.rate > 0.0 && (Refills(cfg) || WithoutCleanup(es) == es)
    requires Mirrors(cfg, m, ip, b, now) && ClockFrom(now, es)
    ensures Of(ip, Decisions(cfg, m, es)) == Alone(cfg, b, ip, TimesOf(ip, es))
    decreases |es|
  {
    if es != [] {
      var t := es[0].t;
      MirrorsLater(cfg, m, ip, b, now, t);
      match es[0]
      case Cleanup(_) =>
        MirrorsSwept(cfg, m, ip, b, t);
        ClientSeesOwnBucket(cfg, Swept(m, t), ip, b, t, es[1..]);
        assert TimesOf(ip, es) == TimesOf(ip, es[1..]);
      case Request(other, _) =>
        var (m', ok) := Served(cfg, m, other, t);
        assert WithoutCleanup(es)[1..] == WithoutCleanup(es[1..]);
        assert Decisions(cfg, m, es)[1..] == Decisions(cfg, m', es[1..]);
        if other == ip {
          MirrorsServed(cfg, m, ip, b, t);
          ClientSeesOwnBucket(cfg, m', ip, Take(cfg, b, t).0, t, es[1..]);
          assert TimesOf(ip, es)[1..] == TimesOf(ip, es[1..]);
        } else {
          ClientSeesOwnBucket(cfg, m', ip, b, t, es[1..]);
          assert TimesOf(ip, es) == TimesOf(ip, es[1..]);
        }
    }
  }

  /** Client isolation: with any other clients and any cleanups mixed in, a client gets the
      decisions a bucket of its own would give. */
  lemma ClientsIsolated(cfg: Config, ip: string, from: real, es: seq<Event>)
    requires Refills(cfg) && ClockFrom(from, es)
    ensures Of(ip, Decisions(cfg, map[], es)) == Alone(cfg, NewBucket(cfg, from), ip, TimesOf(ip, es))
  {
    ClientSeesOwnBucket(cfg, map[], ip, NewBucket(cfg, from), from, es);
  }

  // ---------- Eviction is invisible ----------

  lemma {:induction false} SkippingCleanups(es: seq<Event>, ip: string, from: real)
    requires ClockFrom(from, es)
    ensures TimesOf(ip, WithoutCleanup(es)) == TimesOf(ip, es)
    ensures forall early :: early <= from ==> ClockFrom(early, WithoutCleanup(es))
    ensures WithoutCleanup(WithoutCleanup(es)) == WithoutCleanup(es)
    decreases |es|
  {
    if es != [] {
      SkippingCleanups(es[1..], ip, es[0].t);
      if es[0].Request? {
        assert WithoutCleanup(es)[1..] == WithoutCleanup(es[1..]);
      } else {
        assert WithoutCleanup(es) == WithoutCleanup(es[1..]);
      }
    }
  }

  /** The same requests in the same order, whatever is decided. */
  predicate SameRequests(ds: seq<Decision>, fs: seq<Decision>) {
    |ds| == |fs| && forall i :: 0 <= i < |ds| ==> ds[i].ip == fs[i].ip
  }

  lemma {:induction false} CleanupsDecideNothing(cfg: Config, m: Clients, n: Clients, es: seq<Event>)
    ensures SameRequests(Decisions(cfg, m, es), Decisions(cfg, n, WithoutCleanup(es)))
    decreases |es|
  {
    if es != [] {
      match es[0]
      case Cleanup(t) =>
        assert WithoutCleanup(es) == WithoutCleanup(es[1..]);
        CleanupsDecideNothing(cfg, Swept(m, t), n, es[1..]);
      case Request(ip, t) =>
        assert WithoutCleanup(es)[1..] == WithoutCleanup(es[1..]);
        CleanupsDecideNothing(cfg, Served(cfg, m, ip, t).0, Served(cfg, n, ip, t).0, es[1..]);
    }
  }

  lemma {:induction false} EqualByClient(ds: seq<Decision>, fs: seq<Decision>)
    requires SameRequests(ds, fs)
    requires forall ip :: Of(ip, ds) == Of(ip, fs)
    ensures ds == fs
  {
    if ds != [] {
      var p := ds[0].ip;
      assert Of(p, ds)[0] == ds[0] && Of(p, fs)[0] == fs[0];
      forall ip ensures Of(ip, ds[1..]) == Of(ip, fs[1..]) {
        assert Of(ip, ds) == Of(ip, fs);
        if ip == p {
          assert Of(ip, ds)[1..] == Of(ip, ds[1..]) && Of(ip, fs)[1..] == Of(ip, fs[1..]);
        } else {
          assert Of(ip, ds) == Of(ip, ds[1..]) && Of(ip, fs) == Of(ip, fs[1..]);
        }
      }
      EqualByClient(ds[1..], fs[1..]);
    }
  }

  /** If ten minutes refill a bucket, forgetting idle clients changes no decision of any run. */
  lemma EvictionInvisible(cfg: Config, from: real, es: seq<Event>)
    requires Refills(cfg) && ClockFrom(from, es)
    ensures Decisions(cfg, map[], es) == Decisions(cfg, map[], WithoutCleanup(es))
  {
    CleanupsDecideNothing(cfg, map[], map[], es);
    forall ip ensures Of(ip, Decisions(cfg, map[], es)) == Of(ip, Decisions(cfg, map[], WithoutCleanup(es))) {
      SkippingCleanups(es, ip, from);
      ClientsIsolated(cfg, ip, from, es);
      ClientsIsolated(cfg, ip, from, WithoutCleanup(es));
    }
    EqualByClient(Decisions(cfg, map[], es), Decisions(cfg, map[], WithoutCleanup(es)));
  }

  // ---------- The window bound ----------

  /** Requests admitted from time `a` to time `e`. */
  function Admitted(ds: seq<Decision>, a: real, e: real): nat {
    if ds == [] then 0
    else (if ds[0].ok && a <= ds[0].t <= e then 1 else 0) + Admitted(ds[1..], a, e)
  }

  predicate TimesFrom(now: real, ts: seq<real>)
    decreases |ts|
  {
    ts == [] || (now <= ts[0] && TimesFrom(ts[0], ts[1..]))
  }

  /** The burst, and what flows in from `a` to `t`. */
  function Allowance(cfg: Config, a: real, t: real): real {
    cfg.burst as real + cfg.rate * (t - a)
  }

  lemma AllowanceFlows(cfg: Config, a: real, s: real, t: real)
    requires cfg.rate > 0.0 && a <= s <= t
    ensures Allowance(cfg, a, t) == Allowance(cfg, a, s) + (t - s) * cfg.rate
    ensures Allowance(cfg, t, t) == cfg.burst as real <= Allowance(cfg, a, t)
  {
    Flow(cfg.rate, a, s, t);
    Flow(cfg.rate, a, a, s);
    Flow(cfg.rate, t, t, t);
  }

  lemma FlowTakesTime(rate: real, x: real)
    requires x >= 0.0 && x * rate > 0.0
    ensures x > 0.0
  {}

  /** What a bucket can still admit by `e` is what it holds now and what flows in until then. */
  lemma {:induction false} InsideWindow(cfg: Config, b: Bucket, ip: string, ts: seq<real>, now: real, a: real, e: real)
    requires cfg.rate > 0.0 && cfg.burst >= 0 && Sound(cfg, b) && b.last <= now
    requires a <= now <= e && TimesFrom(now, ts)
    ensures Admitted(Alone(cfg, b, ip, ts), a, e) as real <= Level(cfg, b, now) + (e - now) * cfg.rate
    decreases |ts|
  {
    Flow(cfg.rate, now, now, e);
    LevelNonNegative(cfg, b, now);
    if ts != [] {
      var t := ts[0];
      var (b', ok) := Take(cfg, b, t);
      assert Alone(cfg, b, ip, ts)[1..] == Alone(cfg, b', ip, ts[1..]);
      if t <= e {
        LevelGrows(cfg, b, now, t);
        Flow(cfg.rate, now, t, e);
        AfterTake(cfg, b, t);
        InsideWindow(cfg, b', ip, ts[1..], t, a, e);
      } else {
        NothingAfter(cfg, b', ip, ts[1..], t, a, e);
      }
    }
  }

  lemma AfterTake(cfg: Config, b: Bucket, t: real)
    requires cfg.rate > 0.0 && Sound(cfg, b) && b.last <= t
    ensures var (b', ok) := Take(cfg, b, t);
      Sound(cfg, b') && b'.last <= t && Level(cfg, b', t) == Level(cfg, b, t) - if ok then 1.0 else 0.0
  {}

  lemma {:induction false} NothingAfter(cfg: Config, b: Bucket, ip: string, ts: seq<real>, now: real, a: real, e: real)
    requires e < now && TimesFrom(now, ts)
    ensures Admitted(Alone(cfg, b, ip, ts), a, e) == 0
    decreases |ts|
  {
    if ts != [] {
      var b' := Take(cfg, b, ts[0]).0;
      assert Alone(cfg, b, ip, ts)[1..] == Alone(cfg, b', ip, ts[1..]);
      NothingAfter(cfg, b', ip, ts[1..], ts[0], a, e);
    }
  }

  lemma {:induction false} AloneWindow(cfg: Config, b: Bucket, ip: string, ts: seq<real>, now: real, a: real, e: real)
    requires cfg.rate > 0.0 && cfg.burst >= 0 && Sound(cfg, b) && b.last <= now && a <= e && TimesFrom(now, ts)
    ensures Admitted(Alone(cfg, b, ip, ts), a, e) as real <= Allowance(cfg, a, e)
    decreases |ts|
  {
    AllowanceFlows(cfg, a, a, e);
    if ts != [] {
      var t := ts[0];
      var b' := Take(cfg, b, t).0;
      AfterTake(cfg, b, t);
      assert Alone(cfg, b, ip, ts)[1..] == Alone(cfg, b', ip, ts[1..]);
      if t < a {
        AloneWindow(cfg, b', ip, ts[1..], t, a, e);
      } else if t <= e {
        FromFirstInside(cfg, b, ip, ts, a, e);
      } else {
        NothingAfter(cfg, b', ip, ts[1..], t, a, e);
      }
    }
  }

  lemma FromFirstInside(cfg: Config, b: Bucket, ip: string, ts: seq<real>, a: real, e: real)
    requires cfg.rate > 0.0 && cfg.burst >= 0 && Sound(cfg, b) && ts != []
    requires b.last <= ts[0] && a <= ts[0] <= e && TimesFrom(ts[0], ts[1..])
    ensures Admitted(Alone(cfg, b, ip, ts), a, e) as real <= Allowance(cfg, a, e)
  {
    var t := ts[0];
    assert TimesFrom(t, ts);
    InsideWindow(cfg, b, ip, ts, t, a, e);
    assert Level(cfg, b, t) <= cfg.burst as real;
    AllowanceFlows(cfg, a, t, e);
    AllowanceFlows(cfg, a, a, t);
  }

  lemma {:induction false} TimesOfRun(ip: string, from: real, es: seq<Event>)
    requires ClockFrom(from, es)
    ensures forall early :: early <= from ==> TimesFrom(early, TimesOf(ip, es))
    decreases |es|
  {
    if es != [] {
      TimesOfRun(ip, es[0].t, es[1..]);
      if es[0].Request? && es[0].ip == ip {
        assert TimesOf(ip, es)[1..] == TimesOf(ip, es[1..]);
      } else {
        assert TimesOf(ip, es) == TimesOf(ip, es[1..]);
      }
    }
  }

  lemma {:induction false} NoBurstNoAdmission(cfg: Config, b: Bucket, ip: string, ts: seq<real>, a: real, e: real)
    requires cfg.burst < 1
    ensures Admitted(Alone(cfg, b, ip, ts), a, e) == 0
    decreases |ts|
  {
    if ts != [] {
      assert Take(cfg, b, ts[0]) == (b, false);
      assert Alone(cfg, b, ip, ts)[1..] == Alone(cfg, b, ip, ts[1..]);
      NoBurstNoAdmission(cfg, b, ip, ts[1..], a, e);
    }
  }

  /** In any interval of length d, one IP is admitted at most burst + rate * d times; never, if
      the burst is not positive. */
  lemma WindowBound(cfg: Config, ip: string, from: real, es: seq<Event>, a: real, e: real)
    requires cfg.rate > 0.0 && (Refills(cfg) || WithoutCleanup(es) == es)
    requires a <= e && ClockFrom(from, es)
    ensures var n := Admitted(Of(ip, Decisions(cfg, map[], es)), a, e);
      if cfg.burst < 1 then n == 0 else n as real <= Allowance(cfg, a, e)
  {
    var b := NewBucket(cfg, from);
    ClientSeesOwnBucket(cfg, map[], ip, b, from, es);
    TimesOfRun(ip, from, es);
    if cfg.burst < 1 {
      NoBurstNoAdmission(cfg, b, ip, TimesOf(ip, es), a, e);
    } else {
      AloneWindow(cfg, b, ip, TimesOf(ip, es), from, a, e);
    }
  }

  // ---------- Every refusal has a cause ----------

  lemma {:induction false} AdmittedSplit(ds: seq<Decision>, fs: seq<Decision>, a: real, e: real)
    ensures Admitted(ds + fs, a, e) == Admitted(ds, a, e) + Admitted(fs, a, e)
  {
    if ds == [] {
      assert ds + fs == fs;
    } else {
      assert (ds + fs)[1..] == ds[1..] + fs;
      AdmittedSplit(ds[1..], fs, a, e);
    }
  }

  /** Nothing in `ds` was admitted after `last`. */
  predicate AdmittedUpTo(ds: seq<Decision>, last: real) {
    forall d :: d in ds && d.ok ==> d.t <= last
  }

  lemma {:induction false} NoLaterAdmission(ds: seq<Decision>, a: real, last: real, e: real)
    requires AdmittedUpTo(ds, last) && last <= e
    ensures Admitted(ds, a, e) == Admitted(ds, a, last)
    ensures last < a ==> Admitted(ds, a, e) == 0
  {
    if ds != [] {
      NoLaterAdmission(ds[1..], a, last, e);
    }
  }

  /** The bucket was full at `a`, and since then all that flowed in was kept. */
  predicate Explains(cfg: Config, b: Bucket, hist: seq<Decision>, a: real) {
    && a <= b.last && AdmittedUpTo(hist, b.last)
    && b.tokens == Allowance(cfg, a, b.last) - Admitted(hist, a, b.last) as real
  }

  lemma OneDecision(hist: seq<Decision>, d: Decision, a: real)
    requires a <= d.t
    ensures Admitted(hist + [d], a, d.t) == Admitted(hist, a, d.t) + if d.ok then 1 else 0
  {
    AdmittedSplit(hist, [d], a, d.t);
    assert Admitted([d], a, d.t) == (if d.ok then 1 else 0) + Admitted([d][1..], a, d.t);
  }

  lemma UncappedLevel(cfg: Config, b: Bucket, hist: seq<Decision>, a: real, t: real)
    requires cfg.rate > 0.0 && Explains(cfg, b, hist, a) && b.last <= t
    ensures b.tokens + (t - b.last) * cfg.rate == Allowance(cfg, a, t) - Admitted(hist, a, t) as real
  {
    AllowanceFlows(cfg, a, b.last, t);
    NoLaterAdmission(hist, a, b.last, t);
  }

  /** Admissions of a history that one more grant at `t` joins. */
  lemma GrantJoins(hist: seq<Decision>, last: real, ip: string, t: real, a: real)
    requires AdmittedUpTo(hist, last) && last <= t && a <= t
    ensures var after := hist + [Decision(ip, t, true)];
      && AdmittedUpTo(after, t)
      && Admitted(after, a, t) as real == Admitted(hist, a, last) as real + 1.0
      && (last < a ==> Admitted(after, a, t) == 1)
  {
    NoLaterAdmission(hist, a, last, t);
    OneDecision(hist, Decision(ip, t, true), a);
  }

  lemma CappedTake(cfg: Config, b: Bucket, t: real)
    requires b.last <= t && cfg.burst as real < b.tokens + (t - b.last) * cfg.rate && Take(cfg, b, t).1
    ensures Take(cfg, b, t).0 == Bucket(cfg.burst as real - 1.0, t)
  {}

  lemma NewAccount(cfg: Config, b: Bucket, hist: seq<Decision>)
    requires cfg.rate > 0.0 && AdmittedUpTo(hist, b.last)
    requires b.tokens == cfg.burst as real - Admitted(hist, b.last, b.last) as real
    ensures Explains(cfg, b, hist, b.last)
  {
    AllowanceFlows(cfg, b.last, b.last, b.last);
  }

  lemma RefilledLater(cfg: Config, b: Bucket, t: real)
    requires b.last <= t && b.tokens <= cfg.burst as real < b.tokens + (t - b.last) * cfg.rate
    ensures b.last < t
  {
    FlowTakesTime(cfg.rate, t - b.last);
  }

  /** A grant from a bucket that was capped starts a new account. */
  lemma CappedGrant(cfg: Config, b: Bucket, hist: seq<Decision>, a: real, ip: string, t: real)
    requires cfg.rate > 0.0 && Explains(cfg, b, hist, a) && b.last <= t && Take(cfg, b, t).1
    requires b.tokens <= cfg.burst as real < b.tokens + (t - b.last) * cfg.rate
    ensures Explains(cfg, Take(cfg, b, t).0, hist + [Decision(ip, t, true)], t)
  {
    RefilledLater(cfg, b, t);
    CappedTake(cfg, b, t);
    GrantJoins(hist, b.last, ip, t, t);
    NewAccount(cfg, Bucket(cfg.burst as real - 1.0, t), hist + [Decision(ip, t, true)]);
  }

  /** Any other grant goes on the same account. */
  lemma UncappedGrant(cfg: Config, b: Bucket, hist: seq<Decision>, a: real, ip: string, t: real)
    requires cfg.rate > 0.0 && Explains(cfg, b, hist, a) && b.last <= t && Take(cfg, b, t).1
    requires b.tokens + (t - b.last) * cfg.rate <= cfg.burst as real
    ensures Explains(cfg, Take(cfg, b, t).0, hist + [Decision(ip, t, true)], a)
  {
    UncappedTake(cfg, b, t);
    GrantJoins(hist, b.last, ip, t, a);
    AllowanceFlows(cfg, a, b.last, t);
  }

  lemma UncappedTake(cfg: Config, b: Bucket, t: real)
    requires b.last <= t && b.tokens + (t - b.last) * cfg.rate <= cfg.burst as real && Take(cfg, b, t).1
    ensures Take(cfg, b, t).0 == Bucket(b.tokens + (t - b.last) * cfg.rate - 1.0, t)
  {}

  lemma RefusalExplained(cfg: Config, b: Bucket, hist: seq<Decision>, a: real, ip: string, t: real)
    requires Explains(cfg, b, hist, a)
    ensures Explains(cfg, b, hist + [Decision(ip, t, false)], a)
  {
    AdmittedSplit(hist, [Decision(ip, t, false)], a, b.last);
    assert Admitted([Decision(ip, t, false)], a, b.last) == Admitted([Decision(ip, t, false)][1..], a, b.last);
  }

  /** Burst and refill since `a` do not cover one more request at `t` after those of `hist`. */
  predicate UsedUp(cfg: Config, hist: seq<Decision>, a: real, t: real) {
    Admitted(hist, a, t) as real + 1.0 > Allowance(cfg, a, t)
  }

  lemma RefusedNow(cfg: Config, b: Bucket, hist: seq<Decision>, a: real, t: real)
    requires cfg.rate > 0.0 && cfg.burst >= 1 && Explains(cfg, b, hist, a) && b.last <= t && !Take(cfg, b, t).1
    ensures UsedUp(cfg, hist, a, t)
  {
    UncappedLevel(cfg, b, hist, a, t);
  }

  /** After one request the bucket is again explained by what happened so far. */
  lemma StepExplained(cfg: Config, b: Bucket, hist: seq<Decision>, a: real, ip: string, t: real) returns (a': real)
    requires cfg.rate > 0.0 && Explains(cfg, b, hist, a) && b.last <= t && b.tokens <= cfg.burst as real
    ensures var (b', ok) := Take(cfg, b, t);
      a <= a' && b'.last <= t && b'.tokens <= cfg.burst as real
      && Explains(cfg, b', hist + [Decision(ip, t, ok)], a')
  {
    a' := a;
    if !Take(cfg, b, t).1 {
      RefusalExplained(cfg, b, hist, a, ip, t);
    } else if b.tokens + (t - b.last) * cfg.rate > cfg.burst as real {
      a' := t;
      CappedGrant(cfg, b, hist, a, ip, t);
    } else {
      UncappedGrant(cfg, b, hist, a, ip, t);
    }
  }

  /** On a bucket of its own, a refused request finds a time since which burst and refill are
      used up. */
  lemma {:induction false} AloneRefused(cfg: Config, b: Bucket, ip: string, ts: seq<real>, hist: seq<Decision>,
      a: real, k: nat) returns (a': real)
    requires cfg.rate > 0.0 && cfg.burst >= 1 && TimesFrom(b.last, ts)
    requires Explains(cfg, b, hist, a) && b.tokens <= cfg.burst as real
    requires k < |Alone(cfg, b, ip, ts)| && !Alone(cfg, b, ip, ts)[k].ok
    ensures var ds := Alone(cfg, b, ip, ts);
      a <= a' <= ds[k].t && UsedUp(cfg, hist + ds[..k], a', ds[k].t)
    decreases |ts|
  {
    var ds, t := Alone(cfg, b, ip, ts), ts[0];
    var (b', ok) := Take(cfg, b, t);
    assert ds[0] == Decision(ip, t, ok) && ds[1..] == Alone(cfg, b', ip, ts[1..]);
    if k == 0 {
      RefusedNow(cfg, b, hist, a, t);
      assert hist + ds[..0] == hist;
      a' := a;
    } else {
      var a1 := StepExplained(cfg, b, hist, a, ip, t);
      LaterTimes(b'.last, t, ts[1..]);
      a' := AloneRefused(cfg, b', ip, ts[1..], hist + [ds[0]], a1, k - 1);
      assert hist + ds[..k] == hist + [ds[0]] + ds[1..][..k - 1];
    }
  }

  lemma LaterTimes(early: real, now: real, ts: seq<real>)
    requires early <= now && TimesFrom(now, ts)
    ensures TimesFrom(early, ts)
  {}

  /** A request is refused only if, since some moment of the run, burst and refill are used up. */
  lemma RefusalHasCause(cfg: Config, ip: string, from: real, es: seq<Event>, k: nat) returns (a: real)
    requires cfg.rate > 0.0 && cfg.burst >= 1 && (Refills(cfg) || WithoutCleanup(es) == es) && ClockFrom(from, es)
    requires var ds := Of(ip, Decisions(cfg, map[], es)); k < |ds| && !ds[k].ok
    ensures var ds := Of(ip, Decisions(cfg, map[], es));
      from <= a <= ds[k].t && UsedUp(cfg, ds[..k], a, ds[k].t)
  {
    var b := NewBucket(cfg, from);
    ClientSeesOwnBucket(cfg, map[], ip, b, from, es);
    TimesOfRun(ip, from, es);
    assert Explains(cfg, b, [], from);
    a := AloneRefused(cfg, b, ip, TimesOf(ip, es), [], from, k);
    var ds := Of(ip, Decisions(cfg, map[], es));
    assert [] + ds[..k] == ds[..k];
  }

  /** The `k`th decision and those before it are among those of the run. */
  lemma AdmittedSoFar(ds: seq<Decision>, k: nat, a: real)
    requires k < |ds| && ds[k].ok && a <= ds[k].t
    ensures Admitted(ds[..k], a, ds[k].t) + 1 <= Admitted(ds, a, ds[k].t)
  {
    assert ds == ds[..k] + [ds[k]] + ds[k + 1..];
    AdmittedSplit(ds[..k] + [ds[k]], ds[k + 1..], a, ds[k].t);
    OneDecision(ds[..k], ds[k], a);
  }

  lemma FitsWindow(cfg: Config, ds: seq<Decision>, k: nat, a: real)
    requires k < |ds| && ds[k].ok && a <= ds[k].t
    requires Admitted(ds, a, ds[k].t) == 0 || Admitted(ds, a, ds[k].t) as real <= Allowance(cfg, a, ds[k].t)
    ensures !UsedUp(cfg, ds[..k], a, ds[k].t)
  {
    AdmittedSoFar(ds, k, a);
  }

  lemma AdmittedWithin(cfg: Config, ip: string, from: real, es: seq<Event>, a: real, e: real)
    requires cfg.rate > 0.0 && (Refills(cfg) || WithoutCleanup(es) == es)
    requires a <= e && ClockFrom(from, es)
    ensures var n := Admitted(Of(ip, Decisions(cfg, map[], es)), a, e); n == 0 || n as real <= Allowance(cfg, a, e)
  {
    WindowBound(cfg, ip, from, es, a, e);
  }

  /** An admitted request fits burst and refill over every stretch of time that ends with it. */
  lemma AdmissionFits(cfg: Config, ip: string, from: real, es: seq<Event>, k: nat, a: real)
    requires cfg.rate > 0.0 && (Refills(cfg) || WithoutCleanup(es) == es) && ClockFrom(from, es)
    requires var ds := Of(ip, Decisions(cfg, map[], es)); k < |ds| && ds[k].ok && a <= ds[k].t
    ensures var ds := Of(ip, Decisions(cfg, map[], es)); !UsedUp(cfg, ds[..k], a, ds[k].t)
  {
    var ds := Of(ip, Decisions(cfg, map[], es));
    AdmittedWithin(cfg, ip, from, es, a, ds[k].t);
    FitsWindow(cfg, ds, k, a);
  }

  /** What the limiter decides, said without buckets: a request is refused if and only if, since
      some moment before it, one more admission would exceed the burst plus the rate times the
      length of that time. */
  lemma AdmittedIff(cfg: Config, ip: string, from: real, es: seq<Event>, k: nat)
    requires cfg.rate > 0.0 && (Refills(cfg) || WithoutCleanup(es) == es) && ClockFrom(from, es)
    requires k < |Of(ip, Decisions(cfg, map[], es))|
    ensures var ds := Of(ip, Decisions(cfg, map[], es));
      ds[k].ok <==> forall a :: a <= ds[k].t ==> !UsedUp(cfg, ds[..k], a, ds[k].t)
  {
    var ds := Of(ip, Decisions(cfg, map[], es));
    if ds[k].ok {
      forall a | a <= ds[k].t ensures !UsedUp(cfg, ds[..k], a, ds[k].t) {
        AdmissionFits(cfg, ip, from, es, k, a);
      }
    } else if cfg.burst >= 1 {
      var a := RefusalHasCause(cfg, ip, from, es, k);
    } else {
      assert UsedUp(cfg, ds[..k], ds[k].t, ds[k].t);
    }
  }

  // ---------- Both need the refill ----------

  function Requests(ip: string, t: real, n: nat): seq<Event> {
    if n == 0 then [] else [Request(ip, t)] + Requests(ip, t, n - 1)
  }

  function Grants(ip: string, t: real, n: nat): seq<Decision> {
    if n == 0 then [] else [Decision(ip, t, true)] + Grants(ip, t, n - 1)
  }

  /** At time `t` the limiter knows at most `ip`, seen just now, and would grant it `n` requests. */
  ghost predicate Ready(cfg: Config, m: Clients, ip: string, t: real, n: nat) {
    && m.Keys <= {ip}
    && if ip in m then m[ip].lastSeen == t && Level(cfg, m[ip].bucket, t) >= n as real else n <= cfg.burst
  }

  lemma ReadyServed(cfg: Config, m: Clients, ip: string, t: real, n: nat)
    requires Ready(cfg, m, ip, t, n) && n >= 1
    ensures Served(cfg, m, ip, t).1 && Ready(cfg, Served(cfg, m, ip, t).0, ip, t, n - 1)
  {
    var b := Seen(cfg, m, ip, t)[ip].bucket;
    assert Level(cfg, NewBucket(cfg, t), t) == cfg.burst as real;
    assert Level(cfg, b, t) >= n as real;
    assert Level(cfg, Take(cfg, b, t).0, t) >= (n - 1) as real;
  }

  /** Such a client gets `n` requests at once through. */
  lemma {:induction false} BurstServed(cfg: Config, m: Clients, ip: string, t: real, n: nat, tail: seq<Event>)
      returns (m': Clients)
    requires Ready(cfg, m, ip, t, n)
    ensures Decisions(cfg, m, Requests(ip, t, n) + tail) == Grants(ip, t, n) + Decisions(cfg, m', tail)
    ensures Ready(cfg, m', ip, t, 0)
    decreases n
  {
    var es := Requests(ip, t, n) + tail;
    if n == 0 {
      assert es == tail;
      m' := m;
    } else {
      var m1 := Served(cfg, m, ip, t).0;
      ReadyServed(cfg, m, ip, t, n);
      m' := BurstServed(cfg, m1, ip, t, n - 1, tail);
      assert es[0] == Request(ip, t) && es[1..] == Requests(ip, t, n - 1) + tail;
      assert Decisions(cfg, m, es) == [Decision(ip, t, true)] + Decisions(cfg, m1, es[1..]);
    }
  }

  lemma {:induction false} GrantsAdmitted(ip: string, t: real, n: nat, rest: seq<Decision>, a: real, e: real)
    requires a <= t <= e
    ensures Admitted(Of(ip, Grants(ip, t, n) + rest), a, e) == n + Admitted(Of(ip, rest), a, e)
  {
    var ds := Grants(ip, t, n) + rest;
    if n == 0 {
      assert ds == rest;
    } else {
      assert ds[1..] == Grants(ip, t, n - 1) + rest;
      GrantsAdmitted(ip, t, n - 1, rest, a, e);
      assert Of(ip, ds)[1..] == Of(ip, ds[1..]);
    }
  }

  lemma {:induction false} ClockOfRequests(ip: string, t: real, n: nat, from: real, tail: seq<Event>)
    requires from <= t && ClockFrom(t, tail)
    ensures n > 0 ==> ClockFrom(from, Requests(ip, t, n) + tail)
  {
    if n > 0 {
      assert (Requests(ip, t, n) + tail)[1..] == Requests(ip, t, n - 1) + tail;
      if n == 1 {
        assert Requests(ip, t, 0) + tail == tail;
      }
      ClockOfRequests(ip, t, n - 1, t, tail);
    }
  }

  lemma BeforeRefill(cfg: Config) returns (d: real)
    requires cfg.rate > 0.0 && !Refills(cfg)
    ensures d > IDLE && cfg.rate * d < cfg.burst as real
  {
    var full := cfg.burst as real / cfg.rate;
    assert full * cfg.rate == cfg.burst as real;
    assert full > IDLE by {
      if full <= IDLE {
        Flow(cfg.rate, 0.0, full, IDLE);
      }
    }
    d := (IDLE + full) / 2.0;
    assert (full - d) * cfg.rate > 0.0;
    assert full * cfg.rate == d * cfg.rate + (full - d) * cfg.rate;
  }

  lemma TwoBursts(cfg: Config, ip: string, d: real) returns (es: seq<Event>)
    requires cfg.rate > 0.0 && cfg.burst >= 1 && d > IDLE
    ensures ClockFrom(0.0, es)
    ensures Admitted(Of(ip, Decisions(cfg, map[], es)), 0.0, d) == 2 * cfg.burst
  {
    var burst := cfg.burst;
    var second := Requests(ip, d, burst) + [];
    es := Requests(ip, 0.0, burst) + ([Cleanup(d)] + second);
    var m1 := BurstServed(cfg, map[], ip, 0.0, burst, [Cleanup(d)] + second);
    assert ([Cleanup(d)] + second)[1..] == second;
    assert Swept(m1, d) == map[];
    var m2 := BurstServed(cfg, map[], ip, d, burst, []);
    GrantsAdmitted(ip, 0.0, burst, Decisions(cfg, map[], second), 0.0, d);
    GrantsAdmitted(ip, d, burst, [], 0.0, d);
    ClockOfRequests(ip, d, burst, d, []);
    ClockOfRequests(ip, 0.0, burst, 0.0, [Cleanup(d)] + second);
  }

  /** If ten minutes do not refill a bucket, one client can be admitted two whole bursts around
      a cleanup: the run exceeds the window bound and is decided differently without cleanups. */
  lemma WithoutRefillEvictionShows(cfg: Config, ip: string) returns (es: seq<Event>, d: real)
    requires cfg.rate > 0.0 && cfg.burst >= 1 && !Refills(cfg)
    ensures ClockFrom(0.0, es) && d > 0.0
    ensures Admitted(Of(ip, Decisions(cfg, map[], es)), 0.0, d) as real > Allowance(cfg, 0.0, d)
    ensures Decisions(cfg, map[], es) != Decisions(cfg, map[], WithoutCleanup(es))
  {
    d := BeforeRefill(cfg);
    AllowanceFlows(cfg, 0.0, 0.0, d);
    es := TwoBursts(cfg, ip, d);
    SkippingCleanups(es, ip, 0.0);
    WindowBound(cfg, ip, 0.0, WithoutCleanup(es), 0.0, d);
  }

  // ---------- The limiter in its own form ----------

  /** The library's token bucket. */
  class Limiter {
    const cfg: Config
    ghost const owner: string
    var tokens: real
    var last: real

    constructor (cfg: Config, now: real, ghost owner: string)
      ensures this.cfg == cfg && this.owner == owner && AsBucket() == NewBucket(cfg, now)
    {
      this.cfg := cfg;
      this.owner := owner;
      tokens := cfg.burst as real;
      last := now;
    }

    function AsBucket(): Bucket
      reads this
    {
      Bucket(tokens, last)
    }

    method Allow(now: real) returns (ok: bool)
      modifies this
      ensures (AsBucket(), ok) == Take(cfg, old(AsBucket()), now)
    {
      ghost var before := AsBucket();
      var elapsed := if now < last then 0.0 else now - last;
      var level := tokens + elapsed * cfg.rate;
      if level > cfg.burst as real {
        level := cfg.burst as real;
      }
      assert level == Level(cfg, before, now);
      level := level - 1.0;
      ok := level >= 0.0;
      if ok {
        last := now;
        tokens := level;
      }
    }
  }

  class ClientRecord {
    const limiter: Limiter
    ghost const owner: string
    var lastSeen: real

    constructor (limiter: Limiter, lastSeen: real)
      ensures this.limiter == limiter && this.lastSeen == lastSeen && owner == limiter.owner
    {
      this.owner := limiter.owner;
      this.limiter := limiter;
      this.lastSeen := lastSeen;
    }
  }

  class RateLimiter {
    const cfg: Config
    var clients: map<string, ClientRecord>
    ghost var Repr: set<object>

    constructor (cfg: Config)
      ensures Valid() && this.cfg == cfg && View() == map[] && Repr == {}
    {
      this.cfg := cfg;
      clients := map[];
      Repr := {};
    }

    /** Every client has its own record and its own bucket. */
    ghost predicate Valid()
      reads this
    {
      forall ip :: ip in clients ==>
        && clients[ip] in Repr && clients[ip].limiter in Repr
        && clients[ip].limiter.cfg == cfg
        && clients[ip].owner == clients[ip].limiter.owner == ip
    }

    ghost function View(): Clients
      requires Valid()
      reads this, Repr
    {
      map ip | ip in clients :: Client(clients[ip].limiter.AsBucket(), clients[ip].lastSeen)
    }

    method GetLimiter(ip: string, now: real) returns (limiter: Limiter)
      requires Valid()
      modifies `clients, `Repr, Repr
      ensures Valid() && ip in clients && limiter == clients[ip].limiter
      ensures View() == Seen(cfg, old(View()), ip, now)
      ensures fresh(Repr - old(Repr))
    {
      if ip in clients {
        var c := clients[ip];
        c.lastSeen := now;
        limiter := c.limiter;
      } else {
        limiter := AddClient(ip, now);
      }
    }

    method AddClient(ip: string, now: real) returns (limiter: Limiter)
      requires Valid() && ip !in clients
      modifies `clients, `Repr
      ensures Valid() && ip in clients && limiter == clients[ip].limiter
      ensures View() == old(View())[ip := Client(NewBucket(cfg, now), now)]
      ensures fresh(Repr - old(Repr))
    {
      ghost var seen := View();
      limiter := new Limiter(cfg, now, ip);
      var c := new ClientRecord(limiter, now);
      assert View() == seen;
      clients := clients[ip := c];
      Repr := Repr + {limiter, c};
      assert Valid();
    }

    /** The middleware's decision: look the client up, then ask its bucket. */
    method Handle(ip: string, now: real) returns (ok: bool)
      requires Valid()
      modifies `clients, `Repr, Repr
      ensures Valid()
      ensures (View(), ok) == Served(cfg, old(View()), ip, now)
      ensures fresh(Repr - old(Repr))
    {
      var limiter := GetLimiter(ip, now);
      ok := Ask(limiter, ip, now);
    }

    /** The bucket's answer, seen from the whole table. */
    method Ask(limiter: Limiter, ip: string, now: real) returns (ok: bool)
      requires Valid() && ip in clients && limiter == clients[ip].limiter
      modifies limiter
      ensures Valid() && ip in old(View())
      ensures var seen := old(View());
        (View(), ok) ==
          (seen[ip := seen[ip].(bucket := Take(cfg, seen[ip].bucket, now).0)], Take(cfg, seen[ip].bucket, now).1)
    {
      ghost var seen := View();
      ok := limiter.Allow(now);
      assert View() == seen[ip := seen[ip].(bucket := limiter.AsBucket())];
    }

    /** One tick of the cleanup goroutine. */
    method CleanupPass(now: real)
      requires Valid()
      modifies `clients
      ensures Valid()
      ensures View() == Swept(old(View()), now)
    {
      ghost var before := clients;
      var left := clients.Keys;
      while left != {}
        invariant Valid() && left <= clients.Keys <= before.Keys
        invariant forall ip :: ip in clients ==> clients[ip] == before[ip]
        invariant forall ip :: ip in before ==> (ip in clients <==> ip in left || now - before[ip].lastSeen <= IDLE)
      {
        var ip :| ip in left;
        if now - clients[ip].lastSeen > IDLE {
          clients := clients - {ip};
        }
        left := left - {ip};
      }
    }
  }
}
