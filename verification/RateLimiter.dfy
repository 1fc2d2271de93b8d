/** The per-peer token buckets of cmd/p2ptap-boot/security.go, over real-valued time in seconds. */
module RateLimiter {

  import opened Common

  datatype Bucket = Bucket(tokens: real, lastRefill: real)

  type Buckets = map<PeerId, Bucket>

  /** The two numbers a limiter is made with. */
  datatype Limits = Limits(rate: real, burst: real)

  const PEEK_MAP := Limits(20.0, 40.0)
  const BOOT_RELAY := Limits(5000.0, 10000.0)
  const IDLE_LIMIT := 900.0

  function Min(a: real, b: real): (r: real) {
    if a > b then b else a
  }

  /** The tokens that time brings in. */
  function Earned(seconds: real, rate: real): (r: real) {
    seconds * rate
  }

  /** The tokens a bucket would show at the given time. */
  function Refilled(b: Bucket, l: Limits, now: real): (r: real) {
    Min(b.tokens + Earned(now - b.lastRefill, l.rate), l.burst)
  }

  /** One attempt at a token: what Allow does, and what each round of Acquire does. */
  function Try(bs: Buckets, l: Limits, p: PeerId, now: real): (r: (Buckets, bool)) {
    var b := if p in bs then bs[p] else Bucket(l.burst, now);
    var tokens := Refilled(b, l, now);
    if tokens >= 1.0 then (bs[p := Bucket(tokens - 1.0, now)], true) else (bs[p := Bucket(tokens, now)], false)
  }

  /** Cleanup: buckets idle for more than fifteen minutes go. */
  function Cleaned(bs: Buckets, now: real): (r: Buckets) {
    map p | p in bs && !(now - bs[p].lastRefill > IDLE_LIMIT) :: bs[p]
  }

  // ---------------------------------------------------------------- The limiter as it runs

  class PeerRateLimiter {
    const limits: Limits
    var buckets: Buckets

    constructor (limits: Limits)
      ensures this.limits == limits && buckets == map[]
    {
      this.limits, buckets := limits, map[];
    }

    method Allow(p: PeerId, now: real) returns (granted: bool)
      modifies this`buckets
      ensures (buckets, granted) == Try(old(buckets), limits, p, now)
    {
      hide Earned;
      if p !in buckets {
        buckets := buckets[p := Bucket(limits.burst, now)];
      }
      var tb := buckets[p];
      var elapsed := now - tb.lastRefill;
      tb := tb.(lastRefill := now, tokens := tb.tokens + Earned(elapsed, limits.rate));
      if tb.tokens > limits.burst {
        tb := tb.(tokens := limits.burst);
      }
      granted := tb.tokens >= 1.0;
      if granted {
        tb := tb.(tokens := tb.tokens - 1.0);
      }
      buckets := buckets[p := tb];
      assert buckets == old(buckets)[p := tb];
    }

    /**
      Acquire: attempts until one is granted or the deadline is out of reach.  clock
      gives the time of each attempt and of the look at the deadline after it; the
      last answer is a refusal only for a good reason, or when clock has run out.
     */
    method Acquire(p: PeerId, start: real, maxWait: real, clock: seq<(real, real)>)
      returns (granted: bool, attempts: nat)
      modifies this`buckets
      ensures attempts <= |clock|
      ensures limits.rate <= 0.0 ==> granted && buckets == old(buckets)
      ensures limits.rate > 0.0 ==> (buckets, granted) == TryEach(old(buckets), limits, p, clock[..attempts])
      ensures limits.rate > 0.0 && !granted && attempts < |clock| ==>
                && attempts > 0 && p in buckets
                && var remaining := start + maxWait - clock[attempts - 1].1;
                   remaining <= 0.0 || (1.0 - buckets[p].tokens) / limits.rate > remaining
      ensures limits.rate > 0.0 ==>
                var deadline := start + maxWait;
                forall i :: 0 <= i < attempts - 1 ==> StillWaiting(old(buckets), limits, p, deadline, clock, i)
    {
      hide Try;
      attempts := 0;
      if limits.rate <= 0.0 {
        return true, 0;
      }
      granted := false;
      var deadline := start + maxWait;
      while attempts < |clock|
        invariant attempts <= |clock| && !granted
        invariant (buckets, granted) == TryEach(old(buckets), limits, p, clock[..attempts])
        invariant forall i :: 0 <= i < attempts ==> StillWaiting(old(buckets), limits, p, deadline, clock, i)
      {
        var now := clock[attempts].0;
        assert clock[..attempts + 1][..attempts] == clock[..attempts];
        TryKeepsKey(buckets, limits, p, now);
        granted := Allow(p, now);
        var remaining := deadline - clock[attempts].1;
        attempts := attempts + 1;
        if granted {
          return;
        }
        var need := (1.0 - buckets[p].tokens) / limits.rate;
        if remaining <= 0.0 || need > remaining {
          return;
        }
      }
    }

    method Cleanup(now: real)
      modifies this`buckets
      ensures buckets == Cleaned(old(buckets), now)
      ensures forall p :: p in buckets <==> p in old(buckets) && now - old(buckets)[p].lastRefill <= 900.0
      ensures forall p :: p in buckets ==> buckets[p] == old(buckets)[p]
    {
      var keys := buckets.Keys;
      while keys != {}
        invariant keys <= buckets.Keys
        invariant forall p :: p in buckets ==> p in old(buckets) && buckets[p] == old(buckets)[p]
        invariant forall p :: p in old(buckets) && !(now - old(buckets)[p].lastRefill > IDLE_LIMIT) ==> p in buckets
        invariant forall p :: p in buckets && p !in keys ==> !(now - buckets[p].lastRefill > IDLE_LIMIT)
        decreases |keys|
      {
        var p :| p in keys;
        keys := keys - {p};
        if now - buckets[p].lastRefill > IDLE_LIMIT {
          buckets := buckets - {p};
        }
      }
      assert buckets == Cleaned(old(buckets), now);
    }
  }

  /** The next token comes too late, or the time is already up. */
  predicate OutOfReach(b: Bucket, l: Limits, remaining: real)
    requires l.rate > 0.0
  {
    remaining <= 0.0 || (1.0 - b.tokens) / l.rate > remaining
  }

  /** Attempt i was refused, with the next token still within reach. */
  ghost predicate StillWaiting(bs: Buckets, l: Limits, p: PeerId, deadline: real, clock: seq<(real, real)>, i: nat)
    requires i < |clock| && l.rate > 0.0
  {
    var (after, granted) := TryEach(bs, l, p, clock[..i + 1]);
    !granted && p in after && !OutOfReach(after[p], l, deadline - clock[i].1)
  }

  lemma TryKeepsKey(bs: Buckets, l: Limits, p: PeerId, now: real)
    ensures p in Try(bs, l, p, now).0
  {}

  /** The computed wait is exact: after a refusal, a token is there from then on, and not before. */
  lemma WaitExact(bs: Buckets, l: Limits, p: PeerId, now: real, t: real)
    requires BucketsOk(bs, l, now) && l.rate > 0.0 && l.burst >= 1.0 && now <= t
    requires !Try(bs, l, p, now).1
    ensures var after := Try(bs, l, p, now).0;
            Level(after, l, p, t) >= 1.0 <==> t >= now + (1.0 - after[p].tokens) / l.rate
  {
    var b := Try(bs, l, p, now).0[p];
    var need := (1.0 - b.tokens) / l.rate;
    assert Earned(need, l.rate) == 1.0 - b.tokens;
    hide Earned;
    if t >= now + need {
      EarnedMonotone(need, t - now, l.rate);
    } else {
      EarnedStrict(t - now, need, l.rate);
    }
  }

  lemma EarnedStrict(a: real, b: real, rate: real)
    requires a < b && rate > 0.0
    ensures Earned(a, rate) < Earned(b, rate)
  {
    EarnedSum(a, b - a, rate);
    assert Earned(b - a, rate) > 0.0;
  }

  /** Successive attempts at the given times, and the verdict of the last. */
  function TryEach(bs: Buckets, l: Limits, p: PeerId, clock: seq<(real, real)>): (r: (Buckets, bool)) {
    if clock == [] then (bs, false)
    else
      var n := |clock| - 1;
      Try(TryEach(bs, l, p, clock[..n]).0, l, p, clock[n].0)
  }

  // ---------------------------------------------------------------- Levels

  /** What a peer could draw at the given time; an unknown peer has a full bucket. */
  function Level(bs: Buckets, l: Limits, p: PeerId, now: real): (r: real) {
    if p in bs then Refilled(bs[p], l, now) else l.burst
  }

  ghost predicate BucketsOk(bs: Buckets, l: Limits, now: real) {
    forall p :: p in bs ==> 0.0 <= bs[p].tokens <= l.burst && bs[p].lastRefill <= now
  }

  lemma EarnedSum(a: real, b: real, rate: real)
    ensures Earned(a + b, rate) == Earned(a, rate) + Earned(b, rate)
  {}

  lemma EarnedMonotone(a: real, b: real, rate: real)
    requires a <= b && rate > 0.0
    ensures Earned(a, rate) <= Earned(b, rate) && Earned(0.0, rate) == 0.0
  {
    EarnedSum(a, b - a, rate);
    assert Earned(b - a, rate) >= 0.0;
  }

  /** No time, no refill; and time never empties a bucket. */
  lemma RefillBounds(b: Bucket, l: Limits, now: real)
    requires b.lastRefill <= now && l.rate > 0.0 && 0.0 <= b.tokens <= l.burst
    ensures b.tokens <= Refilled(b, l, now) <= l.burst
    ensures b.lastRefill == now ==> Refilled(b, l, now) == b.tokens
  {
    hide Earned;
    EarnedMonotone(0.0, now - b.lastRefill, l.rate);
  }

  /** An attempt takes one token from the level exactly when it is granted, which it is from one token on. */
  lemma TryLevel(bs: Buckets, l: Limits, p: PeerId, now: real)
    requires BucketsOk(bs, l, now) && l.rate > 0.0 && l.burst >= 0.0
    ensures var (bs', granted) := Try(bs, l, p, now);
            && BucketsOk(bs', l, now)
            && (granted <==> Level(bs, l, p, now) >= 1.0)
            && Level(bs', l, p, now) == Level(bs, l, p, now) - (if granted then 1.0 else 0.0)
  {
    hide Refilled;
    var b := if p in bs then bs[p] else Bucket(l.burst, now);
    RefillBounds(b, l, now);
    RefillBounds(Try(bs, l, p, now).0[p], l, now);
  }

  /** Waiting adds at most rate tokens a second. */
  lemma LevelGrowth(bs: Buckets, l: Limits, p: PeerId, t: real, t': real)
    requires t <= t' && l.rate > 0.0
    ensures Level(bs, l, p, t') <= Level(bs, l, p, t) + Earned(t' - t, l.rate)
  {
    hide Earned;
    EarnedMonotone(0.0, t' - t, l.rate);
    if p in bs {
      var d := t - bs[p].lastRefill;
      EarnedSum(d, t' - t, l.rate);
      assert d + (t' - t) == t' - bs[p].lastRefill;
    }
  }

  /** A cleanup changes no level, now or later, when fifteen minutes fill a bucket. */
  lemma CleanupLevel(bs: Buckets, l: Limits, now: real, p: PeerId, t: real)
    requires BucketsOk(bs, l, now) && l.rate > 0.0 && Earned(IDLE_LIMIT, l.rate) >= l.burst && now <= t
    ensures Level(Cleaned(bs, now), l, p, t) == Level(bs, l, p, t)
  {
    hide Earned;
    if p in bs && p !in Cleaned(bs, now) {
      EarnedMonotone(IDLE_LIMIT, t - bs[p].lastRefill, l.rate);
    }
  }

  /** Fifteen minutes fill either configured limiter. */
  lemma ConfiguredLimiters()
    ensures PEEK_MAP == Limits(20.0, 40.0) && BOOT_RELAY == Limits(5000.0, 10000.0)
    ensures Configured(PEEK_MAP) && Configured(BOOT_RELAY)
  {}

  // ---------------------------------------------------------------- Runs

  datatype Event = Attempt(p: PeerId, now: real) | Clean(now: real)

  function After(bs: Buckets, l: Limits, e: Event): (r: Buckets) {
    match e
    case Attempt(p, now) => Try(bs, l, p, now).0
    case Clean(now) => Cleaned(bs, now)
  }

  predicate Granted(bs: Buckets, l: Limits, e: Event, p: PeerId) {
    e.Attempt? && e.p == p && Try(bs, l, p, e.now).1
  }

  /** Events at non-decreasing times, from an empty limiter. */
  ghost predicate IsRun(states: seq<Buckets>, es: seq<Event>, l: Limits) {
    && |states| == |es| + 1 && states[0] == map[]
    && (forall i :: 0 <= i < |es| ==> states[i + 1] == After(states[i], l, es[i]))
    && (forall i, j :: 0 <= i < j < |es| ==> es[i].now <= es[j].now)
  }

  ghost predicate Configured(l: Limits) {
    l.rate > 0.0 && l.burst >= 0.0 && Earned(IDLE_LIMIT, l.rate) >= l.burst
  }

  lemma {:induction false} RunOk(states: seq<Buckets>, es: seq<Event>, l: Limits, n: nat)
    requires IsRun(states, es, l) && Configured(l) && n < |es|
    ensures BucketsOk(states[n], l, es[n].now)
  {
    if n > 0 {
      RunOk(states, es, l, n - 1);
      var e := es[n - 1];
      assert states[n] == After(states[n - 1], l, e);
      if e.Attempt? {
        TryLevel(states[n - 1], l, e.p, e.now);
      }
    }
  }

  /** The grants to p among events a..n-1. */
  ghost function Grants(states: seq<Buckets>, es: seq<Event>, l: Limits, p: PeerId, a: nat, n: nat): (g: nat)
    requires a <= n <= |es| && |states| == |es| + 1
  {
    if n == a then 0
    else Grants(states, es, l, p, a, n - 1) + if Granted(states[n - 1], l, es[n - 1], p) then 1 else 0
  }

  /** An event costs p a token exactly when it grants p one; cleanups cost nothing. */
  lemma EventLevel(bs: Buckets, l: Limits, e: Event, p: PeerId)
    requires BucketsOk(bs, l, e.now) && Configured(l)
    ensures Level(After(bs, l, e), l, p, e.now) == Level(bs, l, p, e.now) - (if Granted(bs, l, e, p) then 1.0 else 0.0)
  {
    match e
    case Attempt(q, now) => TryLevel(bs, l, q, now);
    case Clean(now) => CleanupLevel(bs, l, now, p, now);
  }

  lemma {:induction false} GrantsAndLevel(states: seq<Buckets>, es: seq<Event>, l: Limits, p: PeerId, a: nat, n: nat)
    requires IsRun(states, es, l) && Configured(l) && a < n <= |es|
    ensures Grants(states, es, l, p, a, n) as real + Level(states[n], l, p, es[n - 1].now)
         <= Level(states[a], l, p, es[a].now) + Earned(es[n - 1].now - es[a].now, l.rate)
  {
    hide Try, Refilled, Cleaned, Level, Granted, Earned;
    var m := n - 1;
    RunOk(states, es, l, m);
    EventLevel(states[m], l, es[m], p);
    if m > a {
      GrantsAndLevel(states, es, l, p, a, m);
      LevelGrowth(states[m], l, p, es[m - 1].now, es[m].now);
      var d, d' := es[m - 1].now - es[a].now, es[m].now - es[m - 1].now;
      EarnedSum(d, d', l.rate);
      assert es[m].now - es[a].now == d + d';
    } else {
      assert Grants(states, es, l, p, a, a) == 0;
      EarnedMonotone(0.0, 0.0, l.rate);
      assert es[m].now - es[a].now == 0.0;
    }
  }

  /**
    In any interval of length T a peer gets at most burst + rate*T tokens, through any
    mix of attempts and with any cleanups in between.
   */
  lemma GrantBound(states: seq<Buckets>, es: seq<Event>, l: Limits, p: PeerId, a: nat, n: nat)
    requires IsRun(states, es, l) && Configured(l) && a < n <= |es|
    ensures Grants(states, es, l, p, a, n) as real <= l.burst + Earned(es[n - 1].now - es[a].now, l.rate)
  {
    hide Try, Refilled, Cleaned, Grants, Earned;
    GrantsAndLevel(states, es, l, p, a, n);
    LevelRange(states, es, l, p, a, n);
  }

  lemma LevelRange(states: seq<Buckets>, es: seq<Event>, l: Limits, p: PeerId, a: nat, n: nat)
    requires IsRun(states, es, l) && Configured(l) && a < n <= |es|
    ensures Level(states[a], l, p, es[a].now) <= l.burst
    ensures Level(states[n], l, p, es[n - 1].now) >= 0.0
  {
    hide Try, Refilled, Cleaned, Granted, Earned;
    RunOk(states, es, l, n - 1);
    EventLevel(states[n - 1], l, es[n - 1], p);
    LevelNonNegative(states[n - 1], l, es[n - 1], p);
    RunOk(states, es, l, a);
    if p in states[a] {
      RefillBounds(states[a][p], l, es[a].now);
    }
  }

  lemma LevelNonNegative(bs: Buckets, l: Limits, e: Event, p: PeerId)
    requires BucketsOk(bs, l, e.now) && Configured(l)
    ensures Level(bs, l, p, e.now) >= if Granted(bs, l, e, p) then 1.0 else 0.0
  {
    hide Refilled;
    if p in bs {
      RefillBounds(bs[p], l, e.now);
    }
    if e.Attempt? && e.p == p {
      TryLevel(bs, l, p, e.now);
    }
  }

  // ---------------------------------------------------------------- Cleanups are invisible

  /** The same events with every cleanup skipped. */
  ghost predicate IsUncleaned(states: seq<Buckets>, es: seq<Event>, l: Limits) {
    && |states| == |es| + 1 && states[0] == map[]
    && forall i :: 0 <= i < |es| ==> states[i + 1] == if es[i].Clean? then states[i] else After(states[i], l, es[i])
  }

  /** Two tables no future attempt can tell apart. */
  ghost predicate SameLevels(a: Buckets, b: Buckets, l: Limits, now: real) {
    forall p, t :: now <= t ==> Level(a, l, p, t) == Level(b, l, p, t)
  }

  lemma LevelAfterTry(bs: Buckets, l: Limits, q: PeerId, now: real, p: PeerId, t: real)
    requires BucketsOk(bs, l, now) && Configured(l) && now <= t
    ensures Level(Try(bs, l, q, now).0, l, p, t)
         == if p != q then Level(bs, l, p, t)
            else Refilled(Bucket(Level(bs, l, q, now) - (if Level(bs, l, q, now) >= 1.0 then 1.0 else 0.0), now), l, t)
  {
    hide Earned;
    RefillBounds(Bucket(l.burst, now), l, now);
  }

  lemma {:induction false} SameRun(a: seq<Buckets>, b: seq<Buckets>, es: seq<Event>, l: Limits, n: nat)
    requires IsRun(a, es, l) && IsUncleaned(b, es, l) && Configured(l) && n < |es|
    ensures BucketsOk(b[n], l, es[n].now) && SameLevels(a[n], b[n], l, es[n].now)
  {
    hide Refilled, Level;
    if n == 0 {
      assert a[0] == b[0];
    } else {
      SameRun(a, b, es, l, n - 1);
      RunOk(a, es, l, n - 1);
      var e := es[n - 1];
      assert a[n] == After(a[n - 1], l, e) && e.now <= es[n].now;
      if e.Attempt? {
        TryLevel(b[n - 1], l, e.p, e.now);
      }
      forall p, t | es[n].now <= t ensures Level(a[n], l, p, t) == Level(b[n], l, p, t) {
        if e.Attempt? {
          LevelAfterTry(a[n - 1], l, e.p, e.now, p, t);
          LevelAfterTry(b[n - 1], l, e.p, e.now, p, t);
        } else {
          CleanupLevel(a[n - 1], l, e.now, p, t);
        }
      }
    }
  }

  /** No cleanup ever changes a later verdict. */
  lemma CleanupInvisible(a: seq<Buckets>, b: seq<Buckets>, es: seq<Event>, l: Limits, n: nat, p: PeerId)
    requires IsRun(a, es, l) && IsUncleaned(b, es, l) && Configured(l) && n < |es|
    ensures Granted(a[n], l, es[n], p) <==> Granted(b[n], l, es[n], p)
  {
    hide Try, Level;
    SameRun(a, b, es, l, n);
    RunOk(a, es, l, n);
    if es[n].Attempt? {
      TryLevel(a[n], l, es[n].p, es[n].now);
      TryLevel(b[n], l, es[n].p, es[n].now);
    }
  }

  // ---------------------------------------------------------------- Modest peers are served

  /** From a level of at least one token, an attempt one refill interval later finds one again. */
  lemma LevelReturns(bs: Buckets, l: Limits, p: PeerId, now: real, t: real)
    requires BucketsOk(bs, l, now) && Configured(l) && l.burst >= 1.0 && (t - now) * l.rate >= 1.0 && now <= t
    requires Level(bs, l, p, now) >= 0.0
    ensures Level(bs, l, p, t) >= 1.0
  {
    hide Earned;
    if p in bs {
      var b := bs[p];
      EarnedSum(now - b.lastRefill, t - now, l.rate);
      assert (now - b.lastRefill) + (t - now) == t - b.lastRefill;
      EarnedIs(t - now, l.rate);
    }
  }

  lemma EarnedIs(seconds: real, rate: real)
    ensures Earned(seconds, rate) == seconds * rate
  {}

  /** Whatever else happens, a peer whose last attempt is at least 1/rate seconds ago gets a token. */
  lemma ModestPeerServed(states: seq<Buckets>, es: seq<Event>, l: Limits, p: PeerId, n: nat)
    requires IsRun(states, es, l) && Configured(l) && l.burst >= 1.0 && n < |es| && es[n].Attempt? && es[n].p == p
    requires forall i :: 0 <= i < n && es[i].Attempt? && es[i].p == p ==> (es[n].now - es[i].now) * l.rate >= 1.0
    ensures Granted(states[n], l, es[n], p)
  {
    hide Try, Refilled, Cleaned, Level, Earned;
    RunOk(states, es, l, n);
    TryLevel(states[n], l, p, es[n].now);
    LevelSince(states, es, l, p, n, es[n].now);
  }

  lemma {:induction false} LevelSince(states: seq<Buckets>, es: seq<Event>, l: Limits, p: PeerId, n: nat, t: real)
    requires IsRun(states, es, l) && Configured(l) && l.burst >= 1.0 && n <= |es|
    requires forall i :: 0 <= i < n ==> es[i].now <= t
    requires forall i :: 0 <= i < n && es[i].Attempt? && es[i].p == p ==> (t - es[i].now) * l.rate >= 1.0
    ensures Level(states[n], l, p, t) >= 1.0
  {
    hide Try, Refilled, Cleaned, Earned;
    if n > 0 {
      var bs, e := states[n - 1], es[n - 1];
      RunOk(states, es, l, n - 1);
      assert states[n] == After(bs, l, e);
      if e.Attempt? && e.p == p {
        AfterTryLevel(bs, l, p, e.now);
        TryLevel(bs, l, p, e.now);
        LevelReturns(Try(bs, l, p, e.now).0, l, p, e.now, t);
      } else {
        LevelSince(states, es, l, p, n - 1, t);
        OthersKeepLevel(bs, l, e, p, t);
      }
    }
  }

  lemma AfterTryLevel(bs: Buckets, l: Limits, p: PeerId, now: real)
    requires BucketsOk(bs, l, now) && Configured(l)
    ensures Level(Try(bs, l, p, now).0, l, p, now) >= 0.0
  {
    hide Earned;
    TryLevel(bs, l, p, now);
    if p in bs { RefillBounds(bs[p], l, now); }
  }

  lemma OthersKeepLevel(bs: Buckets, l: Limits, e: Event, p: PeerId, t: real)
    requires BucketsOk(bs, l, e.now) && Configured(l) && e.now <= t && !(e.Attempt? && e.p == p)
    ensures Level(After(bs, l, e), l, p, t) == Level(bs, l, p, t)
  {
    hide Earned;
    if e.Clean? {
      CleanupLevel(bs, l, e.now, p, t);
    }
  }

  /** A peer seen for the first time can draw its whole burst at once. */
  lemma {:induction false} BurstServed(bs: Buckets, l: Limits, p: PeerId, now: real, n: nat)
    requires p !in bs && BucketsOk(bs, l, now) && Configured(l) && (n + 1) as real <= l.burst
    ensures var r := TryEach(bs, l, p, seq(n + 1, _ => (now, now)));
            r.1 && BucketsOk(r.0, l, now) && Level(r.0, l, p, now) == l.burst - (n + 1) as real
  {
    hide Try, Level;
    var clock := seq(n + 1, _ => (now, now));
    assert clock[..n] == seq(n, _ => (now, now));
    if n == 0 {
      FirstLevel(bs, l, p, now);
      assert TryEach(bs, l, p, clock) == Try(bs, l, p, now);
      TryLevel(bs, l, p, now);
    } else {
      BurstServed(bs, l, p, now, n - 1);
      TryLevel(TryEach(bs, l, p, clock[..n]).0, l, p, now);
    }
  }

  lemma FirstLevel(bs: Buckets, l: Limits, p: PeerId, now: real)
    requires p !in bs
    ensures Level(bs, l, p, now) == l.burst && TryEach(bs, l, p, []) == (bs, false)
  {}
}
