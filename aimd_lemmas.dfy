/** What the rate-control law guarantees: the invariant over any history of
    events, the exact effect of one tick, the recovery time, the number of
    tokens a bucket collects at full rate, what stopping does and does not
    change, and the scenarios the repository's tests describe. */
module AimdLemmas {
  import opened Aimd

  /** A tick raises the rate by at most one increment and never past the
      maximum, and keeps the invariant. */
  lemma TickRate(cfg: Config, s: State)
    requires Inv(cfg, s)
    ensures Inv(cfg, TickStep(cfg, s))
    ensures s.flowPerD <= TickStep(cfg, s).flowPerD <= s.flowPerD + cfg.recoveryPerD
  {
  }

  /** What one tick of a running bucket emits: exactly `floor(fill + rate)`
      offers, all stamped with the new rate per second, of which as many as fit
      are queued behind the old tokens, which stay as they were; the fill keeps
      only the fractional part. */
  lemma TickEmission(cfg: Config, s: State)
    requires Inv(cfg, s) && !s.stopped
    ensures var t := TickStep(cfg, s);
      var n := (s.fill + t.flowPerD).Floor;
      0 <= n &&
      t.fill == s.fill + t.flowPerD - n as real && 0.0 <= t.fill < 1.0 &&
      |t.bucket| == MinNat(cfg.bucketSize, |s.bucket| + n) &&
      forall i :: 0 <= i < |t.bucket| ==>
        t.bucket[i] == if i < |s.bucket| then s.bucket[i] else 100.0 * t.flowPerD
  {
    var t := TickStep(cfg, s);
    var x := s.fill + t.flowPerD;
    var n := TokensDue(x);
    TokensDueIsFloor(x);
    assert t.fill == x - n as real;
    assert t.bucket == Emit(s.bucket, cfg.bucketSize, RatePerSecond(t.flowPerD), n);
    EmitContents(s.bucket, cfg.bucketSize, RatePerSecond(t.flowPerD), n);
  }

  /** A backoff halves the rate exactly and keeps the invariant; the fill, the
      bucket and the stopped flag stay as they were. */
  lemma BackoffHalves(cfg: Config, s: State)
    requires Inv(cfg, s)
    ensures Inv(cfg, BackoffStep(s))
    ensures BackoffStep(s).flowPerD * 2.0 == s.flowPerD
    ensures BackoffStep(s).(flowPerD := s.flowPerD) == s
  {
  }

  /** Every event keeps the invariant. */
  lemma StepPreservesInv(cfg: Config, s: State, e: Event)
    requires Inv(cfg, s)
    ensures Inv(cfg, Step(cfg, s, e))
  {
    match e
    case Tick => TickRate(cfg, s);
    case Backoff => BackoffHalves(cfg, s);
    case Stop =>
    case Take =>
  }

  /** A new bucket satisfies the invariant, so by `RunPreservesInv` the rate
      stays in [0, max], the fill in [0, 1) and the bucket within its capacity
      after any history of ticks, backoffs, stops and receives. */
  lemma InitialInv(maxFlowPerSecond: real, bucketSize: nat, recoveryDuration: int)
    requires 0.0 <= maxFlowPerSecond && 0 < recoveryDuration
    ensures var cfg := NewConfig(maxFlowPerSecond, bucketSize, recoveryDuration);
      Inv(cfg, Initial(cfg)) && Initial(cfg).bucket == [] && Initial(cfg).fill == 0.0 &&
      Initial(cfg).flowPerD * 100.0 == maxFlowPerSecond
  {
  }

  lemma {:induction false} RunPreservesInv(cfg: Config, s: State, events: seq<Event>)
    requires Inv(cfg, s)
    ensures Inv(cfg, Run(cfg, s, events))
    decreases |events|
  {
    if events != [] {
      StepPreservesInv(cfg, s, events[0]);
      RunPreservesInv(cfg, Step(cfg, s, events[0]), events[1..]);
    }
  }

  /** A tick moves the rate by one recovery step unless the ticker is stopped. */
  lemma TickFlow(cfg: Config, s: State)
    ensures TickStep(cfg, s).flowPerD == if s.stopped then s.flowPerD else Recover(cfg, s.flowPerD)
    ensures TickStep(cfg, s).stopped == s.stopped
  {
  }

  /** The rate after `n` recovery steps from `f`. */
  function FlowAfter(cfg: Config, f: real, n: nat): real {
    if n == 0 then f else Recover(cfg, FlowAfter(cfg, f, n - 1))
  }

  /** Ticks change the rate only by recovery steps, and none once stopped. */
  lemma {:induction false} TicksFlow(cfg: Config, s: State, n: nat)
    ensures Ticks(cfg, s, n).flowPerD == if s.stopped then s.flowPerD else FlowAfter(cfg, s.flowPerD, n)
    ensures Ticks(cfg, s, n).stopped == s.stopped
  {
    if n > 0 {
      TicksFlow(cfg, s, n - 1);
      TickFlow(cfg, Ticks(cfg, s, n - 1));
    }
  }

  /** Without backoff, `n` recovery steps raise the rate linearly by `n`
      increments, capped at the maximum. */
  lemma {:induction false} RecoverLinearly(cfg: Config, f: real, n: nat)
    requires 0.0 <= cfg.recoveryPerD && f <= cfg.maxFlowPerD
    ensures FlowAfter(cfg, f, n) == Min(f + n as real * cfg.recoveryPerD, cfg.maxFlowPerD)
  {
    if n > 0 {
      RecoverLinearly(cfg, f, n - 1);
      assert n as real * cfg.recoveryPerD == (n - 1) as real * cfg.recoveryPerD + cfg.recoveryPerD;
    }
  }

  /** Whatever the rate in [0, max], recovery steps covering the recovery
      duration (`n` ticks of `d`) bring it back to the maximum. */
  lemma FlowRecovers(cfg: Config, recoveryDuration: int, f: real, n: nat)
    requires ValidConfig(cfg) && RecoversWithin(cfg, recoveryDuration)
    requires 0.0 <= f <= cfg.maxFlowPerD
    requires 0 < recoveryDuration <= n * TickNanos
    ensures FlowAfter(cfg, f, n) == cfg.maxFlowPerD
  {
    RecoverLinearly(cfg, f, n);
    RecoveryBound(cfg, recoveryDuration, n);
  }

  /** A running bucket left alone for the recovery duration is back at the
      maximum rate, whatever its rate in [0, max] was. */
  lemma FullRecovery(cfg: Config, recoveryDuration: int, s: State, n: nat)
    requires ValidConfig(cfg) && RecoversWithin(cfg, recoveryDuration)
    requires 0.0 <= s.flowPerD <= cfg.maxFlowPerD && !s.stopped
    requires 0 < recoveryDuration <= n * TickNanos
    ensures Ticks(cfg, s, n).flowPerD == cfg.maxFlowPerD
  {
    TicksFlow(cfg, s, n);
    FlowRecovers(cfg, recoveryDuration, s.flowPerD, n);
  }

  /** `n` increments reach the maximum once `n` ticks cover the recovery
      duration. */
  lemma RecoveryBound(cfg: Config, recoveryDuration: int, n: nat)
    requires ValidConfig(cfg) && RecoversWithin(cfg, recoveryDuration)
    requires 0 < recoveryDuration <= n * TickNanos
    ensures n as real * cfg.recoveryPerD >= cfg.maxFlowPerD
  {
    var q := recoveryDuration as real / TickNanos as real;
    assert q <= n as real;
    ScaleMonotone(q, n as real, cfg.recoveryPerD);
    assert q * cfg.recoveryPerD == cfg.maxFlowPerD;
  }

  lemma ScaleMonotone(a: real, b: real, c: real)
    requires a <= b && 0.0 <= c
    ensures a * c <= b * c
  {
    assert (b - a) * c >= 0.0;
  }

  /** After `k` offers of `v` the tokens queued before are untouched and every
      new token carries `v`. */
  lemma {:induction false} EmitContents(b: seq<real>, capacity: nat, v: real, k: nat)
    ensures var r := Emit(b, capacity, v, k);
      forall i :: 0 <= i < |r| ==> r[i] == if i < |b| then b[i] else v
  {
    if k > 0 {
      EmitContents(b, capacity, v, k - 1);
    }
  }

  /** Offering `j` tokens and then `k` more is offering `j + k`. */
  lemma {:induction false} EmitAppend(b: seq<real>, capacity: nat, v: real, j: nat, k: nat)
    ensures Emit(Emit(b, capacity, v, j), capacity, v, k) == Emit(b, capacity, v, j + k)
  {
    if k > 0 {
      EmitAppend(b, capacity, v, j, k - 1);
    }
  }

  /** The loop count is the only whole number leaving a remainder in [0, 1). */
  lemma {:induction false} TokensDueUnique(x: real, j: nat)
    requires 0.0 <= x - j as real < 1.0
    ensures TokensDue(x) == j
    decreases j
  {
    if j > 0 {
      TokensDueUnique(x - 1.0, j - 1);
    }
  }

  /** For a non-negative fill, the loop runs `floor(fill)` times. */
  lemma TokensDueIsFloor(x: real)
    requires 0.0 <= x
    ensures TokensDue(x) == x.Floor
  {
    TokensDueUnique(x, x.Floor);
  }

  /** Taking `k` whole tokens off first leaves `k` fewer passes. */
  lemma TokensDueShift(x: real, k: nat)
    requires k as real <= x
    ensures TokensDue(x - k as real) + k == TokensDue(x)
  {
    var j := TokensDue(x - k as real);
    TokensDueUnique(x, j + k);
  }

  /** A tick at the maximum rate keeps the rate and offers one tick's worth
      plus the fill, in whole tokens. */
  lemma TickAtMax(cfg: Config, s: State)
    requires ValidConfig(cfg) && s.flowPerD == cfg.maxFlowPerD && !s.stopped
    ensures var y := s.fill + cfg.maxFlowPerD;
      TickStep(cfg, s) ==
        State(cfg.maxFlowPerD, y - TokensDue(y) as real,
              Emit(s.bucket, cfg.bucketSize, RatePerSecond(cfg.maxFlowPerD), TokensDue(y)), false)
  {
  }

  lemma Distrib(n: nat, r: real)
    requires 0 < n
    ensures n as real * r == (n - 1) as real * r + r
  {
  }

  /** `f + n * m`, accumulated one tick at a time.  `AccumulatedIs` proves it
      equal to the closed form; the tick lemmas use this recursive form
      because it follows the ticks one by one and keeps the real products
      out of their proofs, which the solver handles far more cheaply. */
  function Accumulated(f: real, m: real, n: nat): (r: real)
    ensures 0.0 <= m ==> f <= r
  {
    if n == 0 then f else Accumulated(f, m, n - 1) + m
  }

  lemma {:induction false} AccumulatedIs(f: real, m: real, n: nat)
    ensures Accumulated(f, m, n) == f + n as real * m
  {
    if n > 0 {
      AccumulatedIs(f, m, n - 1);
      Distrib(n, m);
    }
  }

  /** The state after offering the whole part of `x` at the maximum rate and
      keeping the fractional part as fill. */
  function SteadyState(cfg: Config, b: seq<real>, x: real): State {
    State(cfg.maxFlowPerD, x - TokensDue(x) as real,
          Emit(b, cfg.bucketSize, RatePerSecond(cfg.maxFlowPerD), TokensDue(x)), false)
  }

  /** One more tick at the maximum rate adds the maximum to the amount whose
      whole part has been offered. */
  lemma SteadyStep(cfg: Config, b: seq<real>, x: real)
    requires ValidConfig(cfg) && 0.0 <= x
    ensures TickStep(cfg, SteadyState(cfg, b, x)) == SteadyState(cfg, b, x + cfg.maxFlowPerD)
  {
    var m := cfg.maxFlowPerD;
    var v := RatePerSecond(m);
    var p := SteadyState(cfg, b, x);
    var k0 := TokensDue(x);
    var y := p.fill + m;
    var j := TokensDue(y);
    assert j + k0 == TokensDue(x + m) by { TokensDueShift(x + m, k0); }
    assert TickStep(cfg, p) == State(m, y - j as real, Emit(p.bucket, cfg.bucketSize, v, j), false) by {
      TickAtMax(cfg, p);
    }
    EmitAppend(b, cfg.bucketSize, v, k0, j);
  }

  /** At the maximum rate the fill grows by the maximum per tick, and every
      whole unit of it is offered: after `n` ticks as many tokens have been
      offered as `fill + n * max` holds whole units. */
  lemma {:induction false} SteadyTicks(cfg: Config, s: State, n: nat)
    requires ValidConfig(cfg) && s.flowPerD == cfg.maxFlowPerD && !s.stopped
    requires 0.0 <= s.fill < 1.0
    ensures Ticks(cfg, s, n) == SteadyState(cfg, s.bucket, Accumulated(s.fill, cfg.maxFlowPerD, n))
  {
    if n == 0 {
      assert TokensDue(s.fill) == 0;
    } else {
      SteadyTicks(cfg, s, n - 1);
      var x0 := Accumulated(s.fill, cfg.maxFlowPerD, n - 1);
      SteadyStep(cfg, s.bucket, x0);
      assert Ticks(cfg, s, n) == TickStep(cfg, SteadyState(cfg, s.bucket, x0));
      assert Accumulated(s.fill, cfg.maxFlowPerD, n) == x0 + cfg.maxFlowPerD;
    }
  }

  lemma EmitFromEmpty(capacity: nat, v: real, k: nat)
    ensures Emit([], capacity, v, k) == Repeat(v, MinNat(capacity, k))
  {
    EmitContents([], capacity, v, k);
  }

  /** From construction, with no backoff and no receive, the bucket after
      `n` ticks holds as many tokens as `n` ticks' worth of fill at the maximum
      rate yields, up to its capacity, each stamped with the maximum rate per
      second (`FloorTokens` puts that number at `floor(n * maxFlowPerD)`). */
  lemma FillFromInitial(cfg: Config, n: nat)
    requires ValidConfig(cfg)
    ensures Ticks(cfg, Initial(cfg), n).bucket ==
      Repeat(RatePerSecond(cfg.maxFlowPerD), MinNat(cfg.bucketSize, TokensDue(Accumulated(0.0, cfg.maxFlowPerD, n))))
  {
    var v := RatePerSecond(cfg.maxFlowPerD);
    var x := Accumulated(0.0, cfg.maxFlowPerD, n);
    SteadyTicks(cfg, Initial(cfg), n);
    EmitFromEmpty(cfg.bucketSize, v, TokensDue(x));
  }

  /** The number of tokens `n` ticks of `m` send from an empty fill is the
      whole part of `n * m`. */
  lemma CountIsFloor(m: real, n: nat) returns (k: nat)
    requires 0.0 <= m
    ensures k == TokensDue(Accumulated(0.0, m, n)) && k == (n as real * m).Floor
  {
    k := TokensDue(Accumulated(0.0, m, n));
    FloorTokens(m, n);
  }

  /** From construction, with no backoff and no receive, the bucket after `n`
      ticks holds `min(bucketSize, floor(n * maxFlowPerD))` tokens, each stamped
      with the maximum rate per second. */
  lemma FillFromInitialFloor(cfg: Config, n: nat)
    requires ValidConfig(cfg)
    ensures var k := (n as real * cfg.maxFlowPerD).Floor;
      0 <= k && Ticks(cfg, Initial(cfg), n).bucket == Repeat(RatePerSecond(cfg.maxFlowPerD), MinNat(cfg.bucketSize, k))
  {
    var k := CountIsFloor(cfg.maxFlowPerD, n);
    FillFromInitial(cfg, n);
  }

  /** Number of backoff events in a history. */
  function Backoffs(events: seq<Event>): nat
    decreases |events|
  {
    if events == [] then 0 else (if events[0] == Backoff then 1 else 0) + Backoffs(events[1..])
  }

  /** `f` halved `k` times. */
  function Halved(f: real, k: nat): real
    decreases k
  {
    if k == 0 then f else Halved(f / 2.0, k - 1)
  }

  /** `a` is what is left of `b` after removing some of its oldest tokens. */
  ghost predicate IsSuffix(a: seq<real>, b: seq<real>) {
    |a| <= |b| && a == b[|b| - |a|..]
  }

  lemma SuffixTrans(a: seq<real>, b: seq<real>, c: seq<real>)
    requires IsSuffix(a, b) && IsSuffix(b, c)
    ensures IsSuffix(a, c)
  {
    assert b[|b| - |a|..] == c[|c| - |a|..];
  }

  /** No event adds a token to a stopped bucket. */
  lemma StoppedStep(cfg: Config, s: State, e: Event)
    requires s.stopped
    ensures IsSuffix(Step(cfg, s, e).bucket, s.bucket)
  {
    if e == Take && |s.bucket| > 0 {
      assert Step(cfg, s, e).bucket == s.bucket[1..];
    }
  }

  /** Once stopped, a bucket gains no token whatever happens: what it holds is
      what was queued at the stop less its oldest tokens taken by consumers,
      the fill is frozen, and every backoff still halves the rate. */
  lemma {:induction false} StoppedRun(cfg: Config, s: State, events: seq<Event>)
    requires s.stopped
    ensures var r := Run(cfg, s, events);
      r.stopped && r.fill == s.fill && IsSuffix(r.bucket, s.bucket) &&
      r.flowPerD == Halved(s.flowPerD, Backoffs(events))
    decreases |events|
  {
    if events == [] {
      assert s.bucket[0..] == s.bucket;
    } else {
      var t := Step(cfg, s, events[0]);
      StoppedRun(cfg, t, events[1..]);
      StoppedStep(cfg, s, events[0]);
      var r := Run(cfg, s, events);
      assert r == Run(cfg, t, events[1..]);
      SuffixTrans(r.bucket, t.bucket, s.bucket);
      if events[0] == Backoff {
        assert Backoffs(events) == 1 + Backoffs(events[1..]);
        assert Halved(s.flowPerD, Backoffs(events)) == Halved(t.flowPerD, Backoffs(events[1..]));
      } else {
        assert Backoffs(events) == Backoffs(events[1..]);
        assert t.flowPerD == s.flowPerD;
      }
    }
  }

  /** `n` receives in a row. */
  function Takes(n: nat): (r: seq<Event>)
    ensures |r| == n && forall i :: 0 <= i < n ==> r[i] == Take
  {
    seq(n, _ => Take)
  }

  /** Receiving as many tokens as are queued empties the bucket and changes
      nothing else. */
  lemma {:induction false} Drain(cfg: Config, s: State)
    ensures Run(cfg, s, Takes(|s.bucket|)) == s.(bucket := [])
    decreases |s.bucket|
  {
    if |s.bucket| > 0 {
      var t := Step(cfg, s, Take);
      assert Takes(|s.bucket|)[1..] == Takes(|t.bucket|);
      Drain(cfg, t);
    }
  }

  /** Construction with 1.5 tokens per second, capacity 4 and a 3 s recovery:
      the bucket starts empty and after 2 s (200 ticks) holds 3 tokens, each
      stamped 1.5 tokens per second. */
  lemma ExampleRate()
    ensures var cfg := NewConfig(1.5, 4, 3 * SecondNanos);
      Initial(cfg).bucket == [] && Ticks(cfg, Initial(cfg), 200).bucket == [1.5, 1.5, 1.5]
  {
    var cfg := NewConfig(1.5, 4, 3 * SecondNanos);
    FillFromInitial(cfg, 200);
    WholeTokens(0.0, cfg.maxFlowPerD, 200, 3);
  }

  /** An empty running bucket at the maximum rate, whatever its fill in
      [0, 1), collects `min(bucketSize, K)` tokens in `n` ticks when `n` ticks
      at the maximum flow add up to exactly `K` tokens. */
  lemma RefillFromEmpty(cfg: Config, e: State, n: nat, k: nat)
    requires ValidConfig(cfg) && e.flowPerD == cfg.maxFlowPerD && !e.stopped
    requires 0.0 <= e.fill < 1.0 && e.bucket == []
    requires n as real * cfg.maxFlowPerD == k as real
    ensures |Ticks(cfg, e, n).bucket| == MinNat(cfg.bucketSize, k)
  {
    var x := Accumulated(e.fill, cfg.maxFlowPerD, n);
    WholeTokens(e.fill, cfg.maxFlowPerD, n, k);
    SteadyTicks(cfg, e, n);
    assert Ticks(cfg, e, n).bucket == Emit([], cfg.bucketSize, RatePerSecond(cfg.maxFlowPerD), k);
  }

  /** From an empty fill, `n` ticks of `m` yield `floor(n * m)` tokens. */
  lemma FloorTokens(m: real, n: nat)
    requires 0.0 <= m
    ensures TokensDue(Accumulated(0.0, m, n)) == (n as real * m).Floor
  {
    AccumulatedIs(0.0, m, n);
    TokensDueIsFloor(Accumulated(0.0, m, n));
  }

  /** A fill below one plus exactly `k` tokens' worth yields `k` tokens. */
  lemma WholeTokens(f: real, m: real, n: nat, k: nat)
    requires 0.0 <= f < 1.0 && n as real * m == k as real
    ensures TokensDue(Accumulated(f, m, n)) == k
  {
    AccumulatedIs(f, m, n);
    TokensDueUnique(Accumulated(f, m, n), k);
  }

  /** With a 1 s recovery, a backoff right after construction halves the rate
      and 50 ticks (0.5 s) bring it back to the maximum. */
  lemma ExampleRecoverHalf()
    ensures var cfg := NewConfig(1.5, 4, SecondNanos);
      var s := BackoffStep(Initial(cfg));
      s.flowPerD * 2.0 == cfg.maxFlowPerD && Ticks(cfg, s, 50).flowPerD == cfg.maxFlowPerD
  {
    var cfg := NewConfig(1.5, 4, SecondNanos);
    var s := BackoffStep(Initial(cfg));
    TicksFlow(cfg, s, 50);
    RecoverLinearly(cfg, s.flowPerD, 50);
  }

  /** With a 1 s recovery: back off, wait 1 s (100 ticks), receive every
      queued token, and 2 s (200 ticks) later the bucket holds 3 tokens. */
  lemma ExampleRecover()
    ensures var cfg := NewConfig(1.5, 4, SecondNanos);
      var r := Ticks(cfg, BackoffStep(Initial(cfg)), 100);
      |Ticks(cfg, Run(cfg, r, Takes(|r.bucket|)), 200).bucket| == 3
  {
    var cfg := NewConfig(1.5, 4, SecondNanos);
    var s := BackoffStep(Initial(cfg));
    var r := Ticks(cfg, s, 100);
    FullRecovery(cfg, SecondNanos, s, 100);
    TicksFlow(cfg, s, 100);
    TicksPreserveInv(cfg, s, 100);
    Drain(cfg, r);
    RefillFromEmpty(cfg, r.(bucket := []), 200, 3);
  }

  /** Any number of ticks keeps the invariant. */
  lemma {:induction false} TicksPreserveInv(cfg: Config, s: State, n: nat)
    requires Inv(cfg, s)
    ensures Inv(cfg, Ticks(cfg, s, n))
  {
    if n > 0 {
      TicksPreserveInv(cfg, s, n - 1);
      TickRate(cfg, Ticks(cfg, s, n - 1));
    }
  }
}
