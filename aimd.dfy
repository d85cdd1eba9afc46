/** The rate-control law of the AIMD token bucket, as values.
    A `Config` holds the per-tick constants fixed when the bucket is created, a
    `State` the quantities the refill loop updates.  Each event the loop serialises
    (a tick of the ticker, a backoff signal, stopping the ticker, a consumer
    receiving a token) is a function from state to state.  The class in
    token_bucket.dfy is proved to behave as these functions say. */
module Aimd {

  /** Length of one tick, `d`, in nanoseconds (10 ms). */
  const TickNanos: int := 10_000_000
  /** One second in nanoseconds. */
  const SecondNanos: int := 1_000_000_000

  function Min(a: real, b: real): real { if a <= b then a else b }
  function MinNat(a: nat, b: nat): nat { if a <= b then a else b }
  function MaxNat(a: nat, b: nat): nat { if a >= b then a else b }

  /** `n` copies of the token value `v`. */
  function Repeat(v: real, n: nat): (r: seq<real>)
    ensures |r| == n && forall i :: 0 <= i < n ==> r[i] == v
  {
    seq(n, _ => v)
  }

  /** The constants computed once by the constructor. */
  datatype Config = Config(maxFlowPerD: real, recoveryPerD: real, bucketSize: nat)

  /** The refill loop's mutable state: the current rate per tick, the fractional
      fill, the tokens queued in the bucket (oldest first) and whether the
      ticker has been stopped. */
  datatype State = State(flowPerD: real, fill: real, bucket: seq<real>, stopped: bool)

  /** The events the refill loop and its callers serialise. */
  datatype Event = Tick | Backoff | Stop | Take

  ghost predicate ValidConfig(cfg: Config) {
    0.0 <= cfg.maxFlowPerD && 0.0 <= cfg.recoveryPerD
  }

  /** What holds between any two events: the rate lies in [0, max], the fill in
      [0, 1) and the bucket within its capacity. */
  ghost predicate Inv(cfg: Config, s: State) {
    ValidConfig(cfg) &&
    0.0 <= s.flowPerD <= cfg.maxFlowPerD &&
    0.0 <= s.fill < 1.0 &&
    |s.bucket| <= cfg.bucketSize
  }

  /** `recoveryDuration / d` increments of `recoveryPerD` add up to exactly the
      maximum flow per tick. */
  ghost predicate RecoversWithin(cfg: Config, recoveryDuration: int) {
    cfg.recoveryPerD * (recoveryDuration as real / TickNanos as real) == cfg.maxFlowPerD
  }

  /** The constants of a bucket created with a maximum rate per second, a
      capacity and a recovery duration in nanoseconds: the maximum flow per
      tick is one hundredth of the rate per second, and `recoveryDuration / d`
      increments of `recoveryPerD` add up to exactly that maximum. */
  function NewConfig(maxFlowPerSecond: real, bucketSize: nat, recoveryDuration: int): (cfg: Config)
    requires 0.0 <= maxFlowPerSecond && 0 < recoveryDuration
    ensures ValidConfig(cfg) && cfg.bucketSize == bucketSize
    ensures cfg.maxFlowPerD * 100.0 == maxFlowPerSecond
    ensures RecoversWithin(cfg, recoveryDuration)
  {
    var maxFlowPerD := maxFlowPerSecond * TickNanos as real / SecondNanos as real;
    var recoveryPerD := maxFlowPerD * TickNanos as real / recoveryDuration as real;
    Config(maxFlowPerD, recoveryPerD, bucketSize)
  }

  /** A new bucket is empty, with no fill and the rate at its maximum. */
  function Initial(cfg: Config): State {
    State(cfg.maxFlowPerD, 0.0, [], false)
  }

  /** Additive increase: one recovery step, capped at the maximum.  It never
      lowers the rate, adds at most one increment, never passes the maximum,
      and either adds the whole increment or lands exactly on the maximum;
      so it is the lesser of the two. */
  function Recover(cfg: Config, flowPerD: real): (r: real)
    ensures r <= cfg.maxFlowPerD && r <= flowPerD + cfg.recoveryPerD
    ensures r == cfg.maxFlowPerD || r == flowPerD + cfg.recoveryPerD
    ensures 0.0 <= cfg.recoveryPerD && flowPerD <= cfg.maxFlowPerD ==> flowPerD <= r
  {
    Min(flowPerD + cfg.recoveryPerD, cfg.maxFlowPerD)
  }

  /** The value stamped on a token: the rate per tick scaled to a rate per
      second. */
  function RatePerSecond(flowPerD: real): (r: real)
    ensures r == 100.0 * flowPerD
  {
    flowPerD * SecondNanos as real / TickNanos as real
  }

  /** The number of passes of the `fill >= 1` loop that starts from `fill`,
      each taking one unit off: none below one, and otherwise as many as leave
      a remainder in [0, 1). */
  function TokensDue(fill: real): (n: nat)
    ensures fill < 1.0 ==> n == 0
    ensures 0.0 <= fill ==> 0.0 <= fill - n as real < 1.0
    decreases fill.Floor
  {
    if fill < 1.0 then 0 else 1 + TokensDue(fill - 1.0)
  }

  /** Non-blocking insert: the token joins the back of the bucket when there is
      room and is dropped otherwise; what is already queued never changes. */
  function Offer(bucket: seq<real>, capacity: nat, v: real): (r: seq<real>)
    ensures |r| == if |bucket| < capacity then |bucket| + 1 else |bucket|
    ensures forall i :: 0 <= i < |r| ==> r[i] == if i < |bucket| then bucket[i] else v
  {
    if |bucket| < capacity then bucket + [v] else bucket
  }

  /** `k` successive offers of the same value: the bucket grows by `k` tokens
      or up to its capacity, whichever is less (`EmitContents` says what the
      new tokens are). */
  function Emit(bucket: seq<real>, capacity: nat, v: real, k: nat): (r: seq<real>)
    ensures |r| == MaxNat(|bucket|, MinNat(capacity, |bucket| + k))
  {
    if k == 0 then bucket else Offer(Emit(bucket, capacity, v, k - 1), capacity, v)
  }

  /** One tick of the ticker.  A stopped ticker delivers none, so nothing
      changes; otherwise the rate recovers, the fill grows by the new rate, and
      each whole unit of fill is offered to the bucket as a token stamped with
      the new rate per second. */
  function TickStep(cfg: Config, s: State): State {
    if s.stopped then s
    else
      var flowPerD := Recover(cfg, s.flowPerD);
      var fill := s.fill + flowPerD;
      var n := TokensDue(fill);
      State(flowPerD, fill - n as real, Emit(s.bucket, cfg.bucketSize, RatePerSecond(flowPerD), n), false)
  }

  /** Multiplicative decrease: the rate halves; nothing else changes, and a
      stopped bucket still takes the signal. */
  function BackoffStep(s: State): State {
    s.(flowPerD := s.flowPerD / 2.0)
  }

  /** Stopping the ticker: the bucket and the rate stay as they are. */
  function StopStep(s: State): State {
    s.(stopped := true)
  }

  /** A consumer receives the oldest queued token. */
  function TakeStep(s: State): (r: (real, State))
    requires |s.bucket| > 0
    ensures [r.0] + r.1.bucket == s.bucket
    ensures r.1.(bucket := s.bucket) == s
  {
    (s.bucket[0], s.(bucket := s.bucket[1..]))
  }

  /** One event.  A receive from an empty bucket waits and so changes nothing
      yet. */
  function Step(cfg: Config, s: State, e: Event): State {
    match e
    case Tick => TickStep(cfg, s)
    case Backoff => BackoffStep(s)
    case Stop => StopStep(s)
    case Take => if |s.bucket| > 0 then TakeStep(s).1 else s
  }

  /** The state after a sequence of events, in order. */
  function Run(cfg: Config, s: State, events: seq<Event>): State
    decreases |events|
  {
    if events == [] then s else Run(cfg, Step(cfg, s, events[0]), events[1..])
  }

  /** The state after `n` ticks with no other event in between. */
  function Ticks(cfg: Config, s: State, n: nat): State {
    if n == 0 then s else TickStep(cfg, Ticks(cfg, s, n - 1))
  }
}
