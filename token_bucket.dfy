/** The AIMD token bucket as the object the refill loop updates in place.
    The goroutine's `select` serialises ticks and backoff signals; here each
    event is one method call, and each method is proved to change the state
    exactly as the matching step function of module `Aimd` says. */
module TokenBucket {
  import opened Aimd
  import opened AimdLemmas

  class AIMDTokenBucket {
    /** Fixed at construction. */
    const maxFlowPerD: real
    const recoveryPerD: real
    const bucketSize: nat

    /** Updated by the refill loop. */
    var flowPerD: real
    var fill: real
    /** The buffered channel of tokens, oldest first. */
    var bucket: seq<real>
    /** Whether the ticker has been stopped. */
    var stopped: bool

    function Constants(): Config {
      Config(maxFlowPerD, recoveryPerD, bucketSize)
    }

    function Snapshot(): State
      reads this
    {
      State(flowPerD, fill, bucket, stopped)
    }

    ghost predicate Valid()
      reads this
    {
      Inv(Constants(), Snapshot())
    }

    /** A new bucket: per-tick constants derived from the rate per second and
        the recovery duration, rate at the maximum, no fill, no token. */
    constructor (maxFlowPerSecond: real, bucketSize: nat, recoveryDuration: int)
      requires 0.0 <= maxFlowPerSecond && 0 < recoveryDuration
      ensures Constants() == NewConfig(maxFlowPerSecond, bucketSize, recoveryDuration)
      ensures Snapshot() == Initial(Constants())
      ensures Valid()
    {
      var d := TickNanos as real;
      var maxPerD := maxFlowPerSecond * d / SecondNanos as real;
      maxFlowPerD := maxPerD;
      recoveryPerD := maxPerD * d / recoveryDuration as real;
      this.bucketSize := bucketSize;
      flowPerD := maxPerD;
      fill := 0.0;
      bucket := [];
      stopped := false;
    }

    /** Non-blocking send: queue the token if the bucket has room, drop it
        otherwise. */
    method SendToken(ratePerSecond: real)
      modifies this`bucket
      ensures bucket == Offer(old(bucket), bucketSize, ratePerSecond)
    {
      if |bucket| < bucketSize {
        bucket := bucket + [ratePerSecond];
      }
    }

    /** One tick of the ticker; a stopped ticker delivers none. */
    method Tick()
      requires Valid()
      modifies this
      ensures Valid()
      ensures Snapshot() == TickStep(Constants(), old(Snapshot()))
    {
      if stopped {
        return;
      }
      ghost var cfg := Constants();
      ghost var s0 := Snapshot();
      flowPerD := Min(flowPerD + recoveryPerD, maxFlowPerD);
      assert flowPerD == Recover(cfg, s0.flowPerD);
      var flowPerSecond := flowPerD * SecondNanos as real / TickNanos as real;
      assert flowPerSecond == RatePerSecond(flowPerD);
      fill := fill + flowPerD;
      ghost var total := fill;
      ghost var sent: nat := 0;
      ghost var before := bucket;
      while fill >= 1.0
        modifies this`fill, this`bucket
        invariant fill == total - sent as real
        invariant sent + TokensDue(fill) == TokensDue(total)
        invariant bucket == Emit(before, bucketSize, flowPerSecond, sent)
        decreases TokensDue(fill)
      {
        SendToken(flowPerSecond);
        fill := fill - 1.0;
        sent := sent + 1;
      }
      assert sent == TokensDue(total);
      assert Snapshot() == State(flowPerD, total - sent as real, Emit(s0.bucket, bucketSize, flowPerSecond, sent), false);
      assert Snapshot() == TickStep(cfg, s0);
      TickRate(cfg, s0);
    }

    /** A backoff signal: halve the rate. */
    method Backoff()
      requires Valid()
      modifies this`flowPerD
      ensures Valid()
      ensures Snapshot() == BackoffStep(old(Snapshot()))
    {
      flowPerD := flowPerD / 2.0;
    }

    /** Stop the ticker; queued tokens stay. */
    method Stop()
      requires Valid()
      modifies this`stopped
      ensures Valid()
      ensures Snapshot() == StopStep(old(Snapshot()))
    {
      stopped := true;
    }

    /** Receive the oldest token from the bucket. */
    method Take() returns (token: real)
      requires Valid() && |bucket| > 0
      modifies this`bucket
      ensures Valid()
      ensures (token, Snapshot()) == TakeStep(old(Snapshot()))
    {
      token := bucket[0];
      bucket := bucket[1..];
    }
  }
}
