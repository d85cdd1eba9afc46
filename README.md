# AIMD token bucket, modelled in Dafny

`aimdtokenbucket` is a Go package that hands out tokens at a rate controlled by
additive increase/multiplicative decrease (AIMD). A bucket is created with:

- a maximum rate in tokens per second;
- a capacity;
- a recovery duration.

A ticker fires every `d` = 10 ms. On each tick the refill loop does three things:

- it raises the rate per tick by `recoveryPerD`, capped at `maxFlowPerD`;
- it adds the rate to a fractional `fill`;
- it offers one token per whole unit of fill to a buffered channel. Each token is stamped with the current rate per second, and it is dropped when the channel is full.

A backoff signal halves the rate. `Stop` stops the ticker. Consumers receive tokens from the channel, oldest first.

This project models that refill loop and proves what it guarantees:

- `aimd.dfy` (module `Aimd`) gives the rate-control law as values. It has:
  - the constants fixed at construction (`Config`);
  - the state the loop updates (`State`: rate per tick, fill, queued tokens, stopped flag);
  - one function per event (`TickStep`, `BackoffStep`, `StopStep`, `TakeStep`);
  - `Run`, over any sequence of events, and `Ticks`, for `n` ticks in a row.
- `aimd_lemmas.dfy` (module `AimdLemmas`) proves:
  - the invariant: the rate in `[0, max]`, the fill in `[0, 1)`, the bucket within capacity;
  - the exact effect of a tick and of a backoff;
  - recovery to the maximum within the recovery duration;
  - the number and value of the tokens collected at full rate;
  - what stopping does and does not change;
  - the scenarios of the package's tests.
- `token_bucket.dfy` (module `TokenBucket`) has the class `AIMDTokenBucket`. Its fields are the variables the goroutine updates in place. `Tick` keeps the `for fill >= 1` loop with its invariants. Each event method (constructor, `Tick`, `Backoff`, `Stop`, `Take`) is proved to leave the object in the state the matching `Aimd` step function gives, and to keep the invariant. `SendToken`, the helper that `Tick` calls, is proved equal to `Offer`. It does not itself promise the invariant; `Tick` re-establishes it.

Quantities are `real`. Durations are integer nanoseconds. The package's doc comment says a new bucket is "full initially", but the code starts it empty with `fill = 0`. The model follows the code, as the package's own initial-state test does.

## Model

| member | source | states |
|---|---|---|
| Aimd.NewConfig | aimdtokenbucket/aimdtokenbucket.go:36-41 | The maximum rate per tick is one hundredth of the rate per second. `recoveryDuration / d` increments of `recoveryPerD` add up to exactly the maximum. Both constants are non-negative, and the capacity is kept. |
| Aimd.Recover | aimdtokenbucket/aimdtokenbucket.go:53 | The additive increase is `min(rate + increment, max)`: it is at most both, and equal to one of them. It never lowers a rate that is at most the maximum. |
| Aimd.RatePerSecond | aimdtokenbucket/aimdtokenbucket.go:54 | A token's stamp is 100 times the rate per tick (1 s / 10 ms). |
| Aimd.TokensDue | aimdtokenbucket/aimdtokenbucket.go:56-58 | The `fill >= 1` loop runs no pass below one. From a non-negative fill, it runs as many passes as leave a remainder in [0, 1). |
| Aimd.Offer | aimdtokenbucket/aimdtokenbucket.go:83-88 | The non-blocking send appends the token when there is room and otherwise drops it. Tokens already queued are unchanged. |
| Aimd.Emit | aimdtokenbucket/aimdtokenbucket.go:56-59 | `k` sends grow the bucket by `k` tokens, but never past capacity. |
| Aimd.Initial | aimdtokenbucket/aimdtokenbucket.go:41-47 | The state of a new bucket. No contract of its own; `InitialInv` states its properties. |
| Aimd.TickStep | aimdtokenbucket/aimdtokenbucket.go:52-59 | One tick as a function of state. No contract of its own; `TickRate`, `TickEmission` and `TickFlow` state its properties, and `AIMDTokenBucket.Tick` is proved equal to it. |
| Aimd.BackoffStep | aimdtokenbucket/aimdtokenbucket.go:60-61 | One backoff. No contract of its own; `BackoffHalves` states its properties. |
| Aimd.StopStep | aimdtokenbucket/aimdtokenbucket.go:79-81 | Stopping the ticker. No contract of its own; `StoppedStep` and `StoppedRun` state what follows from it. |
| Aimd.Step | aimdtokenbucket/aimdtokenbucket.go:49-64 | One serialised event. No contract of its own; `StepPreservesInv` and `StoppedStep` state its properties. |
| Aimd.Run | aimdtokenbucket/aimdtokenbucket.go:49-64 | A history of events in order. No contract of its own; `RunPreservesInv`, `StoppedRun` and `Drain` state its properties. |
| Aimd.Ticks | aimdtokenbucket/aimdtokenbucket.go:52-59 | `n` ticks in a row. No contract of its own; `TicksPreserveInv`, `TicksFlow`, `SteadyTicks` and `FillFromInitialFloor` state its properties. |
| Aimd.TakeStep | aimdtokenbucket/aimdtokenbucket.go:16-17 | A receive returns the oldest token. The rest of the queue and every other field are unchanged. |
| AimdLemmas.InitialInv | aimdtokenbucket/aimdtokenbucket.go:39-47 | A new bucket is empty, has fill 0 and runs at the maximum rate (rate per second / 100). It satisfies the invariant. |
| AimdLemmas.TickRate | aimdtokenbucket/aimdtokenbucket.go:53 | A tick keeps the invariant. It raises the rate by at most one increment and never lowers it. |
| AimdLemmas.TickEmission | aimdtokenbucket/aimdtokenbucket.go:52-59 | A running tick makes exactly `floor(fill + rate)` sends. All of them carry 100 times the new rate. The old tokens stay in front, the length becomes `min(capacity, old + sends)`, and the fill keeps only its fractional part, in [0, 1). |
| AimdLemmas.BackoffHalves | aimdtokenbucket/aimdtokenbucket.go:60-61 | A backoff halves the rate exactly and keeps the invariant. The fill, the bucket and the stopped flag are unchanged. |
| AimdLemmas.StepPreservesInv | aimdtokenbucket/aimdtokenbucket.go:49-64 | Each event (tick, backoff, stop, receive) keeps the invariant. |
| AimdLemmas.RunPreservesInv | aimdtokenbucket/aimdtokenbucket.go:49-64 | Any history of events keeps the invariant: the rate in [0, max], the fill in [0, 1), the bucket within capacity. |
| AimdLemmas.TicksPreserveInv | aimdtokenbucket/aimdtokenbucket.go:52-59 | Any number of ticks keeps the invariant. |
| AimdLemmas.TickFlow | aimdtokenbucket/aimdtokenbucket.go:52-53 | Step lemma (an unfolding of `TickStep`, used by `TicksFlow`): a tick changes the rate by one recovery step, or not at all once stopped. It never changes the stopped flag. |
| AimdLemmas.TicksFlow | aimdtokenbucket/aimdtokenbucket.go:52-53 | `n` ticks change the rate by `n` recovery steps, or not at all once stopped. |
| AimdLemmas.RecoverLinearly | aimdtokenbucket/aimdtokenbucket.go:53 | `n` recovery steps from a rate at most the maximum give `min(rate + n * recoveryPerD, max)`. |
| AimdLemmas.RecoveryBound | aimdtokenbucket/aimdtokenbucket.go:40 | Once `n` ticks cover the recovery duration, `n` increments reach the maximum. |
| AimdLemmas.FlowRecovers | aimdtokenbucket/aimdtokenbucket.go:40-53 | From any rate in [0, max], recovery steps covering the recovery duration end exactly at the maximum. |
| AimdLemmas.FullRecovery | aimdtokenbucket/aimdtokenbucket.go:52-53 | A running bucket left alone for the recovery duration is back at the maximum rate. |
| AimdLemmas.EmitContents | aimdtokenbucket/aimdtokenbucket.go:56-59 | After `k` sends, the tokens queued before are untouched and every new token carries the sent value. |
| AimdLemmas.EmitAppend | aimdtokenbucket/aimdtokenbucket.go:56-59 | `j` sends followed by `k` more are the same as `j + k` sends. |
| AimdLemmas.EmitFromEmpty | aimdtokenbucket/aimdtokenbucket.go:83-88 | `k` sends of `v` into an empty bucket leave `min(capacity, k)` copies of `v`. |
| AimdLemmas.TokensDueUnique | aimdtokenbucket/aimdtokenbucket.go:56-58 | The loop's pass count is the only whole number that leaves a remainder in [0, 1). |
| AimdLemmas.TokensDueIsFloor | aimdtokenbucket/aimdtokenbucket.go:56-58 | From a non-negative fill, the loop makes `floor(fill)` passes. |
| AimdLemmas.TokensDueShift | aimdtokenbucket/aimdtokenbucket.go:56-58 | Taking `k` whole units off the fill first leaves exactly `k` fewer passes. |
| AimdLemmas.TickAtMax | aimdtokenbucket/aimdtokenbucket.go:52-59 | Step lemma (an unfolding of `TickStep`, used by `SteadyStep`): a tick at the maximum rate keeps the rate. It sends the whole part of `fill + max` and keeps the fractional part. |
| AimdLemmas.SteadyStep | aimdtokenbucket/aimdtokenbucket.go:52-59 | At the maximum rate, one more tick adds `max` to the amount whose whole units have been sent. |
| AimdLemmas.SteadyTicks | aimdtokenbucket/aimdtokenbucket.go:52-59 | After `n` ticks at the maximum rate, the whole units of `fill + n * max` have been sent, all at the maximum rate per second. The remainder is the fill. |
| AimdLemmas.FillFromInitial | aimdtokenbucket/aimdtokenbucket.go:46-59 | From construction, with no backoff and no receive, the bucket after `n` ticks holds `min(capacity, whole units of n * max)` tokens. Each carries the maximum rate per second. |
| AimdLemmas.FillFromInitialFloor | aimdtokenbucket/aimdtokenbucket.go:46-59 | From construction, with no backoff and no receive, the bucket after `n` ticks holds `min(capacity, floor(n * max))` tokens, each carrying the maximum rate per second. |
| AimdLemmas.CountIsFloor | aimdtokenbucket/aimdtokenbucket.go:55-58 | The number of tokens `n` ticks of `m` send from an empty fill is `floor(n * m)`. |
| AimdLemmas.FloorTokens | aimdtokenbucket/aimdtokenbucket.go:55-58 | From an empty fill, `n` ticks of `m` make `floor(n * m)` passes of the loop in total. |
| AimdLemmas.WholeTokens | aimdtokenbucket/aimdtokenbucket.go:55-58 | A fill below one plus exactly `k` tokens' worth of ticks makes exactly `k` passes. |
| AimdLemmas.RefillFromEmpty | aimdtokenbucket/aimdtokenbucket.go:52-59 | An empty running bucket at the maximum rate collects `min(capacity, k)` tokens in `n` ticks worth exactly `k` tokens. |
| AimdLemmas.StoppedStep | aimdtokenbucket/aimdtokenbucket.go:75-81 | Once stopped, no event adds a token. The bucket can only lose its oldest tokens. |
| AimdLemmas.StoppedRun | aimdtokenbucket/aimdtokenbucket.go:75-81 | After a stop, any history leaves the bucket stopped and the fill frozen. The bucket is a suffix of what was queued at the stop. Every backoff still halves the rate. |
| AimdLemmas.Drain | aimdtokenbucket/aimdtokenbucket.go:16-17 | Receiving as many tokens as are queued empties the bucket and changes nothing else. |
| AimdLemmas.ExampleRate | aimdtokenbucket/aimdtokenbucket_test.go:15-32 | At 1.5 tokens/s, capacity 4 and a 3 s recovery, the bucket starts empty. After 200 ticks (2 s) it holds three tokens, each worth 1.5. |
| AimdLemmas.ExampleRecoverHalf | aimdtokenbucket/aimdtokenbucket_test.go:46-50 | With a 1 s recovery, a backoff right after construction halves the rate, and 50 ticks bring it back to the maximum. |
| AimdLemmas.ExampleRecover | aimdtokenbucket/aimdtokenbucket_test.go:46-60 | With a 1 s recovery: back off, wait 100 ticks, drain the bucket, and after 200 more ticks it holds exactly 3 tokens. |
| TokenBucket.AIMDTokenBucket.constructor | aimdtokenbucket/aimdtokenbucket.go:35-48 | The new object holds the constants of `NewConfig` and the initial state, and it satisfies the invariant. |
| TokenBucket.AIMDTokenBucket.SendToken | aimdtokenbucket/aimdtokenbucket.go:83-88 | The in-place send changes only the bucket, exactly as `Offer` does. |
| TokenBucket.AIMDTokenBucket.Tick | aimdtokenbucket/aimdtokenbucket.go:52-59 | The tick branch, including its `fill >= 1` loop, leaves the object in the state `TickStep` gives and keeps the invariant. |
| TokenBucket.AIMDTokenBucket.Backoff | aimdtokenbucket/aimdtokenbucket.go:60-61 | A backoff changes only the rate, as `BackoffStep` does, and keeps the invariant. |
| TokenBucket.AIMDTokenBucket.Stop | aimdtokenbucket/aimdtokenbucket.go:79-81 | Stop changes only the stopped flag, as `StopStep` does, and keeps the invariant. |
| TokenBucket.AIMDTokenBucket.Take | aimdtokenbucket/aimdtokenbucket.go:16-17 | A receive from a non-empty bucket returns the oldest token and removes it, as `TakeStep` does. It keeps the invariant. |

## Left out

- Concurrency is not modelled. This covers the goroutine, the `select` over the ticker and the backoff channel, the blocking unbuffered send in `Backoff`, and receives by several consumers at once. Each event is one sequential call. For ticks and backoffs that is the order the loop's `select` imposes. Receives are different: consumers read the channel directly, outside the `select`.
- A tick's sends form one atomic step in the model. In Go, a receive can land between two sends of the same tick, which matters when one tick sends more than one token (`maxFlowPerSecond` above 100). A receiver already waiting on the empty channel can also take a token directly. For example, with capacity 1, an empty bucket, fill 0.5, rate 1.5 per tick and one waiting consumer, Go ends with the consumer holding a token and `[150]` queued. No history of the model gives that outcome.
- Wall-clock time is not modelled. `time.Ticker` and the tests' `time.Sleep` become a count of ticks, 100 per second.
- float64 rounding is not modelled; quantities are `real`. Exact counts such as "3 tokens after 2 s" hold over the reals but can differ under IEEE arithmetic at whole-number boundaries.
- The commented-out randomised divisor `2.0 - rand.Float64()` is left out because it is not part of the code. So is the unused `backoffFunction` field.
- The backoff test expects 3 tokens after a backoff and 3.3 s. That number fits the randomised divisor, not the exact halving the code performs, which gives about 2.475 tokens, so 2. It is not encoded.
- The two-client test is not modelled. It is a timing-dependent convergence experiment with no exact outcome.
- `recoveryDuration <= 0` is excluded by a precondition because it divides by zero.
- A negative `maxFlowPerSecond` is excluded by the precondition `0.0 <= maxFlowPerSecond` of `NewConfig` and the constructor. Go accepts it; the rate then never reaches one token and no token is ever sent, and the invariant's `0 <= rate` bound would not hold.
- A negative `bucketSize` is excluded by the type `nat`, because `make` panics on it.
- A capacity-0 channel can hand a token directly to a receiver already waiting. The model always drops a token that does not fit.
- A tick already delivered to the ticker's channel before `Stop` may still be processed. In the model, a stopped bucket gets no more ticks.
- TokenBucket.AIMDTokenBucket.Take: a receive from an empty bucket blocks in Go. The method requires a non-empty bucket, and the event function `Step` treats it as no change yet.
- A consumer's `len(Bucket)` is the length of `bucket`. It has no separate accessor.
