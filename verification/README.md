# In-memory rate limiter: a Dafny model of its four admission strategies

The limiter decides, one call at a time, whether a caller identified by a
string key is admitted. It has four interchangeable strategies. Each one
implements `consume(key)` (admit or deny) and `rearm()` (purge stale state,
report the next wake instant) over one map from key to per-key state:

- **Token bucket** (`TokenBucket`, src/bucket.rs): a counter per key.
  `consume` takes a token. `rearm` refills one token per key, up to `capacity`.
- **Fixed window** (`FixedWindow`, src/fixed.rs): an `(expiry, remaining)`
  window per key. `consume` counts down and never looks at the expiry. `rearm`
  evicts expired windows and reports the earliest expiry it saw.
- **Sliding-window log** (`SlidingWindow`, src/slide.rs): an ordered set of
  expiry instants per key. `consume` adds `now + duration` while the set holds
  fewer than `threshold` instants. `rearm` removes the expired prefix of every
  set, drops empty sets and reports the earliest surviving instant.
- **Weighted approximation** (`Approximation`, src/approximation.rs): the set
  of admission instants per key. Each call weighs the hits in the minute that
  contains `now - duration`, adds every later hit, and is admitted while the
  truncated load is below `threshold`. `rearm` drops hits older than
  `now - duration`.

The shared signature (src/limiter.rs:5-9) becomes a common vocabulary in
module `Limiter`:
- `Outcome` is `Ok(remaining) | Err | Panic`.
- `Option` is the reported wake instant.
- `Step(state, result)` is the map after a call together with its result.

The mutex is gone: every call is one atomic, pure transition. The clock is an
explicit parameter `now`, an integer count of seconds. Maps, sets and
integers are Dafny's immutable, unbounded ones.

Quirks of the code that the model keeps:
- With a limit of T, the bucket, fixed and sliding strategies admit T - 1
  calls, not T. The call that brings the count to zero returns `Err`, but it
  still changes the state.
- An exhausted bucket needs two refill ticks before it admits another call,
  not one.
- A full sliding-window log stays denied after one of its instants expires.
  The call that takes the freed slot fills the log again and reports `Err`,
  so two instants must expire before a call is admitted.
- Fixed-window `rearm` takes its minimum over all windows, evicted ones
  included, so the instant it reports can already be past.
- Denied calls can change state: a bucket or fixed window goes from 1 to 0,
  and the approximation creates an empty entry for a new key.
- A `usize` subtraction that would go below zero is the `Panic` outcome,
  as in a debug build. It is modelled, not excluded by a precondition:
  - Bucket and fixed window: `capacity - 1` / `threshold - 1` is the argument
    of `or_insert`, so it is evaluated on every call. A zero limit therefore
    panics on every call, after `and_modify` has already run.
  - Sliding window: it panics only for a new key with threshold 0, or for a
    set already larger than the threshold.
  - Approximation: it panics when the truncated load exceeds the threshold
    (see Findings).

## Model

| member | source | states |
|---|---|---|
| TokenBucket.Take | src/bucket.rs:44-49 | The closure lowers the count by exactly one when it is positive and leaves a zero count at zero. It never goes below zero. |
| TokenBucket.Consume | src/bucket.rs:40-57 | A new key is stored with capacity - 1. An existing count goes down by one when positive and stays at 0 otherwise. The result is Err exactly when the stored count is 0, and otherwise Ok of that count, which is below capacity. A zero capacity panics on every call. Other keys are untouched. The bound "every count is at most capacity" is preserved. |
| TokenBucket.Rearm | src/bucket.rs:59-69 | Every count below capacity gains one token. Counts at capacity stay. No key is added or removed. The result is always None. The capacity bound is preserved. |
| TokenBucket.BackToBackAdmissions | src/bucket.rs:42-56 | A key holding c tokens (a new key counts as holding capacity) gets exactly c - 1 consecutive admissions, reporting c - 1, c - 2, ..., 1, and is denied on every later call. |
| TokenBucket.RefillAfterExhaustion | src/bucket.rs:42-66 | An exhausted key is still denied after one refill tick. After two ticks it is admitted with Ok(1). |
| FixedWindow.Take | src/fixed.rs:48-52 | The closure keeps the expiry. It lowers the count by exactly one when it is positive and leaves a zero count at zero. |
| FixedWindow.Consume | src/fixed.rs:46-62 | A new key opens the window (now + duration, threshold - 1). An existing window keeps its expiry, even when now is past it. Its count goes down by one only when positive. The result is Err exactly when the count is then 0, and otherwise Ok of a count in 1..threshold-1. A zero threshold panics. Other keys are untouched. |
| FixedWindow.Rearm | src/fixed.rs:64-78 | Exactly the windows expiring after now are kept, unchanged. The result is the minimum expiry over all windows before eviction, and None exactly when the map was empty. |
| FixedWindow.RearmScan | src/fixed.rs:66-73 | Visiting the windows one by one, in any order, with the source's smallest-so-far update and keep-if-later test, gives the same map and wake instant as Rearm. |
| FixedWindow.AdmittedWithinBudget | src/fixed.rs:48-57 | Over any sequence of consume and rearm calls (for any keys, at any instants) that never evicts the key's window, the key is admitted fewer times than its remaining count. A key with no window counts as having threshold left. |
| FixedWindow.AtMostThresholdMinusOnePerWindow | src/fixed.rs:48-73 | Between two evictions of its window, a key is admitted at most threshold - 1 times. |
| FixedWindow.RearmIdempotent | src/fixed.rs:68-73 | A second rearm at the same instant leaves the map unchanged. |
| FixedWindow.WakeMayPrecedeNow | src/fixed.rs:68-72 | A window that expired at 5, rearmed at 10, is evicted, yet 5 is still reported as the wake instant. |
| SlidingWindow.Consume | src/slide.rs:47-71 | now + duration is added exactly when the key is absent or its set is below threshold. Otherwise the map is unchanged. The result is Err exactly when the set then has threshold elements, and otherwise Ok(threshold - size), in 1..threshold-1. It panics exactly for a new key with threshold 0 or a set larger than threshold. Other keys are untouched. With threshold at least 1, no set grows past threshold. |
| SlidingWindow.PrunePrefix | src/slide.rs:78-89 | Removing the smallest instant while it is not after now leaves exactly the instants after now. The instant the loop stops at is the smallest survivor, or there is none. |
| SlidingWindow.Rearm | src/slide.rs:73-94 | Every instant up to now is removed from every set, and the survivors stay. A key stays exactly when something of its set survives, so no set is left empty. The result is the minimum survivor across all keys, and None exactly when nothing survives. |
| SlidingWindow.RearmScan | src/slide.rs:74-93 | Pruning each key's prefix, keeping the smallest stop instant, then retaining the non-empty sets gives the same map and wake instant as Rearm. |
| SlidingWindow.BackToBackAdmissions | src/slide.rs:49-70 | Calls at strictly increasing instants, with no rearm between them, admit a key holding c instants exactly threshold - c - 1 more times, with decreasing remaining counts. Every later call is denied. A new key gets threshold - 1 admissions. |
| SlidingWindow.AdmissionAfterRearm | src/slide.rs:49-91 | After a rearm, let a be the number of the key's instants that survive. The next call is admitted with threshold - a - 1 left when a + 1 < threshold, and is denied otherwise. So a full log that loses one instant is still denied. |
| SlidingWindow.RearmIdempotent | src/slide.rs:77-91 | A second rearm at the same instant leaves the map unchanged. |
| Limiter.Least | src/slide.rs:78 | The first element yielded by an ordered set is in the set and is no larger than any other element. |
| Approximation.NearestMinute | src/approximation.rs:103-110 | Returns (s, s + 60), where s is a multiple of 60 and s <= t < s + 60. |
| Approximation.NearestMinuteUnique | src/approximation.rs:103-110 | No other multiple of 60 starts a minute that contains t. |
| Approximation.Classify | src/approximation.rs:60-68 | prev is the number of hits in [prevStart, prevEnd). cur is the number of hits at or after prevEnd. Older hits count toward neither, so prev + cur is at most the number of hits. |
| Approximation.PrevWeight | src/approximation.rs:59 | The weight is at most 1. One minus the weight, times the window length, equals the seconds elapsed in the current minute. |
| Approximation.WeightInUnitInterval | src/approximation.rs:59 | With a window of at least 60 seconds, the previous-minute weight lies in (0, 1]. |
| Approximation.ShortWindowNegativeWeight | src/approximation.rs:59 | With a window shorter than the seconds already elapsed in the minute, the weight is negative. |
| Approximation.AsUsize | src/approximation.rs:72 | Casting the load to usize truncates a non-negative load to the whole number below it, and saturates a negative load to 0. |
| Approximation.LoadBounds | src/approximation.rs:58-71 | The load never exceeds the unweighted count of previous-minute and current hits. It is at least the current count when the window is at least as long as the seconds elapsed in the minute. It equals the current count when the previous minute has no hits. |
| Approximation.UsedBounds | src/approximation.rs:71-72 | After the cast, the same bounds hold in whole numbers: at most prev + cur, at least cur while the weight is not negative, and exactly cur when prev is 0. |
| Approximation.Consume | src/approximation.rs:48-82 | The key always has an entry afterwards. The call panics exactly when the truncated load exceeds threshold, and is denied exactly when it equals threshold. In both cases the key's hits are unchanged. Otherwise now is added to the hits and the result is threshold - load - 1. Other keys are untouched. |
| Approximation.ConsumeSaturating | src/approximation.rs:71-81 | The corrected decision never panics. It denies exactly when the truncated load reaches threshold, and an admission reports less than threshold. |
| Approximation.SaturatingAgreesUnlessPanic | src/approximation.rs:71-81 | Wherever the code as written does not panic, the corrected decision gives the same state and result. |
| Approximation.LateCallsAdmitted | src/approximation.rs:55-81 | With duration 10 and threshold 1, calls at 111 and 112 are both admitted with Ok(0), because the second one weighs the first by -4.2. Both hits are then stored. |
| Approximation.ShortWindowUnderflows | src/approximation.rs:55-97 | With duration 10 and threshold 1, calls at 111 and 112 are both admitted. After a purge at any instant up to 120, which keeps both hits, a call at 120 panics. |
| Approximation.QuietKeyAdmitted | src/approximation.rs:58-81 | A key with no hit in the previous minute or after it is admitted with threshold - 1 left. |
| Approximation.Rearm | src/approximation.rs:84-100 | Each key keeps exactly its hits no older than now - duration. A key stays exactly when one of them survives. The result is None. |
| Approximation.RearmIdempotent | src/approximation.rs:91-97 | A second rearm at the same instant leaves the map unchanged. |

## Findings

| source | as written | input that shows it | evidently intended | confidence | as-written member | corrected member |
|---|---|---|---|---|---|---|
| src/approximation.rs:59-72 | With a window under 60 seconds, `prev_weight` goes negative late in a minute. Hits from that minute are then admitted without limit. In the next minute they count at weight 1, `approximation as usize` exceeds `threshold`, and `threshold - approximation as usize` underflows: a debug build panics, a release build wraps and admits. | duration 10, threshold 1, one key: calls at seconds 111 and 112, the 10-second purge at 120, then a call at 120 | the call is denied: remaining saturates at 0 | not executed | Approximation.Consume, Approximation.ShortWindowUnderflows | Approximation.ConsumeSaturating |

## Left out

- Background tasks are left out because they are concurrency and timers:
  - the `tokio::spawn` loops (src/bucket.rs:26-33, src/fixed.rs:31-43, src/slide.rs:32-44, src/approximation.rs:33-41);
  - their `select!`/`Notify`/`sleep_until` wake scheduling;
  - the `notify_one` calls.

  The model treats refill and reclamation as `rearm` calls the environment may make at any time, any number of times.
- `Arc<Mutex<..>>` and `.lock().unwrap()` are left out: each call is atomic. A poisoned lock after a panic is not modelled; `Panic` simply ends the call.
- `Instant::now()` and `Local::now()` become the parameter `now`, in whole seconds.
- The source clocks have sub-second resolution. Two calls in the same modelled second therefore add one set element where the source adds two. The counting lemmas assume strictly increasing instants for this reason.
- Time zones and the sub-second part of `DateTime<Local>` are left out. `duration_trunc` to a minute is truncation to a multiple of 60 seconds since the epoch.
- Overflow of `Instant + Duration` and `checked_sub_signed(..).unwrap()` is left out, because the integers are unbounded.
- Approximation.Consume: the weight and the load are exact reals, not IEEE-754 `f64`, so rounding of `prev_weight` and of the load is not modelled.
- Approximation.Consume: it requires `duration >= 1`, because exact reals cannot express the `f64` division by zero of a zero duration. In the source, `prev_weight` is then NaN or negative infinity. The load is NaN or negative infinity too, and it casts to 0, so every call is admitted with `threshold - 1` left (a zero threshold gives `Err`). The purge task's zero-period interval timer panics, but only inside the spawned task, so `consume` keeps working.
- All `println!` output is left out.
- src/main.rs (HTTP routing and process start-up) is not part of this model. src/limiter.rs has no logic; it appears only as the shared `Limiter` vocabulary.
