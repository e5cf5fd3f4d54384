/** Weighted sliding-window approximation (src/approximation.rs): per key,
    the set of instants of its admitted calls. A call is judged by the calls
    in the minute that contains `now - duration` (weighted by how much of the
    current minute is left) plus every call after that minute.

    Instants are whole seconds since the epoch; `now % 60` is the seconds
    field of the wall clock (time zones are not modelled). The weight and the
    load are computed here over exact reals: this is the exact-arithmetic
    idealisation of the source's `f64` arithmetic, which also rounds. */
module Approximation {
  import opened Limiter

  /** `HashMap<String, Entry>`, an entry being the ordered set of hits. */
  type Hits = map<string, set<int>>

  /** `nearest_minute(t)`: the bounds of the minute that contains `t`. */
  function NearestMinute(t: int): (r: (int, int))
    ensures r.0 % 60 == 0
    ensures r.0 <= t < r.0 + 60
    ensures r.1 == r.0 + 60
  {
    var start := t - t % 60;
    (start, start + 60)
  }

  /** The minute found by `NearestMinute` is the only one containing `t`. */
  lemma NearestMinuteUnique(t: int, start: int)
    requires start % 60 == 0
    requires start <= t < start + 60
    ensures start == NearestMinute(t).0
  {
  }

  /** The tally of the classification loop. */
  datatype Counts = Counts(prev: nat, cur: nat)

  /** The loop over `entry.hits` (lines 60-68): a hit in
      `[prevStart, prevEnd)` counts toward `prev`, one at or after `prevEnd`
      toward `cur`, and an older one toward neither. The ordered set is
      walked from its smallest hit up. */
  function Classify(hits: set<int>, prevStart: int, prevEnd: int): (c: Counts)
    ensures c.prev == |set x | x in hits && prevStart <= x < prevEnd|
    ensures c.cur == |set x | x in hits && x >= prevEnd|
    ensures c.prev + c.cur <= |hits|
    decreases |hits|
  {
    if hits == {} then
      Counts(0, 0)
    else
      var h := Least(hits);
      var c := Classify(hits - {h}, prevStart, prevEnd);
      SplitPrev(hits, h, prevStart, prevEnd);
      SplitCur(hits, h, prevEnd);
      if prevStart <= h < prevEnd then
        Counts(c.prev + 1, c.cur)
      else if h >= prevEnd then
        Counts(c.prev, c.cur + 1)
      else
        c
  }

  /** Taking `h` out of `hits` takes it out of the previous-minute hits. */
  lemma SplitPrev(hits: set<int>, h: int, prevStart: int, prevEnd: int)
    requires h in hits
    ensures |set x | x in hits && prevStart <= x < prevEnd|
         == |set x | x in hits - {h} && prevStart <= x < prevEnd| + (if prevStart <= h < prevEnd then 1 else 0)
  {
    var rest := set x | x in hits - {h} && prevStart <= x < prevEnd;
    if prevStart <= h < prevEnd {
      assert (set x | x in hits && prevStart <= x < prevEnd) == rest + {h};
    } else {
      assert (set x | x in hits && prevStart <= x < prevEnd) == rest;
    }
  }

  /** Taking `h` out of `hits` takes it out of the current hits. */
  lemma SplitCur(hits: set<int>, h: int, prevEnd: int)
    requires h in hits
    ensures |set x | x in hits && x >= prevEnd|
         == |set x | x in hits - {h} && x >= prevEnd| + (if h >= prevEnd then 1 else 0)
  {
    var rest := set x | x in hits - {h} && x >= prevEnd;
    if h >= prevEnd {
      assert (set x | x in hits && x >= prevEnd) == rest + {h};
    } else {
      assert (set x | x in hits && x >= prevEnd) == rest;
    }
  }

  /** `prev_weight` (line 59): one minus the seconds elapsed in the current
      minute over the window length. */
  function PrevWeight(now: int, duration: nat): (w: real)
    requires duration >= 1
    ensures w <= 1.0
    ensures (1.0 - w) * duration as real == (now % 60) as real
  {
    var s := (now % 60) as real;
    var d := duration as real;
    assert (s / d) * d == s;
    1.0 - s / d
  }

  /** A window of at least a minute weighs the previous minute in (0, 1]. */
  lemma WeightInUnitInterval(now: int, duration: nat)
    requires duration >= 60
    ensures 0.0 < PrevWeight(now, duration) <= 1.0
  {
  }

  /** A window shorter than the seconds already elapsed in the current
      minute weighs the previous minute negatively. */
  lemma ShortWindowNegativeWeight(now: int, duration: nat)
    requires 1 <= duration < now % 60
    ensures PrevWeight(now, duration) < 0.0
  {
    var s := (now % 60) as real;
    var d := duration as real;
    assert (s / d) * d == s;
    assert d > 0.0 && s > d;
    if s / d <= 1.0 {
      assert false;
    }
  }

  /** Rust's `f64 as usize`: truncation toward zero, a negative value
      saturating to 0. */
  function AsUsize(x: real): (n: nat)
    ensures x >= 0.0 ==> n as real <= x < n as real + 1.0
    ensures x < 0.0 ==> n == 0
  {
    if x < 0.0 then 0 else x.Floor
  }

  /** The previous-minute and current counts of `hits` for a call at `now`. */
  function Tally(hits: set<int>, duration: nat, now: int): Counts
  {
    var (prevStart, prevEnd) := NearestMinute(now - duration);
    Classify(hits, prevStart, prevEnd)
  }

  /** `approximation` (line 71): the weighted previous-minute count plus the
      current count. */
  function Load(hits: set<int>, duration: nat, now: int): real
    requires duration >= 1
  {
    Weighted(Tally(hits, duration, now), PrevWeight(now, duration))
  }

  /** The previous-minute count scaled by `w`, plus the current count. */
  function Weighted(c: Counts, w: real): real
  {
    c.prev as real * w + c.cur as real
  }

  /** The admissions the load accounts for, after the cast on line 72. */
  function Used(hits: set<int>, duration: nat, now: int): nat
    requires duration >= 1
  {
    AsUsize(Load(hits, duration, now))
  }

  /** The load never exceeds the unweighted count, is at least the current
      count unless the weight has gone negative, and is exactly the current
      count when the previous minute is empty. */
  lemma LoadBounds(hits: set<int>, duration: nat, now: int)
    requires duration >= 1
    ensures var c := Tally(hits, duration, now);
            && Load(hits, duration, now) <= (c.prev + c.cur) as real
            && (now % 60 <= duration ==> c.cur as real <= Load(hits, duration, now))
            && (c.prev == 0 ==> Load(hits, duration, now) == c.cur as real)
  {
    var w := PrevWeight(now, duration);
    if now % 60 <= duration {
      WeightNonNegative(now, duration);
    }
    Scale(Tally(hits, duration, now), w);
  }

  /** The cast keeps the bounds of `LoadBounds` in whole numbers. */
  lemma UsedBounds(hits: set<int>, duration: nat, now: int)
    requires duration >= 1
    ensures var c := Tally(hits, duration, now);
            && Used(hits, duration, now) <= c.prev + c.cur
            && (now % 60 <= duration ==> c.cur <= Used(hits, duration, now))
            && (c.prev == 0 ==> Used(hits, duration, now) == c.cur)
  {
    LoadBounds(hits, duration, now);
  }

  /** A weight of at most one never lifts the load above the unweighted
      count, and a weight of at least zero never drops it below the current
      count. */
  lemma Scale(c: Counts, w: real)
    requires w <= 1.0
    ensures Weighted(c, w) <= (c.prev + c.cur) as real
    ensures w >= 0.0 ==> c.cur as real <= Weighted(c, w)
    ensures c.prev == 0 ==> Weighted(c, w) == c.cur as real
  {
    var p := c.prev as real;
    assert p * (1.0 - w) >= 0.0;
  }

  /** A window at least as long as the seconds elapsed in the minute gives a
      weight of at least zero. */
  lemma WeightNonNegative(now: int, duration: nat)
    requires 1 <= duration && now % 60 <= duration
    ensures PrevWeight(now, duration) >= 0.0
  {
    if PrevWeight(now, duration) < 0.0 {
      assert false;
    }
  }

  /** The hits recorded for `key`, none if it has no entry. */
  function HitsOf(m: Hits, key: string): set<int>
  {
    if key in m then m[key] else {}
  }

  /** `consume(key)` at instant `now`, as written: the entry is created
      before anything is decided, and `threshold - used` underflows when the
      load accounts for more than `threshold` admissions. */
  function Consume(m: Hits, duration: nat, threshold: nat, key: string, now: int): (r: Step<Hits, Outcome>)
    requires duration >= 1
    ensures key in r.state
    ensures r.state - {key} == m - {key}
    ensures r.result.Panic? <==> Used(HitsOf(m, key), duration, now) > threshold
    ensures r.result.Err? <==> Used(HitsOf(m, key), duration, now) == threshold
    ensures r.result.Ok? ==> r.result.remaining + 1 + Used(HitsOf(m, key), duration, now) == threshold
    ensures r.result.Ok? ==> r.state[key] == HitsOf(m, key) + {now}
    ensures !r.result.Ok? ==> r.state[key] == HitsOf(m, key)
  {
    var hits := HitsOf(m, key);
    var entered := m[key := hits];
    var used := Used(hits, duration, now);
    if used > threshold then
      Step(entered, Panic)
    else if used == threshold then
      Step(entered, Err)
    else
      Step(entered[key := hits + {now}], Ok(threshold - used - 1))
  }

  /** `consume(key)` with the subtraction saturating at zero, so that a load
      beyond the threshold denies the call instead of aborting it. */
  function ConsumeSaturating(m: Hits, duration: nat, threshold: nat, key: string, now: int): (r: Step<Hits, Outcome>)
    requires duration >= 1
    ensures !r.result.Panic?
    ensures key in r.state
    ensures r.state - {key} == m - {key}
    ensures r.result.Err? <==> Used(HitsOf(m, key), duration, now) >= threshold
    ensures r.result.Ok? ==> r.result.remaining < threshold
    ensures r.result.Ok? ==> r.state[key] == HitsOf(m, key) + {now}
    ensures r.result.Err? ==> r.state[key] == HitsOf(m, key)
  {
    var hits := HitsOf(m, key);
    var entered := m[key := hits];
    var used := Used(hits, duration, now);
    if used >= threshold then
      Step(entered, Err)
    else
      Step(entered[key := hits + {now}], Ok(threshold - used - 1))
  }

  /** Wherever the source does not abort, the saturating form agrees with it. */
  lemma SaturatingAgreesUnlessPanic(m: Hits, duration: nat, threshold: nat, key: string, now: int)
    requires duration >= 1
    requires !Consume(m, duration, threshold, key, now).result.Panic?
    ensures ConsumeSaturating(m, duration, threshold, key, now) == Consume(m, duration, threshold, key, now)
  {
  }

  /** With a 10-second window and a threshold of 1, two calls at seconds
      111 and 112 are both admitted: the second sees a weight of -4.2 on the
      first. */
  lemma LateCallsAdmitted()
    ensures var s1 := Consume(map[], 10, 1, "k", 111);
            var s2 := Consume(s1.state, 10, 1, "k", 112);
            && s1.result == Ok(0)
            && s2.result == Ok(0)
            && s2.state == map["k" := {111, 112}]
  {
    var s1 := Consume(map[], 10, 1, "k", 111);
    var one: set<int> := {111};
    assert Classify({}, 60, 120) == Counts(0, 0);
    assert Used({}, 10, 111) == 0;
    assert s1.state == map["k" := one];
    var s2 := Consume(s1.state, 10, 1, "k", 112);
    assert NearestMinute(102) == (60, 120);
    assert (set h | h in one && 60 <= h < 120) == one;
    assert (set h | h in one && h >= 120) == {};
    assert Classify({111}, 60, 120) == Counts(1, 0);
    assert PrevWeight(112, 10) == -4.2;
    assert Used({111}, 10, 112) == 0;
    assert s2.result == Ok(0);
    assert one + {112} == {111, 112};
  }

  /** A purge at any instant up to 120 keeps both hits of
      `LateCallsAdmitted`. */
  lemma PurgeKeepsLateCalls(purge: int)
    requires purge <= 120
    ensures Rearm(map["k" := {111, 112}], 10, purge).state == map["k" := {111, 112}]
  {
    var two: set<int> := {111, 112};
    var r := Rearm(map["k" := two], 10, purge);
    assert 111 in two && 111 >= purge - 10;
    assert r.state["k"] == two;
  }

  /** Continuing `LateCallsAdmitted`: a purge at any instant up to 120 keeps
      both hits, and the first call at 120 weighs them fully and underflows. */
  lemma ShortWindowUnderflows(purge: int)
    requires purge <= 120
    ensures var s1 := Consume(map[], 10, 1, "k", 111);
            var s2 := Consume(s1.state, 10, 1, "k", 112);
            var s3 := Consume(Rearm(s2.state, 10, purge).state, 10, 1, "k", 120);
            && s1.result == Ok(0)
            && s2.result == Ok(0)
            && s3.result == Panic
  {
    LateCallsAdmitted();
    var two: set<int> := {111, 112};
    PurgeKeepsLateCalls(purge);
    assert NearestMinute(110) == (60, 120);
    assert (set h | h in two && 60 <= h < 120) == two;
    assert (set h | h in two && h >= 120) == {};
    assert Classify(two, 60, 120) == Counts(2, 0);
    assert PrevWeight(120, 10) == 1.0;
    assert Used(two, 10, 120) == 2;
  }

  /** A key with no hit in the previous minute or after it is admitted with
      `threshold - 1` left. */
  lemma QuietKeyAdmitted(m: Hits, duration: nat, threshold: nat, key: string, now: int)
    requires duration >= 1
    requires threshold >= 1
    requires forall h :: h in HitsOf(m, key) ==> h < NearestMinute(now - duration).0
    ensures Consume(m, duration, threshold, key, now).result == Ok(threshold - 1)
  {
  }

  /** The hits of `hits` no older than `left`. */
  function Recent(hits: set<int>, left: int): (r: set<int>)
    ensures forall h :: h in r <==> h in hits && h >= left
    ensures r == {} <==> forall h :: h in hits ==> h < left
  {
    var r := set h | h in hits && h >= left;
    assert r != {} ==> exists h :: h in r by {
      if r != {} && forall h :: h !in r {
        assert false;
      }
    }
    r
  }

  /** `rearm()` at instant `now`: keeps the hits no older than
      `now - duration`, drops keys left with none, and reports no wake
      instant (its loop runs on a fixed interval). */
  function Rearm(m: Hits, duration: nat, now: int): (r: Step<Hits, Option<int>>)
    ensures r.result == None
    ensures forall k :: k in r.state <==> k in m && exists h :: h in m[k] && h >= now - duration
    ensures forall k, h :: k in r.state ==> (h in r.state[k] <==> h in m[k] && h >= now - duration)
  {
    var left := now - duration;
    var kept := map k | k in m && Recent(m[k], left) != {} :: Recent(m[k], left);
    Step(kept, None)
  }

  /** A second `rearm` at the same instant changes nothing. */
  lemma RearmIdempotent(m: Hits, duration: nat, now: int)
    ensures Rearm(Rearm(m, duration, now).state, duration, now).state == Rearm(m, duration, now).state
  {
    var once := Rearm(m, duration, now).state;
    var twice := Rearm(once, duration, now).state;
    forall k | k in once
      ensures k in twice && twice[k] == once[k]
    {
      assert Recent(once[k], now - duration) == once[k];
    }
    assert twice.Keys == once.Keys;
  }
}
