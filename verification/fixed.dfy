/** Fixed window (src/fixed.rs): one `(expiry, remaining)` window per key.
    `consume` only counts down; a window is reset solely because `rearm`
    evicts it once its expiry has passed, after which the next `consume`
    opens a fresh one. */
module FixedWindow {
  import opened Limiter

  /** The per-key value `(Instant, usize)`. */
  datatype Window = Window(expiry: int, remaining: nat)

  type Windows = map<string, Window>

  /** Every window has fewer than `threshold` admissions left, as every
      window is opened with `threshold - 1`. */
  ghost predicate BelowThreshold(m: Windows, threshold: nat)
  {
    forall k :: k in m ==> m[k].remaining < threshold
  }

  /** The `and_modify` closure: the count goes down when it can; the expiry
      is never looked at. */
  function Take(w: Window): (t: Window)
    ensures t.expiry == w.expiry
    ensures t.remaining <= w.remaining <= t.remaining + 1
    ensures t.remaining == w.remaining <==> w.remaining == 0
  {
    if w.remaining > 0 then w.(remaining := w.remaining - 1) else w
  }

  /** `consume(key)` at instant `now`. The default window handed to
      `or_insert` is built on every call, so `threshold - 1` underflows for a
      zero threshold even when the key exists. */
  function Consume(m: Windows, duration: nat, threshold: nat, key: string, now: int): (r: Step<Windows, Outcome>)
    ensures r.result.Panic? <==> threshold == 0
    ensures r.state - {key} == m - {key}
    ensures key in m ==> key in r.state && r.state[key].expiry == m[key].expiry
    ensures key in m && m[key].remaining > 0 ==> r.state[key].remaining == m[key].remaining - 1
    ensures key in m && m[key].remaining == 0 ==> r.state[key].remaining == 0
    ensures key !in m && threshold >= 1 ==> key in r.state && r.state[key] == Window(now + duration, threshold - 1)
    ensures key !in m && threshold == 0 ==> r.state == m
    ensures r.result.Err? <==> threshold >= 1 && r.state[key].remaining == 0
    ensures r.result.Ok? ==> r.result.remaining == r.state[key].remaining >= 1
    ensures r.result.Ok? && (key in m ==> m[key].remaining < threshold) ==> r.result.remaining < threshold
    ensures BelowThreshold(m, threshold) ==> BelowThreshold(r.state, threshold)
  {
    var modified := if key in m then m[key := Take(m[key])] else m;
    if threshold == 0 then
      Step(modified, Panic)
    else
      var stored := if key in modified then modified else modified[key := Window(now + duration, threshold - 1)];
      var token := stored[key].remaining;
      if token == 0 then Step(stored, Err) else Step(stored, Ok(token))
  }

  /** The expiry instants of all windows. */
  function Expiries(m: Windows): (e: set<int>)
    ensures forall k :: k in m ==> m[k].expiry in e
    ensures forall x :: x in e ==> exists k :: k in m && m[k].expiry == x
  {
    set k | k in m :: m[k].expiry
  }

  /** `rearm()` at instant `now`: keeps the windows that expire after `now`
      and reports the earliest expiry it saw, evicted windows included. */
  function Rearm(m: Windows, now: int): (r: Step<Windows, Option<int>>)
    ensures forall k :: k in r.state <==> k in m && m[k].expiry > now
    ensures forall k :: k in r.state ==> r.state[k] == m[k]
    ensures r.result.None? <==> m == map[]
    ensures r.result.Some? ==> exists k :: k in m && m[k].expiry == r.result.value
    ensures r.result.Some? ==> forall k :: k in m ==> r.result.value <= m[k].expiry
  {
    var kept := map k | k in m && m[k].expiry > now :: m[k];
    if m == map[] then
      Step(kept, None)
    else
      assert Expiries(m) != {} by {
        if forall k :: k !in m {
          assert false;
        }
        var k :| k in m;
        assert m[k].expiry in Expiries(m);
      }
      Step(kept, Some(Least(Expiries(m))))
  }

  /** The `retain` pass of `rearm()` as the source runs it: every window is
      visited once, in no particular order; the closure keeps the smallest
      expiry seen so far and answers whether the window survives. */
  method RearmScan(m: Windows, now: int) returns (r: Step<Windows, Option<int>>)
    ensures r == Rearm(m, now)
  {
    var kept: Windows := map[];
    var next: Option<int> := None;
    var unseen := m.Keys;
    while unseen != {}
      invariant unseen <= m.Keys
      invariant forall k :: k in kept <==> k in m && k !in unseen && m[k].expiry > now
      invariant forall k :: k in kept ==> kept[k] == m[k]
      invariant next.None? <==> unseen == m.Keys
      invariant next.Some? ==> next.value in Expiries(m)
      invariant next.Some? ==> forall k :: k in m && k !in unseen ==> next.value <= m[k].expiry
      decreases unseen
    {
      if forall k :: k !in unseen {
        assert false;
      }
      var k :| k in unseen;
      var when := m[k].expiry;
      if next.None? || next.value > when {
        next := Some(when);
      }
      if when > now {
        kept := kept[k := m[k]];
      }
      unseen := unseen - {k};
    }
    assert next.None? <==> m == map[];
    r := Step(kept, next);
    ScanAgrees(m, now, kept, next);
  }

  /** Once every window is visited, the kept windows and the smallest expiry
      seen are exactly what `Rearm` gives. */
  lemma ScanAgrees(m: Windows, now: int, kept: Windows, next: Option<int>)
    requires forall k :: k in kept <==> k in m && m[k].expiry > now
    requires forall k :: k in kept ==> kept[k] == m[k]
    requires next.None? <==> m == map[]
    requires next.Some? ==> next.value in Expiries(m)
    requires next.Some? ==> forall k :: k in m ==> next.value <= m[k].expiry
    ensures Step(kept, next) == Rearm(m, now)
  {
    var expected := Rearm(m, now);
    assert kept == expected.state;
    if next.Some? {
      var x := next.value;
      assert expected.result.Some?;
      var k :| k in m && m[k].expiry == expected.result.value;
      assert x <= expected.result.value;
      var j :| j in m && m[j].expiry == x;
      assert expected.result.value <= x;
    }
  }

  /** One call on the limiter: a `consume` for a key, or a `rearm` pass. */
  datatype Event = ConsumeAt(key: string, now: int) | RearmAt(now: int)

  /** No `rearm` in `evs` evicts the window of `key`. */
  ghost predicate NeverEvicts(m: Windows, duration: nat, threshold: nat, key: string, evs: seq<Event>)
    decreases |evs|
  {
    evs == [] ||
    match evs[0]
    case ConsumeAt(k, now) =>
      NeverEvicts(Consume(m, duration, threshold, k, now).state, duration, threshold, key, evs[1..])
    case RearmAt(now) =>
      && (key in m ==> m[key].expiry > now)
      && NeverEvicts(Rearm(m, now).state, duration, threshold, key, evs[1..])
  }

  /** How many calls for `key` in `evs` are admitted. */
  function Admitted(m: Windows, duration: nat, threshold: nat, key: string, evs: seq<Event>): nat
    decreases |evs|
  {
    if evs == [] then 0
    else match evs[0]
      case ConsumeAt(k, now) =>
        var s := Consume(m, duration, threshold, k, now);
        (if k == key && s.result.Ok? then 1 else 0) + Admitted(s.state, duration, threshold, key, evs[1..])
      case RearmAt(now) => Admitted(Rearm(m, now).state, duration, threshold, key, evs[1..])
  }

  /** What `key` may still spend: its window's count, or a whole threshold
      before its first call opens one. */
  ghost function Budget(m: Windows, threshold: nat, key: string): nat
  {
    if key in m then m[key].remaining else threshold
  }

  /** While its window lives, a key is admitted fewer times than its budget. */
  lemma {:induction false} AdmittedWithinBudget(m: Windows, duration: nat, threshold: nat, key: string, evs: seq<Event>)
    requires threshold >= 1
    requires NeverEvicts(m, duration, threshold, key, evs)
    ensures Admitted(m, duration, threshold, key, evs) == 0
         || Admitted(m, duration, threshold, key, evs) < Budget(m, threshold, key)
    decreases |evs|
  {
    if evs != [] {
      match evs[0]
      case ConsumeAt(k, now) =>
        var s := Consume(m, duration, threshold, k, now);
        AdmittedWithinBudget(s.state, duration, threshold, key, evs[1..]);
        if k == key && s.result.Ok? {
          assert Budget(s.state, threshold, key) + 1 == Budget(m, threshold, key);
        } else {
          assert Budget(s.state, threshold, key) <= Budget(m, threshold, key);
        }
      case RearmAt(now) =>
        AdmittedWithinBudget(Rearm(m, now).state, duration, threshold, key, evs[1..]);
        assert Budget(Rearm(m, now).state, threshold, key) == Budget(m, threshold, key);
    }
  }

  /** Between two evictions of its window, whatever the clock says and
      whatever other keys do, a key is admitted at most `threshold - 1`
      times. */
  lemma AtMostThresholdMinusOnePerWindow(m: Windows, duration: nat, threshold: nat, key: string, evs: seq<Event>)
    requires threshold >= 1
    requires key in m ==> m[key].remaining < threshold
    requires NeverEvicts(m, duration, threshold, key, evs)
    ensures Admitted(m, duration, threshold, key, evs) <= threshold - 1
  {
    AdmittedWithinBudget(m, duration, threshold, key, evs);
  }

  /** A second `rearm` at the same instant changes nothing. */
  lemma RearmIdempotent(m: Windows, now: int)
    ensures Rearm(Rearm(m, now).state, now).state == Rearm(m, now).state
  {
  }

  /** The reported wake instant can already be in the past: it is taken
      over the windows before eviction. */
  lemma WakeMayPrecedeNow()
    ensures Rearm(map["a" := Window(5, 0)], 10) == Step(map[], Some(5))
  {
    var m := map["a" := Window(5, 0)];
    assert "a" in m && m["a"].expiry == 5;
    assert 5 in Expiries(m);
    assert Expiries(m) == {5};
  }
}
