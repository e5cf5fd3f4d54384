/** Sliding-window log (src/slide.rs): per key, the ordered set of expiry
    instants `now + duration` of its admitted calls. `consume` never prunes;
    expired instants leave the set only through `rearm`. */
module SlidingWindow {
  import opened Limiter

  /** `HashMap<String, BTreeSet<Instant>>`. */
  type Log = map<string, set<int>>

  /** No key holds more than `threshold` instants. */
  ghost predicate WithinThreshold(m: Log, threshold: nat)
  {
    forall k :: k in m ==> |m[k]| <= threshold
  }

  /** `consume(key)` at instant `now`. A new key's set is built by a lazy
      closure (`or_insert_with`) that underflows on `threshold - 1` before the
      set is stored; afterwards `threshold - set.len()` underflows for a set
      larger than the threshold. */
  function Consume(m: Log, duration: nat, threshold: nat, key: string, now: int): (r: Step<Log, Outcome>)
    ensures r.result.Panic? <==> if key in m then |m[key]| > threshold else threshold == 0
    ensures r.result.Panic? ==> r.state == m
    ensures r.state - {key} == m - {key}
    ensures !r.result.Panic? ==> key in r.state
    ensures key !in m && threshold >= 1 ==> r.state[key] == {now + duration}
    ensures key in m && |m[key]| < threshold ==> r.state[key] == m[key] + {now + duration}
    ensures key in m && |m[key]| >= threshold ==> r.state == m
    ensures r.result.Err? <==> !r.result.Panic? && |r.state[key]| == threshold
    ensures r.result.Ok? ==> r.result.remaining + |r.state[key]| == threshold
    ensures r.result.Ok? ==> 1 <= r.result.remaining < threshold
    ensures threshold >= 1 && WithinThreshold(m, threshold) ==> !r.result.Panic? && WithinThreshold(r.state, threshold)
  {
    var when := now + duration;
    if key !in m && threshold == 0 then
      Step(m, Panic)
    else
      var set' := if key !in m then {when} else if |m[key]| < threshold then m[key] + {when} else m[key];
      var stored := m[key := set'];
      if |set'| > threshold then Step(stored, Panic)
      else if |set'| == threshold then Step(stored, Err)
      else Step(stored, Ok(threshold - |set'|))
  }

  /** The instants of `s` that lie after `now`. */
  function Above(s: set<int>, now: int): (a: set<int>)
    ensures forall x :: x in a <==> x in s && x > now
    ensures a == {} <==> forall x :: x in s ==> x <= now
  {
    var a := set x | x in s && x > now;
    assert a != {} ==> exists x :: x in a by {
      if a != {} && forall x :: x !in a {
        assert false;
      }
    }
    a
  }

  /** Every instant, over all keys, that lies after `now`. */
  function Pending(m: Log, now: int): (p: set<int>)
    ensures forall k, x :: k in m && x in m[k] && x > now ==> x in p
    ensures forall x :: x in p ==> x > now && exists k :: k in m && x in m[k]
  {
    set k, x | k in m && x in m[k] && x > now :: x
  }

  /** Every set with its instants up to `now` removed, keys left with
      nothing dropped. */
  function Prune(m: Log, now: int): Log
  {
    map k | k in m && Above(m[k], now) != {} :: Above(m[k], now)
  }

  /** `rearm()` at instant `now`: drops every instant up to `now`, drops keys
      left with nothing, and reports the earliest surviving instant. */
  function Rearm(m: Log, now: int): (r: Step<Log, Option<int>>)
    ensures r.state == Prune(m, now)
    ensures forall k :: k in r.state <==> k in m && exists x :: x in m[k] && x > now
    ensures forall k, x :: k in r.state ==> (x in r.state[k] <==> x in m[k] && x > now)
    ensures forall k :: k in r.state ==> r.state[k] != {}
    ensures r.result.None? <==> forall k, x :: k in m && x in m[k] ==> x <= now
    ensures r.result.Some? ==> r.result.value > now && exists k :: k in m && r.result.value in m[k]
    ensures r.result.Some? ==> forall k, x :: k in m && x in m[k] && x > now ==> r.result.value <= x
  {
    var kept := Prune(m, now);
    var pending := Pending(m, now);
    if pending == {} then
      Step(kept, None)
    else
      var next := Least(pending);
      assert forall k, x :: k in m && x in m[k] && x > now ==> next <= x by {
        forall k, x | k in m && x in m[k] && x > now
          ensures next <= x
        {
          assert x in pending;
        }
      }
      Step(kept, Some(next))
  }

  /** The inner loop of `rearm()` for one key: take the first (smallest)
      instant while it is not after `now`. Returns the surviving set and the
      instant the loop stopped at, if any. */
  method PrunePrefix(s: set<int>, now: int) returns (rest: set<int>, first: Option<int>)
    ensures rest == Above(s, now)
    ensures first.None? <==> rest == {}
    ensures first.Some? ==> first.value in rest && forall x :: x in rest ==> first.value <= x
  {
    rest := s;
    while rest != {} && Least(rest) <= now
      invariant rest <= s
      invariant forall x :: x in s && x !in rest ==> x <= now
      invariant forall x, y :: x in s && x !in rest && y in rest ==> x < y
      decreases |rest|
    {
      var when := Least(rest);
      rest := rest - {when};
    }
    if rest == {} {
      first := None;
    } else {
      first := Some(Least(rest));
    }
  }

  /** `rearm()` as the source runs it: prune every key's prefix, keep the
      smallest instant the inner loops stopped at, then `retain` the keys
      whose set is not empty. */
  method RearmScan(m: Log, now: int) returns (r: Step<Log, Option<int>>)
    ensures r == Rearm(m, now)
  {
    var pruned: Log := map[];
    var next: Option<int> := None;
    var unseen := m.Keys;
    while unseen != {}
      invariant unseen <= m.Keys
      invariant pruned.Keys == m.Keys - unseen
      invariant forall k :: k in pruned ==> pruned[k] == Above(m[k], now)
      invariant next.None? ==> forall k, x :: k in m && k !in unseen && x in m[k] ==> x <= now
      invariant next.Some? ==> next.value in Pending(m, now)
      invariant next.Some? ==> forall k, x :: k in m && k !in unseen && x in m[k] && x > now ==> next.value <= x
      decreases unseen
    {
      if forall k :: k !in unseen {
        assert false;
      }
      var k :| k in unseen;
      var rest, first := PrunePrefix(m[k], now);
      if first.Some? && (next.None? || next.value > first.value) {
        next := first;
      }
      pruned := pruned[k := rest];
      unseen := unseen - {k};
    }
    r := Step(map k | k in pruned && pruned[k] != {} :: pruned[k], next);
    ScanAgrees(m, now, pruned, next);
  }

  /** Once every key is pruned, retaining the non-empty sets and reporting
      the smallest stop instant is exactly `Rearm`. */
  lemma ScanAgrees(m: Log, now: int, pruned: Log, next: Option<int>)
    requires pruned.Keys == m.Keys
    requires forall k :: k in pruned ==> pruned[k] == Above(m[k], now)
    requires next.None? ==> forall k, x :: k in m && x in m[k] ==> x <= now
    requires next.Some? ==> next.value in Pending(m, now)
    requires next.Some? ==> forall k, x :: k in m && x in m[k] && x > now ==> next.value <= x
    ensures Step(map k | k in pruned && pruned[k] != {} :: pruned[k], next) == Rearm(m, now)
  {
    var kept := map k | k in pruned && pruned[k] != {} :: pruned[k];
    var expected := Rearm(m, now);
    assert kept == expected.state;
    if next.Some? {
      assert expected.result.Some?;
      var k :| k in m && expected.result.value in m[k];
      var j :| j in m && next.value in m[j];
    }
  }

  /** The results of back-to-back `consume(key)` calls at the instants
      `nows`, with no `rearm` between them. */
  function ConsumeAll(m: Log, duration: nat, threshold: nat, key: string, nows: seq<int>): seq<Outcome>
    decreases |nows|
  {
    if nows == [] then []
    else
      var s := Consume(m, duration, threshold, key, nows[0]);
      [s.result] + ConsumeAll(s.state, duration, threshold, key, nows[1..])
  }

  /** A call whose instant `now + duration` is later than every instant the
      key holds grows a set below the threshold by one, and is admitted
      exactly when the set is then still below it. */
  lemma ConsumeFresh(m: Log, duration: nat, threshold: nat, key: string, now: int)
    requires threshold >= 1
    requires key in m ==> |m[key]| <= threshold
    requires key in m ==> forall x :: x in m[key] ==> x < now + duration
    ensures var c := if key in m then |m[key]| else 0;
            var s := Consume(m, duration, threshold, key, now);
            && |s.state[key]| == (if c + 1 < threshold then c + 1 else threshold)
            && s.result == (if c + 1 < threshold then Ok(threshold - c - 1) else Err)
            && forall x :: x in s.state[key] ==> x <= now + duration
  {
    if key in m && |m[key]| < threshold {
      assert now + duration !in m[key];
    }
  }

  /** One admission or denial followed by the countdown from `c'` is the
      countdown from `c`, when `c'` is `c` plus the call just made. */
  lemma Countdown(first: Outcome, rest: seq<Outcome>, c: nat, c': nat, threshold: nat)
    requires first == if c + 1 < threshold then Ok(threshold - c - 1) else Err
    requires c' == if c + 1 < threshold then c + 1 else threshold
    requires forall i :: 0 <= i < |rest| ==> rest[i] == if c' + i + 1 < threshold then Ok(threshold - c' - i - 1) else Err
    ensures forall i :: 0 <= i < |rest| + 1 ==> ([first] + rest)[i] == if c + i + 1 < threshold then Ok(threshold - c - i - 1) else Err
  {
    var outs := [first] + rest;
    forall i | 1 <= i < |outs|
      ensures outs[i] == if c + i + 1 < threshold then Ok(threshold - c - i - 1) else Err
    {
      assert outs[i] == rest[i - 1];
    }
  }

  /** With calls at strictly increasing instants and no `rearm` between
      them, a key already holding `c` instants gets `threshold - c - 1` more
      admissions, each reporting one less than the last, and is denied from
      then on: a fresh key is admitted `threshold - 1` times, not
      `threshold`. */
  lemma {:induction false} BackToBackAdmissions(m: Log, duration: nat, threshold: nat, key: string, nows: seq<int>)
    requires threshold >= 1
    requires forall i, j :: 0 <= i < j < |nows| ==> nows[i] < nows[j]
    requires key in m ==> |m[key]| <= threshold
    requires key in m && nows != [] ==> forall x :: x in m[key] ==> x < nows[0] + duration
    ensures var c := if key in m then |m[key]| else 0;
            var outs := ConsumeAll(m, duration, threshold, key, nows);
            && |outs| == |nows|
            && forall i :: 0 <= i < |nows| ==> outs[i] == if c + i + 1 < threshold then Ok(threshold - c - i - 1) else Err
    decreases |nows|
  {
    if nows != [] {
      var c := if key in m then |m[key]| else 0;
      var s := Consume(m, duration, threshold, key, nows[0]);
      ConsumeFresh(m, duration, threshold, key, nows[0]);
      var c' := |s.state[key]|;
      assert c' == if c + 1 < threshold then c + 1 else threshold;
      var later := nows[1..];
      assert forall i, j :: 0 <= i < j < |later| ==> later[i] < later[j] by {
        forall i, j | 0 <= i < j < |later|
          ensures later[i] < later[j]
        {
          assert later[i] == nows[i + 1] && later[j] == nows[j + 1];
        }
      }
      assert later != [] ==> forall x :: x in s.state[key] ==> x < later[0] + duration by {
        if later != [] {
          assert nows[0] < nows[1] == later[0];
        }
      }
      BackToBackAdmissions(s.state, duration, threshold, key, later);
      var rest := ConsumeAll(s.state, duration, threshold, key, later);
      assert ConsumeAll(m, duration, threshold, key, nows) == [s.result] + rest;
      Countdown(s.result, rest, c, c', threshold);
    }
  }

  /** After a `rearm` at `now`, the next call for `key` is decided by the
      number `a` of its instants that survived: it is admitted with
      `threshold - a - 1` left while `a + 1 < threshold`, and denied
      otherwise. A full log that loses one instant is therefore still
      denied: the call that takes the freed slot fills the log again. */
  lemma AdmissionAfterRearm(m: Log, duration: nat, threshold: nat, key: string, now: int, t: int)
    requires threshold >= 1
    requires key in m ==> |m[key]| <= threshold
    requires key in m ==> forall x :: x in m[key] ==> x < t + duration
    ensures var a := if key in m then |Above(m[key], now)| else 0;
            Consume(Rearm(m, now).state, duration, threshold, key, t).result
              == if a + 1 < threshold then Ok(threshold - a - 1) else Err
  {
    var r := Rearm(m, now).state;
    if key in r {
      var a := Above(m[key], now);
      assert r[key] == a;
      assert t + duration !in a;
      assert m[key] == a + (m[key] - a);
      assert a * (m[key] - a) == {};
      if |a| < threshold {
        assert |a + {t + duration}| == |a| + 1;
      }
    }
  }

  /** A second `rearm` at the same instant changes nothing. */
  lemma RearmIdempotent(m: Log, now: int)
    ensures Rearm(Rearm(m, now).state, now).state == Rearm(m, now).state
  {
    var once := Prune(m, now);
    var twice := Prune(once, now);
    forall k | k in once
      ensures Above(once[k], now) == once[k]
    {
    }
    assert twice == once;
  }
}
