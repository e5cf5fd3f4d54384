/** Token bucket (src/bucket.rs): one counter per key, taken on `consume`,
    refilled by one on every `rearm` tick up to `capacity`. */
module TokenBucket {
  import opened Limiter

  /** Remaining tokens per key (`HashMap<String, usize>`). */
  type Tokens = map<string, nat>

  /** No key holds more than `capacity` tokens. */
  ghost predicate WithinCapacity(m: Tokens, capacity: nat)
  {
    forall k :: k in m ==> m[k] <= capacity
  }

  /** The `and_modify` closure: a token is taken only when one is left. */
  function Take(token: nat): (t: nat)
    ensures t <= token <= t + 1
    ensures t == token <==> token == 0
  {
    if token > 0 then token - 1 else token
  }

  /** `consume(key)`. The default `capacity - 1` handed to `or_insert` is
      evaluated on every call, after `and_modify` has run, so a zero capacity
      underflows whether or not the key exists. */
  function Consume(m: Tokens, capacity: nat, key: string): (r: Step<Tokens, Outcome>)
    ensures r.result.Panic? <==> capacity == 0
    ensures r.state - {key} == m - {key}
    ensures key in m ==> key in r.state
    ensures key in m && m[key] > 0 ==> r.state[key] == m[key] - 1
    ensures key in m && m[key] == 0 ==> r.state[key] == 0
    ensures key !in m && capacity >= 1 ==> key in r.state && r.state[key] == capacity - 1
    ensures key !in m && capacity == 0 ==> r.state == m
    ensures r.result.Err? <==> capacity >= 1 && r.state[key] == 0
    ensures r.result.Ok? ==> r.result.remaining == r.state[key] >= 1
    ensures r.result.Ok? && (key in m ==> m[key] <= capacity) ==> r.result.remaining < capacity
    ensures WithinCapacity(m, capacity) ==> WithinCapacity(r.state, capacity)
  {
    var modified := if key in m then m[key := Take(m[key])] else m;
    if capacity == 0 then
      Step(modified, Panic)
    else
      var stored := if key in modified then modified else modified[key := capacity - 1];
      var token := stored[key];
      if token == 0 then Step(stored, Err) else Step(stored, Ok(token))
  }

  /** `rearm()`: one refill tick. It reports no wake instant, so the source's
      refill loop never sleeps. */
  function Rearm(m: Tokens, capacity: nat): (r: Step<Tokens, Option<int>>)
    ensures r.result == None
    ensures r.state.Keys == m.Keys
    ensures forall k :: k in m && m[k] < capacity ==> r.state[k] == m[k] + 1
    ensures forall k :: k in m && m[k] >= capacity ==> r.state[k] == m[k]
    ensures WithinCapacity(m, capacity) ==> WithinCapacity(r.state, capacity)
  {
    Step(map k | k in m :: if m[k] < capacity then m[k] + 1 else m[k], None)
  }

  /** The results of `n` back-to-back `consume(key)` calls with no refill
      tick between them. */
  function ConsumeRepeatedly(m: Tokens, capacity: nat, key: string, n: nat): seq<Outcome>
    decreases n
  {
    if n == 0 then []
    else
      var s := Consume(m, capacity, key);
      [s.result] + ConsumeRepeatedly(s.state, capacity, key, n - 1)
  }

  /** A key holding `c` tokens (a fresh key behaves as if it held
      `capacity`) is admitted exactly `c - 1` times in a row, each call
      reporting one less than the last, and denied from then on: a bucket of
      capacity C admits C - 1 calls, not C. */
  lemma {:induction false} BackToBackAdmissions(m: Tokens, capacity: nat, key: string, n: nat)
    requires capacity >= 1
    ensures var c := if key in m then m[key] else capacity;
            var outs := ConsumeRepeatedly(m, capacity, key, n);
            && |outs| == n
            && forall i :: 0 <= i < n ==> outs[i] == if i < c - 1 then Ok(c - 1 - i) else Err
    decreases n
  {
    if n > 0 {
      var c := if key in m then m[key] else capacity;
      var s := Consume(m, capacity, key);
      BackToBackAdmissions(s.state, capacity, key, n - 1);
      var rest := ConsumeRepeatedly(s.state, capacity, key, n - 1);
      var outs := ConsumeRepeatedly(m, capacity, key, n);
      assert outs == [s.result] + rest;
      assert s.state[key] == if c > 0 then c - 1 else 0;
    }
  }

  /** An exhausted key stays denied after one refill tick, because the refill
      restores a single token and the call that takes it reports zero; a
      second tick is needed before a call is admitted again. */
  lemma RefillAfterExhaustion(m: Tokens, capacity: nat, key: string)
    requires capacity >= 2
    requires key in m && m[key] == 0
    ensures Consume(Rearm(m, capacity).state, capacity, key).result == Err
    ensures Consume(Rearm(Rearm(m, capacity).state, capacity).state, capacity, key).result == Ok(1)
  {
  }
}
