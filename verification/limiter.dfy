/** Vocabulary shared by the four admission strategies.

  Every strategy implements the same two operations (`consume(key)` and
  `rearm()`, src/limiter.rs:5-9). With the mutex removed and the clock passed
  in as `now` (whole seconds), each operation is a pure transition from the
  per-key map to a new map plus a result; `Step` carries that pair.
 */
module Limiter {

  /** The result of one `consume` call: Rust's `Result<usize, Error>`, plus
      `Panic` for a `usize` subtraction that underflows, which aborts the call
      (debug-build semantics). */
  datatype Outcome = Ok(remaining: nat) | Err | Panic

  /** The wake instant `rearm` reports, as Rust's `Option<Instant>`. */
  datatype Option<T> = None | Some(value: T)

  /** The map after an operation, and what the operation returned. */
  datatype Step<S, R> = Step(state: S, result: R)

  /** `x` is the smallest element of `s`. */
  predicate IsLeast(x: int, s: set<int>)
  {
    x in s && forall y :: y in s ==> x <= y
  }

  /** Every non-empty finite set of instants has a smallest element. */
  lemma {:induction false} LeastExists(s: set<int>)
    requires s != {}
    ensures exists x :: IsLeast(x, s)
    decreases |s|
  {
    if forall x :: x !in s {
      assert false;
    }
    var y :| y in s;
    if s != {y} {
      var rest := s - {y};
      LeastExists(rest);
      var z :| IsLeast(z, rest);
      forall w | w in s
        ensures (if y <= z then y else z) <= w
      {
        if w != y {
          assert w in rest;
        }
      }
      if y <= z {
        assert IsLeast(y, s);
      } else {
        assert IsLeast(z, s);
      }
    } else {
      assert IsLeast(y, s);
    }
  }

  /** The first element an ordered set (`BTreeSet`) yields when iterated. */
  function Least(s: set<int>): (x: int)
    requires s != {}
    ensures x in s
    ensures forall y :: y in s ==> x <= y
  {
    LeastExists(s);
    var x :| IsLeast(x, s);
    x
  }
}
