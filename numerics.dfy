/** Real-number stand-ins for the floating-point operations the decoder uses.

    The decoder works on float64 values with numpy's `log` and Python's `**`.
    Here scores are reals, and the logarithm and the power function are
    supplied by the caller as a `Math` record; the only facts the proofs use
    about them are collected in `Sound`. */
module Numerics {

  /** The natural logarithm and the power function `base ** exponent`. */
  datatype Math = Math(log: real -> real, pow: (real, real) -> real)

  /** What the proofs assume of `log` and `pow`: log(1) = 0 and log is strictly
      increasing on the positive reals; a positive base raised to any exponent
      is positive, and for a positive exponent the power grows with the base. */
  ghost predicate Sound(m: Math) {
    && m.log(1.0) == 0.0
    && (forall x, y :: 0.0 < x < y ==> m.log(x) < m.log(y))
    && (forall b, e :: 0.0 < b ==> 0.0 < m.pow(b, e))
    && (forall b, c, e :: 0.0 < b <= c && 0.0 < e ==> m.pow(b, e) <= m.pow(c, e))
  }

  /** The probability floor 1e-30 (also the seed of every coverage entry). */
  const Floor: real := 0.000000000000000000000000000001

  /** The normalised score -1e30 carried by hypotheses that have not stopped. */
  const Sentinel: real := -1000000000000000000000000000000.0

  /** The tolerance 1e-6 of the keep rule for completed hypotheses. */
  const Epsilon: real := 0.000001

  function Max(a: real, b: real): real {
    if a >= b then a else b
  }

  function Min(a: real, b: real): real {
    if a <= b then a else b
  }

  /** `np.sum` of a vector. */
  function Sum(s: seq<real>): real {
    if s == [] then 0.0 else s[0] + Sum(s[1..])
  }

  /** `np.max` of a non-empty vector: an upper bound that is attained. */
  function MaxOf(s: seq<real>): (r: real)
    requires |s| > 0
    ensures forall k :: 0 <= k < |s| ==> s[k] <= r
    ensures exists k :: 0 <= k < |s| && s[k] == r
  {
    if |s| == 1 then s[0] else Max(s[0], MaxOf(s[1..]))
  }

  /** A sum of non-positive terms is non-positive, and it is zero exactly
      when every term is zero. */
  lemma {:induction false} SumOfNonPositive(s: seq<real>)
    requires forall k :: 0 <= k < |s| ==> s[k] <= 0.0
    ensures Sum(s) <= 0.0
    ensures Sum(s) == 0.0 <==> forall k :: 0 <= k < |s| ==> s[k] == 0.0
  {
    if s != [] {
      SumOfNonPositive(s[1..]);
      assert forall k :: 1 <= k < |s| ==> s[1..][k - 1] == s[k];
    }
  }
}
