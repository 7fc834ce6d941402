/** The arithmetic helper `_mean` and the folds it rests on. Readings are
    modelled as mathematical reals; floating-point rounding is not modelled. */
module Stats {
  import opened Wrappers

  /** Python's `sum`: a left-to-right fold starting at zero. */
  function Sum(vals: seq<real>): real {
    if |vals| == 0 then 0.0 else Sum(vals[..|vals| - 1]) + vals[|vals| - 1]
  }

  function Min(vals: seq<real>): real
    requires |vals| > 0
  {
    if |vals| == 1 then vals[0]
    else
      var m := Min(vals[..|vals| - 1]);
      if vals[|vals| - 1] < m then vals[|vals| - 1] else m
  }

  function Max(vals: seq<real>): real
    requires |vals| > 0
  {
    if |vals| == 1 then vals[0]
    else
      var m := Max(vals[..|vals| - 1]);
      if vals[|vals| - 1] > m then vals[|vals| - 1] else m
  }

  /** `Min` is a lower bound attained by some element. */
  lemma {:induction false} MinIsLeast(vals: seq<real>)
    requires |vals| > 0
    ensures Min(vals) in vals
    ensures forall i :: 0 <= i < |vals| ==> Min(vals) <= vals[i]
  {
    if |vals| > 1 {
      var pre := vals[..|vals| - 1];
      MinIsLeast(pre);
      assert forall i :: 0 <= i < |pre| ==> pre[i] == vals[i];
    }
  }

  /** `Max` is an upper bound attained by some element. */
  lemma {:induction false} MaxIsGreatest(vals: seq<real>)
    requires |vals| > 0
    ensures Max(vals) in vals
    ensures forall i :: 0 <= i < |vals| ==> vals[i] <= Max(vals)
  {
    if |vals| > 1 {
      var pre := vals[..|vals| - 1];
      MaxIsGreatest(pre);
      assert forall i :: 0 <= i < |pre| ==> pre[i] == vals[i];
    }
  }

  /** The sum of n readings lies between n times the least and n times the greatest. */
  lemma {:induction false} SumBounds(vals: seq<real>)
    requires |vals| > 0
    ensures (|vals| as real) * Min(vals) <= Sum(vals) <= (|vals| as real) * Max(vals)
  {
    if |vals| > 1 {
      var pre := vals[..|vals| - 1];
      var x := vals[|vals| - 1];
      var n := |pre| as real;
      SumBounds(pre);
      LastStep(vals, pre, x);
      LowerStep(n, |vals| as real, Min(vals), Min(pre), Sum(pre), x);
      UpperStep(n, |vals| as real, Max(vals), Max(pre), Sum(pre), x);
    } else {
      assert Sum(vals) == Sum(vals[..0]) + vals[0];
    }
  }

  /** How the folds change when the last reading is appended. */
  lemma LastStep(vals: seq<real>, pre: seq<real>, x: real)
    requires |vals| > 1 && pre == vals[..|vals| - 1] && x == vals[|vals| - 1]
    ensures Sum(vals) == Sum(pre) + x
    ensures Min(vals) <= Min(pre) && Min(vals) <= x
    ensures Max(pre) <= Max(vals) && x <= Max(vals)
  {
  }

  /** Adding a reading no lower than `lo` to a sum of n readings bounded below
      by `n * m`, with `lo <= m`, gives a sum bounded below by `(n + 1) * lo`. */
  lemma LowerStep(n: real, k: real, lo: real, m: real, s: real, x: real)
    requires n >= 0.0 && k == n + 1.0 && lo <= m && lo <= x && n * m <= s
    ensures k * lo <= s + x
  {
    MulMonotone(n, lo, m);
    Distribute(n, lo);
  }

  /** The upper-bound counterpart of `LowerStep`. */
  lemma UpperStep(n: real, k: real, hi: real, m: real, s: real, x: real)
    requires n >= 0.0 && k == n + 1.0 && m <= hi && x <= hi && s <= n * m
    ensures s + x <= k * hi
  {
    MulMonotone(n, m, hi);
    Distribute(n, hi);
  }

  lemma Distribute(n: real, a: real)
    ensures (n + 1.0) * a == n * a + a
  {
  }

  lemma MulMonotone(n: real, a: real, b: real)
    requires n >= 0.0 && a <= b
    ensures n * a <= n * b
  {
  }

  /** The sum of n copies of the same reading is n times that reading. */
  lemma {:induction false} SumConstant(vals: seq<real>, c: real)
    requires forall i :: 0 <= i < |vals| ==> vals[i] == c
    ensures Sum(vals) == (|vals| as real) * c
  {
    if |vals| > 0 {
      SumConstant(vals[..|vals| - 1], c);
    }
  }

  /** `_mean`: `None` exactly for an empty list; otherwise the arithmetic mean,
      which lies between the least and the greatest reading. */
  function Mean(vals: seq<real>): (m: Option<real>)
    ensures m.None? <==> |vals| == 0
    ensures m.Some? ==> Min(vals) <= m.value <= Max(vals)
    ensures m.Some? ==> m.value * (|vals| as real) == Sum(vals)
  {
    if |vals| == 0 then None
    else
      SumBounds(vals);
      Quotient(|vals| as real, Sum(vals), Min(vals), Max(vals));
      Some(Sum(vals) / (|vals| as real))
  }

  /** Dividing a total bounded by `n * lo` and `n * hi` by `n` gives a value
      between `lo` and `hi` that multiplies back to the total. */
  lemma Quotient(n: real, s: real, lo: real, hi: real)
    requires n > 0.0 && n * lo <= s <= n * hi
    ensures (s / n) * n == s
    ensures lo <= s / n <= hi
  {
    var q := s / n;
    assert q * n == s;
    if q < lo {
      MulMonotone(n, q, lo);
    }
    if q > hi {
      MulMonotone(n, hi, q);
    }
  }

  /** The mean of readings that are all equal is that common reading. */
  lemma MeanOfConstant(vals: seq<real>, c: real)
    requires |vals| > 0
    requires forall i :: 0 <= i < |vals| ==> vals[i] == c
    ensures Mean(vals) == Some(c)
  {
    SumConstant(vals, c);
  }

  /** The mean is bounded by every lower and upper bound of the readings. */
  lemma MeanWithinBounds(vals: seq<real>, lo: real, hi: real)
    requires |vals| > 0
    requires forall i :: 0 <= i < |vals| ==> lo <= vals[i] <= hi
    ensures lo <= Mean(vals).value <= hi
  {
    MinIsLeast(vals);
    MaxIsGreatest(vals);
  }
}
