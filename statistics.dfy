/** Population statistics over exact reals: the sum, the mean and the
    variance with divisor equal to the number of values (numpy's `np.var`
    with its default `ddof=0`). */
module Statistics {

  /** The sum of the values of `s`. */
  function Sum(s: seq<real>): (r: real)
  {
    if s == [] then 0.0 else s[0] + Sum(s[1..])
  }

  /** The arithmetic mean; undefined (NaN in numpy) for no values. */
  function Mean(s: seq<real>): (m: real)
    requires |s| > 0
  {
    Sum(s) / |s| as real
  }

  /** `x` squared. */
  function Square(x: real): (r: real)
  {
    x * x
  }

  /** A square is never negative, and positive unless its root is zero. */
  lemma SquarePositive(x: real)
    ensures Square(x) >= 0.0 && (x != 0.0 ==> Square(x) > 0.0)
  {
    if x > 0.0 {
      calc { Square(x); == x * x; > 0.0 * x; }
    } else if x < 0.0 {
      calc { Square(x); == (-x) * (-x); > 0.0 * (-x); }
    }
  }

  /** The sum of the squared deviations of the values of `s` from `m`;
      never negative, because every term is a square. */
  function SquaredDeviation(s: seq<real>, m: real): (r: real)
    ensures r >= 0.0
  {
    if s == [] then 0.0
    else
      SquarePositive(s[0] - m);
      Square(s[0] - m) + SquaredDeviation(s[1..], m)
  }

  /** The population variance: the mean of the squared deviations from the mean. */
  function Variance(s: seq<real>): (v: real)
    requires |s| > 0
    ensures v >= 0.0
  {
    SquaredDeviation(s, Mean(s)) / |s| as real
  }

  /** The sum of `|s|` copies of `c` is `|s| * c`. */
  lemma {:induction false} SumConstant(s: seq<real>, c: real)
    requires forall k :: 0 <= k < |s| ==> s[k] == c
    ensures Sum(s) == |s| as real * c
  {
    if s != [] {
      SumConstant(s[1..], c);
    }
  }


  /** The squared deviations from `m` vanish exactly when every value is `m`. */
  lemma {:induction false} SquaredDeviationZero(s: seq<real>, m: real)
    ensures SquaredDeviation(s, m) == 0.0 <==> forall k :: 0 <= k < |s| ==> s[k] == m
  {
    if s != [] {
      SquaredDeviationZero(s[1..], m);
      SquarePositive(s[0] - m);
      if !forall k :: 0 <= k < |s| ==> s[k] == m {
        var k :| 0 <= k < |s| && s[k] != m;
        if k > 0 {
          assert s[1..][k - 1] != m;
        }
      } else {
        assert forall k :: 0 <= k < |s[1..]| ==> s[1..][k] == m;
      }
    }
  }

  /** The population variance is zero exactly when all values are equal. */
  lemma VarianceZero(s: seq<real>)
    requires |s| > 0
    ensures Variance(s) == 0.0 <==> forall a, b :: 0 <= a < |s| && 0 <= b < |s| ==> s[a] == s[b]
  {
    var n := |s| as real;
    if forall a, b :: 0 <= a < |s| && 0 <= b < |s| ==> s[a] == s[b] {
      SumConstant(s, s[0]);
      assert Mean(s) == s[0];
      SquaredDeviationZero(s, s[0]);
    } else {
      var a, b :| 0 <= a < |s| && 0 <= b < |s| && s[a] != s[b];
      SquaredDeviationZero(s, Mean(s));
      assert SquaredDeviation(s, Mean(s)) != 0.0;
    }
  }
}
