/** The handful of NumPy routines the transcription core relies on, stated
    over exact reals: `np.round(x, decimals=2)`, `np.isclose`, the
    `floor(log2 n) == ceil(log2 n)` test, `np.arange(0, stop, step)` and
    `np.diff`. */
module NumPy {
  import opened Common

  function Pow2(k: nat): (p: nat)
    ensures p >= 1
  {
    if k == 0 then 1 else 2 * Pow2(k - 1)
  }

  ghost predicate IsPowerOfTwo(n: int) {
    exists k: nat :: Pow2(k) == n
  }

  /** Repeated halving reaches 1 without meeting an odd number. */
  predicate HalvesToOne(n: int)
    decreases if n < 0 then 0 else n
  {
    if n <= 0 then false
    else if n == 1 then true
    else n % 2 == 0 && HalvesToOne(n / 2)
  }

  /** `np.floor(np.log2(n)) == np.ceil(np.log2(n))` for an integer `n`:
      log2 of 0 is -inf, whose floor and ceiling agree; log2 of a negative
      number is NaN, which compares unequal to itself. */
  predicate Log2IsWhole(n: int) {
    n == 0 || HalvesToOne(n)
  }

  lemma {:induction false} HalvesToOneIffPowerOfTwo(n: int)
    requires n > 0
    ensures HalvesToOne(n) <==> IsPowerOfTwo(n)
  {
    if HalvesToOne(n) {
      HalvingGivesExponent(n);
    }
    if IsPowerOfTwo(n) {
      var k: nat :| Pow2(k) == n;
      PowerOfTwoHalves(k);
    }
  }

  /** The log2 test passes exactly for zero and the powers of two. */
  lemma Log2IsWholeIff(n: int)
    ensures Log2IsWhole(n) <==> n == 0 || IsPowerOfTwo(n)
    ensures IsPowerOfTwo(n) ==> n > 0
  {
    if n > 0 {
      HalvesToOneIffPowerOfTwo(n);
    }
  }

  lemma {:induction false} HalvingGivesExponent(n: int)
    requires HalvesToOne(n)
    ensures IsPowerOfTwo(n)
    decreases if n < 0 then 0 else n
  {
    if n == 1 {
      assert Pow2(0) == n;
    } else {
      HalvingGivesExponent(n / 2);
      var k: nat :| Pow2(k) == n / 2;
      assert Pow2(k + 1) == n;
    }
  }

  lemma {:induction false} PowerOfTwoHalves(k: nat)
    ensures HalvesToOne(Pow2(k))
  {
    if k > 0 {
      PowerOfTwoHalves(k - 1);
      assert Pow2(k) / 2 == Pow2(k - 1);
    }
  }

  /** Smallest integer not below `x`. */
  function Ceil(x: real): (c: int)
    ensures c as real >= x
    ensures (c - 1) as real < x
  {
    -((-x).Floor)
  }

  /** `np.round(x, decimals=2)`: scale by 100, round to the nearest integer
      with ties going to the even neighbour, scale back. */
  function Round2(x: real): (y: real)
    ensures Abs(y - x) <= 0.005
  {
    var scaled := x * 100.0;
    var f := scaled.Floor;
    var frac := scaled - f as real;
    var n := if frac < 0.5 then f
             else if frac > 0.5 then f + 1
             else if f % 2 == 0 then f else f + 1;
    n as real / 100.0
  }

  /** Rounding yields a whole number of hundredths. */
  lemma Round2IsHundredths(x: real)
    ensures (Round2(x) * 100.0).Floor as real == Round2(x) * 100.0
  {
    var n := (Round2(x) * 100.0).Floor;
    var f := (x * 100.0).Floor;
    assert n == f || n == f + 1;
  }

  /** A value already in whole hundredths is left as it is. */
  lemma Round2KeepsHundredths(x: real)
    requires (x * 100.0).Floor as real == x * 100.0
    ensures Round2(x) == x
  {
  }

  /** Default absolute tolerance of `np.isclose`. */
  const AbsoluteTolerance: real := 0.00000001

  /** Tolerance of `np.isclose(a, b, rtol=1e-4)` around `b`. */
  function Tolerance(b: real): (t: real)
    ensures t > 0.0
  {
    AbsoluteTolerance + 0.0001 * Abs(b)
  }

  /** `np.isclose(a, b, rtol=1e-4)`; not symmetric, `b` is the reference. */
  predicate IsClose(a: real, b: real): (c: bool)
    ensures a == b ==> c
    ensures c ==> b - Tolerance(b) <= a <= b + Tolerance(b)
  {
    Abs(a - b) <= Tolerance(b)
  }

  /** The tolerance is taken relative to the second argument only, so a
      value can be close to a larger one without the larger one being close
      to it. */
  lemma IsCloseIsOneSided()
    ensures IsClose(1.0, 1.00010002)
    ensures !IsClose(1.00010002, 1.0)
  {
    assert Tolerance(1.00010002) == 0.000100010002 + AbsoluteTolerance;
    assert Tolerance(1.0) == 0.0001 + AbsoluteTolerance;
  }

  /** `np.arange(0, stop, step)`: the points `k * step` for
      `k = 0 .. ceil(stop / step) - 1`. */
  function Arange(stop: real, step: real): (r: seq<real>)
    requires step != 0.0
    ensures forall k :: 0 <= k < |r| ==> r[k] == k as real * step
    ensures step > 0.0 ==> forall k :: 0 <= k < |r| ==> r[k] < stop
    ensures step > 0.0 ==> |r| as real * step >= stop
    ensures step < 0.0 ==> forall k :: 0 <= k < |r| ==> r[k] > stop
    ensures step < 0.0 ==> |r| as real * step <= stop
  {
    var q := stop / step;
    var n := if q <= 0.0 then 0 else Ceil(q);
    var points := seq(n, k requires 0 <= k < n => k as real * step);
    ArangeBounds(stop, step, points);
    points
  }

  lemma ArangeBounds(stop: real, step: real, points: seq<real>)
    requires step != 0.0
    requires |points| == if stop / step <= 0.0 then 0 else Ceil(stop / step)
    requires forall k :: 0 <= k < |points| ==> points[k] == k as real * step
    ensures step > 0.0 ==> forall k :: 0 <= k < |points| ==> points[k] < stop
    ensures step > 0.0 ==> |points| as real * step >= stop
    ensures step < 0.0 ==> forall k :: 0 <= k < |points| ==> points[k] > stop
    ensures step < 0.0 ==> |points| as real * step <= stop
  {
    var q := stop / step;
    var n := |points|;
    assert q * step == stop;
    forall k | 0 <= k < n
      ensures step > 0.0 ==> points[k] < stop
      ensures step < 0.0 ==> points[k] > stop
    {
      assert k as real < q;
      if step > 0.0 {
        assert k as real * step < q * step;
      } else {
        assert k as real * step > q * step;
      }
    }
    if step > 0.0 {
      assert n as real * step >= q * step;
    } else if q > 0.0 {
      assert n as real * step <= q * step;
    }
  }

  /** With a positive step the points of `np.arange(0, stop, step)` are
      strictly increasing, lie in `[0, stop)`, and there is at least one
      exactly when `stop` is positive. */
  lemma ArangeIsIncreasingGrid(stop: real, step: real)
    requires step > 0.0
    ensures var r := Arange(stop, step);
      && (forall k :: 0 <= k < |r| ==> 0.0 <= r[k] < stop)
      && (forall j, k :: 0 <= j < k < |r| ==> r[j] < r[k])
      && (stop > 0.0 <==> r != [])
  {
    var r := Arange(stop, step);
    MultiplesGrow(r, step);
    if stop > 0.0 {
      assert |r| as real * step >= stop;
    }
  }

  /** Whole multiples of a positive step, in order, start at 0 and grow. */
  lemma MultiplesGrow(r: seq<real>, step: real)
    requires step > 0.0
    requires forall k :: 0 <= k < |r| ==> r[k] == k as real * step
    ensures forall k :: 0 <= k < |r| ==> 0.0 <= r[k]
    ensures forall j, k :: 0 <= j < k < |r| ==> r[j] < r[k]
  {
    forall k | 0 <= k < |r|
      ensures 0.0 <= r[k]
    {
      StepsGrow(0, k, step);
    }
    forall j, k | 0 <= j < k < |r|
      ensures r[j] < r[k]
    {
      StepsGrow(j, k, step);
    }
  }

  lemma StepsGrow(j: nat, k: nat, step: real)
    requires j <= k && step > 0.0
    ensures j as real * step <= k as real * step
    ensures j < k ==> j as real * step < k as real * step
  {
  }

  /** `np.diff(xs)`: the gaps between consecutive entries. */
  function Diff(xs: seq<real>): (d: seq<real>)
    ensures |d| == if xs == [] then 0 else |xs| - 1
    ensures forall i {:trigger d[i]} :: 0 <= i < |d| ==> d[i] + xs[i] == xs[i + 1]
  {
    if xs == [] then [] else seq(|xs| - 1, i requires 0 <= i < |xs| - 1 => xs[i + 1] - xs[i])
  }
}
