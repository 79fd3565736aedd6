/**
  Eight-bit quantisation of a dense vector: one positive scale and one code in -127..127 per
  component.  Components and scales are real numbers; codes, bytes and accumulators are the
  machine integers of the engine.
  */
module Quantise {
  import opened Common

  newtype I32 = x: int | -0x8000_0000 <= x < 0x8000_0000

  newtype I64 = x: int | -0x8000_0000_0000_0000 <= x < 0x8000_0000_0000_0000

  /** A code as the engine writes it; -128 is never produced. */
  type Code = c: int | -127 <= c <= 127

  /** A byte of a row on disk. */
  type RowByte = b: int | 0 <= b < 256

  datatype Quantised = Quantised(codes: seq<Code>, scale: real)

  /** The smallest positive normal `f32`, two to the power of -126. */
  const MIN_POSITIVE: real := 1.0 / 85070591730234615865843651857942052864.0

  const MAX_CODE: real := 127.0

  /** `i32::MAX / (127 * 128)`, rounded down. */
  const MAX_DIM: nat := 0x7FFF_FFFF / (127 * 128)

  function Abs(x: real): real {
    if x >= 0.0 then x else -x
  }

  function Greater(x: real, y: real): real {
    if x >= y then x else y
  }

  /** The largest magnitude among the first `n` components. */
  function Peak(v: seq<real>, n: nat): real
    requires n <= |v|
  {
    if n == 0 then 0.0 else Greater(Peak(v, n - 1), Abs(v[n - 1]))
  }

  function ScaleOf(v: seq<real>): real {
    var peak := Peak(v, |v|);
    if peak > 0.0 then Greater(peak / MAX_CODE, MIN_POSITIVE) else 1.0
  }

  /** `f32::round`: halves go away from zero. */
  function RoundHalfAway(x: real): int {
    if x >= 0.0 then (x + 0.5).Floor else -((-x + 0.5).Floor)
  }

  function Clamp(n: int): Code {
    if n < -127 then -127 else if n > 127 then 127 else n
  }

  function CodeOf(x: real, scale: real): Code
    requires scale != 0.0
  {
    Clamp(RoundHalfAway(x / scale))
  }

  function QuantiseVector(v: seq<real>): (q: Quantised)
    ensures |q.codes| == |v| && q.scale > 0.0
  {
    ScalePositive(v);
    var scale := ScaleOf(v);
    Quantised(seq(|v|, i requires 0 <= i < |v| => CodeOf(v[i], scale)), scale)
  }

  function Recover(q: Quantised): (v: seq<real>)
    ensures |v| == |q.codes| && forall i | 0 <= i < |v| :: v[i] == q.codes[i] as real * q.scale
  {
    seq(|q.codes|, i requires 0 <= i < |q.codes| => q.codes[i] as real * q.scale)
  }

  // ---------------------------------------------------------------- the scale

  lemma MinPositive()
    ensures 0.0 < MIN_POSITIVE < 1.0
  {
  }

  lemma ScalePositive(v: seq<real>)
    ensures ScaleOf(v) > 0.0 && ScaleOf(v) >= MIN_POSITIVE
  {
    MinPositive();
  }

  lemma {:induction false} PeakBounds(v: seq<real>, n: nat)
    requires n <= |v|
    ensures Peak(v, n) >= 0.0
    ensures forall i | 0 <= i < n :: Abs(v[i]) <= Peak(v, n)
    ensures Peak(v, n) > 0.0 ==> exists i | 0 <= i < n :: Abs(v[i]) == Peak(v, n)
    decreases n
  {
    if n > 0 {
      PeakBounds(v, n - 1);
      if Peak(v, n - 1) >= Abs(v[n - 1]) && Peak(v, n) > 0.0 {
        var i :| 0 <= i < n - 1 && Abs(v[i]) == Peak(v, n - 1);
        assert Abs(v[i]) == Peak(v, n);
      } else {
        assert Abs(v[n - 1]) >= 0.0;
      }
    }
  }

  // ---------------------------------------------------------------- rounding

  /** Rounding moves a number by at most one half. */
  lemma RoundNear(x: real)
    ensures -0.5 <= x - RoundHalfAway(x) as real <= 0.5
    ensures -127.0 <= x <= 127.0 ==> -127 <= RoundHalfAway(x) <= 127
  {
  }

  lemma RoundInteger(n: int)
    ensures RoundHalfAway(n as real) == n
  {
  }

  /** Halves go away from zero, on both sides. */
  lemma RoundHalves(n: int)
    requires n >= 0
    ensures RoundHalfAway(n as real + 0.5) == n + 1 && RoundHalfAway(-(n as real) - 0.5) == -n - 1
  {
  }

  lemma DivideMultiply(x: real, s: real)
    requires s > 0.0
    ensures x / s * s == x
  {
  }

  lemma ProductSign(x: real, s: real)
    requires s > 0.0
    ensures x > 0.0 ==> x * s > 0.0
    ensures x == 0.0 ==> x * s == 0.0
  {
  }

  lemma MulOrder(a: real, b: real, s: real)
    requires s > 0.0
    ensures a <= b <==> a * s <= b * s
  {
    ProductSign(b - a, s);
    ProductSign(a - b, s);
    assert (b - a) * s == b * s - a * s && (a - b) * s == a * s - b * s;
  }

  lemma ScaledBound(x: real, s: real, bound: real)
    requires s > 0.0 && Abs(x) <= bound * s
    ensures -bound <= x / s <= bound
  {
    DivideMultiply(x, s);
    MulOrder(x / s, bound, s);
    MulOrder(-bound, x / s, s);
  }

  lemma ScaledHalf(x: real, s: real, c: real)
    requires s > 0.0 && -0.5 <= x / s - c <= 0.5
    ensures Abs(x - c * s) <= 0.5 * s
  {
    var e := x / s - c;
    DivideMultiply(x, s);
    assert e * s == x / s * s - c * s;
    MulOrder(e, 0.5, s);
    MulOrder(-0.5, e, s);
  }

  lemma ComponentInScale(v: seq<real>, i: nat)
    requires i < |v|
    ensures Abs(v[i]) <= 127.0 * ScaleOf(v)
  {
    hide Peak;
    PeakBounds(v, |v|);
    MinPositive();
    var peak := Peak(v, |v|);
    if peak > 0.0 {
      DivideMultiply(peak, 127.0);
    }
  }

  /** The quotient of every component already rounds into range, so the clamp never acts. */
  lemma ClampNeverActs(v: seq<real>, i: nat)
    requires i < |v|
    ensures -127 <= RoundHalfAway(v[i] / ScaleOf(v)) <= 127
    ensures QuantiseVector(v).codes[i] == RoundHalfAway(v[i] / ScaleOf(v))
  {
    hide ScaleOf, RoundHalfAway;
    ComponentInScale(v, i);
    ScalePositive(v);
    ScaledBound(v[i], ScaleOf(v), 127.0);
    RoundNear(v[i] / ScaleOf(v));
  }

  /** Every component is recovered within half a step of the scale. */
  lemma RecoversWithinHalfAStep(v: seq<real>)
    ensures |Recover(QuantiseVector(v))| == |v|
    ensures forall i | 0 <= i < |v| :: Abs(v[i] - Recover(QuantiseVector(v))[i]) <= 0.5 * ScaleOf(v)
  {
    hide ScaleOf, RoundHalfAway;
    var q := QuantiseVector(v);
    forall i | 0 <= i < |v| ensures Abs(v[i] - Recover(q)[i]) <= 0.5 * ScaleOf(v) {
      ClampNeverActs(v, i);
      ScalePositive(v);
      RoundNear(v[i] / ScaleOf(v));
      ScaledHalf(v[i], ScaleOf(v), q.codes[i] as real);
    }
  }

  // ---------------------------------------------------------------- quantising again

  predicate AllZero(codes: seq<Code>) {
    forall i | 0 <= i < |codes| :: codes[i] == 0
  }

  /** Without the floor, the peak component takes the code 127 or -127. */
  lemma PeakCode(v: seq<real>)
    requires Peak(v, |v|) > 0.0 && ScaleOf(v) == Peak(v, |v|) / MAX_CODE
    ensures exists i | 0 <= i < |v| :: QuantiseVector(v).codes[i] == 127 || QuantiseVector(v).codes[i] == -127
  {
    hide Peak, RoundHalfAway;
    PeakBounds(v, |v|);
    var peak := Peak(v, |v|);
    var i :| 0 <= i < |v| && Abs(v[i]) == peak;
    ClampNeverActs(v, i);
    PeakQuotient(peak);
    RoundInteger(127);
    RoundInteger(-127);
    if v[i] < 0.0 {
      NegativeQuotient(peak, peak / MAX_CODE);
    }
    assert QuantiseVector(v).codes[i] == 127 || QuantiseVector(v).codes[i] == -127;
  }

  lemma PeakQuotient(peak: real)
    requires peak > 0.0
    ensures peak / MAX_CODE > 0.0 && peak / (peak / MAX_CODE) == 127.0
  {
    var s := peak / 127.0;
    assert s * 127.0 == peak;
    assert 127.0 * s / s == 127.0;
  }

  lemma NegativeQuotient(x: real, s: real)
    requires s > 0.0
    ensures (-x) / s == -(x / s)
  {
  }

  lemma CodeTimesScale(c: Code, s: real)
    requires s > 0.0
    ensures (c as real * s) / s == c as real && Abs(c as real * s) == Abs(c as real) * s
  {
    if c < 0 {
      assert (-(c as real)) * s > 0.0;
    } else {
      assert c as real * s >= 0.0;
    }
  }

  lemma RecoveredSize(c: Code, s: real, x: real)
    requires s > 0.0 && x == c as real * s
    ensures 0.0 <= Abs(x) <= 127.0 * s
    ensures c == 0 <==> Abs(x) == 0.0
    ensures c == 127 || c == -127 ==> Abs(x) == 127.0 * s
  {
    hide Abs;
    AbsNotNegative(x);
    CodeTimesScale(c, s);
    CodeSize(c);
    var size := Abs(c as real);
    MulOrder(size, 127.0, s);
    if c != 0 {
      MulOrder(1.0, size, s);
    }
  }

  lemma AbsNotNegative(x: real)
    ensures Abs(x) >= 0.0
  {
  }

  lemma CodeSize(c: Code)
    ensures Abs(c as real) <= 127.0 && (c != 0 ==> Abs(c as real) >= 1.0) && (c == 0 ==> Abs(c as real) == 0.0)
    ensures c == 127 || c == -127 ==> Abs(c as real) == 127.0
  {
  }

  /** The recovered codes determine the peak of the recovered vector. */
  lemma RecoveredPeak(q: Quantised)
    requires q.scale > 0.0
    ensures Peak(Recover(q), |q.codes|) <= 127.0 * q.scale
    ensures AllZero(q.codes) <==> Peak(Recover(q), |q.codes|) == 0.0
    ensures (exists i | 0 <= i < |q.codes| :: q.codes[i] == 127 || q.codes[i] == -127) ==>
            Peak(Recover(q), |q.codes|) == 127.0 * q.scale
  {
    hide Peak, Abs, Recover;
    var v := Recover(q);
    PeakBounds(v, |v|);
    var top := 127.0 * q.scale;
    forall i | 0 <= i < |v|
      ensures 0.0 <= Abs(v[i]) <= top && (q.codes[i] == 0 <==> Abs(v[i]) == 0.0)
      ensures q.codes[i] == 127 || q.codes[i] == -127 ==> Abs(v[i]) == top
    {
      RecoveredAt(q, i);
    }
  }

  lemma RecoveredAt(q: Quantised, i: nat)
    requires q.scale > 0.0 && i < |q.codes|
    ensures var x := Abs(Recover(q)[i]);
            0.0 <= x <= 127.0 * q.scale && (q.codes[i] == 0 <==> x == 0.0) &&
            (q.codes[i] == 127 || q.codes[i] == -127 ==> x == 127.0 * q.scale)
  {
    hide *;
    RecoveredSize(q.codes[i], q.scale, Recover(q)[i]);
  }

  /** The scale of a vector is floored, or its codes reach full range. */
  lemma ScaleCases(v: seq<real>)
    ensures var q := QuantiseVector(v);
            (Peak(v, |v|) == 0.0 && q.scale == 1.0 && AllZero(q.codes)) ||
            (Peak(v, |v|) > 0.0 && q.scale == MIN_POSITIVE && Peak(v, |v|) / MAX_CODE <= MIN_POSITIVE) ||
            (exists i | 0 <= i < |v| :: q.codes[i] == 127 || q.codes[i] == -127)
  {
    hide Peak, RoundHalfAway;
    PeakBounds(v, |v|);
    if Peak(v, |v|) > 0.0 {
      if Peak(v, |v|) / MAX_CODE >= MIN_POSITIVE {
        PeakCode(v);
      }
    } else {
      forall i | 0 <= i < |v| ensures QuantiseVector(v).codes[i] == 0 {
        assert Abs(v[i]) <= 0.0;
        ClampNeverActs(v, i);
        RoundInteger(0);
      }
    }
  }

  lemma SameScale(q: Quantised)
    requires q.scale > 0.0
    requires (q.scale == MIN_POSITIVE && !AllZero(q.codes)) ||
             (q.scale >= MIN_POSITIVE && exists i | 0 <= i < |q.codes| :: q.codes[i] == 127 || q.codes[i] == -127) ||
             (q.scale == 1.0 && AllZero(q.codes))
    ensures ScaleOf(Recover(q)) == q.scale
  {
    hide Peak;
    RecoveredPeak(q);
    PeakBounds(Recover(q), |q.codes|);
    var peak := Peak(Recover(q), |q.codes|);
    DivideMultiply(peak, 127.0);
  }

  /**
    Quantising a recovered vector gives the same codes, and the same scale unless a vector that was
    not zero got all-zero codes (its scale is then the floor, and the zero vector's scale is one).
    */
  lemma QuantisingAgain(v: seq<real>)
    ensures var q := QuantiseVector(v);
            QuantiseVector(Recover(q)).codes == q.codes &&
            (QuantiseVector(Recover(q)).scale == q.scale <==> !(AllZero(q.codes) && Peak(v, |v|) > 0.0)) &&
            (AllZero(q.codes) && Peak(v, |v|) > 0.0 ==> q.scale == MIN_POSITIVE)
  {
    hide Peak, ScaleOf, RoundHalfAway;
    var q := QuantiseVector(v);
    MinPositive();
    ScalePositive(v);
    ScaleCases(v);
    RecoveredPeak(q);
    if AllZero(q.codes) && Peak(v, |v|) > 0.0 {
      ZeroAgain(q);
    } else {
      SameScale(q);
      CodesAgain(q);
    }
  }

  lemma ZeroAgain(q: Quantised)
    requires q.scale > 0.0 && AllZero(q.codes)
    ensures QuantiseVector(Recover(q)) == Quantised(q.codes, 1.0)
  {
    hide Peak, RoundHalfAway;
    RecoveredPeak(q);
    var v := Recover(q);
    forall i | 0 <= i < |v| ensures QuantiseVector(v).codes[i] == 0 {
      ClampNeverActs(v, i);
      RoundInteger(0);
      assert v[i] == 0.0 && 0.0 / 1.0 == 0.0;
    }
    assert QuantiseVector(v).codes == q.codes;
  }

  lemma CodesAgain(q: Quantised)
    requires q.scale > 0.0 && ScaleOf(Recover(q)) == q.scale
    ensures QuantiseVector(Recover(q)).codes == q.codes
  {
    hide ScaleOf, RoundHalfAway;
    var v := Recover(q);
    forall i | 0 <= i < |v| ensures QuantiseVector(v).codes[i] == q.codes[i] {
      ClampNeverActs(v, i);
      CodeTimesScale(q.codes[i], q.scale);
      RoundInteger(q.codes[i]);
      assert v[i] / ScaleOf(v) == q.codes[i] as real;
    }
  }

  // ---------------------------------------------------------------- the integer dot product

  /** A row byte read as a signed code, -128 included. */
  function Signed(b: RowByte): (r: int)
    ensures -128 <= r <= 127
  {
    if b < 128 then b else b - 256
  }

  function DotTo(query: seq<Code>, row: seq<RowByte>, n: nat): int
    requires n <= |query| && n <= |row|
  {
    if n == 0 then 0 else DotTo(query, row, n - 1) + query[n - 1] * Signed(row[n - 1])
  }

  lemma ProductBound(x: int, y: int)
    requires -127 <= x <= 127 && -128 <= y <= 127
    ensures -127 * 128 <= x * y <= 127 * 128
  {
  }

  /** The accumulator loop: exact, in 32 bits, for every dimension up to `MAX_DIM`. */
  method Dot(query: seq<Code>, row: seq<RowByte>) returns (accumulator: I32)
    requires |query| == |row| <= MAX_DIM
    ensures accumulator as int == DotTo(query, row, |query|)
  {
    accumulator := 0;
    for i := 0 to |query|
      invariant accumulator as int == DotTo(query, row, i)
      invariant -(127 * 128) * i <= accumulator as int <= 127 * 128 * i
    {
      ProductBound(query[i], Signed(row[i]));
      accumulator := accumulator + (query[i] as I32) * (Signed(row[i]) as I32);
    }
  }

  /** Every partial sum of the loop fits. */
  lemma {:induction false} PartialSumsFit(query: seq<Code>, row: seq<RowByte>, n: nat)
    requires n <= |query| && n <= |row|
    ensures -(127 * 128) * n <= DotTo(query, row, n) <= 127 * 128 * n
    ensures n <= MAX_DIM ==> -0x8000_0000 <= DotTo(query, row, n) < 0x8000_0000
    decreases n
  {
    if n > 0 {
      PartialSumsFit(query, row, n - 1);
      ProductBound(query[n - 1], Signed(row[n - 1]));
    }
  }

  lemma {:induction false} ExtremeDot(query: seq<Code>, row: seq<RowByte>, n: nat)
    requires n <= |query| && n <= |row| && forall i | 0 <= i < n :: query[i] == -127 && row[i] == 0x80
    ensures DotTo(query, row, n) == 127 * 128 * n
    decreases n
  {
    if n > 0 {
      ExtremeDot(query, row, n - 1);
    }
  }

  /** The bound on the dimension is exact: one more component, and a sum need not fit. */
  lemma OneMoreDimensionOverflows()
    ensures DotTo(Repeat(-127, MAX_DIM + 1), Repeat(0x80, MAX_DIM + 1), MAX_DIM + 1) >= 0x8000_0000
  {
    ExtremeDot(Repeat(-127, MAX_DIM + 1), Repeat(0x80, MAX_DIM + 1), MAX_DIM + 1);
  }

  function SquaresTo(codes: seq<int>, n: nat): nat
    requires n <= |codes|
  {
    if n == 0 then 0 else SquaresTo(codes, n - 1) + codes[n - 1] * codes[n - 1]
  }

  lemma SquareBound(x: int)
    requires -128 <= x <= 127
    ensures 0 <= x * x <= 16384
  {
  }

  /** The sum of squares of a row, exact in 64 bits. */
  method SumOfSquares(codes: seq<int>) returns (sum: I64)
    requires |codes| <= MAX_DIM && forall i | 0 <= i < |codes| :: -128 <= codes[i] <= 127
    ensures sum as int == SquaresTo(codes, |codes|)
  {
    sum := 0;
    for i := 0 to |codes|
      invariant sum as int == SquaresTo(codes, i) <= 16384 * i
    {
      SquareBound(codes[i]);
      sum := sum + (codes[i] as I64) * (codes[i] as I64);
    }
  }

  // ---------------------------------------------------------------- cosine

  function ProductsTo(a: seq<int>, b: seq<int>, n: nat): int
    requires n <= |a| && n <= |b|
  {
    if n == 0 then 0 else ProductsTo(a, b, n - 1) + a[n - 1] * b[n - 1]
  }

  function CombinationTo(a: seq<int>, b: seq<int>, u: int, w: int, n: nat): int
    requires n <= |a| && n <= |b|
  {
    if n == 0 then 0
    else CombinationTo(a, b, u, w, n - 1) + (u * b[n - 1] - w * a[n - 1]) * (u * b[n - 1] - w * a[n - 1])
  }

  lemma SquareOfDifference(u: int, w: int, x: int, y: int)
    ensures (u * y - w * x) * (u * y - w * x) == (u * u) * (y * y) - (2 * (u * w)) * (x * y) + (w * w) * (x * x)
    ensures (u * y - w * x) * (u * y - w * x) >= 0
  {
    SquareMinus(u * y, w * x);
    Regroup(u, y);
    Regroup(w, x);
    Regroup4(u, y, w, x);
    Twice(u * w, x * y);
  }

  lemma SquareMinus(p: int, q: int)
    ensures (p - q) * (p - q) == p * p - 2 * (p * q) + q * q && (p - q) * (p - q) >= 0
  {
    var d := p - q;
    Spread(d, p, q);
    Spread(p, p, q);
    Spread(q, p, q);
    Swap(p, q);
    Swap(d, p);
    Swap(d, q);
    SquareNotNegative(d);
  }

  lemma Spread(x: int, p: int, q: int)
    ensures x * (p - q) == x * p - x * q
  {
  }

  lemma Swap(p: int, q: int)
    ensures p * q == q * p
  {
  }

  lemma SquareNotNegative(d: int)
    ensures d * d >= 0
  {
  }

  lemma Twice(p: int, q: int)
    ensures (2 * p) * q == 2 * (p * q)
  {
  }

  lemma Regroup(u: int, y: int)
    ensures (u * y) * (u * y) == (u * u) * (y * y)
  {
    assert (u * y) * (u * y) == u * (y * (u * y)) == u * (u * (y * y));
  }

  lemma Regroup4(u: int, y: int, w: int, x: int)
    ensures (u * y) * (w * x) == (u * w) * (x * y)
  {
    assert (u * y) * (w * x) == u * (y * (w * x)) == u * (w * (x * y));
  }

  lemma ExpandStep(k: int, s: int, d: int)
    ensures k * (s + d) == k * s + k * d
  {
  }

  lemma {:induction false} CombinationIs(a: seq<int>, b: seq<int>, u: int, w: int, n: nat)
    requires n <= |a| && n <= |b|
    ensures CombinationTo(a, b, u, w, n) ==
            (u * u) * SquaresTo(b, n) - (2 * (u * w)) * ProductsTo(a, b, n) + (w * w) * SquaresTo(a, n)
    ensures CombinationTo(a, b, u, w, n) >= 0
    decreases n
  {
    if n > 0 {
      var x, y := a[n - 1], b[n - 1];
      CombinationIs(a, b, u, w, n - 1);
      SquareOfDifference(u, w, x, y);
      ExpandStep(u * u, SquaresTo(b, n - 1), y * y);
      ExpandStep(2 * (u * w), ProductsTo(a, b, n - 1), x * y);
      ExpandStep(w * w, SquaresTo(a, n - 1), x * x);
    }
  }

  lemma {:induction false} ZeroSquares(a: seq<int>, b: seq<int>, n: nat)
    requires n <= |a| && n <= |b| && SquaresTo(a, n) == 0
    ensures ProductsTo(a, b, n) == 0
    decreases n
  {
    if n > 0 {
      var x := a[n - 1];
      SquareZero(x);
      ZeroSquares(a, b, n - 1);
    }
  }

  lemma SquareZero(x: int)
    ensures x * x >= 0 && (x * x == 0 ==> x == 0)
  {
  }

  lemma FactorOut(s: int, t: int, p: int)
    ensures (s * s) * t - (2 * (s * p)) * p + (p * p) * s == s * (s * t - p * p)
  {
    assert (s * s) * t == s * (s * t);
    assert (2 * (s * p)) * p == 2 * (s * (p * p)) by { Assoc(s, p); }
    assert (p * p) * s == s * (p * p);
    assert s * (s * t - p * p) == s * (s * t) - s * (p * p);
  }

  lemma Assoc(s: int, p: int)
    ensures (2 * (s * p)) * p == 2 * (s * (p * p))
  {
    assert (s * p) * p == s * (p * p);
  }

  lemma PositiveFactor(s: int, x: int)
    requires s > 0 && s * x >= 0
    ensures x >= 0
  {
  }

  /** Cauchy-Schwarz on integer codes. */
  lemma CauchySchwarz(a: seq<int>, b: seq<int>, n: nat)
    requires n <= |a| && n <= |b|
    ensures ProductsTo(a, b, n) * ProductsTo(a, b, n) <= SquaresTo(a, n) * SquaresTo(b, n)
  {
    hide SquaresTo, ProductsTo, CombinationTo;
    var p, s, t := ProductsTo(a, b, n), SquaresTo(a, n), SquaresTo(b, n);
    CombinationIs(a, b, s, p, n);
    FactorOut(s, t, p);
    if s > 0 {
      PositiveFactor(s, s * t - p * p);
    } else {
      ZeroSquares(a, b, n);
    }
  }

  /** A square root over the reals. */
  ghost predicate IsSqrt(sqrt: real -> real) {
    forall x | x >= 0.0 :: sqrt(x) >= 0.0 && sqrt(x) * sqrt(x) == x
  }

  /** The norm a row stores, from its codes, its scale and a square root. */
  function Norm(codes: seq<int>, scale: real, sqrt: real -> real): real {
    sqrt(SquaresTo(codes, |codes|) as real) * scale
  }

  /** The score a dot product gives: the integer sum times the two scales. */
  function ScoreOf(query: seq<int>, queryScale: real, row: seq<int>, rowScale: real): real
    requires |query| == |row|
  {
    Scaled(ProductsTo(query, row, |query|) as real, queryScale, rowScale)
  }

  function Scaled(p: real, x: real, y: real): real {
    p * x * y
  }

  lemma SquareGrows(y: real, x: real)
    requires 0.0 <= y < x
    ensures y * y < x * x
  {
    ProductSign(x - y, x + y);
    DifferenceOfSquares(x, y);
  }

  lemma DifferenceOfSquares(x: real, y: real)
    ensures (x - y) * (x + y) == x * x - y * y
  {
    assert (x - y) * (x + y) == (x - y) * x + (x - y) * y;
    assert (x - y) * x == x * x - y * x && (x - y) * y == x * y - y * y;
  }

  lemma RootBound(x: real, y: real)
    requires y >= 0.0 && x * x <= y * y
    ensures Abs(x) <= y
  {
    if x > y {
      SquareGrows(y, x);
    }
    if -x > y {
      SquareGrows(y, -x);
      assert (-x) * (-x) == x * x;
    }
  }

  lemma RootProduct(p: int, s: nat, t: nat, r: real, q: real)
    requires p * p <= s * t && r >= 0.0 && q >= 0.0 && r * r == s as real && q * q == t as real
    ensures Abs(p as real) <= r * q
  {
    assert (r * q) * (r * q) == (r * r) * (q * q) by { RegroupReal(r, q); }
    assert (p * p) as real == p as real * p as real && (s * t) as real == s as real * t as real;
    assert r * q >= 0.0;
    RootBound(p as real, r * q);
  }

  lemma RegroupReal(r: real, q: real)
    ensures (r * q) * (r * q) == (r * r) * (q * q)
  {
    assert (r * q) * (r * q) == r * (q * (r * q)) == r * (r * (q * q));
  }

  lemma ScaleBoth(p: real, r: real, q: real, x: real, y: real, rx: real, qy: real)
    requires x > 0.0 && y > 0.0 && Abs(p) <= r * q && rx == r * x && qy == q * y
    ensures Abs(Scaled(p, x, y)) <= rx * qy
  {
    var m := x * y;
    assert m > 0.0;
    assert p * x * y == p * m && (r * x) * (q * y) == (r * q) * m by { RegroupReal4(r, q, x, y); }
    assert (r * q - Abs(p)) * m >= 0.0;
    if p >= 0.0 {
      assert p * m >= 0.0;
    } else {
      assert (-p) * m > 0.0;
    }
  }

  lemma RegroupReal4(r: real, q: real, x: real, y: real)
    ensures (r * x) * (q * y) == (r * q) * (x * y)
  {
    assert (r * x) * (q * y) == r * (x * (q * y)) == r * (q * (x * y));
  }

  lemma RootIs(s: nat, sqrt: real -> real)
    requires IsSqrt(sqrt)
    ensures sqrt(s as real) >= 0.0 && sqrt(s as real) * sqrt(s as real) == s as real
  {
  }

  lemma ScoreIs(query: seq<int>, queryScale: real, row: seq<int>, rowScale: real, sqrt: real -> real)
    requires |query| == |row|
    ensures ScoreOf(query, queryScale, row, rowScale) ==
            Scaled(ProductsTo(query, row, |query|) as real, queryScale, rowScale)
    ensures Norm(query, queryScale, sqrt) == sqrt(SquaresTo(query, |query|) as real) * queryScale
    ensures Norm(row, rowScale, sqrt) == sqrt(SquaresTo(row, |query|) as real) * rowScale
  {
  }

  /** The score of two rows never exceeds the product of their norms: their cosine is between -1 and 1. */
  lemma CosineBound(query: seq<int>, queryScale: real, row: seq<int>, rowScale: real, sqrt: real -> real)
    requires |query| == |row| && queryScale > 0.0 && rowScale > 0.0 && IsSqrt(sqrt)
    ensures var norms := Norm(query, queryScale, sqrt) * Norm(row, rowScale, sqrt);
            Abs(ScoreOf(query, queryScale, row, rowScale)) <= norms &&
            (norms > 0.0 ==> -1.0 <= ScoreOf(query, queryScale, row, rowScale) / norms <= 1.0)
  {
    hide *;
    var n := |query|;
    var p, s, t := ProductsTo(query, row, n), SquaresTo(query, n), SquaresTo(row, n);
    CauchySchwarz(query, row, n);
    var r, q := sqrt(s as real), sqrt(t as real);
    RootIs(s, sqrt);
    RootIs(t, sqrt);
    RootProduct(p, s, t, r, q);
    ScoreIs(query, queryScale, row, rowScale, sqrt);
    ScaleBoth(p as real, r, q, queryScale, rowScale, Norm(query, queryScale, sqrt), Norm(row, rowScale, sqrt));
    var norms := Norm(query, queryScale, sqrt) * Norm(row, rowScale, sqrt);
    if norms > 0.0 {
      UnitQuotient(ScoreOf(query, queryScale, row, rowScale), norms);
    }
  }

  lemma UnitQuotient(x: real, y: real)
    requires y > 0.0 && Abs(x) <= y
    ensures -1.0 <= x / y <= 1.0
  {
    ScaledBound(x, y, 1.0);
  }

  lemma {:induction false} SelfProducts(a: seq<int>, n: nat)
    requires n <= |a|
    ensures ProductsTo(a, a, n) == SquaresTo(a, n)
    decreases n
  {
    if n > 0 {
      SelfProducts(a, n - 1);
    }
  }

  /** A row that is not zero has cosine one with itself. */
  lemma CosineWithItself(row: seq<int>, scale: real, sqrt: real -> real)
    requires scale > 0.0 && IsSqrt(sqrt) && SquaresTo(row, |row|) > 0
    ensures var norm := Norm(row, scale, sqrt);
            norm * norm > 0.0 && ScoreOf(row, scale, row, scale) / (norm * norm) == 1.0
  {
    hide SquaresTo, ProductsTo;
    SelfProducts(row, |row|);
    var s := SquaresTo(row, |row|) as real;
    var r := sqrt(s);
    RegroupReal(r, scale);
    assert (r * scale) * (r * scale) == s * (scale * scale);
    assert scale * scale > 0.0 && s * (scale * scale) > 0.0;
    assert s * scale * scale == s * (scale * scale);
  }
}
