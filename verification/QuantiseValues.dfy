/**
  The values of quantisation, on the components: what the scale and the codes are, which number a row byte is, and that
  the integer scores are the inner products and norms of the recovered vectors.
  */
module QuantiseValues {
  import opened Quantise

  // ---------------------------------------------------------------- the scale and the codes

  /** The floor is two to the power of -126. */
  lemma FloorIs()
    ensures MIN_POSITIVE * (0x4000_0000_0000_0000_0000_0000_0000_0000 as real) == 1.0
    ensures 0x1_0000 * 0x1_0000 * 0x1_0000 * 0x1_0000 * 0x1_0000 * 0x1_0000 * 0x1_0000 * 0x4000 ==
            0x4000_0000_0000_0000_0000_0000_0000_0000
  {
  }

  /** The largest magnitude of the components. */
  predicate PeakIs(v: seq<real>, peak: real) {
    (exists i | 0 <= i < |v| :: v[i] == peak || v[i] == -peak) && forall i | 0 <= i < |v| :: -peak <= v[i] <= peak
  }

  /** The nearest whole number; of two as near the one further from zero. */
  predicate NearestIs(x: real, c: int) {
    if x >= 0.0 then -0.5 <= x - c as real < 0.5 else -0.5 < x - c as real <= 0.5
  }

  lemma RoundIs(x: real)
    ensures NearestIs(x, RoundHalfAway(x))
  {
  }

  lemma PeakUnique(v: seq<real>, peak: real)
    requires PeakIs(v, peak)
    ensures Peak(v, |v|) == peak >= 0.0
  {
    hide Peak;
    PeakBounds(v, |v|);
    var i :| 0 <= i < |v| && (v[i] == peak || v[i] == -peak);
    assert Abs(v[i]) <= Peak(v, |v|);
    if Peak(v, |v|) > 0.0 {
      var j :| 0 <= j < |v| && Abs(v[j]) == Peak(v, |v|);
      assert -peak <= v[j] <= peak;
    }
  }

  lemma {:induction false} PeakOfZeros(v: seq<real>, n: nat)
    requires n <= |v| && forall i | 0 <= i < n :: v[i] == 0.0
    ensures Peak(v, n) == 0.0
    decreases n
  {
    if n > 0 {
      PeakOfZeros(v, n - 1);
    }
  }

  /**
    The scale is 1 for a vector of zeros, and otherwise its peak over 127 or, when that is larger, the floor; every code
    is the whole number nearest to its component over the scale.
    */
  lemma QuantisedIs(v: seq<real>)
    ensures var q := QuantiseVector(v);
            (forall i | 0 <= i < |v| :: NearestIs(v[i] / q.scale, q.codes[i])) &&
            ((forall i | 0 <= i < |v| :: v[i] == 0.0) ==> q.scale == 1.0) &&
            (forall peak | PeakIs(v, peak) && peak > 0.0 ::
               q.scale >= peak / 127.0 && q.scale >= MIN_POSITIVE &&
                 (q.scale == peak / 127.0 || q.scale == MIN_POSITIVE))
  {
    hide Peak, RoundHalfAway, PeakIs, NearestIs;
    var q := QuantiseVector(v);
    forall i | 0 <= i < |v| ensures NearestIs(v[i] / q.scale, q.codes[i]) {
      ClampNeverActs(v, i);
      RoundIs(v[i] / q.scale);
    }
    if forall i | 0 <= i < |v| :: v[i] == 0.0 {
      PeakOfZeros(v, |v|);
    }
    forall peak | PeakIs(v, peak) && peak > 0.0
      ensures q.scale >= peak / 127.0 && q.scale >= MIN_POSITIVE && (q.scale == peak / 127.0 || q.scale == MIN_POSITIVE)
    {
      PeakUnique(v, peak);
    }
  }

  // ---------------------------------------------------------------- the scores

  /** A row byte is the signed number congruent to it. */
  lemma SignedIs(b: RowByte)
    ensures -128 <= Signed(b) <= 127 && Signed(b) % 256 == b
  {
  }

  /** The inner product of the first `n` components. */
  function InnerTo(x: seq<real>, y: seq<real>, n: nat): real
    requires n <= |x| && n <= |y|
  {
    if n == 0 then 0.0 else InnerTo(x, y, n - 1) + x[n - 1] * y[n - 1]
  }

  /** `x` is recovered from these codes and this scale. */
  predicate RecoversTo(codes: seq<int>, scale: real, x: seq<real>) {
    |x| == |codes| && forall i | 0 <= i < |x| :: x[i] == codes[i] as real * scale
  }

  lemma OneProduct(a: int, b: int, s: real, t: real, x: real, y: real)
    requires x == a as real * s && y == b as real * t
    ensures x * y == Scaled((a * b) as real, s, t)
  {
    assert (a * b) as real == a as real * b as real;
    Interchange(a as real, s, b as real, t);
  }

  lemma Interchange(a: real, s: real, b: real, t: real)
    ensures (a * s) * (b * t) == a * b * s * t
  {
    assert (a * s) * (b * t) == ((a * s) * b) * t;
    assert (a * s) * b == a * (s * b) == a * (b * s) == (a * b) * s;
  }

  lemma ScaledSum(p: int, q: int, s: real, t: real)
    ensures Scaled((p + q) as real, s, t) == Scaled(p as real, s, t) + Scaled(q as real, s, t)
  {
    assert (p + q) as real == p as real + q as real;
    Spread3(p as real, q as real, s, t);
  }

  lemma Spread3(p: real, q: real, s: real, t: real)
    ensures (p + q) * s * t == p * s * t + q * s * t
  {
    assert (p + q) * s == p * s + q * s;
  }

  lemma RecoveredFrom(codes: seq<int>, scale: real, x: seq<real>, i: nat)
    requires RecoversTo(codes, scale, x) && i < |codes|
    ensures |x| == |codes| && x[i] == codes[i] as real * scale
  {
  }

  lemma {:induction false} ProductsAreInner(a: seq<int>, s: real, b: seq<int>, t: real, x: seq<real>, y: seq<real>,
                                            n: nat)
    requires RecoversTo(a, s, x) && RecoversTo(b, t, y) && n <= |a| == |x| && n <= |b| == |y|
    ensures Scaled(ProductsTo(a, b, n) as real, s, t) == InnerTo(x, y, n)
    decreases n
  {
    hide Scaled, RecoversTo;
    if n == 0 {
      NothingScaled(s, t);
    } else {
      RecoveredFrom(a, s, x, n - 1);
      RecoveredFrom(b, t, y, n - 1);
      ProductsAreInner(a, s, b, t, x, y, n - 1);
      OneProduct(a[n - 1], b[n - 1], s, t, x[n - 1], y[n - 1]);
      ScaledSum(ProductsTo(a, b, n - 1), a[n - 1] * b[n - 1], s, t);
    }
  }

  lemma NothingScaled(s: real, t: real)
    ensures Scaled(0 as real, s, t) == 0.0
  {
  }

  lemma {:induction false} DotIsProducts(query: seq<Code>, row: seq<RowByte>, codes: seq<int>, n: nat)
    requires n <= |query| && n <= |row| == |codes| && forall i | 0 <= i < |row| :: codes[i] == Signed(row[i])
    ensures DotTo(query, row, n) == ProductsTo(query, codes, n)
    decreases n
  {
    if n > 0 {
      DotIsProducts(query, row, codes, n - 1);
    }
  }

  /** The bytes of a row hold these codes, modulo 256. */
  predicate Holds(row: seq<RowByte>, codes: seq<int>) {
    |row| == |codes| && forall i | 0 <= i < |row| :: -128 <= codes[i] <= 127 && codes[i] % 256 == row[i]
  }

  lemma HoldsIs(row: seq<RowByte>, codes: seq<int>)
    requires Holds(row, codes)
    ensures forall i | 0 <= i < |row| :: codes[i] == Signed(row[i])
  {
  }

  /**
    The integer dot product of a query and a row's bytes, times both scales, is the inner product of
    what they recover to.
    */
  lemma DotIsInner(query: seq<Code>, s: real, row: seq<RowByte>, codes: seq<int>, t: real, x: seq<real>, y: seq<real>)
    requires |query| == |row| && Holds(row, codes) && RecoversTo(query, s, x) && RecoversTo(codes, t, y)
    ensures DotTo(query, row, |query|) as real * s * t == InnerTo(x, y, |x|)
    ensures ScoreOf(query, s, codes, t) == InnerTo(x, y, |x|)
  {
    hide Holds, RecoversTo, DotTo, ProductsTo, InnerTo;
    HoldsIs(row, codes);
    Lengths(query, s, row, codes, t, x, y);
    DotIsProducts(query, row, codes, |query|);
    ProductsAreInner(query, s, codes, t, x, y, |query|);
  }

  lemma Lengths(query: seq<Code>, s: real, row: seq<RowByte>, codes: seq<int>, t: real, x: seq<real>, y: seq<real>)
    requires |query| == |row| && Holds(row, codes) && RecoversTo(query, s, x) && RecoversTo(codes, t, y)
    ensures |x| == |y| == |codes| == |query| == |row|
  {
  }

  /** The stored norm is the length of the recovered vector. */
  lemma NormIsLength(codes: seq<int>, scale: real, x: seq<real>, sqrt: real -> real)
    requires RecoversTo(codes, scale, x) && scale > 0.0 && IsSqrt(sqrt)
    ensures Norm(codes, scale, sqrt) >= 0.0
    ensures Norm(codes, scale, sqrt) * Norm(codes, scale, sqrt) == InnerTo(x, x, |x|)
  {
    hide SquaresTo, ProductsTo, InnerTo;
    var n := |codes|;
    SelfProducts(codes, n);
    ProductsAreInner(codes, scale, codes, scale, x, x, n);
    RootIs(SquaresTo(codes, n), sqrt);
    var r := sqrt(SquaresTo(codes, n) as real);
    NotNegative(r, scale);
    RegroupReal(r, scale);
    assert SquaresTo(codes, n) as real * scale * scale == SquaresTo(codes, n) as real * (scale * scale);
  }

  lemma NotNegative(a: real, b: real)
    requires a >= 0.0 && b >= 0.0
    ensures a * b >= 0.0
  {
  }
}
