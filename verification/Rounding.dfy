/** Which over-long integers are refused whatever the rounding: none of up to 308 digits, all of 310 or more, and
    those of 309 digits outside of a narrow band. */
module Rounding {
  import opened Bytes
  import opened Json
  import opened Doubles
  import opened Scanner

  const M: nat := 0x2_0000_0000_0000

  /** After `k` digits: off by at most k parts in 2^49. */
  predicate Close(d: nat, n: nat, k: nat) {
    n * M <= d * M + n * k && d * M <= n * M + n * k
  }

  lemma CloseCast(d: nat, n: nat, k: nat)
    requires Near(d, n) && k >= 1
    ensures Close(d, n, k)
  {
    assert n * k >= n;
  }

  /** One digit more adds one part. */
  lemma CloseStep(d: nat, n: nat, k: nat, c: nat, e: nat)
    requires Close(d, n, k) && k <= M && Near(e, d * 10 + c)
    ensures Close(e, n * 10 + c, k + 1)
  {
    var x, m := d * 10 + c, n * 10 + c;
    CloseDigit(d, n, k, c);
    CloseRound(x, m, k, e);
  }

  lemma CloseDigit(d: nat, n: nat, k: nat, c: nat)
    requires Close(d, n, k)
    ensures Close(d * 10 + c, n * 10 + c, k)
  {
    assert (n * 10 + c) * k == n * k * 10 + c * k;
    assert c * k >= 0;
  }

  lemma CloseRound(x: nat, m: nat, k: nat, e: nat)
    requires Close(x, m, k) && k <= M && Near(e, x)
    ensures Close(e, m, k + 1)
  {
    assert m * k <= m * M by { Monotone(m, k, M); }
    assert m * (k + 1) == m * k + m;
  }

  lemma Monotone(m: nat, a: nat, b: nat)
    requires a <= b
    ensures m * a <= m * b
  {
  }

  // ---- The accumulated double ----

  lemma {:induction false} DoubleClose(a: Arithmetic, minus: bool, ds: Text)
    requires AllDigits(ds) && 0 < |ds| <= 310 && !IntegerTooBig(a, minus, ds)
    ensures Close(DoubleOf(a, minus, ds), Numeral(ds), |ds|)
    decreases |ds|
  {
    hide Close, Near, ReachesLimit;
    if FitsInteger(minus, Numeral(ds)) {
      hide Numeral, DoubleOf;
      DoubleFits(a, minus, ds);
      CloseCast(DoubleOf(a, minus, ds), Numeral(ds), |ds|);
    } else {
      var init, c := ds[..|ds| - 1], ds[|ds| - 1] - ZERO;
      assert init != [] by {
        if init == [] {
          OneDigitFits(minus, ds);
        }
      }
      DoubleClose(a, minus, init);
      assert Near((a.step)(DoubleOf(a, minus, init), c), DoubleOf(a, minus, init) * 10 + c);
      CloseStep(DoubleOf(a, minus, init), Numeral(init), |init|, c, DoubleOf(a, minus, ds));
    }
  }

  lemma DoubleFits(a: Arithmetic, minus: bool, ds: Text)
    requires AllDigits(ds) && FitsInteger(minus, Numeral(ds))
    ensures Near(DoubleOf(a, minus, ds), Numeral(ds))
  {
    hide Numeral;
  }

  lemma OneDigitFits(minus: bool, ds: Text)
    requires AllDigits(ds) && |ds| <= 1
    ensures FitsInteger(minus, Numeral(ds))
  {
    if |ds| == 1 {
      assert ds[..0] == [];
    }
  }

  // ---- Powers of ten ----

  lemma {:induction false} PowerSum(a: nat, b: nat)
    ensures Power10(a + b) == Power10(a) * Power10(b)
    decreases a
  {
    if a > 0 {
      PowerSum(a - 1, b);
    }
  }

  const E16: nat := 10_000_000_000_000_000

  lemma Power16()
    ensures Power10(16) == E16
  {
    assert Power10(4) == 10_000;
    assert Power10(8) == 100_000_000;
    assert Power10(12) == 1_000_000_000_000;
  }

  /** The powers near the limit, in units of 10^291. */
  lemma PowersNearLimit()
    ensures Power10(307) == E16 * Power10(291) && Power10(308) == 10 * Power10(307) && Power10(309) == 10 * Power10(308)
    ensures Power10(308) > UINT64_MAX
  {
    PowerSum(16, 291);
    Power16();
    PowerGrows(291, 307);
    assert Power10(20) > UINT64_MAX by {
      PowerSum(16, 4);
      assert Power10(4) == 10_000;
    }
    PowerGrows(20, 308);
  }

  /** Without a leading zero, a numeral of n digits is at least 10^(n-1). */
  lemma {:induction false} NumeralLeast(ds: Text)
    requires AllDigits(ds) && ds != [] && ds[0] != ZERO
    ensures Numeral(ds) >= Power10(|ds| - 1)
    decreases |ds|
  {
    if |ds| > 1 {
      NumeralLeast(ds[..|ds| - 1]);
    } else {
      assert ds[..0] == [];
    }
  }

  lemma {:induction false} PowerGrows(a: nat, b: nat)
    requires a <= b
    ensures Power10(a) <= Power10(b)
    decreases b
  {
    if a < b {
      PowerGrows(a, b - 1);
    }
  }

  // ---- When the scan gives up ----

  /** A close double is below the limit if its number is clearly below, and has reached it if clearly above. */
  lemma ClearlyBelow(d: nat, n: nat, k: nat)
    requires Close(d, n, k) && n * (M + k) < LIMIT * M
    ensures !ReachesLimit(d)
  {
    assert n * (M + k) == n * M + n * k;
  }

  lemma ClearlyAbove(d: nat, n: nat, k: nat)
    requires Close(d, n, k) && k <= M && n * (M - k) >= LIMIT * M
    ensures ReachesLimit(d)
  {
    assert n * (M - k) == n * M - n * k;
  }

  /** An integer part of at most 308 digits is never too big. */
  lemma {:induction false} FewDigits(a: Arithmetic, minus: bool, ds: Text)
    requires AllDigits(ds) && |ds| <= 308
    ensures !IntegerTooBig(a, minus, ds)
    decreases |ds|
  {
    hide Numeral, FitsInteger, ReachesLimit, DoubleOf;
    if |ds| > 1 {
      var init := ds[..|ds| - 1];
      FewDigits(a, minus, init);
      DoubleClose(a, minus, init);
      Below307(init);
      ClearlyBelow(DoubleOf(a, minus, init), Numeral(init), |init|);
    } else {
      OneDigitFits(minus, ds);
    }
  }

  lemma Below307(ds: Text)
    requires AllDigits(ds) && |ds| <= 307
    ensures Numeral(ds) * (M + |ds|) < LIMIT * M
  {
    hide Numeral, Power10;
    NumeralBound(ds);
    PowerGrows(|ds|, 307);
    PowersNearLimit();
    var x := Power10(291);
    Product(Numeral(ds), E16 * x, M + |ds|, M + 307);
    assert (E16 * x) * (M + 307) < LIMIT * M by { Scaled(x); }
  }

  /** 10^307 and 10^308 are clearly below and above the limit. */
  lemma Scaled(x: nat)
    requires x > 0
    ensures (E16 * x) * (M + 307) < (17976931348623157 * x) * M < (10 * (E16 * x)) * (M - 309)
  {
  }

  lemma Product(a: nat, b: nat, c: nat, d: nat)
    requires a <= b && c <= d
    ensures a * c <= b * d
  {
    assert a * c <= b * c <= b * d;
  }

  /** Digits behind a numeral that is too big change nothing. */
  lemma {:induction false} TooBigStays(a: Arithmetic, minus: bool, ds: Text, k: nat)
    requires AllDigits(ds) && k <= |ds| && IntegerTooBig(a, minus, ds[..k])
    ensures IntegerTooBig(a, minus, ds)
    decreases |ds|
  {
    hide Numeral, ReachesLimit, DoubleOf;
    if k < |ds| {
      var init := ds[..|ds| - 1];
      assert init[..k] == ds[..k];
      TooBigStays(a, minus, init, k);
      NumeralGrows(ds, |ds| - 1);
    } else {
      assert ds[..k] == ds;
    }
  }

  /** An integer part of 310 digits or more always is, unless it begins with zero as no numeral does. */
  lemma ManyDigits(a: Arithmetic, minus: bool, ds: Text)
    requires AllDigits(ds) && |ds| >= 310 && ds[0] != ZERO
    ensures IntegerTooBig(a, minus, ds)
  {
    hide Numeral, ReachesLimit, DoubleOf, Power10;
    var q := ds[..310];
    var p := q[..309];
    NumeralLeast(p);
    PowersNearLimit();
    assert p == q[..|q| - 1];
    NumeralGrows(q, 309);
    assert !FitsInteger(minus, Numeral(q));
    if !IntegerTooBig(a, minus, p) {
      DoubleClose(a, minus, p);
      var x := Power10(291);
      Product(10 * (E16 * x), Numeral(p), M - 309, M - 309);
      Scaled(x);
      ClearlyAbove(DoubleOf(a, minus, p), Numeral(p), 309);
    }
    TooBigStays(a, minus, ds, 310);
  }

  /** With 309 digits it depends on the first 308, and on the rounding only where these are within 308 parts in 2^49 of
      the limit. */
  lemma Band(a: Arithmetic, minus: bool, ds: Text)
    requires AllDigits(ds) && |ds| == 309 && ds[0] != ZERO
    ensures Numeral(ds[..308]) * (M + 308) < LIMIT * M ==> !IntegerTooBig(a, minus, ds)
    ensures Numeral(ds[..308]) * (M - 308) >= LIMIT * M ==> IntegerTooBig(a, minus, ds)
  {
    hide Numeral, ReachesLimit, DoubleOf;
    var p := ds[..308];
    FewDigits(a, minus, p);
    DoubleClose(a, minus, p);
    var n, d := Numeral(p), DoubleOf(a, minus, p);
    if n * (M + 308) < LIMIT * M {
      ClearlyBelow(d, n, 308);
    }
    if n * (M - 308) >= LIMIT * M {
      ClearlyAbove(d, n, 308);
      hide Power10;
      NumeralLeast(ds);
      PowersNearLimit();
    }
  }
}
