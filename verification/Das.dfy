/** Data-availability sampling confidence, over the reals. */
module Das {

  const THRESHOLD: nat := 32

  /** Probability that `n` distinct samples all fall on the published ones of `total` positions. */
  ghost function Ratio(published: nat, total: nat, n: nat): real
    requires n <= total
  {
    if n == 0 then 1.0
    else Ratio(published, total, n - 1) * ((published - (n - 1)) as real / (total - (n - 1)) as real)
  }

  /** The adversary publishes 31 of 64 shreds. */
  ghost function Undetected(n: nat): real
    requires n <= 64
  {
    Ratio(31, 64, n)
  }

  ghost function Confidence(n: nat): real {
    if n >= THRESHOLD then 1.0 else 1.0 - Undetected(n)
  }

  /** `das_confidence`. */
  method DasConfidence(n: nat) returns (r: real)
    ensures r == Confidence(n)
  {
    if n >= THRESHOLD {
      return 1.0;
    }
    var ratio := 1.0;
    for k := 0 to n
      invariant ratio == Undetected(k)
    {
      ratio := ratio * ((31 - k) as real / (64 - k) as real);
    }
    r := 1.0 - ratio;
  }

  /** Binomial coefficients by Pascal's rule. */
  ghost function Choose(m: nat, n: nat): nat {
    if n == 0 then 1 else if m == 0 then 0 else Choose(m - 1, n - 1) + Choose(m - 1, n)
  }

  lemma {:induction false} ChooseBeyond(m: nat, n: nat)
    requires n > m
    ensures Choose(m, n) == 0
  {
    if m > 0 {
      ChooseBeyond(m - 1, n - 1);
      ChooseBeyond(m - 1, n);
    }
  }

  lemma PascalStep(m: nat, n: nat, a: nat, b: nat, c: nat)
    requires (n + 1) * b == (m - 1 - n) * a && n * a == (m - n) * c
    ensures (n + 1) * (a + b) == (m - n) * (c + a)
  {
  }

  /** Moving one step along a row: (n + 1) C(m, n + 1) = (m - n) C(m, n). */
  lemma {:induction false} Absorption(m: nat, n: nat)
    ensures (n + 1) * Choose(m, n + 1) == (m - n) * Choose(m, n)
    decreases m
  {
    if m == 0 {
      ChooseBeyond(0, n + 1);
      if n > 0 {
        ChooseBeyond(0, n);
      }
    } else {
      Absorption(m - 1, n);
      if n == 0 {
        assert Choose(m, 1) == Choose(m - 1, 0) + Choose(m - 1, 1);
      } else {
        Absorption(m - 1, n - 1);
        PascalStep(m, n, Choose(m - 1, n), Choose(m - 1, n + 1), Choose(m - 1, n - 1));
      }
    }
  }

  lemma AbsorptionReal(m: nat, n: nat)
    requires n > 0
    ensures n as real * Choose(m, n) as real == (m - (n - 1)) as real * Choose(m, n - 1) as real
  {
    Absorption(m, n - 1);
    EqualProducts(n, Choose(m, n), m - (n - 1), Choose(m, n - 1));
  }

  lemma EqualProducts(a: int, x: int, b: int, y: int)
    requires a * x == b * y
    ensures a as real * x as real == b as real * y as real
  {
  }

  lemma RatioStep(published: nat, total: nat, n: nat, bigK: real, smallK: real, bigN: real, smallN: real)
    requires 0 < n <= total
    requires Ratio(published, total, n - 1) * bigK == smallK
    requires n as real * smallN == (published - (n - 1)) as real * smallK
    requires n as real * bigN == (total - (n - 1)) as real * bigK
    ensures Ratio(published, total, n) * bigN == smallN
  {
    CrossMultiply(Ratio(published, total, n - 1), (published - (n - 1)) as real, (total - (n - 1)) as real, n as real,
                  bigK, smallK, bigN, smallN);
  }

  ghost predicate RowStep(m: nat, row: nat -> real, n: nat)
    requires n > 0
  {
    n as real * row(n) == (m - (n - 1)) as real * row(n - 1)
  }

  lemma {:induction false} RatioOfRows(published: nat, total: nat, n: nat, big: nat -> real, small: nat -> real)
    requires n <= total && big(0) == small(0) == 1.0
    requires forall k: nat {:trigger RowStep(total, big, k)} :: k > 0 ==> RowStep(total, big, k)
    requires forall k: nat {:trigger RowStep(published, small, k)} :: k > 0 ==> RowStep(published, small, k)
    ensures Ratio(published, total, n) * big(n) == small(n)
  {
    if n > 0 {
      RatioOfRows(published, total, n - 1, big, small);
      assert RowStep(total, big, n) && RowStep(published, small, n);
      RatioStep(published, total, n, big(n - 1), small(n - 1), big(n), small(n));
    }
  }

  ghost function Row(m: nat): nat -> real { (n: nat) => Choose(m, n) as real }

  lemma ChooseRowSteps(m: nat)
    ensures forall k: nat {:trigger RowStep(m, Row(m), k)} :: k > 0 ==> RowStep(m, Row(m), k)
  {
    forall k: nat | k > 0
      ensures RowStep(m, Row(m), k)
    {
      AbsorptionReal(m, k);
    }
  }

  /** The sampling law: the running product is C(published, n) / C(total, n). */
  lemma SamplingLaw(published: nat, total: nat, n: nat)
    requires n <= total
    ensures Ratio(published, total, n) * Row(total)(n) == Row(published)(n)
  {
    ChooseRowSteps(total);
    ChooseRowSteps(published);
    RatioOfRows(published, total, n, Row(total), Row(published));
  }

  lemma CrossMultiply(u: real, p: real, q: real, n: real, bigK: real, smallK: real, bigN: real, smallN: real)
    requires q > 0.0 && n > 0.0
    requires u * bigK == smallK
    requires n * smallN == p * smallK && n * bigN == q * bigK
    ensures u * (p / q) * bigN == smallN
  {
  }

  ghost function HalfPower(n: nat): real {
    if n == 0 then 1.0 else HalfPower(n - 1) / 2.0
  }

  lemma {:induction false} RatioBound(published: nat, total: nat, n: nat)
    requires n <= total && 2 * published <= total
    ensures 0.0 <= Ratio(published, total, n) <= HalfPower(n)
    ensures n > published ==> Ratio(published, total, n) == 0.0
    ensures n <= published ==> Ratio(published, total, n) > 0.0
  {
    if n > 0 {
      var k := n - 1;
      RatioBound(published, total, k);
      if k <= published {
        FactorBounds((published - k) as real, (total - k) as real);
        MulBounds(Ratio(published, total, k), (published - k) as real / (total - k) as real, HalfPower(k));
      }
    }
  }

  /** Every sample at least halves the chance of going undetected, and 32 samples leave none: the
      early return at the threshold is the value the product would have. */
  lemma SamplingBound(n: nat)
    requires n <= 64
    ensures 0.0 <= Undetected(n) <= HalfPower(n)
    ensures Undetected(n) == 0.0 <==> n >= THRESHOLD
    ensures Confidence(n) == 1.0 - Undetected(n)
  {
    RatioBound(31, 64, n);
  }

  lemma FactorBounds(p: real, q: real)
    requires 0.0 <= p && 2.0 * p <= q && 0.0 < q
    ensures 0.0 <= p / q <= 0.5
    ensures p > 0.0 ==> p / q > 0.0
  {
  }

  lemma MulBounds(u: real, f: real, h: real)
    requires 0.0 <= u <= h && 0.0 <= f <= 0.5
    ensures 0.0 <= u * f <= h / 2.0
    ensures u > 0.0 && f > 0.0 ==> u * f > 0.0
  {
  }

  /** The published sampling table gives 0.467 for 4 samples and 0.0000015 for 16; both are too large. */
  lemma TableEntries()
    ensures 0.049 < Undetected(4) < 0.05
    ensures 0.0000006 < Undetected(16) < 0.0000007
  {
  }
}
