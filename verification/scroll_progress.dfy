/** The lazy-load scroll loop of `generate_pdf`: every element whose class
    contains "page" is scrolled into view in document order, and after each
    one the progress bar is set to `min((index + 1) / total_pages, 1.0)`.
    Fractions are exact reals here, not IEEE doubles. */
module ScrollProgress {

  function Min(a: real, b: real): real {
    if a <= b then a else b
  }

  /** The value handed to the progress bar after element `index` of `total`. */
  function ReportedFraction(index: nat, total: nat): real
    requires total > 0
  {
    Min((index + 1) as real / total as real, 1.0)
  }

  /** Reference definition: the exact fractions 1/total, 2/total, ...,
      total/total, one per element. */
  function Fractions(total: nat): seq<real> {
    seq(total, k requires 0 <= k < total => (k + 1) as real / total as real)
  }

  /** Inside the loop the clamp to 1.0 never binds, and the value is
      positive. */
  lemma ClampNeverBinds(index: nat, total: nat)
    requires index < total
    ensures ReportedFraction(index, total) == (index + 1) as real / total as real
    ensures 0.0 < ReportedFraction(index, total) <= 1.0
  {
    FractionAtMostOne(index + 1, total);
  }

  lemma FractionAtMostOne(a: nat, total: nat)
    requires 0 < a <= total
    ensures 0.0 < a as real / total as real <= 1.0
  {
    var q := a as real / total as real;
    assert q * total as real == a as real;
  }

  lemma FractionsStrictlyIncrease(a: nat, b: nat, total: nat)
    requires a < b && total > 0
    ensures a as real / total as real < b as real / total as real
  {
    var t := total as real;
    assert (a as real / t) * t == a as real;
    assert (b as real / t) * t == b as real;
  }

  /** Each element reports a value in (0, 1]. */
  lemma FractionsBounded(total: nat)
    ensures |Fractions(total)| == total
    ensures forall k | 0 <= k < total :: 0.0 < Fractions(total)[k] <= 1.0
  {
    forall k | 0 <= k < total
      ensures 0.0 < Fractions(total)[k] <= 1.0
    {
      FractionAtMostOne(k + 1, total);
    }
  }

  /** The reported values grow strictly from one element to the next. */
  lemma FractionsIncreasing(total: nat)
    ensures forall a, b | 0 <= a < b < total :: Fractions(total)[a] < Fractions(total)[b]
  {
    forall a, b | 0 <= a < b < total
      ensures Fractions(total)[a] < Fractions(total)[b]
    {
      FractionsStrictlyIncrease(a + 1, b + 1, total);
    }
  }

  /** The last value reported is exactly 1; with no elements nothing is
      reported. */
  lemma FractionsEnd(total: nat)
    ensures total == 0 ==> Fractions(total) == []
    ensures total > 0 ==> Fractions(total)[total - 1] == 1.0
  {
  }

  /** The loop over `page_elements` (main.py, step 2): returns the elements
      in the order they were scrolled into view and the values reported to
      the progress bar. */
  method ScrollPages<E>(pages: seq<E>) returns (scrolled: seq<E>, reports: seq<real>)
    ensures scrolled == pages
    ensures reports == Fractions(|pages|)
    ensures |pages| == 0 ==> reports == []
    ensures forall k | 0 <= k < |reports| :: 0.0 < reports[k] <= 1.0
    ensures forall a, b | 0 <= a < b < |reports| :: reports[a] < reports[b]
    ensures |pages| > 0 ==> reports[|pages| - 1] == 1.0
  {
    var total := |pages|;
    scrolled := [];
    reports := [];
    for index := 0 to total
      invariant scrolled == pages[..index]
      invariant reports == Fractions(total)[..index]
    {
      scrolled := scrolled + [pages[index]];
      if total > 0 {
        ClampNeverBinds(index, total);
        reports := reports + [ReportedFraction(index, total)];
      }
    }
    FractionsBounded(total);
    FractionsIncreasing(total);
    FractionsEnd(total);
  }
}
