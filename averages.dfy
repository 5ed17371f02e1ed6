/**
 * The arithmetic primitives shared by both programmes
 * (src/app/dashboard/DashboardContext.tsx): clamping to the grade range,
 * rounding to the nearest half grade, plain means over the values that are
 * present, and the clamped weighted mean of a grade list plus an adjustment.
 */
module Averages {
  import opened Options
  import opened Records
  import opened Seqs

  /** `Math.min(6, Math.max(1, x))`. */
  function Clamp(x: real): (r: real)
    ensures 1.0 <= r <= 6.0
    ensures 1.0 <= x <= 6.0 ==> r == x
    ensures x < 1.0 ==> r == 1.0
    ensures x > 6.0 ==> r == 6.0
  {
    var atLeastOne := if x > 1.0 then x else 1.0;
    if atLeastOne < 6.0 then atLeastOne else 6.0
  }

  /** `r` is a whole multiple of 0.5. */
  predicate IsHalfStep(r: real)
  {
    (2.0 * r).Floor as real == 2.0 * r
  }

  /**
   * `Math.round(x * 2) / 2`: JavaScript's `Math.round(y)` is `Floor(y + 1/2)`, so the result
   * is the multiple of 0.5 nearest to `x`, and a value exactly between two of them goes up.
   */
  function RoundHalf(x: real): (r: real)
    ensures IsHalfStep(r)
    ensures x - 0.25 < r <= x + 0.25
  {
    (2.0 * x + 0.5).Floor as real / 2.0
  }

  /** `Math.round(x * 10) / 10`: the nearest multiple of 0.1, halves going up. */
  function RoundTenth(x: real): (r: real)
    ensures (10.0 * r).Floor as real == 10.0 * r
    ensures x - 0.05 < r <= x + 0.05
  {
    (10.0 * x + 0.5).Floor as real / 10.0
  }

  /** Only one multiple of 0.5 lies in (x - 0.25, x + 0.25], so `RoundHalf` is the nearest one. */
  lemma RoundHalfUnique(x: real, y: real)
    requires IsHalfStep(y)
    requires x - 0.25 < y <= x + 0.25
    ensures y == RoundHalf(x)
  {
    var r := RoundHalf(x);
    var a, b := (2.0 * y).Floor, (2.0 * r).Floor;
    assert a as real - b as real < 1.0 && b as real - a as real < 1.0;
  }

  lemma RoundHalfIdempotent(x: real)
    ensures RoundHalf(RoundHalf(x)) == RoundHalf(x)
  {
    RoundHalfUnique(RoundHalf(x), RoundHalf(x));
  }

  lemma RoundHalfMonotone(x: real, y: real)
    requires x <= y
    ensures RoundHalf(x) <= RoundHalf(y)
  {
    assert (2.0 * x + 0.5).Floor <= (2.0 * y + 0.5).Floor;
  }

  /** Rounding stays between two half steps that bound its argument; in particular within [1, 6]. */
  lemma RoundHalfBetween(x: real, lo: real, hi: real)
    requires IsHalfStep(lo) && IsHalfStep(hi)
    requires lo <= x <= hi
    ensures lo <= RoundHalf(x) <= hi
  {
    RoundHalfMonotone(lo, x);
    RoundHalfMonotone(x, hi);
    RoundHalfUnique(lo, lo);
    RoundHalfUnique(hi, hi);
  }

  /** A half step is already a multiple of 0.1: rounding it to one decimal changes nothing. */
  lemma RoundTenthOfHalfStep(x: real)
    requires IsHalfStep(x)
    ensures RoundTenth(x) == x
  {
    var k := (2.0 * x).Floor;
    assert x == k as real / 2.0;
    assert 10.0 * x + 0.5 == (5 * k) as real + 0.5;
    assert (10.0 * x + 0.5).Floor == 5 * k;
  }

  /** Sums and differences of half steps are half steps. */
  lemma HalfStepSum(x: real, y: real)
    requires IsHalfStep(x) && IsHalfStep(y)
    ensures IsHalfStep(x + y) && IsHalfStep(x - y)
  {
    var a, b := (2.0 * x).Floor, (2.0 * y).Floor;
    assert 2.0 * x == a as real && 2.0 * y == b as real;
    HalfStepOfWhole(x + y, a + b);
    HalfStepOfWhole(x - y, a - b);
  }

  lemma HalfStepOfWhole(z: real, n: int)
    requires 2.0 * z == n as real
    ensures IsHalfStep(z)
  {
  }

  // ---------------------------------------------------------------------
  // Sums and means of plain values
  // ---------------------------------------------------------------------

  /** `xs.reduce((a, b) => a + b, 0)`. */
  function Sum(xs: seq<real>): real
  {
    if |xs| == 0 then 0.0 else xs[0] + Sum(xs[1..])
  }

  predicate AllBetween(xs: seq<real>, lo: real, hi: real)
  {
    forall i :: 0 <= i < |xs| ==> lo <= xs[i] <= hi
  }

  lemma {:induction false} SumBounds(xs: seq<real>, lo: real, hi: real)
    requires AllBetween(xs, lo, hi)
    ensures |xs| as real * lo <= Sum(xs) <= |xs| as real * hi
  {
    if |xs| > 0 {
      SumBounds(xs[1..], lo, hi);
    }
  }

  lemma SumAppend(xs: seq<real>, ys: seq<real>)
    ensures Sum(xs + ys) == Sum(xs) + Sum(ys)
  {
    if |xs| > 0 {
      assert (xs + ys)[1..] == xs[1..] + ys;
      SumAppend(xs[1..], ys);
    } else {
      assert xs + ys == ys;
    }
  }

  /** The arithmetic mean `sum / length`. */
  function Mean(xs: seq<real>): real
    requires |xs| > 0
  {
    Sum(xs) / |xs| as real
  }

  /** The mean of values in [lo, hi] lies in [lo, hi]. */
  lemma MeanBounds(xs: seq<real>, lo: real, hi: real)
    requires |xs| > 0
    requires AllBetween(xs, lo, hi)
    ensures lo <= Mean(xs) <= hi
  {
    SumBounds(xs, lo, hi);
    DivBounds(Sum(xs), |xs| as real, lo, hi);
  }

  /** Dividing `n * lo <= s <= n * hi` by a positive `n`. */
  lemma DivBounds(s: real, n: real, lo: real, hi: real)
    requires n > 0.0
    requires n * lo <= s <= n * hi
    ensures lo <= s / n <= hi
  {
    assert s / n - lo == (s - n * lo) / n;
    assert hi - s / n == (n * hi - s) / n;
  }

  /** Multiplying an inequality by a non-negative factor. */
  lemma MulMono(a: real, b: real, w: real)
    requires a <= b && w >= 0.0
    ensures a * w <= b * w
  {
    assert b * w - a * w == (b - a) * w;
  }

  /** `.filter((a): a is number => a !== null)` on a list of optional values. */
  function Present(xs: seq<Option<real>>): (r: seq<real>)
    ensures |r| <= |xs|
    ensures |r| == 0 <==> forall i :: 0 <= i < |xs| ==> xs[i].None?
  {
    if |xs| == 0 then []
    else if xs[0].Some? then [xs[0].value] + Present(xs[1..])
    else Present(xs[1..])
  }

  /** A property of every present value carries over to the filtered list. */
  lemma {:induction false} PresentKeeps(xs: seq<Option<real>>, p: real -> bool)
    requires forall i :: 0 <= i < |xs| && xs[i].Some? ==> p(xs[i].value)
    ensures forall i :: 0 <= i < |Present(xs)| ==> p(Present(xs)[i])
  {
    if |xs| > 0 {
      PresentKeeps(xs[1..], p);
    }
  }

  lemma PresentBetween(xs: seq<Option<real>>, lo: real, hi: real)
    requires forall i :: 0 <= i < |xs| && xs[i].Some? ==> lo <= xs[i].value <= hi
    ensures AllBetween(Present(xs), lo, hi)
  {
    PresentKeeps(xs, v => lo <= v <= hi);
  }

  lemma PresentAppend(xs: seq<Option<real>>, ys: seq<Option<real>>)
    ensures Present(xs + ys) == Present(xs) + Present(ys)
  {
    if |xs| > 0 {
      assert (xs + ys)[1..] == xs[1..] + ys;
      PresentAppend(xs[1..], ys);
    } else {
      assert xs + ys == ys;
    }
  }

  /** The mean of the present values, or `None` when none is present. */
  function MeanOfPresent(xs: seq<Option<real>>): (r: Option<real>)
    ensures r.None? <==> forall i :: 0 <= i < |xs| ==> xs[i].None?
  {
    var vals := Present(xs);
    if |vals| == 0 then None else Some(Mean(vals))
  }

  /** The same mean rounded to the nearest half grade, as the tier and finals averages do. */
  function RoundedMeanOfPresent(xs: seq<Option<real>>): (r: Option<real>)
    ensures r.None? <==> forall i :: 0 <= i < |xs| ==> xs[i].None?
    ensures r.Some? ==> IsHalfStep(r.value)
  {
    match MeanOfPresent(xs)
    case None => None
    case Some(m) => Some(RoundHalf(m))
  }

  /** Present values in [1, 6] give a mean in [1, 6], rounded or not. */
  lemma MeanOfPresentInRange(xs: seq<Option<real>>)
    requires forall i :: 0 <= i < |xs| && xs[i].Some? ==> 1.0 <= xs[i].value <= 6.0
    ensures MeanOfPresent(xs).Some? ==> 1.0 <= MeanOfPresent(xs).value <= 6.0
    ensures RoundedMeanOfPresent(xs).Some? ==> 1.0 <= RoundedMeanOfPresent(xs).value <= 6.0
  {
    if MeanOfPresent(xs).Some? {
      PresentBetween(xs, 1.0, 6.0);
      MeanBounds(Present(xs), 1.0, 6.0);
      RoundHalfBetween(MeanOfPresent(xs).value, 1.0, 6.0);
    }
  }

  // ---------------------------------------------------------------------
  // Weighted average of a grade list
  // ---------------------------------------------------------------------

  /** Whether a grade takes part in averaging: `g.weight > 0`. */
  predicate Counts(g: Grade)
  {
    g.weight > 0.0
  }

  /** `.reduce((acc, g) => acc + g.weight, 0)`. */
  function TotalWeight(gs: seq<Grade>): (r: real)
    ensures (forall i :: 0 <= i < |gs| ==> Counts(gs[i])) ==> r >= 0.0
    ensures (forall i :: 0 <= i < |gs| ==> Counts(gs[i])) && |gs| > 0 ==> r > 0.0
  {
    if |gs| == 0 then 0.0 else gs[0].weight + TotalWeight(gs[1..])
  }

  /** `.reduce((acc, g) => acc + g.value * g.weight, 0)`. */
  function WeightedSum(gs: seq<Grade>): real
  {
    if |gs| == 0 then 0.0 else gs[0].value * gs[0].weight + WeightedSum(gs[1..])
  }

  /**
   * The raw average of a grade list: grades of weight <= 0 are dropped, the weighted
   * mean of the rest plus the adjustment is clamped to [1, 6]; `None` when no grade counts.
   */
  function RawAverage(gs: seq<Grade>, adjustment: real): (r: Option<real>)
    ensures r.None? <==> forall i :: 0 <= i < |gs| ==> !Counts(gs[i])
    ensures r.Some? ==> 1.0 <= r.value <= 6.0
  {
    ClampedMean(Filter(gs, Counts), adjustment)
  }

  /** The clamped weighted mean plus adjustment of the counting grades. */
  function ClampedMean(counting: seq<Grade>, adjustment: real): Option<real>
    requires forall i :: 0 <= i < |counting| ==> Counts(counting[i])
  {
    if |counting| == 0 then None
    else Some(Clamp(WeightedSum(counting) / TotalWeight(counting) + adjustment))
  }

  /** The weighted mean of values in [lo, hi] with positive weights lies in [lo, hi]. */
  lemma {:induction false} WeightedSumBounds(gs: seq<Grade>, lo: real, hi: real)
    requires forall i :: 0 <= i < |gs| ==> Counts(gs[i]) && lo <= gs[i].value <= hi
    ensures lo * TotalWeight(gs) <= WeightedSum(gs) <= hi * TotalWeight(gs)
  {
    if |gs| > 0 {
      WeightedSumBounds(gs[1..], lo, hi);
      var g := gs[0];
      var tw, ws := TotalWeight(gs[1..]), WeightedSum(gs[1..]);
      assert TotalWeight(gs) == g.weight + tw;
      assert WeightedSum(gs) == g.value * g.weight + ws;
      BoundsStep(lo, hi, g.value, g.weight, tw, ws);
    }
  }

  /** One more value `v` of weight `w` keeps a weighted sum between its bounds. */
  lemma BoundsStep(lo: real, hi: real, v: real, w: real, tw: real, ws: real)
    requires lo <= v <= hi && w >= 0.0
    requires lo * tw <= ws <= hi * tw
    ensures lo * (w + tw) <= v * w + ws <= hi * (w + tw)
  {
    MulMono(lo, v, w);
    MulMono(v, hi, w);
    assert lo * (w + tw) == lo * w + lo * tw;
    assert hi * (w + tw) == hi * w + hi * tw;
  }

  /**
   * With valid grades and no adjustment the clamp never fires: the raw average is
   * exactly the weighted mean of the counting grades.
   */
  lemma ValidGradesNeedNoClamp(gs: seq<Grade>)
    requires AllValid(gs)
    requires exists i :: 0 <= i < |gs| && Counts(gs[i])
    ensures var counting := Filter(gs, Counts);
      |counting| > 0 && RawAverage(gs, 0.0) == Some(WeightedSum(counting) / TotalWeight(counting))
  {
    var counting := Filter(gs, Counts);
    var tw, ws := TotalWeight(counting), WeightedSum(counting);
    FilterKeeps(gs, Counts, ValidValue);
    WeightedSumBounds(counting, 1.0, 6.0);
    DivBounds(ws, tw, 1.0, 6.0);
  }

  /** A grade of weight <= 0 never changes the raw average, wherever it sits in the list. */
  lemma ZeroWeightIgnored(before: seq<Grade>, g: Grade, after: seq<Grade>, adjustment: real)
    requires !Counts(g)
    ensures RawAverage(before + [g] + after, adjustment) == RawAverage(before + after, adjustment)
  {
    DroppedGrade(before, g, after);
  }

  lemma DroppedGrade(before: seq<Grade>, g: Grade, after: seq<Grade>)
    requires !Counts(g)
    ensures Filter(before + [g] + after, Counts) == Filter(before + after, Counts)
  {
    var fb, fa := Filter(before, Counts), Filter(after, Counts);
    assert [g][1..] == [];
    assert Filter([g], Counts) == Filter([], Counts) == [];
    FilterAppend(before, [g], Counts);
    assert Filter(before + [g], Counts) == fb + [] == fb;
    FilterAppend(before + [g], after, Counts);
    FilterAppend(before, after, Counts);
  }

  /** Worked examples: 5.0 (weight 1) and 6.0 (weight 2) average to 17/3, shown as 5.5; a +0.5 bonus clamps to 6. */
  lemma WorkedSubjectAverage(a: Grade, b: Grade)
    requires a.value == 5.0 && a.weight == 1.0
    requires b.value == 6.0 && b.weight == 2.0
    ensures RawAverage([a, b], 0.0) == Some(17.0 / 3.0)
    ensures RoundHalf(17.0 / 3.0) == 5.5
    ensures RawAverage([a, b], 0.5) == Some(6.0) && RoundHalf(6.0) == 6.0
    ensures RoundHalf(4.25) == 4.5
  {
    assert [a, b][1..] == [b] && [b][1..] == [];
    assert Filter([a, b], Counts) == [a, b];
    assert TotalWeight([b]) == 2.0 && WeightedSum([b]) == 12.0;
    assert TotalWeight([a, b]) == 3.0;
    assert WeightedSum([a, b]) == 17.0;
    assert (2.0 * (17.0 / 3.0) + 0.5).Floor == 11;
  }

  /** The half-grade rounding of a raw average, followed by the source's re-clamp. */
  function RoundedAverage(raw: Option<real>): (r: Option<real>)
    requires raw.Some? ==> 1.0 <= raw.value <= 6.0
    ensures r.None? <==> raw.None?
    ensures r.Some? ==> IsHalfStep(r.value) && 1.0 <= r.value <= 6.0
    ensures r.Some? ==> raw.value - 0.25 < r.value <= raw.value + 0.25
  {
    match raw
    case None => None
    case Some(x) =>
      RoundHalfBetween(x, 1.0, 6.0);
      Some(Clamp(RoundHalf(x)))
  }
}
