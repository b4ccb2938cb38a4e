/**
  * Stepped progressions, closed ranges and their iterator over Rationals
  * (rationals/RationalRange.kt, and rangeTo in rationals/Rational.kt).
  *
  * Iterating a progression adds the step to the current value until the value equals the
  * stored last element. Walk(x, step, n) is the sequence of values that loop sees, and
  * ReachesIn(x, last, step, n) says the loop arrives at last after exactly n additions. A range
  * a..b steps by 1/D, D the denominator a and b share once aligned, so b is always reached.
  * fromClosedRange stores as last the last value on the step grid not beyond end
  * (GridLastElement), so iterating any progression it builds ends.
  */
module RationalRanges {
  import opened Numbers
  import opened Failures
  import opened Rationals
  import IntegerRanges

  // ---------------------------------------------------------------------------------------
  // Walking in whole steps.

  /** The first n values reached from x by adding step: x, x + step, x + step + step, ... */
  function Walk(x: Rational, step: Rational, n: nat): (w: seq<Rational>)
    requires x.Valid() && step.Valid()
    ensures |w| == n && (n > 0 ==> w[0] == x)
    ensures forall i | 0 <= i < n :: w[i].Valid()
    decreases n
  {
    if n == 0 then [] else [x] + Walk(Plus(x, step), step, n - 1)
  }

  /** Adding step to x exactly n times gives last. */
  predicate ReachesIn(x: Rational, last: Rational, step: Rational, n: nat)
    requires x.Valid() && step.Valid()
    decreases n
  {
    if n == 0 then x == last else ReachesIn(Plus(x, step), last, step, n - 1)
  }

  /** A valid Rational's value has the sign of its numerator. */
  lemma ValueSign(r: Rational)
    requires r.Valid()
    ensures (Value(r) > 0.0 <==> r.numerator > 0) && (Value(r) < 0.0 <==> r.numerator < 0)
  {
    FracSign(r.numerator, r.denominator);
  }

  /** Whole steps move in the direction of the step: a positive step never reaches a smaller value. */
  lemma {:induction false} ReachesAhead(x: Rational, last: Rational, step: Rational, n: nat)
    requires x.Valid() && last.Valid() && step.Valid() && step.numerator != 0
    requires ReachesIn(x, last, step, n)
    ensures step.numerator > 0 ==> Value(x) <= Value(last) && (n > 0 ==> Value(x) < Value(last))
    ensures step.numerator < 0 ==> Value(x) >= Value(last) && (n > 0 ==> Value(x) > Value(last))
    decreases n
  {
    if n > 0 {
      ValueSign(step);
      ReachesAhead(Plus(x, step), last, step, n - 1);
    }
  }

  /** n steps from x end at one value only. */
  lemma {:induction false} ReachesFunctional(x: Rational, last1: Rational, last2: Rational, step: Rational, n: nat)
    requires x.Valid() && step.Valid()
    requires ReachesIn(x, last1, step, n) && ReachesIn(x, last2, step, n)
    ensures last1 == last2
    decreases n
  {
    if n > 0 {
      ReachesFunctional(Plus(x, step), last1, last2, step, n - 1);
    }
  }

  /** The number of steps from x to last is determined by x, last and step. */
  lemma {:induction false} ReachesUnique(x: Rational, last: Rational, step: Rational, n: nat, m: nat)
    requires x.Valid() && last.Valid() && step.Valid() && step.numerator != 0
    requires ReachesIn(x, last, step, n) && ReachesIn(x, last, step, m)
    ensures n == m
    decreases n
  {
    if n == 0 && m > 0 {
      ReachesAhead(x, last, step, m);
    } else if m == 0 && n > 0 {
      ReachesAhead(x, last, step, n);
    } else if n > 0 && m > 0 {
      ReachesUnique(Plus(x, step), last, step, n - 1, m - 1);
    }
  }

  /**
    * What a loop from x to last sees: n + 1 values, x first and last at the end, strictly
    * monotone in the direction of the step (so none repeats), all between x and last.
    */
  lemma {:induction false} WalkSpan(x: Rational, last: Rational, step: Rational, n: nat)
    requires x.Valid() && last.Valid() && step.Valid() && step.numerator != 0
    requires ReachesIn(x, last, step, n)
    ensures var w := Walk(x, step, n + 1);
      w[0] == x && w[n] == last &&
      (forall i, j | 0 <= i < j < |w| ::
        if step.numerator > 0 then Value(w[i]) < Value(w[j]) else Value(w[i]) > Value(w[j])) &&
      (forall i | 0 <= i < |w| ::
        if step.numerator > 0 then Value(x) <= Value(w[i]) <= Value(last)
        else Value(last) <= Value(w[i]) <= Value(x))
    decreases n
  {
    var w := Walk(x, step, n + 1);
    if n > 0 {
      var y := Plus(x, step);
      var rest := Walk(y, step, n);
      assert w == [x] + rest;
      WalkSpan(y, last, step, n - 1);
      ValueSign(step);
      ReachesAhead(y, last, step, n - 1);
    }
  }

  // ---------------------------------------------------------------------------------------
  // RationalProgression (RationalRange.kt lines 6-60, 98-102).

  /**
    * getProgressionLastElement as written: end for a positive step, start for a negative one,
    * an error for a zero step. DownToAsWritten shows what the negative case does.
    */
  function LastElementAsWritten(start: Rational, end: Rational, step: Rational): (r: Result<Rational>)
    ensures r.Ok? <==> step.numerator != 0
    ensures r.Err? ==> r.error == ZeroStep
    ensures step.numerator > 0 ==> r == Ok(end)
    ensures step.numerator < 0 ==> r == Ok(start)
  {
    if step.numerator > 0 then Ok(end)
    else if step.numerator < 0 then Ok(start)
    else Err(ZeroStep)
  }

  /**
    * start, end and step as numerators over one positive denominator, the product of their
    * denominators.
    */
  function CommonGrid(start: Rational, end: Rational, step: Rational): (g: (int, int, int, int))
    requires start.Valid() && end.Valid() && step.Valid()
    ensures g.3 > 0
    ensures Frac(g.0, g.3) == Value(start) && Frac(g.1, g.3) == Value(end) && Frac(g.2, g.3) == Value(step)
  {
    var e := end.denominator * step.denominator;
    var f := start.denominator * step.denominator;
    var h := start.denominator * end.denominator;
    var d := start.denominator * e;
    assert end.denominator * f == d && step.denominator * h == d;
    FracScale(start.numerator, start.denominator, e);
    FracScale(end.numerator, end.denominator, f);
    FracScale(step.numerator, step.denominator, h);
    (start.numerator * e, end.numerator * f, step.numerator * h, d)
  }

  /**
    * getProgressionLastElement corrected onto the step grid, in both directions: the last value
    * start + k·step not beyond end. It is the rule the BigInteger progression applies
    * (IntegerRanges.ProgressionLastElement), here applied to the numerators of start, end and
    * step over a common denominator. A zero step is an error.
    */
  function GridLastElement(start: Rational, end: Rational, step: Rational): (r: Result<Rational>)
    requires start.Valid() && end.Valid() && step.Valid()
    ensures r.Ok? <==> step.numerator != 0
    ensures r.Err? ==> r.error == ZeroStep
    ensures r.Ok? ==> r.value.Valid()
    ensures step.numerator > 0 && Value(start) >= Value(end) ==> r == Ok(end)
    ensures step.numerator > 0 && Value(start) < Value(end) ==>
      Value(start) <= Value(r.value) <= Value(end) && Value(end) - Value(r.value) < Value(step)
    ensures step.numerator < 0 && Value(start) <= Value(end) ==> r == Ok(end)
    ensures step.numerator < 0 && Value(start) > Value(end) ==>
      Value(end) <= Value(r.value) <= Value(start) && Value(r.value) - Value(end) < -Value(step)
  {
    var (a, b, s, d) := CommonGrid(start, end, step);
    FracSign(s, d);
    ValueSign(step);
    FracOrder(a, b, d);
    FracOrder(b, a, d);
    if s == 0 then Err(ZeroStep)
    else
      var last := IntegerRanges.ProgressionLastElement(a, b, s).value;
      GridLastBounds(a, b, s, d);
      OnGrid(b, d, end);
      Ok(Canonicalize(last, d))
  }

  /** A numerator over the grid whose fraction is x's value stands for x. */
  lemma OnGrid(n: int, d: int, x: Rational)
    requires d > 0 && x.Valid() && Frac(n, d) == Value(x)
    ensures Canonicalize(n, d) == x
  {
    CanonicalUnique(Canonicalize(n, d), x);
  }

  /** The bounds of the integer last element, read as fractions over d. */
  lemma GridLastBounds(a: int, b: int, s: int, d: int)
    requires d > 0 && s != 0
    ensures var last := IntegerRanges.ProgressionLastElement(a, b, s).value;
      (s > 0 && a < b ==> Frac(a, d) <= Frac(last, d) <= Frac(b, d) && Frac(b, d) - Frac(last, d) < Frac(s, d)) &&
      (s < 0 && a > b ==> Frac(b, d) <= Frac(last, d) <= Frac(a, d) && Frac(last, d) - Frac(b, d) < -Frac(s, d))
  {
    var last := IntegerRanges.ProgressionLastElement(a, b, s).value;
    FracOrder(a, last, d);
    FracOrder(last, a, d);
    FracOrder(b, last, d);
    FracOrder(last, b, d);
    FracAdd(b, last, d);
    FracAdd(last, b, d);
    FracAdd(0, s, d);
    FracOrder(s, b - last, d);
    FracOrder(-s, last - b, d);
  }

  /** From m/d, adding s/d k times reaches (m + k·s)/d. */
  lemma {:induction false} StepWalk(m: int, s: int, k: nat, d: int)
    requires d > 0
    ensures ReachesIn(Canonicalize(m, d), Canonicalize(m + k * s, d), Canonicalize(s, d), k)
    decreases k
  {
    if k > 0 {
      StepPlus(m, s, d);
      StepWalk(m + s, s, k - 1, d);
      assert m + s + (k - 1) * s == m + k * s;
    }
  }

  /** Over one denominator, adding s/d to m/d gives (m + s)/d. */
  lemma StepPlus(m: int, s: int, d: int)
    requires d > 0
    ensures Plus(Canonicalize(m, d), Canonicalize(s, d)) == Canonicalize(m + s, d)
  {
    FracAdd(m, s, d);
    CanonicalUnique(Plus(Canonicalize(m, d), Canonicalize(s, d)), Canonicalize(m + s, d));
  }

  /**
    * For integers, a last element not behind start in the direction of the step is
    * start + k·step for some k.
    */
  lemma IntLastSteps(a: int, b: int, s: int) returns (k: nat)
    requires s != 0
    requires var last := IntegerRanges.ProgressionLastElement(a, b, s).value;
      (s > 0 ==> a <= last) && (s < 0 ==> last <= a)
    ensures IntegerRanges.ProgressionLastElement(a, b, s).value == a + k * s
  {
    var last := IntegerRanges.ProgressionLastElement(a, b, s).value;
    k := GridSteps(a, last, s);
  }

  /** A grid value reached from a in whole steps of s is a + k·s for some k. */
  lemma GridSteps(a: int, last: int, s: int) returns (k: nat)
    requires s > 0 ==> a <= last && (last - a) % s == 0
    requires s < 0 ==> last <= a && (a - last) % (-s) == 0
    requires s != 0
    ensures last == a + k * s
  {
    if s > 0 {
      k := (last - a) / s;
    } else {
      k := (a - last) / (-s);
    }
  }

  datatype RationalProgression = RationalProgression(first: Rational, last: Rational, step: Rational) {
    /** What construction guarantees: canonical parts and a step with a non-zero numerator. */
    predicate Valid() {
      first.Valid() && last.Valid() && step.Valid() && step.numerator != 0
    }
  }

  /** isEmpty: first already past last in the direction of the step. */
  function IsEmpty(p: RationalProgression): (b: bool)
    requires p.Valid()
    ensures p.step.numerator > 0 ==> (b <==> Value(p.first) > Value(p.last))
    ensures p.step.numerator < 0 ==> (b <==> Value(p.first) < Value(p.last))
  {
    if p.step.numerator > 0 then CompareTo(p.first, p.last) > 0 else CompareTo(p.first, p.last) < 0
  }

  /**
    * The constructor (and fromClosedRange): rejects a step whose numerator is 0, keeps start as
    * first and step as step, and stores GridLastElement as last, so every progression it builds
    * is reachable.
    */
  function FromClosedRange(start: Rational, end: Rational, step: Rational): (r: Result<RationalProgression>)
    requires start.Valid() && end.Valid() && step.Valid()
    ensures step.numerator == 0 ==> r == Err(ZeroStep)
    ensures step.numerator != 0 ==> r.Ok? && r.value.Valid() && Reachable(r.value)
    ensures step.numerator != 0 ==>
      r.value == RationalProgression(start, GridLastElement(start, end, step).value, step)
    ensures step.numerator != 0 ==>
      (IsEmpty(r.value) <==> (step.numerator > 0 && Value(start) > Value(end)) || (step.numerator < 0 && Value(start) < Value(end)))
  {
    match GridLastElement(start, end, step)
    case Err(e) => Err(e)
    case Ok(last) =>
      GridLastReachable(start, end, step);
      Ok(RationalProgression(start, last, step))
  }

  /** A progression whose last element is GridLastElement is reachable. */
  lemma GridLastReachable(start: Rational, end: Rational, step: Rational)
    requires start.Valid() && end.Valid() && step.Valid() && step.numerator != 0
    ensures var p := RationalProgression(start, GridLastElement(start, end, step).value, step);
      p.Valid() && Reachable(p)
  {
    var p := RationalProgression(start, GridLastElement(start, end, step).value, step);
    if !IsEmpty(p) {
      var (a, b, s, d) := CommonGrid(start, end, step);
      var last := IntegerRanges.ProgressionLastElement(a, b, s).value;
      FracSign(s, d);
      ValueSign(step);
      assert p.last == Canonicalize(last, d);
      FracOrder(a, last, d);
      FracOrder(last, a, d);
      var k := IntLastSteps(a, b, s);
      StepWalk(a, s, k, d);
      OnGrid(a, d, start);
      OnGrid(s, d, step);
      assert ReachesIn(p.first, p.last, p.step, k);
    }
  }

  /** When end is a whole number of steps from start, GridLastElement leaves it unchanged. */
  lemma GridLastOnGrid(start: Rational, end: Rational, step: Rational, n: nat)
    requires start.Valid() && end.Valid() && step.Valid() && step.numerator != 0
    requires ReachesIn(start, end, step, n)
    ensures GridLastElement(start, end, step) == Ok(end)
  {
    var (a, b, s, d) := CommonGrid(start, end, step);
    GridNumerators(start, end, step, n);
    FracSign(s, d);
    ValueSign(step);
    LastOnIntGrid(a, b, s, n);
    OnGrid(b, d, end);
  }

  /** When end is a whole number of steps from start, fromClosedRange keeps end as last. */
  lemma OnGridProgression(start: Rational, end: Rational, step: Rational, n: nat)
    requires start.Valid() && end.Valid() && step.Valid() && step.numerator != 0
    requires ReachesIn(start, end, step, n)
    ensures FromClosedRange(start, end, step) == Ok(RationalProgression(start, end, step))
  {
    GridLastOnGrid(start, end, step, n);
  }

  /** For integers, an end a whole number of steps from start is its own last element. */
  lemma LastOnIntGrid(a: int, b: int, s: int, n: nat)
    requires s != 0 && b == a + n * s
    ensures IntegerRanges.ProgressionLastElement(a, b, s) == Ok(b)
  {
    var last := IntegerRanges.ProgressionLastElement(a, b, s).value;
    if (s > 0 && a < b) || (s < 0 && a > b) {
      var k := GridSteps(a, last, s);
      assert b - last == (n - k) * s;
      NoGridPointBetween(n - k, s);
    }
  }

  /** Over the common grid, n steps from start to end add n times the step's numerator. */
  lemma GridNumerators(start: Rational, end: Rational, step: Rational, n: nat)
    requires start.Valid() && end.Valid() && step.Valid()
    requires ReachesIn(start, end, step, n)
    ensures var (a, b, s, d) := CommonGrid(start, end, step); b == a + n * s
  {
    var (a, b, s, d) := CommonGrid(start, end, step);
    OnGrid(a, d, start);
    OnGrid(s, d, step);
    StepWalk(a, s, n, d);
    ReachesFunctional(start, end, Canonicalize(a + n * s, d), step, n);
    FracOrder(b, a + n * s, d);
    FracOrder(a + n * s, b, d);
  }

  /** A multiple of s strictly within one step of 0, on the side of s, is 0. */
  lemma NoGridPointBetween(j: int, s: int)
    requires s != 0
    requires s > 0 ==> 0 <= j * s < s
    requires s < 0 ==> s < j * s <= 0
    ensures j == 0
  {
  }

  /** Whether iterating ends: the progression is empty, or last is a whole number of steps from first. */
  ghost predicate Reachable(p: RationalProgression)
    requires p.Valid()
  {
    IsEmpty(p) || exists n: nat :: ReachesIn(p.first, p.last, p.step, n)
  }

  /** The number of steps from first to last of a non-empty reachable progression. */
  ghost function StepCount(p: RationalProgression): (n: nat)
    requires p.Valid() && Reachable(p) && !IsEmpty(p)
    ensures ReachesIn(p.first, p.last, p.step, n)
  {
    var n :| ReachesIn(p.first, p.last, p.step, n);
    n
  }

  /** The values a for-loop over a reachable progression sees. */
  ghost function Elements(p: RationalProgression): (e: seq<Rational>)
    requires p.Valid() && Reachable(p)
    ensures forall i | 0 <= i < |e| :: e[i].Valid()
  {
    if IsEmpty(p) then [] else Walk(p.first, p.step, StepCount(p) + 1)
  }

  /** A progression whose last is n steps from first yields the walk of n + 1 values. */
  lemma ElementsOfWalk(p: RationalProgression, n: nat)
    requires p.Valid() && ReachesIn(p.first, p.last, p.step, n)
    ensures Reachable(p) && Elements(p) == Walk(p.first, p.step, n + 1)
  {
    ReachesAhead(p.first, p.last, p.step, n);
    ReachesUnique(p.first, p.last, p.step, StepCount(p), n);
  }

  /**
    * What iterating a reachable progression yields: nothing exactly when it is empty; otherwise
    * first and last at the ends, strictly monotone in the direction of the step, each value
    * between first and last.
    */
  lemma ElementsSpan(p: RationalProgression)
    requires p.Valid() && Reachable(p)
    ensures Elements(p) == [] <==> IsEmpty(p)
    ensures !IsEmpty(p) ==> Elements(p)[0] == p.first && Elements(p)[|Elements(p)| - 1] == p.last
    ensures forall i, j | 0 <= i < j < |Elements(p)| ::
      if p.step.numerator > 0 then Value(Elements(p)[i]) < Value(Elements(p)[j])
      else Value(Elements(p)[i]) > Value(Elements(p)[j])
    ensures forall i | 0 <= i < |Elements(p)| ::
      if p.step.numerator > 0 then Value(p.first) <= Value(Elements(p)[i]) <= Value(p.last)
      else Value(p.last) <= Value(Elements(p)[i]) <= Value(p.first)
  {
    if !IsEmpty(p) {
      var n := StepCount(p);
      assert Elements(p) == Walk(p.first, p.step, n + 1);
      WalkSpan(p.first, p.last, p.step, n);
    }
  }

  // ---------------------------------------------------------------------------------------
  // RationalRange (RationalRange.kt lines 62-102; rangeTo at Rational.kt line 69).

  datatype RationalRange = RationalRange(first: Rational, last: Rational)

  /** 1/d is canonical for a positive d, so the constructor returns it unchanged. */
  lemma UnitFraction(d: int)
    requires d > 0
    ensures Canonicalize(1, d) == Rational(1, d)
  {
    GcdOneLeft(d);
    CanonicalUnique(Canonicalize(1, d), Rational(1, d));
  }

  /**
    * findStep: 1 over the common denominator transformRationalsToSameDenominator chooses, that
    * is 1/start.denominator when the denominators agree and 1/(start.denominator *
    * end.denominator) otherwise. It is always positive.
    */
  function FindStep(a: Rational, b: Rational): (s: Rational)
    requires a.Valid() && b.Valid()
    ensures s.Valid() && s.numerator == 1
    ensures s.denominator == if a.denominator == b.denominator then a.denominator else a.denominator * b.denominator
  {
    var d := Align(a, b).value.0.1;
    UnitFraction(d);
    Canonicalize(1, d)
  }

  /** Over one positive denominator, the order of the fractions is the order of the numerators. */
  lemma FracOrder(n1: int, n2: int, d: int)
    requires d > 0
    ensures Frac(n1, d) <= Frac(n2, d) <==> n1 <= n2
  {
    FracAdd(n2, n1, d);
    FracSign(n2 - n1, d);
  }

  /** A range with first <= last reaches last from first in whole steps of findStep. */
  lemma RangeReachable(a: Rational, b: Rational)
    requires a.Valid() && b.Valid() && Value(a) <= Value(b)
    ensures exists n: nat :: ReachesIn(a, b, FindStep(a, b), n)
  {
    var aligned := Align(a, b).value;
    var n1, n2, d := aligned.0.0, aligned.1.0, aligned.0.1;
    CanonicalUnique(Canonicalize(n1, d), a);
    CanonicalUnique(Canonicalize(n2, d), b);
    FracOrder(n1, n2, d);
    StepWalk(n1, 1, n2 - n1, d);
    assert ReachesIn(a, b, FindStep(a, b), n2 - n1);
  }

  /** The progression a range is: from first to last in steps of findStep, always reachable. */
  function AsProgression(r: RationalRange): (p: RationalProgression)
    requires r.first.Valid() && r.last.Valid()
    ensures p.Valid() && p.step.numerator > 0 && Reachable(p)
    ensures p.first == r.first && p.last == r.last
  {
    var p := RationalProgression(r.first, r.last, FindStep(r.first, r.last));
    if Value(r.first) <= Value(r.last) then
      RangeReachable(r.first, r.last);
      p
    else
      p
  }

  /**
    * rangeTo, the RationalRange constructor: a progression with step findStep(start,
    * endInclusive), whose last element is endInclusive since the step is positive.
    */
  function RangeTo(a: Rational, b: Rational): (r: RationalRange)
    requires a.Valid() && b.Valid()
    ensures r.first == a && r.last == b
    ensures FromClosedRange(a, b, FindStep(a, b)) == Ok(AsProgression(r))
  {
    RangeLastIsEnd(a, b);
    var p := FromClosedRange(a, b, FindStep(a, b)).value;
    RationalRange(p.first, p.last)
  }

  /** endInclusive lies on the findStep grid from start, so the corrected last element is endInclusive. */
  lemma RangeLastIsEnd(a: Rational, b: Rational)
    requires a.Valid() && b.Valid()
    ensures GridLastElement(a, b, FindStep(a, b)) == Ok(b)
  {
    if Value(a) <= Value(b) {
      RangeReachable(a, b);
      var n: nat :| ReachesIn(a, b, FindStep(a, b), n);
      GridLastOnGrid(a, b, FindStep(a, b), n);
    }
  }

  /** contains: first <= value <= last under compareTo, which is the order of the values. */
  function Contains(r: RationalRange, value: Rational): (b: bool)
    requires r.first.Valid() && r.last.Valid() && value.Valid()
    ensures b <==> Value(r.first) <= Value(value) <= Value(r.last)
  {
    CompareTo(r.first, value) <= 0 && CompareTo(value, r.last) <= 0
  }

  /** Every value iterating a range yields is contained in it, and a non-empty range yields both ends. */
  lemma RangeElementsContained(r: RationalRange)
    requires r.first.Valid() && r.last.Valid()
    ensures var e := Elements(AsProgression(r));
      (forall i | 0 <= i < |e| :: e[i].Valid() && Contains(r, e[i])) &&
      (Value(r.first) <= Value(r.last) ==> e[0] == r.first && e[|e| - 1] == r.last)
  {
    ElementsSpan(AsProgression(r));
  }

  /** isEmpty for a range: first > last; then iterating yields nothing. */
  function RangeIsEmpty(r: RationalRange): (b: bool)
    requires r.first.Valid() && r.last.Valid()
    ensures b <==> Value(r.first) > Value(r.last)
    ensures b <==> IsEmpty(AsProgression(r))
  {
    CompareTo(r.first, r.last) > 0
  }

  /** An empty range yields nothing and a non-empty one yields something. */
  lemma RangeIsEmptyIteration(r: RationalRange)
    requires r.first.Valid() && r.last.Valid()
    ensures RangeIsEmpty(r) <==> Elements(AsProgression(r)) == []
  {
    ElementsSpan(AsProgression(r));
  }

  /**
    * endExclusive: last + 1/first.denominator. Every contained value lies below it, though
    * values between last and endExclusive are not contained.
    */
  function EndExclusive(r: RationalRange): (e: Rational)
    requires r.first.Valid() && r.last.Valid()
    ensures e.Valid() && Value(e) == Value(r.last) + Frac(1, r.first.denominator)
    ensures forall v: Rational | v.Valid() && Contains(r, v) :: Value(v) < Value(e)
  {
    var unit := Canonicalize(1, r.first.denominator);
    FracSign(1, r.first.denominator);
    Plus(r.last, unit)
  }

  // ---------------------------------------------------------------------------------------
  // RationalProgressionIterator (RationalRange.kt lines 104-133).

  class RationalProgressionIterator {
    const step: Rational
    const finalElement: Rational
    var hasNext: bool
    var next: Rational
    /** The values still to come, in order. */
    ghost var Remaining: seq<Rational>
    /** How many additions of step take next to finalElement. */
    ghost var Left: nat

    ghost predicate Valid()
      reads this
    {
      step.Valid() && step.numerator != 0 && finalElement.Valid() && next.Valid() &&
      (hasNext ==> ReachesIn(next, finalElement, step, Left) && Remaining == Walk(next, step, Left + 1)) &&
      (!hasNext ==> next == finalElement && Remaining == [])
    }

    /**
      * Starts at first when the progression is non-empty; over an empty progression hasNext
      * starts false. The iterator will yield exactly Elements of the progression.
      */
    constructor (first: Rational, last: Rational, step: Rational)
      requires RationalProgression(first, last, step).Valid() && Reachable(RationalProgression(first, last, step))
      ensures Valid() && this.step == step && finalElement == last
      ensures Remaining == Elements(RationalProgression(first, last, step))
      ensures hasNext <==> !IsEmpty(RationalProgression(first, last, step))
    {
      this.step := step;
      finalElement := last;
      var nonEmpty := if step.numerator > 0 then CompareTo(first, last) <= 0 else CompareTo(first, last) >= 0;
      hasNext := nonEmpty;
      next := if nonEmpty then first else last;
      var p := RationalProgression(first, last, step);
      Remaining := Elements(p);
      Left := if nonEmpty then StepCount(p) else 0;
    }

    /** hasNext(): whether any value is left. */
    function HasNext(): (b: bool)
      reads this
      requires Valid()
      ensures b <==> Remaining != []
    {
      hasNext
    }

    /**
      * nextRational(): returns the current value; moves on by step unless that value is
      * finalElement, after which the iterator is exhausted. A further call throws
      * NoSuchElementException without changing anything.
      */
    method NextRational() returns (r: Result<Rational>)
      requires Valid()
      modifies this
      ensures Valid()
      ensures old(Remaining) == [] ==> r == Err(NoSuchElement) && unchanged(this)
      ensures old(Remaining) != [] ==> r == Ok(old(Remaining)[0]) && Remaining == old(Remaining)[1..]
    {
      var value := next;
      if value == finalElement {
        if !hasNext {
          return Err(NoSuchElement);
        }
        ReachesUnique(next, finalElement, step, Left, 0);
        hasNext := false;
        Remaining := [];
        Left := 0;
      } else {
        next := Plus(next, step);
        Remaining := Remaining[1..];
        Left := Left - 1;
      }
      r := Ok(value);
    }
  }

  /**
    * A for-loop over a reachable progression: pull values while hasNext() holds. The loop
    * ends, and it sees exactly Elements(p).
    */
  method ForEach(p: RationalProgression) returns (seen: seq<Rational>)
    requires p.Valid() && Reachable(p)
    ensures seen == Elements(p)
  {
    var it := new RationalProgressionIterator(p.first, p.last, p.step);
    seen := [];
    while it.HasNext()
      invariant it.Valid() && seen + it.Remaining == Elements(p)
      decreases |it.Remaining|
    {
      var x := it.NextRational();
      seen := seen + [x.value];
    }
  }

  // ---------------------------------------------------------------------------------------
  // Examples and the negative-step last element.

  /** A value strictly between the ends of a range over one denominator is in it. */
  lemma InRangeSameDenominator()
    ensures Contains(RangeTo(Rational(1, 5), Rational(3, 5)), Rational(2, 5))
  {
  }

  /** A value above the upper end of a range over one denominator is not in it. */
  lemma OutOfRangeSameDenominator()
    ensures !Contains(RangeTo(Rational(1, 5), Rational(3, 5)), Rational(4, 5))
  {
  }

  /** Containment compares values, whatever the denominators of the ends. */
  lemma InRangeDifferentDenominator()
    ensures Contains(RangeTo(Rational(1, 3), Rational(5, 7)), Rational(1, 2))
  {
  }

  /** A value above the upper end is outside, whatever the denominators. */
  lemma OutOfRangeDifferentDenominator()
    ensures !Contains(RangeTo(Rational(1, 3), Rational(4, 7)), Rational(8, 9))
  {
  }

  /** One half lies between one third and two thirds. */
  lemma HalfBetweenThirds()
    ensures Contains(RangeTo(Rational(1, 3), Rational(2, 3)), Rational(1, 2))
  {
  }

  /**
    * As written, the progression from 1 down to 0 in steps of -1/2 gets 1 as its last element,
    * so iterating it yields 1 alone.
    */
  lemma DownToAsWritten()
    ensures LastElementAsWritten(Rational(1, 1), Rational(0, 1), Rational(-1, 2)) == Ok(Rational(1, 1))
    ensures var p := RationalProgression(Rational(1, 1), Rational(1, 1), Rational(-1, 2));
      p.Valid() && Reachable(p) && Elements(p) == [Rational(1, 1)]
  {
    var p := RationalProgression(Rational(1, 1), Rational(1, 1), Rational(-1, 2));
    assert p.Valid();
    assert ReachesIn(p.first, p.last, p.step, 0);
    ReachesUnique(p.first, p.last, p.step, StepCount(p), 0);
  }

  /**
    * With the last element on the grid, the progression from 1 down to 0 in steps of -1/2 ends
    * at 0, which is on the grid, and yields 1, 1/2, 0.
    */
  lemma DownToCorrected()
    ensures var p := FromClosedRange(Rational(1, 1), Rational(0, 1), Rational(-1, 2));
      p.Ok? && p.value.last == Rational(0, 1) && Reachable(p.value) &&
      Elements(p.value) == [Rational(1, 1), Rational(1, 2), Rational(0, 1)]
  {
    var one, zero, step := Rational(1, 1), Rational(0, 1), Rational(-1, 2);
    assert step.Valid();
    DownToReaches();
    OnGridProgression(one, zero, step, 2);
    ElementsOfWalk(RationalProgression(one, zero, step), 2);
    DownToWalk();
  }

  /** From 1, two steps of -1/2 reach 0. */
  lemma DownToReaches()
    ensures ReachesIn(Rational(1, 1), Rational(0, 1), Rational(-1, 2), 2)
  {
    HalfSteps();
  }

  /** The walk of three values from 1 in steps of -1/2 is 1, 1/2, 0. */
  lemma DownToWalk()
    ensures Walk(Rational(1, 1), Rational(-1, 2), 3) == [Rational(1, 1), Rational(1, 2), Rational(0, 1)]
  {
    var one, half, zero, step := Rational(1, 1), Rational(1, 2), Rational(0, 1), Rational(-1, 2);
    HalfSteps();
    assert Walk(one, step, 3) == [one] + Walk(half, step, 2);
    assert Walk(half, step, 2) == [half] + Walk(zero, step, 1);
  }

  /** 1 - 1/2 = 1/2 and 1/2 - 1/2 = 0, as canonical Rationals. */
  lemma HalfSteps()
    ensures Plus(Rational(1, 1), Rational(-1, 2)) == Rational(1, 2)
    ensures Plus(Rational(1, 2), Rational(-1, 2)) == Rational(0, 1)
  {
    assert Rational(1, 2).Valid() && Rational(-1, 2).Valid() && Rational(0, 1).Valid();
    CanonicalUnique(Plus(Rational(1, 1), Rational(-1, 2)), Rational(1, 2));
    CanonicalUnique(Plus(Rational(1, 2), Rational(-1, 2)), Rational(0, 1));
  }

  /** n copies of t added up. */
  function Repeated(t: real, n: nat): real
    decreases n
  {
    if n == 0 then 0.0 else t + Repeated(t, n - 1)
  }

  /** n copies of t add up to n times t. */
  lemma {:induction false} RepeatedIsProduct(t: real, n: nat)
    ensures Repeated(t, n) == n as real * t
    decreases n
  {
    if n > 0 {
      RepeatedIsProduct(t, n - 1);
      assert n as real * t == (n - 1) as real * t + t;
    }
  }

  /** Moving n steps adds n times the step. */
  lemma {:induction false} ReachesValue(x: Rational, last: Rational, step: Rational, n: nat)
    requires x.Valid() && last.Valid() && step.Valid()
    requires ReachesIn(x, last, step, n)
    ensures Value(last) == Value(x) + n as real * Value(step)
  {
    ReachesSum(x, last, step, n);
    RepeatedIsProduct(Value(step), n);
  }

  /** Moving n steps adds n copies of the step. */
  lemma {:induction false} ReachesSum(x: Rational, last: Rational, step: Rational, n: nat)
    requires x.Valid() && last.Valid() && step.Valid()
    requires ReachesIn(x, last, step, n)
    ensures Value(last) == Value(x) + Repeated(Value(step), n)
    decreases n
  {
    if n > 0 {
      ReachesSum(Plus(x, step), last, step, n - 1);
    }
  }

  /**
    * As written, the progression 0..1 step 2/3 keeps 1 as its last element. From 0 in steps of
    * 2/3 the values never meet 1, so it is not reachable: the source's iterator over it never
    * sees its finalElement and does not stop.
    */
  lemma UnreachableEnd()
    ensures LastElementAsWritten(Rational(0, 1), Rational(1, 1), Rational(2, 3)) == Ok(Rational(1, 1))
    ensures var p := RationalProgression(Rational(0, 1), Rational(1, 1), Rational(2, 3));
      p.Valid() && !IsEmpty(p) && !Reachable(p)
  {
    assert Rational(2, 3).Valid();
    forall n: nat
      ensures !ReachesIn(Rational(0, 1), Rational(1, 1), Rational(2, 3), n)
    {
      NeverReachesOne(n);
    }
  }

  /** No whole number of steps of 2/3 from 0 lands on 1. */
  lemma NeverReachesOne(n: nat)
    ensures !ReachesIn(Rational(0, 1), Rational(1, 1), Rational(2, 3), n)
  {
    var zero, one, step := Rational(0, 1), Rational(1, 1), Rational(2, 3);
    assert step.Valid() && Value(step) == 2.0 / 3.0;
    if ReachesIn(zero, one, step, n) {
      ReachesValue(zero, one, step, n);
    }
  }

  /**
    * With the last element on the grid, the progression 0..1 step 2/3 ends at 2/3, the last
    * value not beyond 1, and yields 0, 2/3.
    */
  lemma UnreachableEndCorrected()
    ensures var p := FromClosedRange(Rational(0, 1), Rational(1, 1), Rational(2, 3));
      p.Ok? && p.value.last == Rational(2, 3) && Reachable(p.value) &&
      Elements(p.value) == [Rational(0, 1), Rational(2, 3)]
  {
    var zero, one, step := Rational(0, 1), Rational(1, 1), Rational(2, 3);
    assert step.Valid() && Value(step) == 2.0 / 3.0;
    var p := FromClosedRange(zero, one, step).value;
    var n := StepCount(p);
    ReachesValue(zero, p.last, step, n);
    assert n == 1;
    CanonicalUnique(p.last, step);
    CanonicalUnique(Plus(zero, step), step);
    assert Walk(zero, step, 2) == [zero] + Walk(step, step, 1);
  }
}
