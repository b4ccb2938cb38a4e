/**
  * Stepped progressions, closed ranges and their iterator over arbitrary-precision integers
  * (rationals/BigIntegerRange.kt).
  *
  * A progression keeps first, step and a computed last: the last value reachable from first by
  * whole steps without passing the requested end. Elements(p) is the sequence a for-loop over
  * the progression sees; the iterator class is specified against it.
  */
module IntegerRanges {
  import opened Numbers
  import opened Failures

  /**
    * differenceModulo: (a mod c - b mod c) mod c. BigInteger.mod is never negative for a
    * positive modulus, like Dafny's `%`. The result is a - b reduced into [0, c).
    */
  function DifferenceModulo(a: int, b: int, c: int): (r: int)
    requires c > 0
    ensures 0 <= r < c
    ensures (a - b - r) % c == 0
  {
    var x := a % c - b % c;
    var r := x % c;
    assert a - b - r == c * (a / c - b / c + x / c);
    MulDiv(c, a / c - b / c + x / c);
    r
  }

  /**
    * getProgressionLastElement: for a positive step, end itself when start >= end, otherwise
    * the last value at or below end reached from start in whole steps; mirrored for a negative
    * step. A zero step is an error.
    */
  function ProgressionLastElement(start: int, end: int, step: int): (r: Result<int>)
    ensures r.Ok? <==> step != 0
    ensures r.Err? ==> r.error == ZeroStep
    ensures step > 0 && start >= end ==> r == Ok(end)
    ensures step > 0 && start < end ==>
      start <= r.value <= end && (r.value - start) % step == 0 && end - r.value < step
    ensures step < 0 && start <= end ==> r == Ok(end)
    ensures step < 0 && start > end ==>
      end <= r.value <= start && (start - r.value) % (-step) == 0 && r.value - end < -step
  {
    if step > 0 then
      if start >= end then Ok(end)
      else
        var last := end - DifferenceModulo(end, start, step);
        MultipleAboveNegative(last - start, step);
        Ok(last)
    else if step < 0 then
      if start <= end then Ok(end)
      else
        var last := end + DifferenceModulo(start, end, -step);
        MultipleAboveNegative(start - last, -step);
        Ok(last)
    else
      Err(ZeroStep)
  }

  datatype IntProgression = IntProgression(first: int, last: int, step: int) {
    /** What construction guarantees: a non-zero step, and last reachable from first when there is anything to reach. */
    predicate Valid() {
      step != 0 && (!IsEmpty(this) ==> Abs(last - first) % Abs(step) == 0)
    }
  }

  /**
    * isEmpty: first already past last in the direction of the step. A progression whose ends
    * meet is never empty; ElementsSpan shows that empty means iteration yields nothing.
    */
  function IsEmpty(p: IntProgression): (b: bool)
    ensures p.first == p.last ==> !b
  {
    if p.step > 0 then p.first > p.last else p.first < p.last
  }

  /**
    * The constructor (and fromClosedRange): rejects a zero step, keeps start as first, and
    * stores the computed last element.
    */
  function FromClosedRange(start: int, end: int, step: int): (r: Result<IntProgression>)
    ensures step == 0 ==> r == Err(ZeroStep)
    ensures step != 0 ==> r.Ok? && r.value.Valid() && r.value.first == start && r.value.step == step
    ensures step != 0 ==> (IsEmpty(r.value) <==> (step > 0 && start > end) || (step < 0 && start < end))
    ensures step > 0 && !IsEmpty(r.value) ==> start <= r.value.last <= end && end - r.value.last < step
    ensures step < 0 && !IsEmpty(r.value) ==> end <= r.value.last <= start && r.value.last - end < -step
  {
    match ProgressionLastElement(start, end, step)
    case Err(e) => Err(e)
    case Ok(last) => Ok(IntProgression(start, last, step))
  }

  /** How many values the progression yields. */
  function Count(p: IntProgression): nat
    requires p.step != 0
  {
    if IsEmpty(p) then 0 else Abs(p.last - p.first) / Abs(p.step) + 1
  }

  /** The values a for-loop over the progression sees: first, first + step, ..., last. */
  function Elements(p: IntProgression): seq<int>
    requires p.step != 0
  {
    seq(Count(p), i => p.first + i * p.step)
  }

  /** In a valid non-empty progression, last is first plus a whole number of steps. */
  lemma LastIsReached(p: IntProgression)
    requires p.Valid() && !IsEmpty(p)
    ensures p.last - p.first == (Count(p) - 1) * p.step
  {
    var k := Abs(p.last - p.first) / Abs(p.step);
    assert Abs(p.last - p.first) == Abs(p.step) * k;
    if p.step > 0 {
      assert p.last - p.first == p.step * k;
    } else {
      assert p.first - p.last == (-p.step) * k;
    }
  }

  /** A valid non-empty progression yields first, then what the progression from first + step yields. */
  lemma ElementsUncons(p: IntProgression)
    requires p.Valid() && !IsEmpty(p) && p.first != p.last
    ensures var rest := IntProgression(p.first + p.step, p.last, p.step);
            rest.Valid() && !IsEmpty(rest) && Elements(p) == [p.first] + Elements(rest)
  {
    var rest := IntProgression(p.first + p.step, p.last, p.step);
    LastIsReached(p);
    var k := Count(p) - 1;
    RestOfProgression(p, k);
    forall i | 0 <= i < k
      ensures Elements(rest)[i] == Elements(p)[i + 1]
    {
      assert rest.first + i * p.step == p.first + (i + 1) * p.step;
    }
  }

  /** A progression k >= 1 steps long, less its first value, is a valid non-empty progression k - 1 steps long. */
  lemma RestOfProgression(p: IntProgression, k: int)
    requires p.step != 0 && k >= 1 && p.last - p.first == k * p.step
    ensures var rest := IntProgression(p.first + p.step, p.last, p.step);
            rest.Valid() && !IsEmpty(rest) && Count(rest) == k
  {
    var rest := IntProgression(p.first + p.step, p.last, p.step);
    assert rest.last - rest.first == (k - 1) * p.step;
    if p.step > 0 {
      MulAtLeast(p.step, k);
      assert (k - 1) * p.step >= 0;
    } else {
      MulAtLeast(-p.step, k);
      assert (k - 1) * (-p.step) >= 0;
    }
    AbsMul(k - 1, p.step);
    MulDiv(Abs(p.step), k - 1);
    assert Abs(rest.last - rest.first) == Abs(p.step) * (k - 1);
  }

  /**
    * What iterating a valid progression yields: nothing exactly when it is empty; otherwise
    * first and last at the ends, every value between them, and strictly monotone in the
    * direction of the step, so each value appears once.
    */
  lemma ElementsSpan(p: IntProgression)
    requires p.Valid()
    ensures Elements(p) == [] <==> IsEmpty(p)
    ensures !IsEmpty(p) ==> Elements(p)[0] == p.first && Elements(p)[|Elements(p)| - 1] == p.last
    ensures forall i, j | 0 <= i < j < |Elements(p)| ::
      if p.step > 0 then Elements(p)[i] < Elements(p)[j] else Elements(p)[i] > Elements(p)[j]
    ensures forall i | 0 <= i < |Elements(p)| ::
      if p.step > 0 then p.first <= Elements(p)[i] <= p.last else p.last <= Elements(p)[i] <= p.first
  {
    var e := Elements(p);
    if !IsEmpty(p) {
      LastIsReached(p);
      var n := |e|;
      forall i, j | 0 <= i < j < n
        ensures if p.step > 0 then e[i] < e[j] else e[i] > e[j]
      {
        StepsMove(p.first, p.step, i, j);
      }
      forall i | 0 <= i < n
        ensures if p.step > 0 then p.first <= e[i] <= p.last else p.last <= e[i] <= p.first
      {
        StepsMove(p.first, p.step, 0, i);
        StepsMove(p.first, p.step, i, n - 1);
      }
    }
  }

  /** Taking more whole steps moves further in the direction of the step. */
  lemma StepsMove(first: int, step: int, i: int, j: int)
    requires step != 0 && 0 <= i <= j
    ensures step > 0 ==> first + i * step <= first + j * step
    ensures step < 0 ==> first + i * step >= first + j * step
    ensures i < j && step > 0 ==> first + i * step < first + j * step
    ensures i < j && step < 0 ==> first + i * step > first + j * step
  {
    assert first + j * step - (first + i * step) == (j - i) * step;
    if i < j {
      if step > 0 {
        MulAtLeast(step, j - i);
      } else {
        MulAtLeast(-step, j - i);
        assert (j - i) * (-step) == -((j - i) * step);
      }
    }
  }

  // ---------------------------------------------------------------------------------------
  // BigIntegerRange: the progression with step 1 (BigIntegerRange.kt lines 63-96).

  datatype IntRange = IntRange(first: int, last: int)

  /** The progression a range is: the same ends and step 1. */
  function AsProgression(r: IntRange): (p: IntProgression)
    ensures p.Valid()
  {
    IntProgression(r.first, r.last, 1)
  }

  /** BigIntegerRange(start, endInclusive): a step-1 progression, whose computed last is always endInclusive. */
  function MakeRange(start: int, endInclusive: int): (r: IntRange)
    ensures r.first == start && r.last == endInclusive
  {
    var p := FromClosedRange(start, endInclusive, 1).value;
    IntRange(p.first, p.last)
  }

  /** contains: first <= value <= last, which is exactly the values iterating the range yields. */
  function Contains(r: IntRange, value: int): (b: bool)
    ensures b <==> value in Elements(AsProgression(r))
  {
    var e := Elements(AsProgression(r));
    if r.first <= value <= r.last then
      assert e[value - r.first] == value;
      true
    else
      false
  }

  /** isEmpty for a range: first > last, the step-1 progression's emptiness; then nothing is iterated. */
  function RangeIsEmpty(r: IntRange): (b: bool)
    ensures b <==> IsEmpty(AsProgression(r))
    ensures b <==> Elements(AsProgression(r)) == []
  {
    r.first > r.last
  }

  /** endExclusive: last + 1, the least value above the range. */
  function EndExclusive(r: IntRange): (e: int)
    ensures forall v :: Contains(r, v) <==> r.first <= v < e
  {
    r.last + 1
  }

  // ---------------------------------------------------------------------------------------
  // BigIntegerProgressionIterator (BigIntegerRange.kt lines 117-139).

  class IntProgressionIterator {
    const step: int
    const finalElement: int
    var hasNext: bool
    var next: int
    /** The values still to come, in order. */
    ghost var Remaining: seq<int>

    ghost predicate Valid()
      reads this
    {
      step != 0 &&
      (hasNext ==>
        var rest := IntProgression(next, finalElement, step);
        rest.Valid() && !IsEmpty(rest) && Remaining == Elements(rest)) &&
      (!hasNext ==> next == finalElement && Remaining == [])
    }

    /**
      * Starts at first when the progression is non-empty; an iterator over an empty progression
      * starts with hasNext false. It will yield exactly Elements of the progression.
      */
    constructor (first: int, last: int, step: int)
      requires IntProgression(first, last, step).Valid()
      ensures Valid() && this.step == step && finalElement == last
      ensures Remaining == Elements(IntProgression(first, last, step))
      ensures hasNext <==> !IsEmpty(IntProgression(first, last, step))
    {
      this.step := step;
      finalElement := last;
      var nonEmpty := if step > 0 then first <= last else first >= last;
      hasNext := nonEmpty;
      next := if nonEmpty then first else last;
      Remaining := Elements(IntProgression(first, last, step));
    }

    /** hasNext(): whether any value is left. */
    function HasNext(): (b: bool)
      reads this
      requires Valid()
      ensures b <==> Remaining != []
    {
      hasNext
    }

    /**
      * nextBigInteger(): returns the current value and advances by step; after returning
      * finalElement the iterator is exhausted, and a further call throws NoSuchElementException
      * without changing anything.
      */
    method NextBigInteger() returns (r: Result<int>)
      requires Valid()
      modifies this
      ensures Valid()
      ensures old(Remaining) == [] ==> r == Err(NoSuchElement) && unchanged(this)
      ensures old(Remaining) != [] ==> r == Ok(old(Remaining)[0]) && Remaining == old(Remaining)[1..]
    {
      var value := next;
      if value == finalElement {
        if !hasNext {
          return Err(NoSuchElement);
        }
        hasNext := false;
        Remaining := [];
      } else {
        ElementsUncons(IntProgression(next, finalElement, step));
        next := next + step;
        Remaining := Remaining[1..];
      }
      r := Ok(value);
    }
  }

  /**
    * A for-loop over a progression: pull values while hasNext() holds. The loop ends, and it
    * sees exactly Elements(p), the values from first to last in whole steps.
    */
  method ForEach(p: IntProgression) returns (seen: seq<int>)
    requires p.Valid()
    ensures seen == Elements(p)
  {
    var it := new IntProgressionIterator(p.first, p.last, p.step);
    seen := [];
    while it.HasNext()
      invariant it.Valid() && seen + it.Remaining == Elements(p)
      decreases |it.Remaining|
    {
      var x := it.NextBigInteger();
      seen := seen + [x.value];
    }
  }
}
