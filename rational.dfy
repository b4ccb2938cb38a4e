/**
  * Exact rational numbers kept in one canonical form (rationals/Rational.kt).
  *
  * A Rational is an immutable numerator/denominator pair. The constructor rejects a zero
  * denominator, strips the largest common power of ten, divides out the gcd and moves the
  * sign onto the numerator, so every value the library hands out is Valid(): positive
  * denominator, lowest terms. Value() gives the number a pair stands for; the arithmetic is
  * specified against it, and canonical pairs are equal exactly when their values are.
  */
module Rationals {
  import opened Numbers
  import opened Failures
  import opened Decimal

  datatype Rational = Rational(numerator: int, denominator: int) {
    /** The canonical form the constructor establishes (Rational.kt lines 10-17). */
    predicate Valid() {
      denominator > 0 && Gcd(Abs(numerator), denominator) == 1
    }
  }

  /** The number n/d. */
  function Frac(n: int, d: int): real
    requires d != 0
  {
    n as real / d as real
  }

  /** The number a stored pair stands for. */
  function Value(r: Rational): real
    requires r.denominator != 0
  {
    Frac(r.numerator, r.denominator)
  }

  // ---------------------------------------------------------------------------------------
  // Facts linking the integer pairs with the numbers they stand for.

  lemma FracCross(n1: int, d1: int, n2: int, d2: int)
    requires d1 != 0 && d2 != 0
    ensures Frac(n1, d1) == Frac(n2, d2) <==> n1 * d2 == n2 * d1
  {
    assert (n1 * d2) as real == n1 as real * d2 as real;
    assert (n2 * d1) as real == n2 as real * d1 as real;
  }

  lemma FracScale(n: int, d: int, k: int)
    requires d != 0 && k != 0
    ensures d * k != 0 && Frac(n * k, d * k) == Frac(n, d)
  {
    assert (n * k) * d == n * (d * k);
    FracCross(n * k, d * k, n, d);
  }

  lemma FracMul(n1: int, d1: int, n2: int, d2: int)
    requires d1 != 0 && d2 != 0
    ensures d1 * d2 != 0 && Frac(n1 * n2, d1 * d2) == Frac(n1, d1) * Frac(n2, d2)
  {
    assert (n1 * n2) as real == n1 as real * n2 as real;
    assert (d1 * d2) as real == d1 as real * d2 as real;
  }

  lemma FracSign(n: int, d: int)
    requires d > 0
    ensures (Frac(n, d) < 0.0 <==> n < 0) && (Frac(n, d) == 0.0 <==> n == 0)
  {
  }

  // ---------------------------------------------------------------------------------------
  // Canonicalisation (Rational.kt lines 72-96).

  /**
    * checkDivsByTenTimes: the largest power of ten dividing both n and d, and whether it is
    * more than 1. BigInteger.remainder truncates, but a remainder is zero under truncation
    * exactly when it is zero under Dafny's Euclidean `%`. The loop stops because a non-zero
    * d has only finitely many power-of-ten divisors.
    */
  method CheckDivsByTenTimes(n: int, d: int) returns (divisible: bool, factor: int)
    requires d != 0
    ensures factor > 0 && IsPowerOfTen(factor)
    ensures n % factor == 0 && d % factor == 0
    ensures !(n % (10 * factor) == 0 && d % (10 * factor) == 0)
    ensures divisible <==> factor > 1
  {
    var tenFactor := 10;
    divisible := false;
    while n % tenFactor == 0 && d % tenFactor == 0
      invariant tenFactor >= 10 && tenFactor % 10 == 0 && IsPowerOfTen(tenFactor / 10)
      invariant n % (tenFactor / 10) == 0 && d % (tenFactor / 10) == 0
      invariant divisible <==> tenFactor > 10
      decreases Abs(d) - tenFactor
    {
      DivisorBound(d, tenFactor);
      divisible := true;
      tenFactor := tenFactor * 10;
    }
    factor := tenFactor / 10;
  }

  /**
    * The pair getSimplified returns, defined by gcd reduction alone: (1, 1) when n == d,
    * otherwise n and d divided by gcd(|n|, |d|). The sign is not normalised yet.
    */
  function Reduced(n: int, d: int): (r: (int, int))
    requires d != 0
    ensures r.1 != 0 && Gcd(Abs(r.0), Abs(r.1)) == 1
    ensures r.0 * d == n * r.1
  {
    if n == d then
      GcdOneLeft(1);
      (1, 1)
    else
      DivideOutGcd(n, d);
      var g := Gcd(Abs(n), Abs(d));
      CrossAfterDividing(n / g, d / g, g);
      (n / g, d / g)
  }

  lemma CrossAfterDividing(p: int, q: int, g: int)
    ensures p * (q * g) == (p * g) * q
  {
  }

  /** Dividing n and d by a common factor first does not change the reduced pair. */
  lemma StripCommonFactor(n: int, d: int, f: int)
    requires d != 0 && f > 0 && n % f == 0 && d % f == 0
    ensures d / f != 0 && Reduced(n / f, d / f) == Reduced(n, d)
  {
    var n', d' := n / f, d / f;
    assert n == f * n' && d == f * d';
    if n' != d' {
      ReduceScaled(n', d', f);
    }
  }

  /** Scaling a pair that is not n/n by f > 0 does not change its reduction. */
  lemma ReduceScaled(p: int, q: int, f: int)
    requires q != 0 && f > 0 && p != q
    ensures f * q != 0 && Reduced(f * p, f * q) == Reduced(p, q)
  {
    if f * p == f * q {
      CancelPositive(p, q, f);
    }
    DivideOutGcd(p, q);
    var g' := Gcd(Abs(p), Abs(q));
    GcdOfMultiples(p, q, f);
    QuotientOfMultiple(p, g', f);
    QuotientOfMultiple(q, g', f);
  }

  lemma GcdOfMultiples(x: int, y: int, f: int)
    requires f > 0
    ensures Gcd(Abs(f * x), Abs(f * y)) == f * Gcd(Abs(x), Abs(y))
  {
    AbsMul(f, x);
    AbsMul(f, y);
    GcdScale(Abs(x), Abs(y), f);
  }

  /** If g divides x, then f*x divided by f*g is x divided by g. */
  lemma QuotientOfMultiple(x: int, g: int, f: int)
    requires f > 0 && g > 0 && x % g == 0
    ensures f * g > 0 && (f * x) / (f * g) == x / g
  {
    var p := x / g;
    assert x == g * p;
    assert f * x == (f * g) * p;
    MulAtLeast(f, g);
    MulDiv(f * g, p);
  }

  /**
    * getSimplified: strip the common power of ten, return (1, 1) if what is left is n/n,
    * otherwise divide by the gcd. The result is the gcd-only reduction: the power-of-ten
    * step changes the speed, never the answer.
    */
  method GetSimplified(n: int, d: int) returns (num: int, den: int)
    requires d != 0
    ensures (num, den) == Reduced(n, d)
  {
    num, den := n, d;
    var divisible, factor := CheckDivsByTenTimes(n, d);
    if divisible {
      StripCommonFactor(n, d, factor);
      num := num / factor;
      den := den / factor;
    }
    if num == den {
      return 1, 1;
    }
    var g := Gcd(Abs(num), Abs(den));
    num, den := num / g, den / g;
  }

  /** The canonical Rational for n/d: the reduced pair with its sign moved onto the numerator. */
  function Canonicalize(n: int, d: int): (r: Rational)
    requires d != 0
    ensures r.Valid() && Value(r) == Frac(n, d)
    ensures n == 0 ==> r == Rational(0, 1)
  {
    var (p, q) := Reduced(n, d);
    SignMoved(n, d, p, q);
    if q > 0 then Rational(p, q) else Rational(-p, -q)
  }

  /** Moving the sign of a reduced pair onto its numerator gives a canonical pair of the same value. */
  lemma SignMoved(n: int, d: int, p: int, q: int)
    requires d != 0 && q != 0 && Gcd(Abs(p), Abs(q)) == 1 && p * d == n * q
    ensures var r := if q > 0 then Rational(p, q) else Rational(-p, -q);
            r.Valid() && Value(r) == Frac(n, d) && (n == 0 ==> r == Rational(0, 1))
  {
    var r := if q > 0 then Rational(p, q) else Rational(-p, -q);
    assert Abs(r.numerator) == Abs(p) && r.denominator == Abs(q);
    assert r.numerator * d == n * r.denominator;
    FracCross(r.numerator, r.denominator, n, d);
    if n == 0 {
      GcdZeroLeft(r.denominator);
    }
  }

  /**
    * The constructor Rational(n, d): fails on a zero denominator and otherwise yields the
    * canonical pair for n/d.
    */
  function Make(n: int, d: int): (r: Result<Rational>)
    ensures d == 0 ==> r == Err(InvalidDenominator)
    ensures d != 0 ==> r.Ok? && r.value.Valid() && Value(r.value) == Frac(n, d)
  {
    if d == 0 then Err(InvalidDenominator) else Ok(Canonicalize(n, d))
  }

  /** The constructor as the class runs it: the zero check, getSimplified, then the sign fix. */
  method Create(n: int, d: int) returns (r: Result<Rational>)
    ensures r == Make(n, d)
  {
    if d == 0 {
      return Err(InvalidDenominator);
    }
    var p, q := GetSimplified(n, d);
    r := Ok(Rational(if q > 0 then p else -p, if q > 0 then q else -q));
  }

  /** A canonical pair is determined by its value. */
  lemma CanonicalUnique(a: Rational, b: Rational)
    requires a.Valid() && b.Valid() && Value(a) == Value(b)
    ensures a == b
  {
    var an, ad, bn, bd := a.numerator, a.denominator, b.numerator, b.denominator;
    FracCross(an, ad, bn, bd);
    assert an * bd == bn * ad;
    AbsMul(an, bd);
    AbsMul(bn, ad);
    assert Abs(an) * bd == Abs(bn) * ad;
    MulDiv(ad, Abs(bn));
    MulDiv(bd, Abs(an));
    assert (Abs(an) * bd) % ad == 0;
    assert (Abs(bn) * ad) % bd == 0;
    Gauss(Abs(an), bd, ad);
    Gauss(Abs(bn), ad, bd);
    MutualDivisors(ad, bd);
    CancelPositive(an, bn, bd);
  }

  /** Constructing from n*k / d*k gives the same Rational as from n / d. */
  lemma MakeScaled(n: int, d: int, k: int)
    requires d != 0 && k != 0
    ensures d * k != 0 && Make(n * k, d * k) == Make(n, d)
  {
    FracScale(n, d, k);
    CanonicalUnique(Canonicalize(n * k, d * k), Canonicalize(n, d));
  }

  /** A pair that is already canonical comes back unchanged from the constructor. */
  lemma CanonicalizeCanonical(r: Rational)
    requires r.Valid()
    ensures Canonicalize(r.numerator, r.denominator) == r
  {
    CanonicalUnique(Canonicalize(r.numerator, r.denominator), r);
  }

  // ---------------------------------------------------------------------------------------
  // Equality (Rational.kt lines 20-21).

  /** Structural equality of canonical pairs is equality of the numbers they stand for. */
  lemma StructuralEqualityIsValueEquality(a: Rational, b: Rational)
    requires a.Valid() && b.Valid()
    ensures a == b <==> Value(a) == Value(b)
  {
    if Value(a) == Value(b) {
      CanonicalUnique(a, b);
    }
  }

  /** equals: numerators and denominators pairwise equal. */
  function Equals(a: Rational, b: Rational): (r: bool)
    requires a.Valid() && b.Valid()
    ensures r <==> Value(a) == Value(b)
  {
    StructuralEqualityIsValueEquality(a, b);
    a.numerator == b.numerator && a.denominator == b.denominator
  }

  // ---------------------------------------------------------------------------------------
  // Arithmetic (Rational.kt lines 36-58, 102-122).

  /** getFactorPairs: (1, 1) for equal denominators, otherwise each side scaled by the other's denominator. */
  function FactorPairs(a: Rational, b: Rational): (f: (int, int))
    requires a.Valid() && b.Valid()
    ensures f.0 > 0 && f.1 > 0 && a.denominator * f.0 == b.denominator * f.1
  {
    if a.denominator == b.denominator then (1, 1) else (b.denominator, a.denominator)
  }

  /**
    * transformRationalsToSameDenominator: both operands rewritten over one denominator. The
    * source throws when the two scaled denominators differ; that branch is unreachable.
    */
  function Align(a: Rational, b: Rational): (r: Result<((int, int), (int, int))>)
    requires a.Valid() && b.Valid()
    ensures r.Ok?
    ensures r.value.0.1 == r.value.1.1 > 0
    ensures r.value.0.1 == if a.denominator == b.denominator then a.denominator else a.denominator * b.denominator
    ensures Frac(r.value.0.0, r.value.0.1) == Value(a) && Frac(r.value.1.0, r.value.1.1) == Value(b)
  {
    var (f1, f2) := FactorPairs(a, b);
    var first := (a.numerator * f1, a.denominator * f1);
    var second := (b.numerator * f2, b.denominator * f2);
    FracScale(a.numerator, a.denominator, f1);
    FracScale(b.numerator, b.denominator, f2);
    if first.1 != second.1 then Err(AlignmentMismatch) else Ok((first, second))
  }

  lemma FracAdd(n1: int, n2: int, d: int)
    requires d != 0
    ensures Frac(n1 + n2, d) == Frac(n1, d) + Frac(n2, d) && Frac(n1 - n2, d) == Frac(n1, d) - Frac(n2, d)
  {
  }

  /** plus: align, add the numerators over the common denominator, canonicalise. */
  function Plus(a: Rational, b: Rational): (r: Rational)
    requires a.Valid() && b.Valid()
    ensures r.Valid() && Value(r) == Value(a) + Value(b)
  {
    var aligned := Align(a, b).value;
    FracAdd(aligned.0.0, aligned.1.0, aligned.0.1);
    Canonicalize(aligned.0.0 + aligned.1.0, aligned.0.1)
  }

  /** minus: align, subtract the numerators over the common denominator, canonicalise. */
  function Minus(a: Rational, b: Rational): (r: Rational)
    requires a.Valid() && b.Valid()
    ensures r.Valid() && Value(r) == Value(a) - Value(b)
  {
    var aligned := Align(a, b).value;
    FracAdd(aligned.0.0, aligned.1.0, aligned.0.1);
    Canonicalize(aligned.0.0 - aligned.1.0, aligned.0.1)
  }

  /** times: numerator times numerator over denominator times denominator, canonicalised. */
  function Times(a: Rational, b: Rational): (r: Rational)
    requires a.Valid() && b.Valid()
    ensures r.Valid() && Value(r) == Value(a) * Value(b)
  {
    FracMul(a.numerator, a.denominator, b.numerator, b.denominator);
    Canonicalize(a.numerator * b.numerator, a.denominator * b.denominator)
  }

  /** div: multiply by the swapped divisor; a divisor with numerator 0 is a zero denominator. */
  function Div(a: Rational, b: Rational): (r: Result<Rational>)
    requires a.Valid() && b.Valid()
    ensures r.Ok? <==> b.numerator != 0
    ensures r.Err? ==> r.error == InvalidDenominator
    ensures r.Ok? ==> r.value.Valid() && Value(b) != 0.0 && Value(r.value) == Value(a) / Value(b)
  {
    var n, d := a.numerator * b.denominator, a.denominator * b.numerator;
    if b.numerator == 0 then Make(n, d)
    else
      FracDiv(a.numerator, a.denominator, b.numerator, b.denominator);
      Make(n, d)
  }

  lemma FracDiv(n1: int, d1: int, n2: int, d2: int)
    requires d1 != 0 && d2 != 0 && n2 != 0
    ensures d1 * n2 != 0 && Frac(n2, d2) != 0.0
    ensures Frac(n1 * d2, d1 * n2) == Frac(n1, d1) / Frac(n2, d2)
  {
    FracMul(n1, d1, d2, n2);
    var x, y := n2 as real, d2 as real;
    assert Frac(d2, n2) == y / x;
    assert Frac(n2, d2) == x / y;
    assert y / x == 1.0 / (x / y);
  }

  /** unaryMinus: the numerator negated over the same denominator, canonicalised. */
  function Neg(a: Rational): (r: Rational)
    requires a.Valid()
    ensures r.Valid() && Value(r) == -Value(a)
  {
    FracNegate(a.numerator, a.denominator);
    Canonicalize(-a.numerator, a.denominator)
  }

  lemma FracNegate(n: int, d: int)
    requires d != 0
    ensures Frac(-n, d) == -Frac(n, d)
  {
  }

  /** Negating a canonical pair needs no reduction: the result is the pair with its numerator negated. */
  lemma NegIsDirect(a: Rational)
    requires a.Valid()
    ensures Neg(a) == Rational(-a.numerator, a.denominator)
  {
    var b := Rational(-a.numerator, a.denominator);
    assert Abs(-a.numerator) == Abs(a.numerator);
    assert b.Valid();
    CanonicalUnique(Neg(a), b);
  }

  /** unaryMinus is an involution. */
  lemma NegInvolution(a: Rational)
    requires a.Valid()
    ensures Neg(Neg(a)) == a
  {
    CanonicalUnique(Neg(Neg(a)), a);
  }

  /**
    * compareTo: the sign of the numerator of this - other. Because canonical denominators are
    * positive, this is the order of the values, and 0 exactly for equal Rationals.
    */
  function CompareTo(a: Rational, b: Rational): (c: int)
    requires a.Valid() && b.Valid()
    ensures c == -1 || c == 0 || c == 1
    ensures c < 0 <==> Value(a) < Value(b)
    ensures c > 0 <==> Value(a) > Value(b)
    ensures c == 0 <==> a == b
  {
    var diff := Minus(a, b);
    FracSign(diff.numerator, diff.denominator);
    StructuralEqualityIsValueEquality(a, b);
    if diff.numerator == 0 then 0 else if diff.numerator < 0 then -1 else 1
  }

  /** compareTo is antisymmetric. */
  lemma CompareAntisymmetric(a: Rational, b: Rational)
    requires a.Valid() && b.Valid()
    ensures CompareTo(a, b) == -CompareTo(b, a)
  {
  }

  /** compareTo is transitive. */
  lemma CompareTransitive(a: Rational, b: Rational, c: Rational)
    requires a.Valid() && b.Valid() && c.Valid()
    requires CompareTo(a, b) <= 0 && CompareTo(b, c) <= 0
    ensures CompareTo(a, c) <= 0
    ensures CompareTo(a, b) < 0 || CompareTo(b, c) < 0 ==> CompareTo(a, c) < 0
  {
  }

  // ---------------------------------------------------------------------------------------
  // Text (Rational.kt lines 25-34, 124-130).

  /**
    * getNormalized: "1" for a pair n/n, otherwise the reduced pair as "n/d" (the sign left
    * where getSimplified leaves it). NormalizedParses shows the text parses back to n/d.
    */
  function Normalized(n: int, d: int): (s: string)
    requires d != 0
    ensures n == d ==> s == "1"
  {
    if n == d then "1"
    else
      var (p, q) := Reduced(n, d);
      IntToString(p) + "/" + IntToString(q)
  }

  /** Whatever getNormalized prints parses back to the Rational the constructor makes of n/d. */
  lemma NormalizedParses(n: int, d: int)
    requires d != 0
    ensures ToRational(Normalized(n, d)) == Make(n, d)
  {
    if n == d {
      NormalizedOne(n);
    } else {
      var (p, q) := Reduced(n, d);
      NoSlashInInt(p);
      NoSlashInInt(q);
      ParseIntToString(p);
      ParseIntToString(q);
      ToRationalOfFraction(IntToString(p), IntToString(q), p, q);
      FracCross(p, q, n, d);
      CanonicalUnique(Canonicalize(p, q), Canonicalize(n, d));
    }
  }

  /** The text "1" parses to the Rational the constructor makes of n/n. */
  lemma NormalizedOne(n: int)
    requires n != 0
    ensures ToRational("1") == Make(n, n)
  {
    assert IntToString(1) == "1";
    NoSlashInInt(1);
    ParseIntToString(1);
    CanonicalUnique(Canonicalize(1, 1), Canonicalize(n, n));
  }

  /**
    * toString: the bare numerator for denominator 1, otherwise getNormalized. On a canonical
    * pair getNormalized changes nothing, so the text is the stored numerator and denominator.
    */
  function ToString(r: Rational): (s: string)
    requires r.Valid()
    ensures r.denominator == 1 ==> s == IntToString(r.numerator)
    ensures r.denominator != 1 ==> s == IntToString(r.numerator) + "/" + IntToString(r.denominator)
  {
    if r.denominator == 1 then IntToString(r.numerator)
    else
      ReducedCanonical(r);
      Normalized(r.numerator, r.denominator)
  }

  /** A canonical pair other than n/1 is not n/n, and reducing it again leaves it as it is. */
  lemma ReducedCanonical(r: Rational)
    requires r.Valid() && r.denominator != 1
    ensures r.numerator != r.denominator && Reduced(r.numerator, r.denominator) == (r.numerator, r.denominator)
  {
    if r.numerator == r.denominator {
      GcdSelf(r.denominator);
    } else {
      assert Gcd(Abs(r.numerator), Abs(r.denominator)) == 1;
    }
  }

  /** String.count { it == c }. */
  function CountOf(s: string, c: char): nat {
    multiset(s)[c]
  }

  /** String.indexOf: the first position of c, or -1. */
  function IndexOf(s: string, c: char): (i: int)
    ensures -1 <= i < |s|
    ensures i == -1 <==> c !in s
    ensures i >= 0 ==> s[i] == c && c !in s[..i]
  {
    if s == [] then -1
    else if s[0] == c then 0
    else
      var j := IndexOf(s[1..], c);
      assert forall k | 0 <= k < |s| - 1 :: s[1..][k] == s[k + 1];
      if j == -1 then -1 else 1 + j
  }

  /**
    * String.toRational: a string with exactly one '/' is split there and both halves are
    * parsed; any other string is parsed whole as the numerator over 1. A part that is not a
    * decimal integer is MalformedNumber; a zero denominator is InvalidDenominator.
    */
  function ToRational(s: string): (r: Result<Rational>)
    ensures r.Ok? ==> r.value.Valid()
    ensures CountOf(s, '/') != 1 ==> (r.Ok? <==> ParseInt(s).Some?)
    ensures CountOf(s, '/') != 1 && r.Ok? ==> Value(r.value) == ParseInt(s).value as real
    ensures CountOf(s, '/') == 1 ==>
              var i := IndexOf(s, '/');
              0 <= i && ((ParseInt(s[..i]).None? || ParseInt(s[i + 1..]).None?) ==> r == Err(MalformedNumber))
  {
    var slash := IndexOf(s, '/');
    if slash == -1 || CountOf(s, '/') != 1 then
      match ParseInt(s)
      case Some(n) => Make(n, 1)
      case None => Err(MalformedNumber)
    else
      match (ParseInt(s[..slash]), ParseInt(s[slash + 1..]))
      case (Some(n), Some(d)) => Make(n, d)
      case _ => Err(MalformedNumber)
  }

  lemma NoSlashInInt(i: int)
    ensures '/' !in IntToString(i)
  {
    var s := IntToString(i);
    assert !IsDigit('/');
  }

  /** Printing a canonical Rational and parsing the text gives the same Rational back. */
  lemma ToStringRoundTrip(r: Rational)
    requires r.Valid()
    ensures ToRational(ToString(r)) == Ok(r)
  {
    NoSlashInInt(r.numerator);
    NoSlashInInt(r.denominator);
    ParseIntToString(r.numerator);
    ParseIntToString(r.denominator);
    CanonicalizeCanonical(r);
    if r.denominator != 1 {
      ToRationalOfFraction(IntToString(r.numerator), IntToString(r.denominator), r.numerator, r.denominator);
    }
  }

  /** A string with one '/' between two decimal integers parses to the canonical form of their quotient. */
  lemma ToRationalOfFraction(num: string, den: string, n: int, d: int)
    requires '/' !in num && '/' !in den
    requires ParseInt(num) == Some(n) && ParseInt(den) == Some(d)
    ensures ToRational(num + "/" + den) == Make(n, d)
  {
    var s := num + "/" + den;
    assert multiset(s) == multiset(num) + multiset{'/'} + multiset(den);
    var i := IndexOf(s, '/');
    assert s[|num|] == '/';
    assert s[..i] == num && s[i + 1..] == den;
  }

  /** A string with more than one '/' is parsed whole, and '/' is not a digit, so it is rejected. */
  lemma ToRationalManySlashes(s: string)
    requires CountOf(s, '/') > 1
    ensures ToRational(s) == Err(MalformedNumber)
  {
    var k :| 0 <= k < |s| && s[k] == '/';
    assert !AllDigits(s);
  }

  /** Adding zero leaves a Rational as it is. */
  lemma PlusZero(r: Rational)
    requires r.Valid()
    ensures Rational(0, 1).Valid() && Plus(r, Rational(0, 1)) == r
  {
    GcdZeroLeft(1);
    CanonicalUnique(Plus(r, Rational(0, 1)), r);
  }

  /** Multiplying by one leaves a Rational as it is. */
  lemma TimesOne(r: Rational)
    requires r.Valid()
    ensures Rational(1, 1).Valid() && Times(r, Rational(1, 1)) == r
  {
    GcdOneLeft(1);
    CanonicalUnique(Times(r, Rational(1, 1)), r);
  }

  /** A Rational minus itself is zero. */
  lemma MinusSelf(r: Rational)
    requires r.Valid()
    ensures Minus(r, r) == Rational(0, 1)
  {
    GcdZeroLeft(1);
    CanonicalUnique(Minus(r, r), Rational(0, 1));
  }

  /** A non-zero Rational divided by itself is one; zero divided by itself fails. */
  lemma DivSelf(r: Rational)
    requires r.Valid()
    ensures r.numerator != 0 ==> Div(r, r) == Ok(Rational(1, 1))
    ensures r.numerator == 0 ==> Div(r, r) == Err(InvalidDenominator)
  {
    if r.numerator != 0 {
      GcdOneLeft(1);
      FracSign(r.numerator, r.denominator);
      CanonicalUnique(Div(r, r).value, Rational(1, 1));
    }
  }

  /** The sums and differences the demo entry point prints (Rational.kt lines 138-146). */
  lemma DemoSumAndDifference()
    ensures Plus(Rational(1, 2), Rational(1, 3)) == Rational(5, 6)
    ensures Minus(Rational(1, 2), Rational(1, 3)) == Rational(1, 6)
  {
    assert Rational(1, 2).Valid() && Rational(1, 3).Valid();
    assert Rational(5, 6).Valid() && Rational(1, 6).Valid();
    CanonicalUnique(Plus(Rational(1, 2), Rational(1, 3)), Rational(5, 6));
    CanonicalUnique(Minus(Rational(1, 2), Rational(1, 3)), Rational(1, 6));
  }

  /** The product, quotient, negation and comparison the demo entry point prints (lines 148-162). */
  lemma DemoProductAndQuotient()
    ensures Times(Rational(1, 2), Rational(1, 3)) == Rational(1, 6)
    ensures Div(Rational(1, 2), Rational(1, 3)) == Ok(Rational(3, 2))
    ensures Neg(Rational(1, 2)) == Rational(-1, 2)
    ensures CompareTo(Rational(1, 2), Rational(2, 3)) < 0
  {
    assert Rational(1, 2).Valid() && Rational(1, 3).Valid() && Rational(2, 3).Valid();
    assert Rational(1, 6).Valid() && Rational(3, 2).Valid();
    CanonicalUnique(Times(Rational(1, 2), Rational(1, 3)), Rational(1, 6));
    CanonicalUnique(Div(Rational(1, 2), Rational(1, 3)).value, Rational(3, 2));
    NegIsDirect(Rational(1, 2));
  }

  /** 2000000000/4000000000 is 1/2 (Rational.kt line 170). */
  lemma DemoLargeReduction()
    ensures Make(2000000000, 4000000000) == Make(1, 2) == Ok(Rational(1, 2))
  {
    MakeScaled(1, 2, 2000000000);
    assert Rational(1, 2).Valid();
    CanonicalizeCanonical(Rational(1, 2));
  }

  lemma ParseExamples()
    ensures ParseInt("117") == Some(117) && ParseInt("1098") == Some(1098)
    ensures '/' !in "117" && '/' !in "1098"
  {
    assert "117"[..2] == "11" && "11"[..1] == "1" && "1"[..0] == "";
    assert "1098"[..3] == "109" && "109"[..2] == "10" && "10"[..1] == "1";
  }

  /** "117/1098".toRational() is 13/122 (Rational.kt line 159). */
  lemma DemoParse()
    ensures ToRational("117/1098") == Ok(Rational(13, 122))
  {
    DemoSplit();
    DemoReduction();
  }

  lemma DemoSplit()
    ensures ToRational("117/1098") == Make(117, 1098)
  {
    ParseExamples();
    DemoText();
    ToRationalOfFraction("117", "1098", 117, 1098);
  }

  lemma DemoText()
    ensures "117" + "/" + "1098" == "117/1098"
  {
  }

  lemma DemoReduction()
    ensures Make(117, 1098) == Ok(Rational(13, 122))
  {
    assert Rational(13, 122).Valid();
    CanonicalUnique(Make(117, 1098).value, Rational(13, 122));
  }

  /** ... and 13/122 prints as "13/122". */
  lemma DemoParsePrint()
    ensures ToString(Rational(13, 122)) == "13/122"
  {
    var r := Rational(13, 122);
    assert r.Valid();
    assert ToString(r) == IntToString(13) + "/" + IntToString(122);
    DemoDigits();
  }

  lemma DemoDigits()
    ensures IntToString(13) == "13" && IntToString(122) == "122"
  {
    assert NatToString(13) == NatToString(1) + [DigitChar(3)];
    assert NatToString(122) == NatToString(12) + [DigitChar(2)];
    assert NatToString(12) == NatToString(1) + [DigitChar(2)];
  }

  /** (2 divBy 1).toString() == "2" and (-2 divBy 4).toString() == "-1/2" (Rational.kt lines 157-158). */
  lemma DemoPrint()
    ensures ToString(Make(2, 1).value) == "2"
    ensures ToString(Make(-2, 4).value) == "-1/2"
  {
    assert Rational(2, 1).Valid() && Rational(-1, 2).Valid();
    CanonicalUnique(Make(2, 1).value, Rational(2, 1));
    CanonicalUnique(Make(-2, 4).value, Rational(-1, 2));
    assert IntToString(2) == "2";
    assert IntToString(-1) == "-1";
  }
}
