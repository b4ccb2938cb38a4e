/**
  * Exact integer facts the rational type rests on: Euclidean division, divisibility,
  * Euclid's greatest common divisor, and powers of ten. The repository takes these from
  * java.math.BigInteger; here they are stated over Dafny's unbounded `int`.
  */
module Numbers {

  function Abs(x: int): nat {
    if x < 0 then -x else x
  }

  lemma MulAtLeast(m: int, k: int)
    requires m > 0 && k >= 1
    ensures m * k >= m
  {
    assert m * k == m * (k - 1) + m;
  }

  /** Euclidean division is unique: any quotient/remainder pair with 0 <= r < m is the one `/` and `%` give. */
  lemma DivModUnique(x: int, m: int, q: int, r: int)
    requires m > 0 && x == m * q + r && 0 <= r < m
    ensures x / m == q && x % m == r
  {
    var q0, r0 := x / m, x % m;
    if q0 < q {
      assert m * (q - q0) == r0 - r;
      MulAtLeast(m, q - q0);
    } else if q0 > q {
      assert m * (q0 - q) == r - r0;
      MulAtLeast(m, q0 - q);
    }
  }

  lemma MulDiv(m: int, k: int)
    requires m > 0
    ensures (m * k) % m == 0 && (m * k) / m == k
  {
    DivModUnique(m * k, m, k, 0);
  }

  /** Divisibility by m is closed under integer linear combinations. */
  lemma DivisibleCombination(a: int, b: int, m: int, i: int, j: int)
    requires m > 0 && a % m == 0 && b % m == 0
    ensures (i * a + j * b) % m == 0
  {
    var x, y := a / m, b / m;
    assert a == m * x && b == m * y;
    assert i * a + j * b == m * (i * x + j * y);
    MulDiv(m, i * x + j * y);
  }

  /** A non-zero multiple of t is at least t in magnitude. */
  lemma DivisorBound(x: int, t: int)
    requires t > 0 && x != 0 && x % t == 0
    ensures t <= Abs(x)
  {
    var q := x / t;
    assert x == t * q;
    if q > 0 {
      MulAtLeast(t, q);
    } else {
      assert q < 0;
      MulAtLeast(t, -q);
      assert t * (-q) == -x;
    }
  }

  /** A multiple of m that lies above -m is not negative. */
  lemma MultipleAboveNegative(x: int, m: int)
    requires m > 0 && x % m == 0 && x > -m
    ensures x >= 0
  {
    var q := x / m;
    assert x == m * q;
    if q < 0 {
      MulAtLeast(m, -q);
    }
  }

  /** Positive numbers that divide each other are equal. */
  lemma MutualDivisors(a: int, b: int)
    requires a > 0 && b > 0 && a % b == 0 && b % a == 0
    ensures a == b
  {
    DivisorBound(a, b);
    DivisorBound(b, a);
  }

  lemma CancelPositive(x: int, y: int, k: int)
    requires k > 0 && x * k == y * k
    ensures x == y
  {
    if x > y {
      assert k * (x - y) == x * k - y * k;
      MulAtLeast(k, x - y);
    } else if x < y {
      assert k * (y - x) == y * k - x * k;
      MulAtLeast(k, y - x);
    }
  }

  lemma AbsMul(x: int, y: int)
    ensures Abs(x * y) == Abs(x) * Abs(y)
  {
    if x < 0 && y < 0 {
      assert x * y == (-x) * (-y);
    } else if x < 0 {
      assert x * y == -((-x) * y);
      assert (-x) * y >= 0;
    } else if y < 0 {
      assert x * y == -(x * (-y));
      assert x * (-y) >= 0;
    } else {
      assert x * y >= 0;
    }
  }

  lemma ScaleMod(a: nat, b: nat, k: nat)
    requires b > 0 && k > 0
    ensures k * b > 0 && (k * a) % (k * b) == k * (a % b)
  {
    var q, r := a / b, a % b;
    assert k * a == (k * b) * q + k * r;
    MulAtLeast(k, b - r);
    assert k * (b - r) == k * b - k * r;
    assert 0 <= k * r;
    MulAtLeast(k, b);
    DivModUnique(k * a, k * b, q, k * r);
  }

  /**
    * Greatest common divisor by Euclid's algorithm, on magnitudes (BigInteger.gcd);
    * Gcd(0, 0) == 0. The result divides both arguments and is positive unless both are 0.
    */
  function Gcd(a: nat, b: nat): (g: nat)
    ensures (a > 0 || b > 0) ==> g > 0
    ensures g > 0 ==> a % g == 0 && b % g == 0
    decreases b
  {
    if b == 0 then a
    else
      var g := Gcd(b, a % b);
      assert g > 0 && b % g == 0 && (a % b) % g == 0;
      assert a == (a / b) * b + 1 * (a % b);
      DivisibleCombination(b, a % b, g, a / b, 1);
      g
  }

  /** Every common divisor divides the gcd, so Gcd is the greatest common divisor. */
  lemma {:induction false} GcdGreatest(a: nat, b: nat, c: int)
    requires c > 0 && a % c == 0 && b % c == 0
    ensures Gcd(a, b) % c == 0
    decreases b
  {
    if b != 0 {
      assert a % b == 1 * a + (-(a / b)) * b;
      DivisibleCombination(a, b, c, 1, -(a / b));
      GcdGreatest(b, a % b, c);
    }
  }

  /** Scaling both arguments scales the gcd. */
  lemma {:induction false} GcdScale(a: nat, b: nat, k: nat)
    requires k > 0
    ensures Gcd(k * a, k * b) == k * Gcd(a, b)
    decreases b
  {
    if b == 0 {
      assert k * b == 0;
    } else {
      ScaleMod(a, b, k);
      GcdScale(b, a % b, k);
    }
  }

  lemma GcdZeroLeft(b: nat)
    ensures Gcd(0, b) == b
  {
    if b > 0 {
      assert 0 % b == 0;
      assert Gcd(0, b) == Gcd(b, 0);
    }
  }

  lemma GcdOneLeft(b: nat)
    requires b > 0
    ensures Gcd(1, b) == 1
  {
    if b == 1 {
      assert Gcd(1, 1) == Gcd(1, 0);
    } else {
      assert 1 % b == 1;
      assert Gcd(1, b) == Gcd(b, 1) == Gcd(1, 0);
    }
  }

  lemma GcdSelf(a: nat)
    ensures Gcd(a, a) == a
  {
    if a > 0 {
      assert a % a == 0;
      assert Gcd(a, a) == Gcd(a, 0);
    }
  }

  /** Gauss's lemma: if c is coprime to a and divides a * b, it divides b. */
  lemma Gauss(a: nat, b: nat, c: nat)
    requires c > 0 && Gcd(a, c) == 1 && (a * b) % c == 0
    ensures b % c == 0
  {
    if b > 0 {
      MulDiv(c, b);
      assert (c * b) % c == 0;
      assert (b * c) % c == 0;
      GcdGreatest(b * a, b * c, c);
      GcdScale(a, c, b);
    }
  }

  /** Dividing out the gcd leaves coprime magnitudes. */
  lemma DivideOutGcd(x: int, y: int)
    requires y != 0
    ensures Gcd(Abs(x), Abs(y)) > 0
    ensures var g := Gcd(Abs(x), Abs(y));
            x % g == 0 && y % g == 0 && x / g * g == x && y / g * g == y &&
            Gcd(Abs(x / g), Abs(y / g)) == 1
  {
    var g := Gcd(Abs(x), Abs(y));
    assert Abs(x) % g == 0 && Abs(y) % g == 0;
    SignedDivisible(x, g);
    SignedDivisible(y, g);
    QuotientsCoprime(x / g, y / g, g);
  }

  /** If g is the gcd of g*p and g*q, the quotients p and q are coprime. */
  lemma QuotientsCoprime(p: int, q: int, g: nat)
    requires g > 0 && Gcd(Abs(g * p), Abs(g * q)) == g
    ensures Gcd(Abs(p), Abs(q)) == 1
  {
    AbsMul(g, p);
    AbsMul(g, q);
    GcdScale(Abs(p), Abs(q), g);
    assert g * Gcd(Abs(p), Abs(q)) == g * 1;
    CancelPositive(Gcd(Abs(p), Abs(q)), 1, g);
  }

  /** Divisibility does not depend on the sign of the dividend. */
  lemma SignedDivisible(x: int, m: int)
    requires m > 0 && Abs(x) % m == 0
    ensures x % m == 0 && x == m * (x / m)
  {
    if x < 0 {
      assert x == (-1) * Abs(x) + 0 * m;
      DivisibleCombination(Abs(x), m, m, -1, 0);
    }
  }

  /** 1, 10, 100, ...: the factors checkDivsByTenTimes can return. */
  predicate IsPowerOfTen(x: int)
    decreases if x > 0 then x else 0
  {
    x == 1 || (x > 1 && x % 10 == 0 && IsPowerOfTen(x / 10))
  }
}
