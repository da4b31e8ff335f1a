/** The number-theory layer of the cipher: Python's floor division, the
    recursive Extended Euclidean Algorithm `egcd` and the modular inverse
    `modinv` built on it. Both work on every integer, as in the source;
    divisibility and the greatest common divisor are defined independently
    of the algorithm so that the algorithm can be proved against them. */
module NumberTheory {
  import opened Results

  function Abs(n: int): nat {
    if n < 0 then -n else n
  }

  // ---------------------------------------------------------------------
  // Python's `//` and `%`, which round toward minus infinity. Dafny's own
  // `/` and `%` are Euclidean; the two agree when the divisor is positive.
  // ---------------------------------------------------------------------

  /** Python's `n // d`. */
  function FloorDiv(n: int, d: int): int
    requires d != 0
  {
    if d < 0 && n % d != 0 then n / d - 1 else n / d
  }

  /** Python's `n % d`: the remainder that goes with `FloorDiv` and takes the
      sign of the divisor. */
  function FloorMod(n: int, d: int): (r: int)
    requires d != 0
    ensures n == d * FloorDiv(n, d) + r
    ensures d > 0 ==> 0 <= r < d
    ensures d < 0 ==> d < r <= 0
  {
    if d < 0 && n % d != 0 then
      assert d * (n / d - 1) == d * (n / d) - d;
      n % d + d
    else
      n % d
  }

  // ---------------------------------------------------------------------
  // Divisibility and the greatest common divisor, defined from scratch.
  // ---------------------------------------------------------------------

  /** `d` divides `n`: `n` is an integer multiple of `d`. */
  predicate Divides(d: int, n: int) {
    if d == 0 then n == 0 else n % d == 0
  }

  /** `g` is the greatest common divisor of `a` and `b`: it is non-negative,
      divides both, and every common divisor of `a` and `b` divides it. */
  ghost predicate IsGcd(g: int, a: int, b: int) {
    g >= 0 && Divides(g, a) && Divides(g, b) &&
    forall d :: Divides(d, a) && Divides(d, b) ==> Divides(d, g)
  }

  /** `v` is an inverse of `a` modulo `m`: `a * v` is congruent to 1 modulo `m`. */
  predicate IsInverse(a: int, v: int, m: int) {
    Divides(m, a * v - 1)
  }

  /** Sign facts about a product with a non-negative factor. */
  lemma MulSign(d: nat, k: int)
    ensures k >= 1 ==> d * k >= d
    ensures k <= 0 ==> d * k <= 0
  {
    if k >= 1 {
      assert d * k == d * (k - 1) + d;
    }
  }

  /** A non-zero multiple of `d` is at least as large as `d` in magnitude. */
  lemma MulMagnitude(d: int, j: int)
    ensures j != 0 ==> Abs(d * j) >= Abs(d)
  {
    MulSign(Abs(d), Abs(j));
    if d < 0 && j < 0 {
      assert d * j == Abs(d) * Abs(j);
    } else if d < 0 {
      assert d * j == -(Abs(d) * Abs(j));
    } else if j < 0 {
      assert d * j == -(Abs(d) * Abs(j));
    }
  }

  lemma DividesMultiple(d: int, k: int)
    ensures Divides(d, d * k)
  {
    if d != 0 {
      var n := d * k;
      assert d * (k - n / d) == n % d;
      MulMagnitude(d, k - n / d);
    }
  }

  lemma DividesElim(d: int, n: int)
    requires Divides(d, n)
    ensures d != 0 ==> n == d * (n / d)
  {
  }

  /** A common divisor of `x` and `y` divides every integer combination of them. */
  lemma DividesLinear(d: int, x: int, y: int, s: int, t: int)
    requires Divides(d, x) && Divides(d, y)
    ensures Divides(d, x * s + y * t)
  {
    if d != 0 {
      DividesElim(d, x);
      DividesElim(d, y);
      var k := (x / d) * s + (y / d) * t;
      calc {
        x * s + y * t;
        (d * (x / d)) * s + (d * (y / d)) * t;
        d * ((x / d) * s) + d * ((y / d) * t);
        d * k;
      }
      DividesMultiple(d, k);
    }
  }

  /** Divisibility does not depend on the sign of the divisor. */
  lemma DividesAbs(d: int, n: int)
    ensures Divides(d, n) <==> Divides(Abs(d), n)
  {
    if d < 0 {
      if Divides(d, n) {
        DividesElim(d, n);
        assert n == Abs(d) * (-(n / d));
        DividesMultiple(Abs(d), -(n / d));
      }
      if Divides(Abs(d), n) {
        DividesElim(Abs(d), n);
        assert n == d * (-(n / Abs(d)));
        DividesMultiple(d, -(n / Abs(d)));
      }
    }
  }

  /** A positive multiple of a positive number is at least that number. */
  lemma DividesBound(d: int, n: int)
    requires d > 0 && n > 0 && Divides(d, n)
    ensures d <= n
  {
    DividesElim(d, n);
    MulSign(d, n / d);
  }

  /** Two non-negative numbers that divide each other are equal. */
  lemma DividesAntisymmetric(g: int, h: int)
    requires g >= 0 && h >= 0 && Divides(g, h) && Divides(h, g)
    ensures g == h
  {
    if g > 0 && h > 0 {
      DividesBound(g, h);
      DividesBound(h, g);
    }
  }

  /** There is at most one greatest common divisor. */
  lemma GcdUnique(g: int, h: int, a: int, b: int)
    requires IsGcd(g, a, b) && IsGcd(h, a, b)
    ensures g == h
  {
    DividesAntisymmetric(g, h);
  }

  // ---------------------------------------------------------------------
  // egcd
  // ---------------------------------------------------------------------

  /** The triple `(g, x, y)` that `egcd` returns. */
  datatype Bezout = Bezout(g: int, x: int, y: int)

  lemma BezoutStep(a: int, b: int, q: int, rm: int, g: int, x: int, y: int)
    requires b == a * q + rm
    requires rm * y + a * x == g
    ensures a * (x - q * y) + b * y == g
  {
    calc {
      a * (x - q * y) + b * y;
      a * x - a * (q * y) + (a * q + rm) * y;
      a * x - (a * q) * y + (a * q) * y + rm * y;
      g;
    }
  }

  /** The Extended Euclidean Algorithm, recursing on `(b % a, a)` until the
      first argument is 0. Its result satisfies Bezout's identity
      `a * x + b * y == g` for every pair of integers; the recursion ends
      because the first argument strictly decreases in absolute value. */
  function Egcd(a: int, b: int): (r: Bezout)
    ensures a * r.x + b * r.y == r.g
    decreases Abs(a)
  {
    if a == 0 then
      Bezout(b, 0, 1)
    else
      var rec := Egcd(FloorMod(b, a), a);
      // The source unpacks the recursive triple as (g, y, x).
      var g, y, x := rec.g, rec.x, rec.y;
      BezoutStep(a, b, FloorDiv(b, a), FloorMod(b, a), g, x, y);
      Bezout(g, x - FloorDiv(b, a) * y, y)
  }

  /** The `g` of `egcd` divides both arguments. */
  lemma {:induction false} EgcdDivides(a: int, b: int)
    ensures Divides(Egcd(a, b).g, a) && Divides(Egcd(a, b).g, b)
    decreases Abs(a)
  {
    if a == 0 {
      if b != 0 {
        DividesMultiple(b, 1);
      }
    } else {
      var rm, q := FloorMod(b, a), FloorDiv(b, a);
      EgcdDivides(rm, a);
      DividesLinear(Egcd(a, b).g, a, rm, q, 1);
    }
  }

  /** The sign of `g`: positive for a positive first argument, negative for a
      negative one, and the second argument itself when the first is 0. */
  lemma {:induction false} EgcdSign(a: int, b: int)
    ensures a > 0 ==> Egcd(a, b).g > 0
    ensures a < 0 ==> Egcd(a, b).g < 0
    ensures a == 0 ==> Egcd(a, b).g == b
    decreases Abs(a)
  {
    if a != 0 {
      var rm := FloorMod(b, a);
      if rm != 0 {
        EgcdSign(rm, a);
      }
    }
  }

  lemma CommonDivisorDividesEgcd(a: int, b: int, d: int)
    requires Divides(d, a) && Divides(d, b)
    ensures Divides(d, Abs(Egcd(a, b).g))
  {
    var r := Egcd(a, b);
    DividesLinear(d, a, b, r.x, r.y);
    assert Divides(d, r.g);
    DividesLinear(d, r.g, r.g, -1, 0);
  }

  /** Up to sign, `egcd` computes the greatest common divisor of any two
      integers, and exactly the greatest common divisor when its arguments are
      non-negative. */
  lemma EgcdIsGcd(a: int, b: int)
    ensures IsGcd(Abs(Egcd(a, b).g), a, b)
    ensures a >= 0 && b >= 0 ==> IsGcd(Egcd(a, b).g, a, b)
  {
    var r := Egcd(a, b);
    EgcdDivides(a, b);
    DividesAbs(r.g, a);
    DividesAbs(r.g, b);
    forall d | Divides(d, a) && Divides(d, b)
      ensures Divides(d, Abs(r.g))
    {
      CommonDivisorDividesEgcd(a, b, d);
    }
    EgcdSign(a, b);
  }

  // ---------------------------------------------------------------------
  // modinv
  // ---------------------------------------------------------------------

  /** The modular inverse of `a` modulo `m`: fails when the `g` of
      `egcd(a, m)` is not 1, and otherwise reduces the coefficient `x` modulo
      `m` with Python's `%` (which fails for `m == 0`). A result it returns is
      an inverse, in the range of Python's `%`. */
  function ModInv(a: int, m: int): (r: Result<int>)
    ensures r.Ok? ==> IsInverse(a, r.value, m)
    ensures r.Ok? && m > 0 ==> 0 <= r.value < m
    ensures r.Ok? && m < 0 ==> m < r.value <= 0
  {
    var e := Egcd(a, m);
    if e.g != 1 then
      Err(ModularInverseDoesNotExist)
    else if m == 0 then
      Err(ZeroDivision)
    else
      var v := FloorMod(e.x, m);
      InverseFromBezout(a, m, e.x, e.y, v);
      Ok(v)
  }

  lemma InverseFromBezout(a: int, m: int, x: int, y: int, v: int)
    requires m != 0 && a * x + m * y == 1 && v == FloorMod(x, m)
    ensures IsInverse(a, v, m)
  {
    var q := FloorDiv(x, m);
    calc {
      a * v - 1;
      a * (x - m * q) - 1;
      a * x - a * (m * q) - 1;
      -(m * y) - a * (m * q);
      m * (-y - a * q);
    }
    DividesMultiple(m, -y - a * q);
  }

  /** When 1 is the greatest common divisor of `a` and `m`, the `egcd`
      coefficient of `a`, with the sign of `g` applied, is an inverse. */
  lemma CoprimeGivesInverse(a: int, m: int)
    requires IsGcd(1, a, m)
    ensures IsInverse(a, Egcd(a, m).g * Egcd(a, m).x, m)
  {
    var e := Egcd(a, m);
    EgcdIsGcd(a, m);
    GcdUnique(Abs(e.g), 1, a, m);
    UnitBezoutGivesInverse(a, m, e.g, e.x, e.y);
  }

  lemma UnitBezoutGivesInverse(a: int, m: int, g: int, x: int, y: int)
    requires g == 1 || g == -1
    requires a * x + m * y == g
    ensures IsInverse(a, g * x, m)
  {
    if g == 1 {
      assert a * (g * x) - 1 == m * -y;
      DividesMultiple(m, -y);
    } else {
      assert a * (g * x) - 1 == m * y;
      DividesMultiple(m, y);
    }
  }

  /** A number with an inverse modulo `m` shares no divisor with `m` but the units. */
  lemma InverseGivesCoprime(a: int, v: int, m: int)
    requires IsInverse(a, v, m)
    ensures IsGcd(1, a, m)
  {
    DividesMultiple(1, a);
    DividesMultiple(1, m);
    forall d | Divides(d, a) && Divides(d, m)
      ensures Divides(d, 1)
    {
      CommonDivisorOfInverse(a, v, m, d);
    }
  }

  lemma CommonDivisorOfInverse(a: int, v: int, m: int, d: int)
    requires IsInverse(a, v, m) && Divides(d, a) && Divides(d, m)
    ensures Divides(d, 1)
  {
    DividesElim(m, a * v - 1);
    if m != 0 {
      DividesLinear(d, m, 0, (a * v - 1) / m, 0);
    }
    DividesLinear(d, a, a * v - 1, v, -1);
  }

  /** `a` has an inverse modulo `m` exactly when 1 is the greatest common
      divisor of `a` and `m`. */
  lemma CoprimeIffInvertible(a: int, m: int)
    ensures IsGcd(1, a, m) <==> exists v :: IsInverse(a, v, m)
  {
    if IsGcd(1, a, m) {
      CoprimeGivesInverse(a, m);
    }
    if v :| IsInverse(a, v, m) {
      InverseGivesCoprime(a, v, m);
    }
  }

  /** For a non-negative `a` and a positive modulus, `modinv` fails exactly
      when `a` is not coprime to `m`, that is, exactly when no inverse exists. */
  lemma ModInvOkIffCoprime(a: int, m: int)
    requires 0 <= a && 0 < m
    ensures ModInv(a, m).Ok? <==> IsGcd(1, a, m)
    ensures ModInv(a, m).Ok? <==> exists v :: IsInverse(a, v, m)
  {
    EgcdIsGcd(a, m);
    if IsGcd(1, a, m) {
      GcdUnique(Egcd(a, m).g, 1, a, m);
    }
    CoprimeIffInvertible(a, m);
  }

  /** For a negative `a`, `modinv` always fails: `egcd` then returns a negative
      `g`, which is never 1. */
  lemma ModInvRejectsNegative(a: int, m: int)
    requires a < 0
    ensures ModInv(a, m) == Err(ModularInverseDoesNotExist)
  {
    EgcdSign(a, m);
  }

  /** The worked values of the source: 5 is invertible modulo 26 with inverse
      21, while 4 and 2 are not invertible; and -3, although 17 is an inverse
      of it modulo 26, is rejected. */
  lemma ModInvExamples()
    ensures ModInv(5, 26) == Ok(21)
    ensures ModInv(4, 26) == Err(ModularInverseDoesNotExist)
    ensures ModInv(2, 26) == Err(ModularInverseDoesNotExist)
    ensures ModInv(-3, 26) == Err(ModularInverseDoesNotExist) && IsInverse(-3, 17, 26)
  {
    assert Egcd(0, 1) == Bezout(1, 0, 1);
    assert Egcd(1, 5) == Bezout(1, 1, 0);
    assert Egcd(5, 26) == Bezout(1, -5, 1);
    assert Egcd(0, 2) == Bezout(2, 0, 1);
    assert Egcd(2, 4) == Bezout(2, 1, 0);
    assert Egcd(2, 26) == Bezout(2, 1, 0);
    assert Egcd(4, 26) == Bezout(2, -6, 1);
    ModInvRejectsNegative(-3, 26);
  }
}
