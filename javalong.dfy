/** Java's 64-bit `long` arithmetic, written out over unbounded integers:
    `+`, `-` and `*` wrap modulo 2^64 (section 15.17.1 and 15.18.2 of the Java
    Language Specification), `/` truncates toward zero and `%` takes the sign
    of the dividend (section 15.17.2 and 15.17.3). */
module JavaLong {

  const LONG_MIN: int := -0x8000_0000_0000_0000
  /** Long.MAX_VALUE, 9223372036854775807. */
  const LONG_MAX: int := 0x7fff_ffff_ffff_ffff
  const MODULUS: int := 0x1_0000_0000_0000_0000

  predicate InRange(x: int) {
    LONG_MIN <= x <= LONG_MAX
  }

  /** Two's-complement wrap-around: the unique long congruent to x modulo 2^64. */
  function Wrap(x: int): (r: int)
    ensures InRange(r)
    ensures (x - r) % MODULUS == 0
    ensures InRange(x) ==> r == x
  {
    (x - LONG_MIN) % MODULUS + LONG_MIN
  }

  function Abs(x: int): nat {
    if x < 0 then -x else x
  }

  /** Truncating quotient of mathematical integers. */
  function Quot(a: int, b: int): int
    requires b != 0
  {
    var q := Abs(a) / Abs(b);
    if (a < 0) == (b < 0) then q else -q
  }

  /** Java's `a % b` on longs: the remainder of the truncating division, with
      the magnitude of |a| mod |b| and the sign of the dividend. */
  function Rem(a: int, b: int): (r: int)
    requires b != 0
    ensures Abs(r) < Abs(b)
    ensures r == 0 || ((r < 0) <==> (a < 0))
  {
    var m := Abs(a) % Abs(b);
    if a < 0 then -m else m
  }

  /** The remainder completes the truncating quotient:
      a == b * (a / b) + a % b, section 15.17.3 of the Java Language
      Specification. */
  lemma RemIdentity(a: int, b: int)
    requires b != 0
    ensures a == b * Quot(a, b) + Rem(a, b)
  {
    QuotRemFacts(a, b);
  }

  /** Java's `a / b` on longs: the truncating quotient, wrapped (only
      LONG_MIN / -1 leaves the range, and yields LONG_MIN). */
  function Div(a: int, b: int): (q: int)
    requires b != 0
    ensures InRange(q)
    ensures InRange(a) && !(a == LONG_MIN && b == -1) ==> q == Quot(a, b)
  {
    if InRange(a) && b != -1 then QuotBound(a, b); Wrap(Quot(a, b)) else Wrap(Quot(a, b))
  }

  lemma QuotRemFacts(a: int, b: int)
    requires b != 0
    ensures a == b * Quot(a, b) + (if a < 0 then -(Abs(a) % Abs(b)) else Abs(a) % Abs(b))
  {
    var A, B := Abs(a), Abs(b);
    var q, m := A / B, A % B;
    assert A == B * q + m;
    SignedProduct(b, Quot(a, b), B, q, a < 0);
  }

  /** b * Quot(a, b) is |b| * (|a| / |b|) carrying the sign of a. */
  lemma SignedProduct(b: int, t: int, B: int, q: int, negative: bool)
    requires B == Abs(b)
    requires t == (if negative == (b < 0) then q else -q)
    ensures b * t == (if negative then -(B * q) else B * q)
  {
    if b < 0 {
      if negative {
        assert t == q;
        NegMul(B, q);
      } else {
        assert t == -q;
        NegNeg(B, q);
      }
    } else {
      if negative {
        assert t == -q;
        NegMul2(B, q);
      }
    }
  }

  lemma NegMul(x: int, y: int)
    ensures (-x) * y == -(x * y)
  {
  }

  lemma NegMul2(x: int, y: int)
    ensures x * (-y) == -(x * y)
  {
  }

  lemma NegNeg(x: int, y: int)
    ensures (-x) * (-y) == x * y
  {
  }

  lemma MulSub(b: int, x: int, y: int)
    ensures b * x - b * y == b * (x - y)
  {
  }

  lemma QuotBound(a: int, b: int)
    requires b != 0 && b != -1 && InRange(a)
    ensures InRange(Quot(a, b))
  {
    var A, B := Abs(a), Abs(b);
    var q := A / B;
    assert B * q <= A;
    MulLe(1, B, q);
    if a < 0 && b < 0 {
      MulLe(2, B, q);
    }
  }

  lemma MulLe(x: int, y: int, z: int)
    requires x <= y && z >= 0
    ensures x * z <= y * z
  {
  }

  lemma AbsMul(b: int, d: int)
    ensures Abs(b * d) == Abs(b) * Abs(d)
  {
    if b < 0 && d < 0 {
      assert b * d == (-b) * (-d);
    } else if b < 0 {
      assert b * d == -((-b) * d);
    } else if d < 0 {
      assert b * d == -(b * (-d));
    }
  }

  /** If b * d lies strictly between -|b| and |b| then d is zero. */
  lemma SmallMultiple(b: int, d: int)
    requires b != 0 && Abs(b * d) < Abs(b)
    ensures d == 0
  {
    AbsMul(b, d);
    if d != 0 {
      MulLe(1, Abs(d), Abs(b));
    }
  }

  /** The division branch is guarded by Java's `result % v == 0`. Java's
      truncating remainder and Dafny's Euclidean one are zero on exactly the
      same inputs, and then both quotients are the exact quotient. */
  lemma ExactDivision(a: int, b: int)
    requires b != 0
    ensures (Rem(a, b) == 0) <==> (a % b == 0)
    ensures a % b == 0 ==> Quot(a, b) == a / b && Quot(a, b) * b == a
  {
    var q, e := Quot(a, b), a / b;
    var r, m := Rem(a, b), a % b;
    assert a == b * q + r by { RemIdentity(a, b); }
    assert a == b * e + m && 0 <= m < Abs(b);
    MulSub(b, e, q);
    assert b * (e - q) == r - m;
    if r == 0 {
      assert Abs(b * (e - q)) == m;
      SmallMultiple(b, e - q);
    }
    if m == 0 {
      assert Abs(b * (e - q)) == Abs(r);
      SmallMultiple(b, e - q);
    }
  }
}
