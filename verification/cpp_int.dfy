/**
 C++ fixed-width integers and the integer operators the operator uses.

 Dafny's `/` and `%` are Euclidean; C++ truncates the quotient toward zero and
 gives the remainder the sign of the dividend. `Quot` and `Rem` model the C++
 operators, and the lemmas below show where the two families agree.
 */
module CppInt {

  const MinInt32: int := -0x8000_0000
  const MaxInt32: int := 0x7fff_ffff
  const MinInt64: int := -0x8000_0000_0000_0000
  const MaxInt64: int := 0x7fff_ffff_ffff_ffff

  /** `int32_t` */
  type Int32 = x: int | MinInt32 <= x <= MaxInt32

  /** `int64_t` */
  type Int64 = x: int | MinInt64 <= x <= MaxInt64

  function Abs(x: int): nat {
    if x < 0 then -x else x
  }

  /**
   C++ `a / b`: the quotient truncated toward zero. Its magnitude is the
   largest number of whole divisors that fit into the dividend, and a
   non-zero quotient is negative exactly when the operands' signs differ.
   */
  function Quot(a: int, b: int): (q: int)
    requires b != 0
    ensures Abs(b) * Abs(q) <= Abs(a) < Abs(b) * Abs(q) + Abs(b)
    ensures q == 0 || ((q < 0) <==> ((a < 0) != (b < 0)))
  {
    var m := Abs(a) / Abs(b);
    NatDivBounds(Abs(a), Abs(b));
    if (a < 0) == (b < 0) then m else -m
  }

  /** Euclidean division of naturals brackets the dividend between consecutive multiples. */
  lemma NatDivBounds(x: nat, y: nat)
    requires y > 0
    ensures x / y >= 0
    ensures y * (x / y) <= x < y * (x / y) + y
  {
    assert x == y * (x / y) + x % y;
  }

  /**
   C++ `a % b`: the remainder that goes with `Quot`. It differs from the
   dividend by a multiple of the divisor, is smaller than the divisor in
   magnitude and, when non-zero, has the sign of the dividend.
   */
  function Rem(a: int, b: int): (r: int)
    requires b != 0
    ensures Abs(r) < Abs(b)
    ensures r == 0 || ((r < 0) <==> (a < 0))
    ensures (a - r) % b == 0
  {
    var q := Quot(a, b);
    MulSign(b, q);
    AbsMul(b, q);
    EuclidZeroIff(b * q, b, q);
    a - b * q
  }

  /**
   Conversion of a wider integer to `int32_t` (two's complement, as every
   C++ implementation the operator targets does it).
   */
  function WrapInt32(x: int): (r: Int32)
    ensures (x - r) % 0x1_0000_0000 == 0
    ensures MinInt32 <= x <= MaxInt32 ==> r == x
  {
    var m := x % 0x1_0000_0000;
    if m <= MaxInt32 then m else m - 0x1_0000_0000
  }

  /** The magnitude of a product is the product of the magnitudes. */
  lemma AbsMul(b: int, m: int)
    ensures Abs(b * m) == Abs(b) * Abs(m)
  {
    if b < 0 && m < 0 {
      assert b * m == (-b) * (-m);
    } else if b < 0 {
      assert b * m == -((-b) * m);
    } else if m < 0 {
      assert b * m == -(b * (-m));
    }
  }

  /** A non-zero product is negative exactly when its factors' signs differ. */
  lemma MulSign(b: int, m: int)
    ensures b * m == 0 || ((b * m < 0) <==> ((b < 0) != (m < 0)))
  {
    if b < 0 && m < 0 {
      assert b * m == (-b) * (-m);
    } else if b < 0 {
      assert b * m == -((-b) * m);
    } else if m < 0 {
      assert b * m == -(b * (-m));
    }
  }

  /** A non-zero factor cannot shrink the magnitude of the other factor. */
  lemma MulMagnitude(b: int, m: int)
    requires b != 0 && m != 0
    ensures Abs(b * m) >= Abs(b)
  {
    AbsMul(b, m);
    var x, y := Abs(b), Abs(m);
    assert x * y == x * (y - 1) + x;
    assert x * (y - 1) >= 0;
  }

  /** The truncated remainder and quotient rebuild the dividend, and the remainder is smaller than the divisor. */
  lemma QuotRemFacts(a: int, b: int)
    requires b != 0
    ensures a == b * Quot(a, b) + Rem(a, b)
    ensures Abs(Rem(a, b)) == Abs(a) % Abs(b)
  {
    var q := Quot(a, b);
    var m := Abs(a) / Abs(b);
    assert Abs(q) == m;
    AbsMul(b, q);
    MulSign(b, q);
    assert Abs(a) == Abs(b) * m + Abs(a) % Abs(b);
    if a >= 0 {
      assert b * q >= 0;
    } else {
      assert b * q <= 0;
    }
  }

  /** `b` divides `a` exactly when the product `b * k` hits `a` for some `k`; Euclidean form. */
  lemma EuclidZeroIff(a: int, b: int, k: int)
    requires b != 0 && a == b * k
    ensures a % b == 0 && a / b == k
  {
    var d := a / b - k;
    assert a == b * (a / b) + a % b;
    assert b * d == -(a % b) by {
      assert b * d == b * (a / b) - b * k;
    }
    if d != 0 {
      MulMagnitude(b, d);
      assert false;
    }
  }

  /** A zero C++ remainder means `b` divides `a`, with the C++ quotient as the Euclidean one. */
  lemma RemZeroDivides(a: int, b: int)
    requires b != 0 && Rem(a, b) == 0
    ensures a % b == 0 && Quot(a, b) == a / b
  {
    QuotRemFacts(a, b);
    EuclidZeroIff(a, b, Quot(a, b));
  }

  /** If `b` divides `a` in the Euclidean sense, the C++ remainder is zero too. */
  lemma DividesRemZero(a: int, b: int)
    requires b != 0 && a % b == 0
    ensures Rem(a, b) == 0
  {
    var k := a / b;
    assert a == b * k;
    AbsMul(b, k);
    EuclidZeroIff(Abs(a), Abs(b), Abs(k));
    QuotRemFacts(a, b);
  }

  /**
   The C++ remainder is zero exactly when the Euclidean one is, and then the
   C++ quotient is the Euclidean quotient: for exact division the two
   operator families agree.
   */
  lemma ExactDivisionAgrees(a: int, b: int)
    requires b != 0
    ensures Rem(a, b) == 0 <==> a % b == 0
    ensures Rem(a, b) == 0 ==> Quot(a, b) == a / b && Quot(a, b) * b == a
  {
    if Rem(a, b) == 0 {
      RemZeroDivides(a, b);
      QuotRemFacts(a, b);
    } else if a % b == 0 {
      DividesRemZero(a, b);
    }
  }

  /** Truncating division by a divisor larger than one never grows the magnitude. */
  lemma QuotShrinks(a: int, b: int)
    requires b > 1
    ensures Abs(Quot(a, b)) <= Abs(a)
  {
    var q := Abs(a) / Abs(b);
    assert Abs(a) == Abs(b) * q + Abs(a) % Abs(b);
    if q > Abs(a) {
      MulMagnitude(q, Abs(b));
      assert false;
    }
  }
}
