/**
 * The few ECMAScript Number operations that `getColorHash` relies on, on
 * integral values: ToInt32, the `<<` operator, the truncating `%` operator
 * and `Math.abs`. Integers are unbounded here; every wrap-around the
 * language performs is written out.
 */
module JsNumbers {

  const TWO_31: int := 0x8000_0000
  const TWO_32: int := 0x1_0000_0000

  /** A value representable as a signed 32-bit integer. */
  predicate IsInt32(x: int) {
    -TWO_31 <= x < TWO_31
  }

  /** `a` and `b` agree modulo `m`. */
  predicate Congruent(a: int, b: int, m: int)
    requires m > 0
  {
    (a - b) % m == 0
  }

  function Abs(x: int): (r: nat)
    ensures r == x || r == -x
  {
    if x < 0 then -x else x
  }

  /** Multiplying by a non-zero integer moves away from zero by at least `m`. */
  lemma MulBounds(m: int, k: int)
    requires m > 0
    ensures k >= 1 ==> m * k >= m
    ensures k <= -1 ==> m * k <= -m
  {
  }

  /** A multiple of `m` leaves no remainder. */
  lemma MultipleIsDivisible(a: int, m: int, q: int)
    requires m > 0
    requires a == m * q
    ensures a % m == 0
  {
    var d := a / m;
    assert m * (q - d) == a % m;
    MulBounds(m, q - d);
  }

  /** The only multiple of `m` strictly between -m and m is zero. */
  lemma SmallMultipleIsZero(d: int, m: int)
    requires m > 0
    requires d % m == 0
    requires -m < d < m
    ensures d == 0
  {
    assert d == m * (d / m);
    MulBounds(m, d / m);
  }

  /** Congruence modulo `m` is transitive. */
  lemma CongruentTrans(a: int, b: int, c: int, m: int)
    requires m > 0
    requires Congruent(a, b, m) && Congruent(b, c, m)
    ensures Congruent(a, c, m)
  {
    var p := (a - b) / m;
    var q := (b - c) / m;
    assert a - c == m * (p + q);
    MultipleIsDivisible(a - c, m, p + q);
  }

  /**
   * ToInt32 (section 7.1.6 of ECMA-262) applied to an integral Number:
   * the signed 32-bit integer congruent to `x` modulo 2^32.
   */
  function ToInt32(x: int): (r: int)
    ensures IsInt32(r)
    ensures Congruent(x, r, TWO_32)
  {
    var m := x % TWO_32;
    if m >= TWO_31 then m - TWO_32 else m
  }

  /** ToInt32 is the only signed 32-bit value congruent to its input. */
  lemma ToInt32Unique(x: int, y: int)
    requires IsInt32(y)
    requires Congruent(x, y, TWO_32)
    ensures ToInt32(x) == y
  {
    var r := ToInt32(x);
    assert Congruent(r, y, TWO_32) by {
      assert Congruent(r, x, TWO_32) by {
        MultipleIsDivisible(r - x, TWO_32, -((x - r) / TWO_32));
      }
      CongruentTrans(r, x, y, TWO_32);
    }
    SmallMultipleIsZero(r - y, TWO_32);
  }

  /**
   * `x << 5` (section 13.9.1 of ECMA-262): the left operand is converted
   * with ToInt32 and the product by 2^5 wraps back into the signed 32-bit
   * range, so the result agrees with 32 * x modulo 2^32.
   */
  function ShiftLeft5(x: int): (r: int)
    ensures IsInt32(r)
    ensures Congruent(32 * x, r, TWO_32)
  {
    var shifted := ToInt32(x) * 32;
    assert Congruent(32 * x, shifted, TWO_32) by {
      var q := (x - ToInt32(x)) / TWO_32;
      MultipleIsDivisible(32 * x - shifted, TWO_32, 32 * q);
    }
    var r := ToInt32(shifted);
    CongruentTrans(32 * x, shifted, r, TWO_32);
    r
  }

  /**
   * The `%` operator on integral Numbers (section 6.1.6.1.6 of ECMA-262):
   * the result takes the sign of the dividend and its magnitude is
   * |a| modulo |n|, unlike Dafny's Euclidean `%`.
   */
  function JsRem(a: int, n: int): (r: int)
    requires n != 0
    ensures Abs(r) < Abs(n)
    ensures a >= 0 ==> r >= 0
    ensures a <= 0 ==> r <= 0
    ensures Congruent(a, r, Abs(n))
  {
    var m := Abs(n);
    var r := if a >= 0 then a % m else -((-a) % m);
    assert Congruent(a, r, m) by {
      if a >= 0 {
        MultipleIsDivisible(a - r, m, a / m);
      } else {
        MultipleIsDivisible(a - r, m, -((-a) / m));
      }
    }
    r
  }

  /**
   * The truncating remainder is determined by its three defining
   * properties: same sign as the dividend, smaller than the divisor,
   * and congruent to the dividend.
   */
  lemma JsRemUnique(a: int, n: int, r: int)
    requires n != 0
    requires Abs(r) < Abs(n)
    requires a >= 0 ==> r >= 0
    requires a <= 0 ==> r <= 0
    requires Congruent(a, r, Abs(n))
    ensures JsRem(a, n) == r
  {
    var j := JsRem(a, n);
    var m := Abs(n);
    assert Congruent(j, r, m) by {
      assert Congruent(j, a, m) by {
        MultipleIsDivisible(j - a, m, -((a - j) / m));
      }
      CongruentTrans(j, a, r, m);
    }
    SmallMultipleIsZero(j - r, m);
  }

  /** `Math.abs(a % n)` is the Euclidean remainder of |a|. */
  lemma AbsJsRem(a: int, n: int)
    requires n > 0
    ensures Abs(JsRem(a, n)) == Abs(a) % n
  {
  }
}
