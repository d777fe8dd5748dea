/**
 * src/MyPackage/Calculator.cs: `Add` and `Multiply` on C# `long`.
 *
 * C# evaluates `long` arithmetic in an unchecked context unless the build turns on
 * overflow checking. This model takes the default (src/MyPackage/MyPackage.csproj is not
 * part of this model): a sum or product that leaves the 64-bit range wraps around in
 * two's complement, and `Wrap` writes that reduction out.
 */
module Calculator {

  const Modulus: int := 0x1_0000_0000_0000_0000
  const MinValue: int := -0x8000_0000_0000_0000
  const MaxValue: int := 0x7FFF_FFFF_FFFF_FFFF

  /** C#'s `long` (System.Int64). */
  newtype Int64 = x: int | -0x8000_0000_0000_0000 <= x < 0x8000_0000_0000_0000

  /** `x` and `y` agree modulo 2^64: the same 64-bit pattern. */
  predicate Congruent(x: int, y: int) {
    (x - y) % Modulus == 0
  }

  /** Two's complement reduction of an exact integer result to 64 bits. */
  function Wrap(x: int): (r: Int64)
    ensures Congruent(r as int, x)
    ensures MinValue <= x <= MaxValue ==> r as int == x
  {
    var m := x % Modulus;
    if m <= MaxValue then m as Int64 else (m - Modulus) as Int64
  }

  /** A multiple of 2^64 strictly between -2^64 and 2^64 is zero. */
  lemma SmallMultipleIsZero(d: int)
    requires d % Modulus == 0 && -Modulus < d < Modulus
    ensures d == 0
  {
    var q := d / Modulus;
    assert d == Modulus * q;
  }

  /** Each 64-bit value stands for exactly one congruence class: `Wrap` is the only reduction. */
  lemma WrapUnique(x: int, y: Int64)
    requires Congruent(y as int, x)
    ensures y == Wrap(x)
  {
    var w := Wrap(x);
    CongruentTransitive(y as int, x, w as int);
    SmallMultipleIsZero(y as int - w as int);
  }

  /** Congruent exact results wrap to the same `long`. */
  lemma WrapRespectsCongruence(x: int, y: int)
    requires Congruent(x, y)
    ensures Wrap(x) == Wrap(y)
  {
    assert Congruent(y, x) by { assert y - x == -(x - y); }
    CongruentTransitive(Wrap(x) as int, x, y);
    WrapUnique(y, Wrap(x));
  }

  lemma CongruentTransitive(x: int, y: int, z: int)
    requires Congruent(x, y) && (Congruent(z, y) || Congruent(y, z))
    ensures Congruent(x, z)
  {
    var p := (x - y) / Modulus;
    var q := (z - y) / Modulus;
    assert x - y == Modulus * p;
    assert z - y == Modulus * q;
    assert x - z == Modulus * (p - q);
  }

  lemma CongruentScaled(a: int, x: int, y: int)
    requires Congruent(x, y)
    ensures Congruent(a * x, a * y)
  {
    var q := (x - y) / Modulus;
    assert x - y == Modulus * q;
    assert a * x - a * y == a * (x - y);
    assert a * (x - y) == Modulus * (a * q);
  }

  lemma CongruentShifted(a: int, x: int, y: int)
    requires Congruent(x, y)
    ensures Congruent(a + x, a + y)
  {
    assert (a + x) - (a + y) == x - y;
  }

  // ---------------------------------------------------------------------------
  // the operations (src/MyPackage/Calculator.cs:23 and :37)
  // ---------------------------------------------------------------------------

  /** `a + b` on `long`: the exact sum whenever it fits, its 64-bit wrap-around otherwise. */
  function Add(a: Int64, b: Int64): (r: Int64)
    ensures MinValue <= a as int + b as int <= MaxValue ==> r as int == a as int + b as int
    ensures Congruent(r as int, a as int + b as int)
  {
    Wrap(a as int + b as int)
  }

  /** `a * b` on `long`: the exact product whenever it fits, its 64-bit wrap-around otherwise. */
  function Multiply(a: Int64, b: Int64): (r: Int64)
    ensures MinValue <= a as int * b as int <= MaxValue ==> r as int == a as int * b as int
    ensures Congruent(r as int, a as int * b as int)
  {
    Wrap(a as int * b as int)
  }

  /** The sum is the one `long` with the bit pattern of the exact sum. */
  lemma AddIsTheWrappedSum(a: Int64, b: Int64, y: Int64)
    requires Congruent(y as int, a as int + b as int)
    ensures Add(a, b) == y
  {
    WrapUnique(a as int + b as int, y);
  }

  /** The product is the one `long` with the bit pattern of the exact product. */
  lemma MultiplyIsTheWrappedProduct(a: Int64, b: Int64, y: Int64)
    requires Congruent(y as int, a as int * b as int)
    ensures Multiply(a, b) == y
  {
    WrapUnique(a as int * b as int, y);
  }

  /** Adding zero returns the original number. */
  lemma AddZero(a: Int64)
    ensures Add(a, 0) == a && Add(0, a) == a
  {
  }

  /** Multiplying by zero gives zero; by one, the number itself. */
  lemma MultiplyZeroAndOne(a: Int64)
    ensures Multiply(a, 0) == 0 && Multiply(0, a) == 0
    ensures Multiply(a, 1) == a && Multiply(1, a) == a
  {
  }

  lemma AddCommutative(a: Int64, b: Int64)
    ensures Add(a, b) == Add(b, a)
  {
  }

  lemma MultiplyCommutative(a: Int64, b: Int64)
    ensures Multiply(a, b) == Multiply(b, a)
  {
    assert a as int * b as int == b as int * a as int;
  }

  /** Wrap-around does not break associativity: grouping never changes a sum, overflowing or not. */
  lemma AddAssociative(a: Int64, b: Int64, c: Int64)
    ensures Add(Add(a, b), c) == Add(a, Add(b, c))
  {
    var ab, bc := Add(a, b), Add(b, c);
    var left, right := Add(ab, c), Add(a, bc);
    var x := a as int + b as int + c as int;
    AssociatesModulo(a as int, b as int, c as int, ab as int, bc as int);
    CongruentTransitive(left as int, ab as int + c as int, x);
    CongruentTransitive(right as int, a as int + bc as int, x);
    WrapUnique(x, left);
    WrapUnique(x, right);
  }

  lemma AssociatesModulo(a: int, b: int, c: int, ab: int, bc: int)
    requires Congruent(ab, a + b) && Congruent(bc, b + c)
    ensures Congruent(ab + c, a + b + c) && Congruent(a + bc, a + b + c)
  {
    CongruentShifted(c, ab, a + b);
    CongruentShifted(a, bc, b + c);
  }

  /** Multiplication distributes over addition, overflow included. */
  lemma MultiplyDistributes(a: Int64, b: Int64, c: Int64)
    ensures Multiply(a, Add(b, c)) == Add(Multiply(a, b), Multiply(a, c))
  {
    var bc := Add(b, c);
    var ab := Multiply(a, b);
    var ac := Multiply(a, c);
    var x := a as int * b as int + a as int * c as int;
    DistributesModulo(a as int, b as int, c as int, bc as int, ab as int, ac as int);
    assert Multiply(a, bc) == Wrap(a as int * bc as int);
    assert Add(ab, ac) == Wrap(ab as int + ac as int);
    WrapRespectsCongruence(a as int * bc as int, x);
    WrapRespectsCongruence(ab as int + ac as int, x);
  }

  lemma DistributesModulo(a: int, b: int, c: int, bc: int, ab: int, ac: int)
    requires Congruent(bc, b + c) && Congruent(ab, a * b) && Congruent(ac, a * c)
    ensures Congruent(a * bc, a * b + a * c)
    ensures Congruent(ab + ac, a * b + a * c)
  {
    CongruentScaled(a, bc, b + c);
    assert a * (b + c) == a * b + a * c;
    CongruentShifted(ab, ac, a * c);
    CongruentShifted(a * c, ab, a * b);
    CongruentTransitive(ab + ac, ab + a * c, a * b + a * c);
  }

  /** The product of two negative numbers is positive when it fits. */
  lemma TwoNegativesMultiplyToPositive(a: Int64, b: Int64)
    requires a < 0 && b < 0 && a as int * b as int <= MaxValue
    ensures Multiply(a, b) > 0
  {
    assert a as int * b as int == (-(a as int)) * (-(b as int));
    assert (-(a as int)) * (-(b as int)) >= 1;
  }

  /** One past the largest `long` wraps to the smallest; the product 2^32 * 2^32 wraps to zero. */
  lemma OverflowWraps()
    ensures Add(MaxValue as Int64, 1) as int == MinValue
    ensures Multiply(0x1_0000_0000, 0x1_0000_0000) == 0
  {
  }

  /** The sums the test suite expects, the last one at the edge of the range. */
  lemma AddExamples()
    ensures Add(2, 3) == 5 && Add(-1, -2) == -3 && Add(5, 0) == 5
    ensures Add(1_000_000, 2_000_000) == 3_000_000
    ensures Add(10, 20) == 30 && Add(-100, 50) == -50 && Add(0, 0) == 0
    ensures Add((MaxValue - 1) as Int64, 1) as int == MaxValue
  {
  }

  /** The products the test suite expects. */
  lemma MultiplyExamples()
    ensures Multiply(2, 3) == 6 && Multiply(5, 0) == 0 && Multiply(-2, 3) == -6 && Multiply(-2, -3) == 6
    ensures Multiply(10, 20) == 200 && Multiply(-10, -20) == 200 && Multiply(1, 1) == 1
    ensures Multiply(1_000, 1_000_000) == 1_000_000_000
  {
  }
}
