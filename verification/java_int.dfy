/** Java's 32-bit two's-complement `int`, as used for the offset, the content
    height and the step of the scroller. Every arithmetic operator the scroll
    loop applies to an `int` wraps around modulo 2^32; this module writes that
    wrap-around out so that the model can state where it matters. */
module JavaInt {

  const MIN_VALUE: int := -0x8000_0000
  const MAX_VALUE: int := 0x7fff_ffff
  const MODULUS: int := 0x1_0000_0000

  predicate InRange(x: int) {
    MIN_VALUE <= x <= MAX_VALUE
  }

  /** The values a Java `int` can hold. */
  type int32 = x: int | MIN_VALUE <= x <= MAX_VALUE

  /** Two integers denote the same Java `int` when they differ by a multiple of 2^32. */
  predicate Congruent(x: int, y: int) {
    (x - y) % MODULUS == 0
  }

  /** The Java `int` an exact integer result is truncated to. */
  function Wrap(x: int): (r: int32)
    ensures Congruent(x, r)
    ensures InRange(x) ==> r == x
  {
    var k := (x - MIN_VALUE) / MODULUS;
    assert x - MIN_VALUE == k * MODULUS + (x - MIN_VALUE) % MODULUS;
    assert x - ((x - MIN_VALUE) % MODULUS + MIN_VALUE) == k * MODULUS;
    (x - MIN_VALUE) % MODULUS + MIN_VALUE
  }

  /** Java's `a - b` on `int`. The exact difference of two `int`s lies
      within one 2^32 of the `int` range, so wrapping it shifts it by at
      most one 2^32 (SubIsWrap). */
  function Sub(a: int32, b: int32): (r: int32)
    ensures r == a - b || r == a - b - MODULUS || r == a - b + MODULUS
    ensures InRange(a - b) ==> r == a - b
  {
    var d := a - b;
    if d > MAX_VALUE then d - MODULUS else if d < MIN_VALUE then d + MODULUS else d
  }

  /** Java's unary `-a` on `int`: the only value it does not negate is
      MIN_VALUE, whose negation wraps to itself (NegIsWrap). */
  function Neg(a: int32): (r: int32)
    ensures a != MIN_VALUE ==> r + a == 0
    ensures a == MIN_VALUE ==> r == MIN_VALUE
  {
    if a == MIN_VALUE then MIN_VALUE else -a
  }

  /** Java's `a * b` on `int`. */
  function Mul(a: int32, b: int32): (r: int32)
    ensures Congruent(a * b, r)
    ensures InRange(a * b) ==> r == a * b
  {
    Wrap(a * b)
  }

  /** Sub is the 32-bit wrap-around of the exact difference. */
  lemma SubIsWrap(a: int32, b: int32)
    ensures Sub(a, b) == Wrap(a - b)
    ensures Congruent(a - b, Sub(a, b))
  {
    var r := Sub(a, b);
    assert a - b - r == 0 || a - b - r == MODULUS || a - b - r == -MODULUS;
    WrapUnique(a - b, r);
  }

  /** Neg is the 32-bit wrap-around of the exact negation. */
  lemma NegIsWrap(a: int32)
    ensures Neg(a) == Wrap(-(a as int))
    ensures Congruent(-(a as int), Neg(a))
  {
    var r := Neg(a);
    assert -(a as int) - r == 0 || -(a as int) - r == MODULUS;
    WrapUnique(-(a as int), r);
  }

  /** Wrap picks the one Java `int` congruent to its argument. */
  lemma WrapUnique(x: int, r: int)
    requires InRange(r) && Congruent(x, r)
    ensures Wrap(x) == r
  {
    var w := Wrap(x);
    var d := w - r;
    assert Congruent(d, 0) by {
      assert (x - r) % MODULUS == 0;
      assert (x - w) % MODULUS == 0;
      var a := (x - r) / MODULUS;
      var b := (x - w) / MODULUS;
      assert d == (a - b) * MODULUS;
    }
    assert -MODULUS < d < MODULUS;
  }
}
