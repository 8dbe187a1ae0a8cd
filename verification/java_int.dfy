/** Java's 32-bit `int`: arithmetic keeps the low 32 bits of the exact result and
    reads them as a two's-complement number (sections 4.2.2, 15.17.1 and 15.18.2
    of the Java Language Specification). */
module JavaInt {

  const Modulus: int := 0x1_0000_0000
  const MinValue: int := -0x8000_0000
  const MaxValue: int := 0x7fff_ffff

  predicate IsInt(x: int) {
    MinValue <= x <= MaxValue
  }

  /** The `int` that an exact integer result wraps around to: the one value in
      range that differs from x by a multiple of 2^32. */
  function Wrap(x: int): (r: int)
    ensures IsInt(r)
    ensures IsInt(x) ==> r == x
  {
    (x - MinValue) % Modulus + MinValue
  }

  /** The wrapped value differs from x by a multiple of 2^32. */
  lemma WrapCongruence(x: int)
    ensures (x - Wrap(x)) % Modulus == 0
  {
  }

  /** Only one value in range is congruent to x. */
  lemma WrapUnique(x: int, r: int)
    requires IsInt(r) && (x - r) % Modulus == 0
    ensures Wrap(x) == r
  {
  }

  /** Congruent integers wrap to the same `int`. */
  lemma WrapCongruent(x: int, y: int)
    requires (x - y) % Modulus == 0
    ensures Wrap(x) == Wrap(y)
  {
    WrapCongruence(x);
    WrapUnique(y, Wrap(x));
  }

  /** Wrapping after every addition gives the wrapped exact sum. */
  lemma WrapAdd(x: int, y: int)
    ensures Wrap(Wrap(x) + Wrap(y)) == Wrap(x + y)
  {
    WrapCongruent(Wrap(x) + Wrap(y), x + y);
  }

  /** Shifting both factors by multiples of 2^32 shifts their product by a
      multiple of 2^32. */
  lemma ShiftedProduct(a: int, b: int, i: int, j: int)
    ensures (a + Modulus * i) * (b + Modulus * j) - a * b
            == Modulus * (i * b + j * a + Modulus * i * j)
  {
  }

  lemma MultipleOfModulus(k: int)
    ensures (Modulus * k) % Modulus == 0
  {
  }

  /** Wrapping after every multiplication gives the wrapped exact product. */
  lemma WrapMul(x: int, y: int)
    ensures Wrap(Wrap(x) * Wrap(y)) == Wrap(x * y)
  {
    var wx, wy := Wrap(x), Wrap(y);
    WrapCongruence(x);
    WrapCongruence(y);
    var i, j := (x - wx) / Modulus, (y - wy) / Modulus;
    assert x == wx + Modulus * i;
    assert y == wy + Modulus * j;
    ShiftedProduct(wx, wy, i, j);
    MultipleOfModulus(i * wy + j * wx + Modulus * i * j);
    WrapCongruent(x * y, wx * wy);
  }
}
