/**
 * Java's 32-bit int: the range of its values and the two's-complement
 * wrap-around of its addition and subtraction.
 */
module JavaInt {
  const Modulus: int := 0x1_0000_0000

  /** A value of Java's int. */
  type Int32 = x: int | -0x8000_0000 <= x < 0x8000_0000

  /** The int a Java addition or subtraction yields when its exact result
      is x: x reduced into the int range modulo 2^32. */
  function Wrap32(x: int): (r: Int32)
    ensures (x - r) % Modulus == 0
  {
    (x + 0x8000_0000) % Modulus - 0x8000_0000
  }

  /** Without overflow Java's int arithmetic is exact. */
  lemma Wrap32Exact(x: int)
    requires -0x8000_0000 <= x < 0x8000_0000
    ensures Wrap32(x) == x
  {
  }

  /** Euclidean division by 2^32 has a unique remainder. */
  lemma ModUnique(y: int, q: int, r: int)
    requires y == Modulus * q + r && 0 <= r < Modulus
    ensures y % Modulus == r
  {
    var q', r' := y / Modulus, y % Modulus;
    assert y == Modulus * q' + r' && 0 <= r' < Modulus;
    assert Modulus * (q - q') == r' - r;
  }

  /** Adding a multiple of 2^32 does not change the wrapped value. */
  lemma Wrap32Shift(x: int, t: int)
    ensures Wrap32(x + Modulus * t) == Wrap32(x)
  {
    var y := x + 0x8000_0000;
    var q, r := y / Modulus, y % Modulus;
    assert y == Modulus * q + r && 0 <= r < Modulus;
    ModUnique(y + Modulus * t, q + t, r);
  }

  /** Wrapping an intermediate result does not change the final one:
      a + (b wrapped) wraps to the same int as a + b. */
  lemma Wrap32Add(a: int, b: int)
    ensures Wrap32(a + Wrap32(b)) == Wrap32(a + b)
  {
    var y := b + 0x8000_0000;
    var t, r := y / Modulus, y % Modulus;
    assert y == Modulus * t + r;
    assert Wrap32(b) == r - 0x8000_0000;
    assert a + Wrap32(b) == (a + b) + Modulus * (-t);
    Wrap32Shift(a + b, -t);
  }
}
