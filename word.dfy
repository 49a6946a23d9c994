/** The fixed-width integers of the C program on an LP64 target: `int` is a
    32-bit signed integer and `unsigned long` a 64-bit unsigned one whose
    arithmetic wraps modulo 2^64. */
module Word {

  const TWO31: int := 0x8000_0000
  const TWO64: int := 0x1_0000_0000_0000_0000

  /** A value an `unsigned long` can hold. */
  type u64 = x: int | 0 <= x < TWO64

  /** A value an `int` can hold. */
  type i32 = x: int | -TWO31 <= x < TWO31

  /** What an `unsigned long` holds after a cast or an arithmetic operation
      whose exact result is `x`: the residue of `x` modulo 2^64. */
  function Wrap(x: int): u64 {
    x % TWO64
  }

  /** Wrapping an intermediate result early does not change the wrapped total. */
  lemma WrapAdd(x: int, y: int)
    ensures Wrap(Wrap(x) + y) == Wrap(x + y)
  {
    var q := x / TWO64;
    assert x == q * TWO64 + Wrap(x);
    assert Wrap(x) + y == (x + y) - q * TWO64;
  }

  /** Products of two non-negative `int`s are far below 2^64. */
  lemma ProductBound(a: int, b: int)
    requires 0 <= a < TWO31 && 0 <= b < TWO31
    ensures 0 <= a * b < TWO31 * TWO31
  {
    assert a * TWO31 - a * b == a * (TWO31 - b);
    assert a * (TWO31 - b) >= 0;
  }
}
