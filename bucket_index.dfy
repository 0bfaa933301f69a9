/** Java integer arithmetic used by the map, and the bucket index computed from a key.
    Java's `long` and `int` are fixed-width two's-complement integers, `%` truncates
    toward zero, `Math.abs(long)` overflows on the minimum value and an `(int)` cast
    keeps the low 32 bits; each is written out here so that the index of every
    64-bit key can be checked. */
module BucketIndex {

  const MIN_LONG: int := -0x8000_0000_0000_0000
  const MAX_LONG: int := 0x7FFF_FFFF_FFFF_FFFF
  const MIN_INT: int := -0x8000_0000
  const MAX_INT: int := 0x7FFF_FFFF

  /** A Java `long`. */
  type Long = x: int | -0x8000_0000_0000_0000 <= x <= 0x7FFF_FFFF_FFFF_FFFF

  /** A Java `int`. */
  type Int32 = x: int | -0x8000_0000 <= x <= 0x7FFF_FFFF

  /** Mathematical absolute value. */
  function Abs(x: int): nat
  {
    if x < 0 then -x else x
  }

  /** Two's-complement wrap-around of an integer into 32 bits: the `int` that
      differs from `x` by a multiple of 2^32.  Written as a reduction one
      multiple at a time, so that the verifier unfolds it one step at a time. */
  function WrapInt(x: int): (r: Int32)
    ensures MIN_INT <= x <= MAX_INT ==> r == x
    decreases if x > MAX_INT then x - MAX_INT else MIN_INT - x
  {
    if x > MAX_INT then WrapInt(x - 0x1_0000_0000)
    else if x < MIN_INT then WrapInt(x + 0x1_0000_0000)
    else x
  }

  /** Java's unary `-` on longs: the negation of `Long.MIN_VALUE` overflows
      back to `Long.MIN_VALUE`; every other value negates exactly. */
  function Negate(a: Long): (r: Long)
    ensures a != MIN_LONG ==> r as int == -(a as int)
    ensures a == MIN_LONG ==> r == MIN_LONG
  {
    if a == MIN_LONG then a else -(a as int)
  }

  /** Java's `/` on longs for a positive divisor: the quotient truncated toward zero. */
  function JavaDiv(a: Long, b: Long): int
    requires b > 0
  {
    if a >= 0 then a / b else -((-(a as int)) / b)
  }

  /** Java's `%` on longs for a positive divisor, defined by the identity
      `(a / b) * b + a % b == a` of the Java language.  Unlike Dafny's `%`, it
      is negative for a negative dividend that the divisor does not divide. */
  function JavaRem(a: Long, b: Long): (r: Long)
    requires b > 0
    ensures Abs(r) == Abs(a) % b
    ensures -b < r < b
    ensures r != 0 ==> (r < 0 <==> a < 0)
  {
    a - JavaDiv(a, b) * b
  }

  /** `Math.abs(long)`: negation wraps, so the minimum value is its own absolute value. */
  function MathAbs(a: Long): (r: Long)
    ensures a != MIN_LONG ==> r == Abs(a)
    ensures a == MIN_LONG ==> r == MIN_LONG
  {
    if a < 0 then Negate(a) else a
  }

  /** The narrowing conversion `(int)` from `long`. */
  function LongToInt(x: Long): (r: Int32)
    ensures MIN_INT <= x <= MAX_INT ==> r == x
  {
    WrapInt(x)
  }

  /** `getIndex(key) = (int) Math.abs(key % capacity)`: the bucket of `key`.
      For every 64-bit key, `Long.MIN_VALUE` and negative keys included, it is a
      valid array index. */
  function GetIndex(key: Long, capacity: Int32): (index: Int32)
    requires capacity > 0
    ensures 0 <= index < capacity
  {
    LongToInt(MathAbs(JavaRem(key, capacity)))
  }

  /** The bucket of `key` is `|key| mod capacity`: no step of `getIndex`
      overflows, `Long.MIN_VALUE` included. */
  lemma GetIndexIsAbsRem(key: Long, capacity: Int32)
    requires capacity > 0
    ensures GetIndex(key, capacity) == Abs(key) % capacity
  {
    var rem := JavaRem(key, capacity);
    assert Abs(rem) < capacity <= MAX_INT;
  }
}
