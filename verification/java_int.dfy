/** Java's 32-bit two's-complement `int`: the type of `count`, `count2`, `step`,
    `numberOfAgents` and `NumMessagesReturned` in the manager agent. */
module JavaInt {

  const MinInt: int := -0x8000_0000
  const MaxInt: int := 0x7FFF_FFFF
  /** The number of distinct `int` values, 2^32. */
  const Modulus: int := 0x1_0000_0000

  newtype int32 = x: int | -0x8000_0000 <= x < 0x8000_0000

  /** The Java `int` that the mathematical integer `x` wraps around to. */
  function Wrap(x: int): (r: int32)
    ensures MinInt <= x <= MaxInt ==> r as int == x
    ensures (r as int - x) % Modulus == 0
  {
    ((x + 0x8000_0000) % 0x1_0000_0000 - 0x8000_0000) as int32
  }

  /** Java's `c++` on an `int`. */
  function Inc(c: int32): (r: int32)
    ensures c as int < MaxInt ==> r as int == c as int + 1
    ensures c as int == MaxInt ==> r as int == MinInt
  {
    Wrap(c as int + 1)
  }

  /** Java's `a * b` on two `int`s. */
  function Mul(a: int32, b: int32): (r: int32)
    ensures MinInt <= a as int * b as int <= MaxInt ==> r as int == a as int * b as int
    ensures (r as int - a as int * b as int) % Modulus == 0
  {
    Wrap(a as int * b as int)
  }

  /** `Integer.toUnsignedLong`: the value in [0, 2^32) whose wrap is `w`, that is,
      how many increments from 0 it takes a counter to read `w`. */
  function ToUnsigned(w: int32): (r: int)
    ensures 0 <= r < Modulus
    ensures w >= 0 ==> r == w as int
    ensures Wrap(r) == w
  {
    if w < 0 then WrapHigh(w as int + Modulus); w as int + Modulus else w as int
  }

  /** Above `MaxInt` and below 2^32, wrapping subtracts 2^32. */
  lemma WrapHigh(x: int)
    requires MaxInt < x < Modulus
    ensures Wrap(x) as int == x - Modulus
  {
    DivModUnique(x + 0x8000_0000, Modulus, 1, x - 0x8000_0000);
  }

  /** Wrapping is one-to-one on [0, 2^32), with `ToUnsigned` as its inverse. */
  lemma UnsignedOfWrap(x: int)
    requires 0 <= x < Modulus
    ensures ToUnsigned(Wrap(x)) == x
  {
    if x > MaxInt {
      WrapHigh(x);
    }
  }

  /** Two `int`s with the same unsigned reading are equal. */
  lemma UnsignedInjective(a: int32, b: int32)
    requires ToUnsigned(a) == ToUnsigned(b)
    ensures a == b
  {
  }

  /** `c++` adds one to the unsigned reading, modulo 2^32. */
  lemma IncUnsigned(c: int32)
    ensures ToUnsigned(c) < Modulus - 1 ==> ToUnsigned(Inc(c)) == ToUnsigned(c) + 1
    ensures ToUnsigned(c) == Modulus - 1 ==> Inc(c) == 0
  {
  }

  /** Wrapping a value in [-2^32, 0) is wrapping it plus 2^32. */
  lemma WrapNegative(x: int)
    requires -Modulus <= x < 0
    ensures Wrap(x) == Wrap(x + Modulus)
  {
    var y := x + 0x8000_0000;
    if y < 0 {
      DivModUnique(y, Modulus, -1, y + Modulus);
      DivModUnique(y + Modulus, Modulus, 0, y + Modulus);
    } else {
      DivModUnique(y, Modulus, 0, y);
      DivModUnique(y + Modulus, Modulus, 1, y);
    }
  }

  /** Quotient and remainder are determined by `x == q * t + r` with `0 <= r < t`. */
  lemma DivModUnique(x: int, t: int, q: int, r: int)
    requires t > 0 && 0 <= r < t && x == q * t + r
    ensures x / t == q && x % t == r
  {
    var q', r' := x / t, x % t;
    var d := q - q';
    assert d * t == r' - r by {
      assert q * t - q' * t == (q - q') * t;
    }
    if d >= 1 {
      MulAtLeast(d, t);
    } else if d <= -1 {
      MulAtLeast(-d, t);
    }
  }

  lemma MulAtLeast(a: int, t: int)
    requires a >= 1 && t > 0
    ensures a * t >= t
  {
    assert a * t == (a - 1) * t + t;
  }
}
