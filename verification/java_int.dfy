/** Java `int` arithmetic: 32-bit two's-complement wrap-around and division
    that truncates toward zero. */
module JavaInt {

  const MinInt: int := -0x8000_0000
  const MaxInt: int := 0x7FFF_FFFF
  const Modulus: int := 0x1_0000_0000

  type Int32 = x: int | MinInt <= x <= MaxInt

  /** The value a Java `int` expression holds after overflow. */
  function Wrap(x: int): (r: Int32)
    ensures (x - r) % Modulus == 0
    ensures MinInt <= x <= MaxInt ==> r == x
  {
    (x - MinInt) % Modulus + MinInt
  }

  function Abs(x: int): nat {
    if x < 0 then -x else x
  }

  function NatDiv(n: nat, m: nat): nat
    requires m > 0
  {
    n / m
  }

  /** Integer division as Java (and C) define it: the quotient is truncated toward zero. */
  function Quot(a: int, b: int): (q: int)
    requires b != 0
    ensures Abs(q) == Abs(a) / Abs(b)
    ensures q < 0 ==> (a < 0) != (b < 0)
    ensures 0 <= a && 0 < b ==> q == a / b
  {
    var d: int := NatDiv(Abs(a), Abs(b));
    if (a < 0) == (b < 0) then d else -d
  }

  /** `a + b` on Java ints. */
  function Add(a: Int32, b: Int32): Int32 {
    Wrap(a + b)
  }

  /** `a * b` on Java ints. */
  function Mul(a: Int32, b: Int32): Int32 {
    Wrap(a * b)
  }

  /** `a / b` on Java ints (the only overflow is `MinInt / -1`). */
  function Div(a: Int32, b: Int32): Int32
    requires b != 0
  {
    Wrap(Quot(a, b))
  }

  /** Multiplying by a positive number and dividing by it again gives the number back. */
  lemma MulDivCancel(k: nat, t: int)
    requires t > 0
    ensures (k * t) / t == k
  {
    var q := (k * t) / t;
    var r := (k * t) % t;
    assert q * t + r == k * t;
    assert (k - q) * t == r;
    MultipleBelow(k - q, t);
  }

  /** The only multiple of a positive `t` in `[0, t)` is zero times `t`. */
  lemma MultipleBelow(d: int, t: int)
    requires t > 0 && 0 <= d * t < t
    ensures d == 0
  {
    assert d >= 1 ==> d * t >= t;
    assert d <= -1 ==> d * t <= -t;
  }
}
