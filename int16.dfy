/** Go's `int16` arithmetic: two's-complement wrap-around on overflow, the
    arithmetic right shift and the bitwise AND used by the branchless
    min/max of src/station.go. Values are mathematical integers in range;
    every operation that can leave the range says how it wraps. */
module Int16 {

  type int16 = x: int | -0x8000 <= x < 0x8000

  /** The two's-complement reading of the low 16 bits of `x`. */
  function Wrap(x: int): (r: int16)
    ensures (r - x) % 0x1_0000 == 0
    ensures -0x8000 <= x < 0x8000 ==> r == x
  {
    var m := x % 0x1_0000;
    if m < 0x8000 then m else m - 0x1_0000
  }

  function Add16(a: int16, b: int16): (r: int16)
    ensures -0x8000 <= a + b < 0x8000 ==> r == a + b
  {
    Wrap(a + b)
  }

  function Sub16(a: int16, b: int16): (r: int16)
    ensures -0x8000 <= a - b < 0x8000 ==> r == a - b
  {
    Wrap(a - b)
  }

  function Mul16(a: int16, b: int16): (r: int16)
    ensures -0x8000 <= a * b < 0x8000 ==> r == a * b
  {
    Wrap(a * b)
  }

  /** Unary minus; `-(-32768)` wraps to `-32768`. */
  function Neg16(a: int16): (r: int16)
    ensures a != -0x8000 ==> r == -a
    ensures a == -0x8000 ==> r == a
  {
    Wrap(-(a as int))
  }

  function Pow2(k: nat): (p: int)
    ensures p >= 1
  {
    if k == 0 then 1 else 2 * Pow2(k - 1)
  }

  /** `x >> k` on a signed integer: the arithmetic shift, one bit at a
      time, each step a halving rounded toward negative infinity (Dafny's
      `/` by a positive divisor). */
  function ShiftRight(x: int16, k: nat): (r: int16)
    ensures r == x / Pow2(k)
    decreases k
  {
    if k == 0 then x
    else
      HalveThenDivide(x, Pow2(k - 1));
      ShiftRight(x / 2, k - 1)
  }

  /** Halving and then dividing by m is dividing by 2m. */
  lemma HalveThenDivide(x: int, m: int)
    requires m >= 1
    ensures x / 2 / m == x / (2 * m)
  {
    var q := x / 2;
    var r := 2 * (q % m) + x % 2;
    assert x == 2 * q + x % 2;
    assert q == m * (q / m) + q % m;
    assert x == (2 * m) * (q / m) + r;
    DivideUnique(x, 2 * m, q / m, r);
  }

  /** The quotient is the only q with x == d*q + r and 0 <= r < d. */
  lemma DivideUnique(x: int, d: int, q: int, r: int)
    requires 0 <= r < d && x == d * q + r
    ensures x / d == q
  {
    var q', r' := x / d, x % d;
    assert x == d * q' + r';
    var e := q - q';
    assert d * e == d * q - d * q';
    assert -d < d * e < d;
    ScaledAwayFromZero(d, e);
  }

  lemma ScaledAwayFromZero(d: int, e: int)
    requires d > 0
    ensures e >= 1 ==> d * e >= d
    ensures e <= -1 ==> d * e <= -d
  {
    if e >= 1 {
      assert d * e == d + d * (e - 1);
    } else if e <= -1 {
      var f := -e - 1;
      assert d * e == -d - d * f;
    }
  }

  /** Shifting a value of k+1 significant bits right by k leaves only its
      sign: all ones (-1) for a negative value, zero otherwise. */
  lemma {:induction false} ShiftRightLeavesSign(x: int16, k: nat)
    requires -Pow2(k) <= x < Pow2(k)
    ensures ShiftRight(x, k) == if x < 0 then -1 else 0
    decreases k
  {
    if k > 0 {
      ShiftRightLeavesSign(x / 2, k - 1);
    }
  }

  /** `x >> 15` on an int16 is its sign mask. */
  lemma SignMask(x: int16)
    ensures ShiftRight(x, 15) == if x < 0 then -1 else 0
  {
    assert Pow2(15) == 0x8000;
    ShiftRightLeavesSign(x, 15);
  }

  function Abs(x: int): nat {
    if x < 0 then -x else x
  }

  /** Bitwise AND of two integers in two's complement (infinite sign
      extension), defined bit by bit from the least significant bit. */
  function BitAnd(x: int, y: int): (r: int)
    ensures y == -1 ==> r == x
    ensures y == 0 ==> r == 0
    decreases Abs(x) + Abs(y)
  {
    if x == 0 || y == 0 then 0
    else if x == -1 then y
    else if y == -1 then x
    else 2 * BitAnd(x / 2, y / 2) + (if x % 2 == 1 && y % 2 == 1 then 1 else 0)
  }

  /** The AND of two k-bit signed values is a k-bit signed value. */
  lemma {:induction false} BitAndRange(x: int, y: int, k: nat)
    requires -Pow2(k) <= x < Pow2(k) && -Pow2(k) <= y < Pow2(k)
    ensures -Pow2(k) <= BitAnd(x, y) < Pow2(k)
    decreases Abs(x) + Abs(y)
  {
    if x == 0 || y == 0 || x == -1 || y == -1 {
    } else {
      assert k > 0 && Pow2(k) == 2 * Pow2(k - 1);
      BitAndRange(x / 2, y / 2, k - 1);
    }
  }

  function And16(a: int16, b: int16): (r: int16)
    ensures b == -1 ==> r == a
    ensures b == 0 ==> r == 0
  {
    assert Pow2(15) == 0x8000;
    BitAndRange(a, b, 15);
    BitAnd(a, b)
  }
}
