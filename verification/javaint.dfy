/**
 * Java's int operators, as far as Socks5Server uses them: the port is
 * computed as `in.read() << 8 | in.read()`, where each read() gives a byte
 * (0 to 255) or -1 at end of input.
 */
module JavaInt {

  const INT_MIN: int := -0x8000_0000
  const INT_RANGE: int := 0x1_0000_0000

  /** Wrap-around to a 32-bit two's-complement int. */
  function Int32(x: int): (v: int)
    ensures INT_MIN <= v < INT_MIN + INT_RANGE
    ensures INT_MIN <= x < INT_MIN + INT_RANGE ==> v == x
  {
    (x - INT_MIN) % INT_RANGE + INT_MIN
  }

  /** `x << 8` on a Java int: multiplication by 256 when it does not overflow. */
  function ShiftLeft8(x: int): (v: int)
    ensures INT_MIN <= v < INT_MIN + INT_RANGE
    ensures -0x80_0000 <= x < 0x80_0000 ==> v == x * 256
  {
    Int32(x * 256)
  }

  /**
   * `x | y` on two's-complement integers: bit i of the result is set when bit
   * i of x or of y is. A negative number has infinitely many leading ones, so
   * on 32-bit ints this is Java's `|`, sign-extended.
   */
  function Or(x: int, y: int): (v: int)
    ensures x == -1 || y == -1 ==> v == -1
    ensures 0 <= x && 0 <= y ==> 0 <= v
    ensures x < 0 || y < 0 ==> v < 0
    decreases Size(x) + Size(y)
  {
    if x == 0 then y
    else if y == 0 then x
    else if x == -1 || y == -1 then -1
    else
      HalfShrinks(x);
      HalfShrinks(y);
      2 * Or(x / 2, y / 2) + (if x % 2 == 1 || y % 2 == 1 then 1 else 0)
  }

  /** The distance of a number from the fixed points 0 and -1 of halving. */
  function Size(x: int): nat {
    if x < 0 then -x - 1 else x
  }

  /** Halving moves every other number closer to 0 or -1, so Or terminates. */
  lemma HalfShrinks(x: int)
    requires x != 0 && x != -1
    ensures Size(x / 2) < Size(x)
  {
  }

  /** `hi << 8 | lo`, the port expression, on two read() results. */
  function ShiftOr(hi: int, lo: int): (v: int)
    requires -1 <= hi <= 0xFF && -1 <= lo <= 0xFF
    ensures 0 <= hi && 0 <= lo ==> v == hi * 256 + lo
    ensures lo == -1 ==> v == -1
  {
    var v := Or(ShiftLeft8(hi), lo);
    assert 0 <= hi && 0 <= lo ==> v == hi * 256 + lo by {
      if 0 <= hi && 0 <= lo {
        OrOfDisjoint(hi, lo, 8);
      }
    }
    v
  }

  /** 2^k. */
  function Pow2(k: nat): (p: nat)
    ensures p >= 1
  {
    if k == 0 then 1 else 2 * Pow2(k - 1)
  }

  /** OR-ing a number below 2^k into a multiple of 2^k is addition: the bits do not meet. */
  lemma {:induction false} OrOfDisjoint(h: nat, l: nat, k: nat)
    requires l < Pow2(k)
    ensures Or(h * Pow2(k), l) == h * Pow2(k) + l
  {
    if k == 0 || l == 0 || h == 0 {
    } else {
      var half := h * Pow2(k - 1);
      HalveMultiple(h, Pow2(k - 1));
      assert Or(h * Pow2(k), l) == 2 * Or(half, l / 2) + l % 2;
      OrOfDisjoint(h, l / 2, k - 1);
    }
  }

  /** An even multiple of p halves to a multiple of p with no remainder. */
  lemma HalveMultiple(h: nat, p: nat)
    requires h > 0 && p > 0
    ensures h * (2 * p) > 0 && (h * (2 * p)) / 2 == h * p && (h * (2 * p)) % 2 == 0
  {
    assert h * (2 * p) == 2 * (h * p);
  }
}
