/** Machine words of the renderer: unsigned 8- and 16-bit integers, modelled as
    bounded mathematical integers with every truncation written out, and the
    bit-level facts about them that the unpacker relies on. */
module Words {

  /** Rust `u8`. */
  type Byte = x: int | 0 <= x < 256

  /** Rust `u16`, the element type of the index buffer. */
  type U16 = x: int | 0 <= x < 0x1_0000

  function Pow2(n: nat): (r: nat)
    ensures r >= 1
  {
    if n == 0 then 1 else 2 * Pow2(n - 1)
  }

  /** `x` halved `n` times, rounding down: `x >> n`. */
  function Halve(x: nat, n: nat): nat {
    if n == 0 then x else Halve(x / 2, n - 1)
  }

  /** Bit `n` (0 = least significant) of a non-negative integer: the parity
      of `x >> n`. */
  function BitOf(x: nat, n: nat): (r: nat)
    ensures r < 2
  {
    Halve(x, n) % 2
  }

  /** `b >= 128` on a `u8`: the most significant bit, as 0 or 1. */
  function TopBit(b: Byte): (r: Byte)
  {
    if b >= 128 then 1 else 0
  }

  /** `b << 1` on a `u8`: the bit shifted out of position 7 is discarded. */
  function Shl1(b: Byte): (r: Byte)
  {
    (b * 2) % 256
  }

  /** `x as i32 as u16` on a `usize`: both casts truncate, so only the low
      16 bits survive, and a value already below 2^16 is kept. */
  function Low16(x: nat): (r: U16)
    ensures x < 0x1_0000 ==> r == x
  {
    x % 0x1_0000
  }

  /** One more halving halves the result: `x >> (n + 1) == (x >> n) / 2`. */
  lemma {:induction false} HalveStep(x: nat, n: nat)
    ensures Halve(x, n + 1) == Halve(x, n) / 2
  {
    if n > 0 {
      HalveStep(x / 2, n - 1);
    }
  }

  /** A number below `2^n` vanishes after `n` halvings. */
  lemma {:induction false} HalveBelow(x: nat, n: nat)
    requires x < Pow2(n)
    ensures Halve(x, n) == 0
  {
    if n > 0 {
      HalveBelow(x / 2, n - 1);
    }
  }

  /** Adding `2^m` adds `2^(m - n)` after `n <= m` halvings: a high bit moves
      down without touching the low ones. */
  lemma {:induction false} HalveAddHigh(x: nat, m: nat, n: nat)
    requires n <= m
    ensures Halve(x + Pow2(m), n) == Halve(x, n) + Pow2(m - n)
  {
    if n > 0 {
      assert (x + Pow2(m)) / 2 == x / 2 + Pow2(m - 1);
      HalveAddHigh(x / 2, m - 1, n - 1);
    }
  }

  /** The `b >= 128` test reads bit 7 of the byte. */
  lemma TopBitIsBit7(b: Byte)
    ensures TopBit(b) == BitOf(b, 7)
  {
    assert Pow2(7) == 128 && Pow2(0) == 1;
    if b >= 128 {
      HalveBelow(b - 128, 7);
      HalveAddHigh(b - 128, 7, 7);
    } else {
      HalveBelow(b, 7);
    }
  }

  /** Shifting a byte left by one moves its bit `n` to position `n + 1`;
      only bit 7 is lost. */
  lemma ShiftMovesBit(b: Byte, n: nat)
    requires n < 7
    ensures BitOf(Shl1(b), n + 1) == BitOf(b, n)
  {
    var y := b - 128 * TopBit(b);
    assert Shl1(b) / 2 == y;
    assert Halve(Shl1(b), n + 1) == Halve(y, n);
    if b >= 128 {
      assert Pow2(7) == 128;
      HalveAddHigh(y, 7, n);
      assert Halve(b, n) == Halve(y, n) + 2 * Pow2(6 - n);
    }
  }
}
