/**
 * Byte-level vocabulary shared by both codecs: the HAL status code, the
 * uint8_t and uint16_t value ranges, the big-endian split of a 16-bit word,
 * and the `memcpy`/`memset` effects on a byte sequence.
 *
 * Bytes are integers in 0..255. The C shifts and masks the codecs apply to
 * them are written as the arithmetic they amount to on that range:
 * `x >> k` is `x / 2^k`, `x & (2^k - 1)` is `x % 2^k`, `x << 7` stored into a
 * byte is `(x % 2) * 128`, and `|` of two disjoint bit ranges is `+`.
 */
module Bytes {

  /** HAL_OK / HAL_ERROR, the two statuses the codecs return. */
  datatype Status = Ok | Error

  datatype Option<+T> = None | Some(value: T)

  /** uint8_t. */
  type byte = x: int | 0 <= x < 0x100

  /** uint16_t. */
  type u16 = x: int | 0 <= x < 0x1_0000

  /** `w >> 8` stored into a uint8_t. */
  function Hi(w: u16): byte {
    w / 0x100
  }

  /** `w & 0xFF` stored into a uint8_t. */
  function Lo(w: u16): byte {
    w % 0x100
  }

  /** `hi << 8 | lo` stored into a uint16_t: the big-endian reading of two bytes. */
  function Be16(hi: byte, lo: byte): u16 {
    hi * 0x100 + lo
  }

  /** Splitting a word into its two bytes and joining them again loses nothing, both ways. */
  lemma Be16HiLo(w: u16, hi: byte, lo: byte)
    ensures Be16(Hi(w), Lo(w)) == w
    ensures Hi(Be16(hi, lo)) == hi && Lo(Be16(hi, lo)) == lo
  {
  }

  /** Two byte pairs that differ read as different big-endian words. */
  lemma Be16Injective(h1: byte, l1: byte, h2: byte, l2: byte)
    requires h1 != h2 || l1 != l2
    ensures Be16(h1, l1) != Be16(h2, l2)
  {
    Be16HiLo(0, h1, l1);
    Be16HiLo(0, h2, l2);
  }

  /** `n` zero bytes, as `memset(p, 0, n)` writes them. */
  function Zeros(n: nat): (z: seq<byte>)
    ensures |z| == n && forall i :: 0 <= i < n ==> z[i] == 0
  {
    seq(n, _ => 0)
  }

  /** The sequence `b` after `memcpy(&b[at], src, |src|)`. */
  function Splice(b: seq<byte>, at: nat, src: seq<byte>): (r: seq<byte>)
    requires at + |src| <= |b|
    ensures |r| == |b|
    ensures r[..at] == b[..at] && r[at..at + |src|] == src && r[at + |src|..] == b[at + |src|..]
  {
    b[..at] + src + b[at + |src|..]
  }

  /**
   * `memcpy(&dst[at], &src[from], n)` on two distinct arrays: the
   * destination receives the source's bytes, nothing else changes.
   */
  method Copy(dst: array<byte>, at: nat, src: array<byte>, from: nat, n: nat)
    requires dst != src
    requires at + n <= dst.Length && from + n <= src.Length
    modifies dst
    ensures dst[..] == Splice(old(dst[..]), at, src[from..from + n])
  {
    forall i | 0 <= i < n {
      dst[at + i] := src[from + i];
    }
    assert dst[..] == old(dst[..])[..at] + src[from..from + n] + old(dst[..])[at + n..];
  }

  /** `memset(&dst[at], 0, n)`. */
  method Fill(dst: array<byte>, at: nat, n: nat)
    requires at + n <= dst.Length
    modifies dst
    ensures dst[..] == Splice(old(dst[..]), at, Zeros(n))
  {
    forall i | 0 <= i < n {
      dst[at + i] := 0;
    }
    assert dst[..] == old(dst[..])[..at] + Zeros(n) + old(dst[..])[at + n..];
  }

  /** 2^k. */
  function Pow2(k: nat): (p: nat)
    ensures p >= 1
  {
    if k == 0 then 1 else 2 * Pow2(k - 1)
  }

  /**
   * The low `w` bits of `x | y`: C's `|` on non-negative operands followed by
   * a store into a `w`-bit unsigned variable.
   */
  function Or(x: nat, y: nat, w: nat): (r: nat)
    ensures r < Pow2(w)
  {
    if w == 0 then 0
    else 2 * Or(x / 2, y / 2, w - 1) + (if x % 2 == 1 || y % 2 == 1 then 1 else 0)
  }

  /** `x | 0` keeps `x` when it fits in `w` bits. */
  lemma {:induction false} OrZero(x: nat, w: nat)
    requires x < Pow2(w)
    ensures Or(x, 0, w) == x
  {
    if w > 0 {
      OrZero(x / 2, w - 1);
    }
  }

  /**
   * OR of a value shifted left by `k` and a value below 2^k is their sum:
   * the bit ranges are disjoint.
   */
  lemma {:induction false} OrDisjoint(hi: nat, lo: nat, k: nat, w: nat)
    requires k <= w && lo < Pow2(k) && hi * Pow2(k) + lo < Pow2(w)
    ensures Or(hi * Pow2(k), lo, w) == hi * Pow2(k) + lo
  {
    if k == 0 {
      OrZero(hi, w);
    } else {
      var x := hi * Pow2(k);
      assert x == 2 * (hi * Pow2(k - 1));
      OrDisjoint(hi, lo / 2, k - 1, w - 1);
    }
  }

  /** Eight-bit OR of two bytes, the form the packers use. */
  function Or8(x: nat, y: nat): byte {
    Or(x, y, 8)
  }

  /**
   * `hi << k | lo` stored into a byte, for `p` = 2^k with k one of the
   * shifts the packers use, when the fields fit: the bit ranges are
   * disjoint, so the OR is the sum.
   */
  lemma Or8Disjoint(hi: nat, lo: nat, p: nat)
    requires p == 2 || p == 8 || p == 16 || p == 32 || p == 64 || p == 128
    requires lo < p && hi * p + lo < 0x100
    ensures Or8(hi * p, lo) == hi * p + lo
  {
    assert Pow2(1) == 2 && Pow2(3) == 8 && Pow2(4) == 16 && Pow2(5) == 32 && Pow2(6) == 64 && Pow2(7) == 128 && Pow2(8) == 256;
    var k := if p == 2 then 1 else if p == 8 then 3 else if p == 16 then 4 else if p == 32 then 5 else if p == 64 then 6 else 7;
    OrDisjoint(hi, lo, k, 8);
  }
}


/** Bytes as the bit-vectors the CRC register works on. */
module BytesBv {

  import opened Bytes

  /** Converting to `bv16` keeps the value modulo 2^16. */
  lemma AsBv16Mod(b: byte)
    ensures (b as bv16) as int == b % 0x1_0000
  {
  }

  lemma ByteBelowWidth(b: byte)
    ensures b % 0x1_0000 == b
  {
  }

  /** A byte survives the round trip through `bv16`. */
  lemma AsBv16Back(b: byte)
    ensures (b as bv16) as int == b
  {
    AsBv16Mod(b);
    ByteBelowWidth(b);
  }

  /** A byte as a `bv16` has its high byte clear. */
  lemma AsBv16Small(b: byte)
    ensures b as bv16 < 256
  {
    AsBv16Back(b);
  }

  /** Distinct bytes are distinct `bv16` values. */
  lemma AsBv16Injective(b1: byte, b2: byte)
    requires b1 != b2
    ensures b1 as bv16 != b2 as bv16
  {
    AsBv16Back(b1);
    AsBv16Back(b2);
  }

  /** A register value survives the round trip through `int`. */
  lemma AsIntBack(u: bv16)
    ensures (u as int) as bv16 == u
  {
  }

  /** Distinct register values are distinct integers. */
  lemma AsIntInjective(u: bv16, v: bv16)
    requires u != v
    ensures u as int != v as int
  {
    AsIntBack(u);
    AsIntBack(v);
  }
}
