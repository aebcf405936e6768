/**
 * The shift register of the CRC-16 on its own: the rounds of the inner loop
 * of the CRC routine as functions of 16-bit register values, and the facts
 * about them that make the CRC detect every changed byte.
 */
module CrcRegister {

  /** The generator polynomial without its x^16 term. */
  const POLY: bv16 := 0x1021

  /**
   * One pass of the inner `for` loop: the register's top bit, xored with the
   * top bit of the shifted input byte `ch`, decides whether the polynomial is
   * xored into the left-shifted register.
   */
  function Round(crc: bv16, ch: bv16): bv16 {
    if (crc ^ ch) & 0x8000 != 0 then (crc << 1) ^ POLY else crc << 1
  }

  /** `k` passes of the inner loop, `ch` shifting left once per pass. */
  function Rounds(crc: bv16, ch: bv16, k: nat): bv16
    decreases k
  {
    if k == 0 then crc else Rounds(Round(crc, ch), ch << 1, k - 1)
  }

  /** `ch` after `k` passes of the inner loop. */
  function Shifted(ch: bv16, k: nat): bv16
    decreases k
  {
    if k == 0 then ch else Shifted(ch << 1, k - 1)
  }

  /** One round maps distinct registers to distinct registers: its low bit tells whether the polynomial went in. */
  lemma RoundInjective(c1: bv16, c2: bv16, ch: bv16)
    requires c1 != c2
    ensures Round(c1, ch) != Round(c2, ch)
  {
    var t1, t2 := (c1 ^ ch) & 0x8000 != 0, (c2 ^ ch) & 0x8000 != 0;
    var r1, r2 := Round(c1, ch), Round(c2, ch);
    assert r1 & 1 == (if t1 then 1 else 0) by {
      assert (c1 << 1) & 1 == 0;
    }
    assert r2 & 1 == (if t2 then 1 else 0) by {
      assert (c2 << 1) & 1 == 0;
    }
  }

  lemma {:induction false} RoundsInjective(c1: bv16, c2: bv16, ch: bv16, k: nat)
    requires c1 != c2
    ensures Rounds(c1, ch, k) != Rounds(c2, ch, k)
    decreases k
  {
    if k > 0 {
      RoundInjective(c1, c2, ch);
      RoundsInjective(Round(c1, ch), Round(c2, ch), ch << 1, k - 1);
    }
  }

  /** When the top bits differ, a round xors the polynomial into the shifted register. */
  lemma RoundTaken(crc: bv16, ch: bv16)
    requires (crc ^ ch) & 0x8000 != 0
    ensures Round(crc, ch) == (crc << 1) ^ POLY
  {
  }

  /** When the top bits agree, a round only shifts the register. */
  lemma RoundSkipped(crc: bv16, ch: bv16)
    requires (crc ^ ch) & 0x8000 == 0
    ensures Round(crc, ch) == crc << 1
  {
  }

  lemma ShiftXor(a: bv16, b: bv16)
    ensures (a << 1) ^ (b << 1) == (a ^ b) << 1
  {
  }

  lemma XorSwap(a: bv16, p: bv16, b: bv16)
    ensures (a ^ p) ^ b == (a ^ b) ^ p
  {
  }

  lemma XorZero(x: bv16)
    ensures x ^ 0 == x
  {
  }

  /** One round with input `ch` is one round from `crc ^ ch` with no input, but for the shifted `ch`. */
  lemma RoundXor(crc: bv16, ch: bv16)
    ensures Round(crc, ch) ^ (ch << 1) == Round(crc ^ ch, 0)
  {
    var x := crc ^ ch;
    ShiftXor(crc, ch);
    XorZero(x);
    if x & 0x8000 != 0 {
      RoundTaken(crc, ch);
      RoundTaken(x, 0);
      XorSwap(crc << 1, POLY, ch << 1);
    } else {
      RoundSkipped(crc, ch);
      RoundSkipped(x, 0);
    }
  }

  /**
   * The rounds from the register `y` already xored with the input `ch`:
   * each pass is an input-free round, and what is left of `ch` is xored
   * back out at the end.
   */
  function Mixed(y: bv16, ch: bv16, k: nat): bv16
    decreases k
  {
    if k == 0 then y ^ ch else Mixed(Round(y, 0), ch << 1, k - 1)
  }

  /** The input only enters through the xor with the register's top bit. */
  lemma {:induction false} RoundsMixed(crc: bv16, ch: bv16, k: nat)
    ensures Rounds(crc, ch, k) == Mixed(crc ^ ch, ch, k)
    decreases k
  {
    if k == 0 {
      assert (crc ^ ch) ^ ch == crc;
    } else {
      RoundsMixed(Round(crc, ch), ch << 1, k - 1);
      RoundXor(crc, ch);
    }
  }

  /** Distinct mixed registers stay distinct when the inputs leave the same remainder. */
  lemma {:induction false} MixedInjective(y1: bv16, y2: bv16, ch1: bv16, ch2: bv16, k: nat)
    requires y1 != y2 && Shifted(ch1, k) == Shifted(ch2, k)
    ensures Mixed(y1, ch1, k) != Mixed(y2, ch2, k)
    decreases k
  {
    if k == 0 {
      assert ch1 == ch2;
    } else {
      RoundInjective(y1, y2, 0);
      MixedInjective(Round(y1, 0), Round(y2, 0), ch1 << 1, ch2 << 1, k - 1);
    }
  }

  /** A value loaded into bits 15-8 is shifted out after eight passes. */
  lemma ShiftedOut(y: bv16)
    ensures Shifted(y << 8, 8) == 0
  {
    assert Shifted(y << 8, 8) == Shifted(y << 9, 7) == Shifted(y << 10, 6) == Shifted(y << 11, 5) == Shifted(y << 12, 4);
    assert Shifted(y << 12, 4) == Shifted(y << 13, 3) == Shifted(y << 14, 2) == Shifted(y << 15, 1) == Shifted(y << 16, 0);
  }

  /** From the same register, distinct inputs that leave the same remainder give distinct registers. */
  lemma RoundsInputInjective(c: bv16, x1: bv16, x2: bv16, k: nat)
    requires x1 != x2 && Shifted(x1, k) == Shifted(x2, k)
    ensures Rounds(c, x1, k) != Rounds(c, x2, k)
  {
    RoundsMixed(c, x1, k);
    RoundsMixed(c, x2, k);
    assert c ^ x1 != c ^ x2;
    MixedInjective(c ^ x1, c ^ x2, x1, x2, k);
  }

  /** Distinct byte values loaded into bits 15-8 are distinct. */
  lemma LoadDistinct(y1: bv16, y2: bv16)
    requires y1 < 256 && y2 < 256 && y1 != y2
    ensures y1 << 8 != y2 << 8
  {
    assert (y1 << 8) >> 8 == y1;
    assert (y2 << 8) >> 8 == y2;
  }

  /** From the same register, distinct byte values loaded into bits 15-8 give distinct registers after eight rounds. */
  lemma LoadInjective(c: bv16, y1: bv16, y2: bv16)
    requires y1 < 256 && y2 < 256 && y1 != y2
    ensures Rounds(c, y1 << 8, 8) != Rounds(c, y2 << 8, 8)
  {
    ShiftedOut(y1);
    ShiftedOut(y2);
    LoadDistinct(y1, y2);
    RoundsInputInjective(c, y1 << 8, y2 << 8, 8);
  }
}

/**
 * The software CRC-16 of both codecs (`bus_packet_CRC16CCSDSCalculate` and
 * its copy `tf_packet_CRC16CCSDSCalculate`): polynomial 0x1021
 * (x^16 + x^12 + x^5 + 1), most significant bit first, register preset to
 * the caller's seed (every caller passes 0), no reflection, no final xor.
 * With seed 0 this is the CRC-16/XMODEM check; the CCSDS frame error control
 * field would preset the register to all ones instead.
 */
module Crc {

  import opened Bytes
  import opened BytesBv
  import opened CrcRegister

  /** One iteration of the outer loop: byte `b` loaded as `ch = b << 8`, eight rounds. */
  function Step(crc: bv16, b: byte): bv16 {
    Rounds(crc, (b as bv16) << 8, 8)
  }

  /** The register after the bytes of `s` have been shifted in, starting from `seed`. */
  function Crc16(seed: bv16, s: seq<byte>): bv16 {
    if |s| == 0 then seed else Step(Crc16(seed, s[..|s| - 1]), s[|s| - 1])
  }

  /** The CRC from seed 0 as the uint16_t the codecs store and compare. */
  function Ecf(s: seq<byte>): u16 {
    Crc16(0, s) as int
  }

  /**
   * bus_packet_CRC16CCSDSCalculate(seed, buf, len): the register loop as the
   * source writes it, over the first `len` bytes of `buf`.
   */
  method Calculate(seed: bv16, buf: array<byte>, len: nat) returns (crc: bv16)
    requires len <= buf.Length
    ensures crc == Crc16(seed, buf[..len])
  {
    crc := seed;
    var count := 0;
    var remaining := len;
    while remaining > 0
      invariant 0 <= count <= len && remaining == len - count
      invariant crc == Crc16(seed, buf[..count])
    {
      ghost var before := crc;
      var ch: bv16 := buf[count] as bv16;
      count := count + 1;
      remaining := remaining - 1;
      ch := ch << 8;
      for i := 0 to 8
        invariant Rounds(crc, ch, 8 - i) == Step(before, buf[count - 1])
      {
        var xorFlag := (crc ^ ch) & 0x8000 != 0;
        crc := crc << 1;
        if xorFlag {
          crc := crc ^ POLY;
        }
        ch := ch << 1;
      }
      assert buf[..count][..count - 1] == buf[..count - 1];
    }
  }

  /** The callers' `crc & 0xFFFF` stored into a uint16_t: the register's value. */
  method CalculateEcf(buf: array<byte>, len: nat) returns (ecf: u16)
    requires len <= buf.Length
    ensures ecf == Ecf(buf[..len])
  {
    var crc := Calculate(0, buf, len);
    ecf := crc as int;
  }

  // ---------------------------------------------------------------------
  // Properties of the CRC over byte sequences.

  /** The CRC of a concatenation continues from the CRC of its first part. */
  lemma {:induction false} Crc16Append(seed: bv16, a: seq<byte>, b: seq<byte>)
    ensures Crc16(seed, a + b) == Crc16(Crc16(seed, a), b)
  {
    if |b| == 0 {
      assert a + b == a;
    } else {
      Crc16Append(seed, a, b[..|b| - 1]);
      assert (a + b)[..|a + b| - 1] == a + b[..|b| - 1];
    }
  }

  /** One byte step maps distinct registers to distinct registers. */
  lemma StepRegisterInjective(c1: bv16, c2: bv16, b: byte)
    requires c1 != c2
    ensures Step(c1, b) != Step(c2, b)
  {
    RoundsInjective(c1, c2, (b as bv16) << 8, 8);
  }

  /** From the same register, distinct bytes give distinct registers. */
  lemma StepByteInjective(c: bv16, b1: byte, b2: byte)
    requires b1 != b2
    ensures Step(c, b1) != Step(c, b2)
  {
    AsBv16Small(b1);
    AsBv16Small(b2);
    AsBv16Injective(b1, b2);
    LoadInjective(c, b1 as bv16, b2 as bv16);
  }

  /** Distinct registers stay distinct whatever bytes follow. */
  lemma {:induction false} Crc16RegisterInjective(c1: bv16, c2: bv16, s: seq<byte>)
    requires c1 != c2
    ensures Crc16(c1, s) != Crc16(c2, s)
  {
    if |s| > 0 {
      var p := s[..|s| - 1];
      Crc16RegisterInjective(c1, c2, p);
      StepRegisterInjective(Crc16(c1, p), Crc16(c2, p), s[|s| - 1]);
    }
  }

  /**
   * Replacing any one byte of the input by a different value changes the
   * CRC: every single-byte error, single-bit errors among them, is detected.
   */
  lemma ChangedByteDetected(seed: bv16, s: seq<byte>, i: nat, x: byte)
    requires i < |s| && x != s[i]
    ensures Crc16(seed, s[i := x]) != Crc16(seed, s)
  {
    var a, c := s[..i], s[i + 1..];
    assert s == (a + [s[i]]) + c;
    assert s[i := x] == (a + [x]) + c;
    Crc16Append(seed, a + [s[i]], c);
    Crc16Append(seed, a + [x], c);
    assert (a + [s[i]])[..|a|] == a;
    assert (a + [x])[..|a|] == a;
    StepByteInjective(Crc16(seed, a), s[i], x);
    Crc16RegisterInjective(Crc16(seed, a + [x]), Crc16(seed, a + [s[i]]), c);
  }

  /** The same holds for the stored value `Ecf` the codecs compare with the trailer. */
  lemma ChangedByteChangesEcf(s: seq<byte>, i: nat, x: byte)
    requires i < |s| && x != s[i]
    ensures Ecf(s[i := x]) != Ecf(s)
  {
    ChangedByteDetected(0, s, i, x);
    AsIntInjective(Crc16(0, s[i := x]), Crc16(0, s));
  }

  /** Zero bytes shifted into a zero register leave it zero. */
  lemma {:induction false} ZerosKeepZero(n: nat)
    ensures Crc16(0, Zeros(n)) == 0
  {
    if n > 0 {
      assert Zeros(n)[..n - 1] == Zeros(n - 1);
      ZerosKeepZero(n - 1);
      assert Step(0, 0) == 0;
    }
  }

  /**
   * With seed 0 a frame and the same frame behind any run of zero bytes have
   * the same CRC: the consequence of not presetting the register to all ones
   * as the CCSDS frame error control field does.
   */
  lemma LeadingZerosUndetected(n: nat, s: seq<byte>)
    ensures Crc16(0, Zeros(n) + s) == Crc16(0, s)
  {
    Crc16Append(0, Zeros(n), s);
    ZerosKeepZero(n);
  }

  /**
   * A register trace witnesses the CRC: if `trace` starts at `seed` and each
   * entry is the step of the previous one with the next byte, it ends at the
   * CRC of the bytes.
   */
  lemma {:induction false} Crc16Trace(seed: bv16, s: seq<byte>, trace: seq<bv16>)
    requires |trace| == |s| + 1 && trace[0] == seed
    requires forall k :: 0 <= k < |s| ==> Step(trace[k], s[k]) == trace[k + 1]
    ensures Crc16(seed, s) == trace[|s|]
  {
    if |s| > 0 {
      var p := s[..|s| - 1];
      Crc16Trace(seed, p, trace[..|s|]);
    }
  }
}

/** The customary check value of the CRC, evaluated from its definition. */
module CrcCheck {

  import opened Bytes
  import opened Crc

  /** The ASCII bytes of "123456789", the customary check input. */
  const CHECK_INPUT: seq<byte> := [0x31, 0x32, 0x33, 0x34, 0x35, 0x36, 0x37, 0x38, 0x39]

  /** The register after each byte of the check input, from seed 0. */
  const CHECK_TRACE: seq<bv16> :=
    [0x0000, 0x2672, 0x20B5, 0x9752, 0xD789, 0x546C, 0x20E4, 0x86D6, 0x9015, 0x31C3]

  /** The first three steps of the check trace, evaluated. */
  lemma CheckStepsLow()
    ensures Step(0x0000, 0x31) == 0x2672
    ensures Step(0x2672, 0x32) == 0x20B5
    ensures Step(0x20B5, 0x33) == 0x9752
  {
    assert Step(0x0000, 0x31) == 0x2672;
    assert Step(0x2672, 0x32) == 0x20B5;
  }

  /** The middle three steps of the check trace, evaluated. */
  lemma CheckStepsMid()
    ensures Step(0x9752, 0x34) == 0xD789
    ensures Step(0xD789, 0x35) == 0x546C
    ensures Step(0x546C, 0x36) == 0x20E4
  {
    assert Step(0x9752, 0x34) == 0xD789;
    assert Step(0xD789, 0x35) == 0x546C;
  }

  /** The last three steps of the check trace, evaluated. */
  lemma CheckStepsHigh()
    ensures Step(0x20E4, 0x37) == 0x86D6
    ensures Step(0x86D6, 0x38) == 0x9015
    ensures Step(0x9015, 0x39) == 0x31C3
  {
    assert Step(0x20E4, 0x37) == 0x86D6;
    assert Step(0x86D6, 0x38) == 0x9015;
  }

  lemma CheckStep(k: nat)
    requires k < |CHECK_INPUT|
    ensures Step(CHECK_TRACE[k], CHECK_INPUT[k]) == CHECK_TRACE[k + 1]
  {
    if k < 3 {
      CheckStepsLow();
    } else if k < 6 {
      CheckStepsMid();
    } else {
      CheckStepsHigh();
    }
  }

  /** With seed 0 the check input gives 0x31C3, the CRC-16/XMODEM check value. */
  lemma CheckValue()
    ensures Crc16(0, CHECK_INPUT) == 0x31C3
  {
    forall k | 0 <= k < |CHECK_INPUT|
      ensures Step(CHECK_TRACE[k], CHECK_INPUT[k]) == CHECK_TRACE[k + 1]
    {
      CheckStep(k);
    }
    Crc16Trace(0, CHECK_INPUT, CHECK_TRACE);
  }
}
