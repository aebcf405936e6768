/**
 * Properties of the bus packet codec, stated on the functions that specify
 * its methods: the header fields survive packing, `EncodePacketize` and
 * `Decode` are inverse to each other, `Packetize(Encode(...))` agrees with
 * `EncodePacketize` when the ECF is on, without the ECF the length field
 * `Encode` writes makes `Decode` drop the last two data bytes, `Packetize`
 * reads past the packet's data for the two longest records, the corrected
 * codec round-trips, and the ECF detects every single-byte change.
 */
module BusPacketProofs {

  import opened Bytes
  import Crc
  import opened BusPacket

  /** The header bytes carry type bit, APID, flag bit and 7-bit length, and nothing else. */
  lemma HeaderFields(t: byte, a: byte, f: byte, len: byte)
    ensures TypeOf(Header0(t, a)) == t % 2 && ApidOf(Header0(t, a)) == a % 128
    ensures FlagOf(Header1(f, len)) == f % 2 && LengthOf(Header1(f, len)) == len % 128
  {
  }

  /** The header bytes are determined by the fields they carry. */
  lemma HeaderOfFields(h0: byte, h1: byte)
    ensures Header0(TypeOf(h0), ApidOf(h0)) == h0
    ensures Header1(FlagOf(h1), LengthOf(h1)) == h1
  {
    assert h0 / 128 < 2 && h1 / 128 < 2;
    assert (h0 / 128) % 2 == h0 / 128 && (h1 / 128) % 2 == h1 / 128;
    assert (h0 % 128) % 128 == h0 % 128 && (h1 % 128) % 128 == h1 % 128;
  }

  /**
   * `Encode` fails exactly when the frame would exceed 127 bytes, whatever
   * the flag; otherwise the record holds the masked type, APID and flag, a
   * length of `|d| + 2` plus 2 for the trailer when the flag is set, the
   * data followed by zeros, and, only when the flag is set, the CRC of the
   * two header bytes `Packetize` will write followed by the data.
   */
  lemma EncodedFields(t: byte, a: byte, f: byte, d: seq<byte>, prior: Record, ecfOf: EcfFunction)
    ensures Encoded(t, a, f, d, prior, ecfOf).Some? <==> |d| <= DATA_SIZE
    ensures |d| <= DATA_SIZE ==>
      var r := Encoded(t, a, f, d, prior, ecfOf).value;
      var len := |d| + HEADER_SIZE + (if f % 2 == 1 then ECF_SIZE else 0);
      r.packetType == t % 2 && r.apid == a % 128 && r.ecfFlag == f % 2 && r.length == len &&
      |r.data| == DATA_SIZE && r.data[..|d|] == d &&
      (forall i :: |d| <= i < DATA_SIZE ==> r.data[i] == 0) &&
      r.ecf == (if f % 2 == 1 then ecfOf([Header0(t, a), Header1(f, len)] + d) else prior.ecf)
  {
    if |d| <= DATA_SIZE {
      var r := Encoded(t, a, f, d, prior, ecfOf).value;
      var len := |d| + HEADER_SIZE + (if f % 2 == 1 then ECF_SIZE else 0);
      HeaderMasked(t, a, f, len);
      assert r.data[..|d|] == d;
      assert forall i :: |d| <= i < DATA_SIZE ==> r.data[i] == Zeros(DATA_SIZE - |d|)[i - |d|];
    }
  }

  /**
   * `Decode` fails exactly when the length field is below 4, whatever the
   * flag, or when the flag is set and the CRC of the first `length - 2`
   * bytes differs from the big-endian trailer.
   */
  lemma DecodedStatus(b: seq<byte>, prior: Record, ecfOf: EcfFunction)
    requires Readable(b) && |prior.data| == DATA_SIZE
    ensures var len := LengthOf(b[1]);
      Decoded(b, prior, ecfOf).None? <==>
        len < HEADER_SIZE + ECF_SIZE ||
        (FlagOf(b[1]) == 1 && ecfOf(b[..len - ECF_SIZE]) != Trailer(b, len))
  {
    assert FlagOf(b[1]) < 2;
  }

  /** Where `EncodePacketize` puts header, data and trailer. */
  lemma EncodePacketizedLayout(t: byte, a: byte, f: byte, d: seq<byte>, b: seq<byte>, ecfOf: EcfFunction)
    requires |d| <= DATA_SIZE && CanEncodePacketize(f, |d|, |b|)
    ensures EncodePacketized(t, a, f, d, b, ecfOf).Some?
    ensures var out := EncodePacketized(t, a, f, d, b, ecfOf).value;
      var len := |d| + HEADER_SIZE + ECF_SIZE;
      |out| == |b| && out[0] == Header0(t, a) && out[1] == Header1(f, len) &&
      out[HEADER_SIZE..HEADER_SIZE + |d|] == d &&
      (f != 0 ==> Trailer(out, len) == ecfOf([Header0(t, a), Header1(f, len)] + d)) &&
      (f == 0 ==> out[HEADER_SIZE + |d|..] == b[HEADER_SIZE + |d|..])
  {
    var n := |d|;
    var len := n + HEADER_SIZE + ECF_SIZE;
    var h := Splice(b, HEADER_SIZE, d)[0 := Header0(t, a)][1 := Header1(f, len)];
    assert h[..n + HEADER_SIZE] == [Header0(t, a), Header1(f, len)] + d;
    assert h[HEADER_SIZE..HEADER_SIZE + n] == d;
    assert h[HEADER_SIZE + n..] == b[HEADER_SIZE + n..];
    if f != 0 {
      var ecf := ecfOf(h[..len - ECF_SIZE]);
      var out := h[len - ECF_SIZE := Hi(ecf)][len - ECF_SIZE + 1 := Lo(ecf)];
      assert out[HEADER_SIZE..HEADER_SIZE + n] == d;
      Be16HiLo(ecf, 0, 0);
    }
  }

  /**
   * `Decode` on any buffer laid out as `EncodePacketize` lays it out, with a
   * trailer that matches whenever the flag bit is set.
   */
  lemma DecodeOfLayout(out: seq<byte>, t: byte, a: byte, f: byte, d: seq<byte>, prior: Record, ecfOf: EcfFunction)
    requires |d| <= DATA_SIZE && |prior.data| == DATA_SIZE
    requires |out| >= |d| + HEADER_SIZE + (if f % 2 == 1 then ECF_SIZE else 0)
    requires out[0] == Header0(t, a) && out[1] == Header1(f, |d| + HEADER_SIZE + ECF_SIZE)
    requires out[HEADER_SIZE..HEADER_SIZE + |d|] == d
    requires f % 2 == 1 ==>
      Trailer(out, |d| + HEADER_SIZE + ECF_SIZE) == ecfOf([Header0(t, a), Header1(f, |d| + HEADER_SIZE + ECF_SIZE)] + d)
    ensures Readable(out)
    ensures Decoded(out, prior, ecfOf) == Some(Record(
        t % 2, a % 128, f % 2, |d| + HEADER_SIZE + ECF_SIZE,
        d + prior.data[|d|..],
        if f % 2 == 1 then ecfOf([Header0(t, a), Header1(f, |d| + HEADER_SIZE + ECF_SIZE)] + d)
        else prior.ecf))
  {
    var len := |d| + HEADER_SIZE + ECF_SIZE;
    HeaderFields(t, a, f, len);
    assert LengthOf(out[1]) == len && FlagOf(out[1]) == f % 2;
    if f % 2 == 1 {
      assert out[..len - ECF_SIZE] == [out[0], out[1]] + out[HEADER_SIZE..HEADER_SIZE + |d|];
    }
  }

  /**
   * Decoding what `EncodePacketize` wrote succeeds, whatever the flag, and
   * gives back type bit, APID, flag bit, the length `|d| + 4` and the data;
   * data bytes past `|d|` and, without the ECF, the stored ECF keep their
   * previous values.
   */
  lemma EncodePacketizeDecode(t: byte, a: byte, f: byte, d: seq<byte>, b: seq<byte>, prior: Record, ecfOf: EcfFunction)
    requires |d| <= DATA_SIZE && |prior.data| == DATA_SIZE
    requires CanEncodePacketize(f, |d|, |b|)
    ensures EncodePacketized(t, a, f, d, b, ecfOf).Some?
    ensures var out := EncodePacketized(t, a, f, d, b, ecfOf).value;
      Readable(out) &&
      Decoded(out, prior, ecfOf) == Some(Record(
        t % 2, a % 128, f % 2, |d| + HEADER_SIZE + ECF_SIZE,
        d + prior.data[|d|..],
        if f % 2 == 1 then ecfOf([Header0(t, a), Header1(f, |d| + HEADER_SIZE + ECF_SIZE)] + d)
        else prior.ecf))
  {
    EncodePacketizedLayout(t, a, f, d, b, ecfOf);
    DecodeOfLayout(EncodePacketized(t, a, f, d, b, ecfOf).value, t, a, f, d, prior, ecfOf);
  }

  /** Storing into a sequence the values it already holds changes nothing. */
  lemma StoreSame(b: seq<byte>, i: nat, x: byte, j: nat, y: byte)
    requires i < |b| && j < |b| && b[i] == x && b[j] == y
    ensures b[i := x][j := y] == b
  {
  }

  /** Writing a frame's own header fields and data back over it changes nothing. */
  lemma RewriteHeaderAndData(b: seq<byte>, n: nat)
    requires |b| >= HEADER_SIZE + n
    ensures Splice(b, HEADER_SIZE, b[HEADER_SIZE..HEADER_SIZE + n])
      [0 := Header0(TypeOf(b[0]), ApidOf(b[0]))][1 := Header1(FlagOf(b[1]), LengthOf(b[1]))] == b
  {
    HeaderOfFields(b[0], b[1]);
    assert Splice(b, HEADER_SIZE, b[HEADER_SIZE..HEADER_SIZE + n]) == b;
    StoreSame(b, 0, Header0(TypeOf(b[0]), ApidOf(b[0])), 1, Header1(FlagOf(b[1]), LengthOf(b[1])));
  }

  /** A frame with a consistent header and trailer is what `EncodePacketize` makes of its own fields. */
  lemma EncodePacketizeOfFrame(b: seq<byte>, ecfOf: EcfFunction)
    requires |b| >= HEADER_SIZE
    requires var len := LengthOf(b[1]);
      len >= HEADER_SIZE + ECF_SIZE && |b| >= len &&
      (FlagOf(b[1]) != 0 ==> ecfOf(b[..len - ECF_SIZE]) == Trailer(b, len))
    ensures var len := LengthOf(b[1]);
      var n := len - HEADER_SIZE - ECF_SIZE;
      CanEncodePacketize(FlagOf(b[1]), n, |b|) &&
      EncodePacketized(TypeOf(b[0]), ApidOf(b[0]), FlagOf(b[1]), b[HEADER_SIZE..HEADER_SIZE + n], b, ecfOf) == Some(b)
  {
    var len := LengthOf(b[1]);
    var n := len - HEADER_SIZE - ECF_SIZE;
    RewriteHeaderAndData(b, n);
    if FlagOf(b[1]) != 0 {
      var ecf := Trailer(b, len);
      Be16HiLo(ecf, b[len - ECF_SIZE], b[len - ECF_SIZE + 1]);
      StoreSame(b, len - ECF_SIZE, Hi(ecf), len - ECF_SIZE + 1, Lo(ecf));
    }
  }

  /**
   * Re-encoding a frame `Decode` accepts reproduces it: `EncodePacketize` with
   * the decoded fields and data gives back the same buffer, CRC trailer
   * included when the flag is set.
   */
  lemma DecodeEncodePacketize(b: seq<byte>, prior: Record, ecfOf: EcfFunction)
    requires Readable(b) && |prior.data| == DATA_SIZE
    requires Decoded(b, prior, ecfOf).Some?
    requires |b| >= LengthOf(b[1])
    ensures var r := Decoded(b, prior, ecfOf).value;
      var n := r.length - HEADER_SIZE - ECF_SIZE;
      CanEncodePacketize(r.ecfFlag, n, |b|) &&
      EncodePacketized(r.packetType, r.apid, r.ecfFlag, r.data[..n], b, ecfOf) == Some(b)
  {
    var r := Decoded(b, prior, ecfOf).value;
    var n := LengthOf(b[1]) - HEADER_SIZE - ECF_SIZE;
    assert r.data[..n] == b[HEADER_SIZE..HEADER_SIZE + n];
    EncodePacketizeOfFrame(b, ecfOf);
  }

  // ---------------------------------------------------------------------
  // Encode followed by Packetize.

  /** Masking the fields before packing them changes nothing in the header bytes. */
  lemma HeaderMasked(t: byte, a: byte, f: byte, len: byte)
    ensures Header0(t % 2, a % 128) == Header0(t, a)
    ensures Header1(f % 2, len) == Header1(f, len)
  {
  }

  /** Where `Packetize` puts header, data and trailer of a record with the flag set. */
  lemma PacketizedLayout(r: Record, b: seq<byte>)
    requires CanPacketize(r, |b|) && r.ecfFlag != 0
    requires HEADER_SIZE + ECF_SIZE <= r.length <= BUS_SIZE
    ensures var out := Packetized(r, b);
      var len := r.length;
      |out| == |b| && out[0] == Header0(r.packetType, r.apid) && out[1] == Header1(r.ecfFlag, len) &&
      out[HEADER_SIZE..len - ECF_SIZE] == r.data[..len - HEADER_SIZE - ECF_SIZE] &&
      Trailer(out, len) == r.ecf && out[len] == 0
  {
    var len := r.length;
    var h := b[0 := Header0(r.packetType, r.apid)][1 := Header1(r.ecfFlag, r.length)];
    var m := len - HEADER_SIZE - ECF_SIZE;
    var body := Splice(h, HEADER_SIZE, r.data[..m]);
    assert body[HEADER_SIZE..len - ECF_SIZE] == r.data[..m];
    var out := body[len - ECF_SIZE := Hi(r.ecf)][len - ECF_SIZE + 1 := Lo(r.ecf)][len := 0];
    assert out == Packetized(r, b);
    assert out[HEADER_SIZE..len - ECF_SIZE] == body[HEADER_SIZE..len - ECF_SIZE];
    Be16HiLo(r.ecf, 0, 0);
  }

  /** A frame is its header bytes, its data and its two trailer bytes. */
  lemma FrameOfParts(x: seq<byte>, h0: byte, h1: byte, d: seq<byte>, e: u16)
    requires |x| >= |d| + HEADER_SIZE + ECF_SIZE
    requires x[0] == h0 && x[1] == h1 && x[HEADER_SIZE..HEADER_SIZE + |d|] == d
    requires Trailer(x, |d| + HEADER_SIZE + ECF_SIZE) == e
    ensures x[..|d| + HEADER_SIZE + ECF_SIZE] == [h0, h1] + d + [Hi(e), Lo(e)]
  {
    var len := |d| + HEADER_SIZE + ECF_SIZE;
    Be16HiLo(e, x[len - ECF_SIZE], x[len - ECF_SIZE + 1]);
    assert x[..len] == [x[0], x[1]] + x[HEADER_SIZE..HEADER_SIZE + |d|] + [x[len - 2], x[len - 1]];
  }

  /**
   * With the ECF on, `Packetize` after `Encode` writes the same `|d| + 4`
   * frame bytes as `EncodePacketize`, then the terminator.
   */
  lemma PacketizeEncodeMatches(t: byte, a: byte, f: byte, d: seq<byte>, b: seq<byte>, prior: Record, ecfOf: EcfFunction)
    requires f % 2 == 1 && |d| <= DATA_SIZE && |b| > |d| + HEADER_SIZE + ECF_SIZE
    ensures Encoded(t, a, f, d, prior, ecfOf).Some?
    ensures var r := Encoded(t, a, f, d, prior, ecfOf).value;
      var len := |d| + HEADER_SIZE + ECF_SIZE;
      CanPacketize(r, |b|) &&
      Packetized(r, b)[..len] == EncodePacketized(t, a, f, d, b, ecfOf).value[..len] &&
      Packetized(r, b)[len] == 0
  {
    var len := |d| + HEADER_SIZE + ECF_SIZE;
    var r := Encoded(t, a, f, d, prior, ecfOf).value;
    HeaderMasked(t, a, f, len);
    var e := ecfOf([Header0(t, a), Header1(f, len)] + d);
    assert r.ecf == e;
    assert r.data[..|d|] == d;
    PacketizedLayout(r, b);
    FrameOfParts(Packetized(r, b), Header0(t, a), Header1(f, len), d, e);
    EncodePacketizedLayout(t, a, f, d, b, ecfOf);
    FrameOfParts(EncodePacketized(t, a, f, d, b, ecfOf).value, Header0(t, a), Header1(f, len), d, e);
  }

  /**
   * With the ECF on, decoding what `Packetize` made of an `Encode` record
   * gives the record back; only data bytes past `|d|` come from the packet
   * decoded into.
   */
  lemma EncodePacketizeDecodeWithEcf(t: byte, a: byte, f: byte, d: seq<byte>, b: seq<byte>, prior: Record, into: Record, ecfOf: EcfFunction)
    requires f % 2 == 1 && |d| <= DATA_SIZE && |b| > |d| + HEADER_SIZE + ECF_SIZE
    requires |into.data| == DATA_SIZE
    ensures Encoded(t, a, f, d, prior, ecfOf).Some?
    ensures var r := Encoded(t, a, f, d, prior, ecfOf).value;
      CanPacketize(r, |b|) && Readable(Packetized(r, b)) &&
      Decoded(Packetized(r, b), into, ecfOf) == Some(r.(data := d + into.data[|d|..]))
  {
    var r := Encoded(t, a, f, d, prior, ecfOf).value;
    var len := |d| + HEADER_SIZE + ECF_SIZE;
    HeaderMasked(t, a, f, len);
    PacketizedLayout(r, b);
    assert r.data[..|d|] == d;
    DecodeOfLayout(Packetized(r, b), t, a, f, d, into, ecfOf);
  }

  /**
   * Without the ECF, `Encode` sets the length to `|d| + 2` while `Decode`
   * always takes `length - 4` data bytes: the frame `Packetize` makes is
   * rejected when `|d| < 2`, and otherwise decodes to the first `|d| - 2`
   * bytes only, the rest of the data coming from the packet decoded into.
   */
  lemma EncodeWithoutEcfDropsTwoBytes(t: byte, a: byte, f: byte, d: seq<byte>, b: seq<byte>, prior: Record, into: Record, ecfOf: EcfFunction)
    requires f % 2 == 0 && |d| + HEADER_SIZE <= DATA_SIZE && |b| >= |d| + HEADER_SIZE + ECF_SIZE
    requires |into.data| == DATA_SIZE
    ensures Encoded(t, a, f, d, prior, ecfOf).Some?
    ensures var r := Encoded(t, a, f, d, prior, ecfOf).value;
      var out := Packetized(r, b);
      r.length == |d| + HEADER_SIZE &&
      CanPacketize(r, |b|) && Readable(out) &&
      (|d| < 2 ==> Decoded(out, into, ecfOf) == None) &&
      (|d| >= 2 ==>
        Decoded(out, into, ecfOf) ==
        Some(Record(t % 2, a % 128, 0, |d| + HEADER_SIZE, d[..|d| - 2] + into.data[|d| - 2..], into.ecf)))
  {
    var n := |d|;
    var r := Encoded(t, a, f, d, prior, ecfOf).value;
    var len := n + HEADER_SIZE;
    HeaderMasked(t, a, f, len);
    HeaderFields(t, a, f, len);
    var h := b[0 := Header0(r.packetType, r.apid)][1 := Header1(r.ecfFlag, r.length)];
    var body := Splice(h, HEADER_SIZE, r.data[..len]);
    var out := Packetized(r, b);
    assert out == body[len := 0];
    assert out[0] == Header0(t, a) && out[1] == Header1(f, len);
    assert LengthOf(out[1]) == len && FlagOf(out[1]) == 0;
    assert body[HEADER_SIZE..HEADER_SIZE + len] == r.data[..len];
    if n >= 2 {
      assert r.data[..len][..n - 2] == d[..n - 2];
      assert out[HEADER_SIZE..n] == body[HEADER_SIZE..HEADER_SIZE + len][..n - 2];
    }
  }

  /** The smallest instance: four data bytes, the last two of which are lost. */
  lemma DropsTwoBytesExample(ecfOf: EcfFunction)
    ensures var d: seq<byte> := [1, 2, 3, 4];
      var zero := Record(0, 0, 0, 0, Zeros(DATA_SIZE), 0);
      var r := Encoded(0, 1, 0, d, zero, ecfOf).value;
      Decoded(Packetized(r, Zeros(8)), zero, ecfOf).Some? &&
      Decoded(Packetized(r, Zeros(8)), zero, ecfOf).value.data[..4] == [1, 2, 0, 0]
  {
    var d: seq<byte> := [1, 2, 3, 4];
    var zero := Record(0, 0, 0, 0, Zeros(DATA_SIZE), 0);
    EncodeWithoutEcfDropsTwoBytes(0, 1, 0, d, Zeros(8), zero, zero, ecfOf);
    var data := d[..2] + zero.data[2..];
    assert data[..4] == [1, 2, 0, 0];
  }

  // ---------------------------------------------------------------------
  // Packetize reading past the packet's data.

  /**
   * `Packetize` copies `|d| + 2` bytes out of the 123-byte data of any record
   * `Encode` makes of `d`, whatever the flag: one or two bytes past the array
   * exactly when `|d|` is 122 or 123.
   */
  lemma EncodeCopySize(t: byte, a: byte, f: byte, d: seq<byte>, prior: Record, ecfOf: EcfFunction)
    requires |d| <= DATA_SIZE
    ensures Encoded(t, a, f, d, prior, ecfOf).Some?
    ensures var r := Encoded(t, a, f, d, prior, ecfOf).value;
      CopySize(r) == |d| + HEADER_SIZE &&
      (CopySize(r) > DATA_SIZE <==> |d| > DATA_SIZE - HEADER_SIZE)
  {
  }

  /** The smallest record that makes `Packetize` read past `packet->data`, with either flag. */
  lemma OverreadExample(ecfOf: EcfFunction)
    ensures var zero := Record(0, 0, 0, 0, Zeros(DATA_SIZE), 0);
      CopySize(Encoded(0, 0, 0, Zeros(122), zero, ecfOf).value) == DATA_SIZE + 1 &&
      CopySize(Encoded(0, 0, 1, Zeros(122), zero, ecfOf).value) == DATA_SIZE + 1
  {
    var zero := Record(0, 0, 0, 0, Zeros(DATA_SIZE), 0);
    EncodeCopySize(0, 0, 0, Zeros(122), zero, ecfOf);
    EncodeCopySize(0, 0, 1, Zeros(122), zero, ecfOf);
  }

  // ---------------------------------------------------------------------
  // The codec under the documented length rule.

  /**
   * The corrected Decode on any buffer laid out with the header, the data
   * and, when bit 0 of `f` is set, a matching trailer, the length field
   * counting the trailer only then.
   */
  lemma DecodeFixedOfLayout(out: seq<byte>, t: byte, a: byte, f: byte, d: seq<byte>, prior: Record, ecfOf: EcfFunction)
    requires |d| <= DATA_SIZE && |prior.data| == DATA_SIZE
    requires var len := |d| + HEADER_SIZE + (if f % 2 == 1 then ECF_SIZE else 0);
      |out| >= len && out[0] == Header0(t, a) && out[1] == Header1(f, len) &&
      out[HEADER_SIZE..HEADER_SIZE + |d|] == d &&
      (f % 2 == 1 ==> Trailer(out, len) == ecfOf([Header0(t, a), Header1(f, len)] + d))
    ensures ReadableFixed(out)
    ensures var len := |d| + HEADER_SIZE + (if f % 2 == 1 then ECF_SIZE else 0);
      DecodedFixed(out, prior, ecfOf) == Some(Record(
        t % 2, a % 128, f % 2, len, d + prior.data[|d|..],
        if f % 2 == 1 then ecfOf([Header0(t, a), Header1(f, len)] + d) else prior.ecf))
  {
    var len := |d| + HEADER_SIZE + (if f % 2 == 1 then ECF_SIZE else 0);
    HeaderFields(t, a, f, len);
    assert LengthOf(out[1]) == len && FlagOf(out[1]) == f % 2;
    if f % 2 == 1 {
      assert out[..len - ECF_SIZE] == [out[0], out[1]] + out[HEADER_SIZE..HEADER_SIZE + |d|];
    }
  }

  /**
   * With the corrected Decode, `Packetize` after `Encode`, both as the
   * source writes them, round-trips whatever the flag: type bit, APID, flag
   * bit, length, data and, when flagged, the ECF come back.
   */
  lemma EncodePacketizeDecodeFixed(t: byte, a: byte, f: byte, d: seq<byte>, b: seq<byte>, prior: Record, into: Record, ecfOf: EcfFunction)
    requires |d| <= DATA_SIZE && |into.data| == DATA_SIZE
    requires if f % 2 == 1 then |b| > |d| + HEADER_SIZE + ECF_SIZE
      else |d| + HEADER_SIZE <= DATA_SIZE && |b| >= |d| + HEADER_SIZE + ECF_SIZE
    ensures Encoded(t, a, f, d, prior, ecfOf).Some?
    ensures var r := Encoded(t, a, f, d, prior, ecfOf).value;
      CanPacketize(r, |b|) && ReadableFixed(Packetized(r, b)) &&
      DecodedFixed(Packetized(r, b), into, ecfOf) ==
        Some(r.(data := d + into.data[|d|..], ecf := if f % 2 == 1 then r.ecf else into.ecf))
  {
    var n := |d|;
    var r := Encoded(t, a, f, d, prior, ecfOf).value;
    var len := r.length;
    var out := Packetized(r, b);
    HeaderMasked(t, a, f, len);
    assert r.data[..n] == d;
    if f % 2 == 1 {
      PacketizedLayout(r, b);
    } else {
      var h := b[0 := Header0(r.packetType, r.apid)][1 := Header1(r.ecfFlag, r.length)];
      var body := Splice(h, HEADER_SIZE, r.data[..len]);
      assert out == body[len := 0];
      assert out[HEADER_SIZE..HEADER_SIZE + n] == body[HEADER_SIZE..HEADER_SIZE + len][..n];
    }
    assert out[HEADER_SIZE..HEADER_SIZE + n] == d;
    DecodeFixedOfLayout(out, t, a, f, d, into, ecfOf);
  }

  /**
   * The corrected `Packetize` copies exactly the `|d|` data bytes of any
   * record `Encode` makes, so it stays inside `packet->data` for every
   * length Encode accepts, and the corrected Decode gives the record back.
   */
  lemma PacketizeFixedDecodeFixed(t: byte, a: byte, f: byte, d: seq<byte>, b: seq<byte>, prior: Record, into: Record, ecfOf: EcfFunction)
    requires |d| <= DATA_SIZE && |into.data| == DATA_SIZE
    requires |b| > |d| + HEADER_SIZE + (if f % 2 == 1 then ECF_SIZE else 0)
    ensures Encoded(t, a, f, d, prior, ecfOf).Some?
    ensures var r := Encoded(t, a, f, d, prior, ecfOf).value;
      CanPacketizeFixed(r, |b|) && DataLength(r.ecfFlag, r.length) == |d| &&
      ReadableFixed(PacketizedFixed(r, b)) &&
      DecodedFixed(PacketizedFixed(r, b), into, ecfOf) ==
        Some(r.(data := d + into.data[|d|..], ecf := if f % 2 == 1 then r.ecf else into.ecf))
  {
    var n := |d|;
    var r := Encoded(t, a, f, d, prior, ecfOf).value;
    var len := r.length;
    HeaderMasked(t, a, f, len);
    assert r.data[..n] == d;
    var h := b[0 := Header0(r.packetType, r.apid)][1 := Header1(r.ecfFlag, r.length)];
    var body := Splice(h, HEADER_SIZE, r.data[..n]);
    assert body[HEADER_SIZE..HEADER_SIZE + n] == d;
    var out := PacketizedFixed(r, b);
    if f % 2 == 1 {
      assert out == body[len - ECF_SIZE := Hi(r.ecf)][len - ECF_SIZE + 1 := Lo(r.ecf)][len := 0];
      Be16HiLo(r.ecf, 0, 0);
    } else {
      assert out == body[len := 0];
    }
    assert out[HEADER_SIZE..HEADER_SIZE + n] == d;
    DecodeFixedOfLayout(out, t, a, f, d, into, ecfOf);
  }

  /**
   * The corrected EncodePacketize and the corrected Decode are inverse to
   * each other: type bit, APID, flag bit, the length `|d| + 2` plus 2 when
   * flagged, and the data come back.
   */
  lemma EncodePacketizeFixedDecode(t: byte, a: byte, f: byte, d: seq<byte>, b: seq<byte>, prior: Record, ecfOf: EcfFunction)
    requires |d| <= DATA_SIZE && |prior.data| == DATA_SIZE
    requires CanEncodePacketizeFixed(f, |d|, |b|)
    ensures EncodePacketizedFixed(t, a, f, d, b, ecfOf).Some?
    ensures var out := EncodePacketizedFixed(t, a, f, d, b, ecfOf).value;
      var len := |d| + HEADER_SIZE + (if f % 2 == 1 then ECF_SIZE else 0);
      ReadableFixed(out) &&
      DecodedFixed(out, prior, ecfOf) == Some(Record(
        t % 2, a % 128, f % 2, len, d + prior.data[|d|..],
        if f % 2 == 1 then ecfOf([Header0(t, a), Header1(f, len)] + d) else prior.ecf))
  {
    var n := |d|;
    var len := n + HEADER_SIZE + (if f % 2 == 1 then ECF_SIZE else 0);
    HeaderMasked(t, a, f, len);
    var h := Splice(b, HEADER_SIZE, d)[0 := Header0(t, a)][1 := Header1(f % 2, len)];
    assert h[..n + HEADER_SIZE] == [Header0(t, a), Header1(f, len)] + d;
    assert h[HEADER_SIZE..HEADER_SIZE + n] == d;
    var out := EncodePacketizedFixed(t, a, f, d, b, ecfOf).value;
    if f % 2 == 1 {
      var ecf := ecfOf(h[..len - ECF_SIZE]);
      assert out == h[len - ECF_SIZE := Hi(ecf)][len - ECF_SIZE + 1 := Lo(ecf)];
      assert out[HEADER_SIZE..HEADER_SIZE + n] == d;
      Be16HiLo(ecf, 0, 0);
    }
    DecodeFixedOfLayout(out, t, a, f, d, prior, ecfOf);
  }

  // ---------------------------------------------------------------------
  // Tamper detection by the ECF.

  /**
   * For any CRC routine that tells apart inputs differing in one byte, a
   * frame with the flag set that `Decode` accepts is rejected once any one
   * of its `length` bytes other than the flag-and-length byte is changed: a
   * change before the trailer changes the CRC, a change in the trailer
   * changes the value compared with it.
   */
  lemma ChangedByteRejectedBy(b: seq<byte>, prior: Record, i: nat, x: byte, ecfOf: EcfFunction)
    requires Readable(b) && |prior.data| == DATA_SIZE
    requires FlagOf(b[1]) == 1 && Decoded(b, prior, ecfOf).Some?
    requires i < LengthOf(b[1]) && i != 1 && x != b[i]
    requires var p := b[..LengthOf(b[1]) - ECF_SIZE];
      i < |p| ==> ecfOf(p[i := x]) != ecfOf(p)
    ensures Readable(b[i := x]) && Decoded(b[i := x], prior, ecfOf) == None
  {
    var len := LengthOf(b[1]);
    var c := b[i := x];
    assert c[1] == b[1];
    assert Readable(c);
    DecodedStatus(b, prior, ecfOf);
    DecodedStatus(c, prior, ecfOf);
    if i < len - ECF_SIZE {
      assert c[..len - ECF_SIZE] == b[..len - ECF_SIZE][i := x];
      assert Trailer(c, len) == Trailer(b, len);
    } else {
      assert c[..len - ECF_SIZE] == b[..len - ECF_SIZE];
      TrailerChanged(b, len, i, x);
    }
  }

  /** Changing one of the two trailer bytes changes the trailer. */
  lemma TrailerChanged(b: seq<byte>, len: nat, i: nat, x: byte)
    requires ECF_SIZE <= len <= |b| && len - ECF_SIZE <= i < len && x != b[i]
    ensures Trailer(b[i := x], len) != Trailer(b, len)
  {
    var c := b[i := x];
    Be16Injective(c[len - ECF_SIZE], c[len - ECF_SIZE + 1], b[len - ECF_SIZE], b[len - ECF_SIZE + 1]);
  }

  /** The software CRC is such a routine: every single-byte change of an accepted frame is rejected. */
  lemma ChangedByteRejected(b: seq<byte>, prior: Record, i: nat, x: byte)
    requires Readable(b) && |prior.data| == DATA_SIZE
    requires FlagOf(b[1]) == 1 && Decoded(b, prior, Crc.Ecf).Some?
    requires i < LengthOf(b[1]) && i != 1 && x != b[i]
    ensures Readable(b[i := x]) && Decoded(b[i := x], prior, Crc.Ecf) == None
  {
    var p := b[..LengthOf(b[1]) - ECF_SIZE];
    if i < |p| {
      assert p[i] == b[i];
      Crc.ChangedByteChangesEcf(p, i, x);
    }
    ChangedByteRejectedBy(b, prior, i, x, Crc.Ecf);
  }

  /**
   * With bit 0 of `f` set, changing any one byte of the `|d| + 4` bytes
   * `EncodePacketize` writes, except the flag-and-length byte, makes
   * `Decode` fail: every single-bit error in the header's first byte, the
   * data or the trailer is detected.
   */
  lemma EncodePacketizeTamperDetected(t: byte, a: byte, f: byte, d: seq<byte>, b: seq<byte>, prior: Record, i: nat, x: byte)
    requires f % 2 == 1 && |d| <= DATA_SIZE && |prior.data| == DATA_SIZE
    requires CanEncodePacketize(f, |d|, |b|)
    requires i < |d| + HEADER_SIZE + ECF_SIZE && i != 1
    ensures EncodePacketized(t, a, f, d, b, Crc.Ecf).Some?
    ensures var out := EncodePacketized(t, a, f, d, b, Crc.Ecf).value;
      i < |out| && (x != out[i] ==> Readable(out[i := x]) && Decoded(out[i := x], prior, Crc.Ecf) == None)
  {
    var len := |d| + HEADER_SIZE + ECF_SIZE;
    EncodePacketizeDecode(t, a, f, d, b, prior, Crc.Ecf);
    EncodePacketizedLayout(t, a, f, d, b, Crc.Ecf);
    var out := EncodePacketized(t, a, f, d, b, Crc.Ecf).value;
    HeaderFields(t, a, f, len);
    if x != out[i] {
      ChangedByteRejected(out, prior, i, x);
    }
  }

  /**
   * The flag-and-length byte is outside that protection: clearing the flag
   * bit of a frame `EncodePacketize` wrote with the ECF makes `Decode` skip
   * the CRC and accept the frame.
   */
  lemma FlagClearedAccepted(t: byte, a: byte, f: byte, d: seq<byte>, b: seq<byte>, prior: Record, ecfOf: EcfFunction)
    requires f % 2 == 1 && |d| <= DATA_SIZE && |prior.data| == DATA_SIZE
    requires CanEncodePacketize(f, |d|, |b|)
    ensures EncodePacketized(t, a, f, d, b, ecfOf).Some?
    ensures var out := EncodePacketized(t, a, f, d, b, ecfOf).value;
      var tampered := out[1 := Header1(0, |d| + HEADER_SIZE + ECF_SIZE)];
      tampered != out && Readable(tampered) && Decoded(tampered, prior, ecfOf).Some?
  {
    var len := |d| + HEADER_SIZE + ECF_SIZE;
    EncodePacketizedLayout(t, a, f, d, b, ecfOf);
    HeaderFields(t, a, f, len);
    HeaderFields(t, a, 0, len);
  }
}
