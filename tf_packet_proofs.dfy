/**
 * Properties of the transfer-frame codec, stated on the functions that
 * specify its methods: the four prefix bytes round-trip exactly for in-range
 * fields, a non-truncated frame decodes to what was packed as long as the
 * insert zone fits the 3-bit count, and the truncated frame does not
 * round-trip as written, while the corrected layout does.
 */
module TfPacketProofs {

  import opened Bytes
  import opened TfPacket

  /** Every prefix field fits the bits the frame gives it (`scid` always does). */
  predicate PrefixInRange(h: Header) {
    h.tfvn < 16 && h.sourceDestId < 2 && h.vcid < 64 && h.mapid < 16 && h.endFlag < 2
  }

  /** `prior` with the six prefix fields of `h`. */
  function WithPrefixOf(prior: Header, h: Header): Header {
    prior.(tfvn := h.tfvn, scid := h.scid, sourceDestId := h.sourceDestId,
           vcid := h.vcid, mapid := h.mapid, endFlag := h.endFlag)
  }

  /** With in-range fields the ORs of the prefix bytes add disjoint bit ranges. */
  lemma PrefixBytes(h: Header)
    requires PrefixInRange(h)
    ensures Prefix(h)[0] == h.tfvn * 16 + h.scid / 4096
    ensures Prefix(h)[1] == (h.scid / 16) % 256
    ensures Prefix(h)[2] == (h.scid % 16) * 16 + h.sourceDestId * 8 + (h.vcid / 8) % 8
    ensures Prefix(h)[3] == (h.vcid % 8) * 32 + h.mapid * 2 + h.endFlag
  {
    Or8Disjoint(h.tfvn, h.scid / 4096, 16);
    Byte2Or(h.scid % 16, h.sourceDestId, (h.vcid / 8) % 8);
    Byte3Or(h.vcid % 8, h.mapid, h.endFlag);
  }

  /** The ORs of prefix byte 2 over fields of 4, 1 and 3 bits. */
  lemma Byte2Or(s: nat, d: nat, v: nat)
    requires s < 16 && d < 2 && v < 8
    ensures Or8(Or8(s * 16, d * 8), v) == s * 16 + d * 8 + v
  {
    Or8Disjoint(s, d * 8, 16);
    assert s * 16 + d * 8 == (s * 2 + d) * 8;
    Or8Disjoint(s * 2 + d, v, 8);
  }

  /** The ORs of prefix byte 3 over fields of 3, 4 and 1 bits. */
  lemma Byte3Or(v: nat, m: nat, e: nat)
    requires v < 8 && m < 16 && e < 2
    ensures Or8(Or8(v * 32, m * 2), e) == v * 32 + m * 2 + e
  {
    Or8Disjoint(v, m * 2, 32);
    assert v * 32 + m * 2 == (v * 16 + m) * 2;
    Or8Disjoint(v * 16 + m, e, 2);
  }

  /** Fields read from any four bytes fit their bits. */
  lemma ReadPrefixInRange(prior: Header, b: seq<byte>)
    requires |b| >= TRUNCATED_HEADER_SIZE
    ensures PrefixInRange(ReadPrefix(prior, b))
  {
  }

  /** The bit fields of a byte made of a 4-bit and a 4-bit part. */
  lemma Nibbles(x: int, hi: nat, lo: nat)
    requires hi < 16 && lo < 16 && x == hi * 16 + lo
    ensures x / 16 == hi && x % 16 == lo
  {
  }

  /** The bit fields of prefix byte 2: 4 bits, 1 bit, 3 bits. */
  lemma Byte2Fields(x: int, s: nat, d: nat, v: nat)
    requires s < 16 && d < 2 && v < 8 && x == s * 16 + d * 8 + v
    ensures x / 16 == s && (x / 8) % 2 == d && x % 8 == v
  {
  }

  /** The bit fields of prefix byte 3: 3 bits, 4 bits, 1 bit. */
  lemma Byte3Fields(x: int, v: nat, m: nat, e: nat)
    requires v < 8 && m < 16 && e < 2 && x == v * 32 + m * 2 + e
    ensures x / 32 == v && (x / 2) % 16 == m && x % 2 == e
  {
  }

  /** Bytes 0, 2 and 3 are the sums of the bit fields the prefix reads from them. */
  lemma ByteSplits(b0: byte, b2: byte, b3: byte)
    ensures b0 == (b0 / 16) * 16 + b0 % 16
    ensures b2 == (b2 / 16) * 16 + ((b2 / 8) % 2) * 8 + b2 % 8
    ensures b3 == (b3 / 32) * 32 + ((b3 / 2) % 16) * 2 + b3 % 2
  {
  }

  /** A 16-bit word is its top 4 bits, its middle 8 and its low 4. */
  lemma ScidSplit(s: u16)
    ensures s / 4096 < 16 && s == (s / 4096) * 4096 + ((s / 16) % 256) * 16 + s % 16
  {
  }

  /** The 16-bit word assembled from a 4-bit, an 8-bit and a 4-bit part gives them back. */
  lemma ScidParts(a: nat, m: nat, c: nat)
    requires a < 16 && m < 256 && c < 16
    ensures var s := a * 4096 + m * 16 + c;
      s / 4096 == a && (s / 16) % 256 == m && s % 16 == c
  {
  }

  /** The 6-bit value assembled from two 3-bit parts gives them back. */
  lemma VcidParts(a: nat, c: nat)
    requires a < 8 && c < 8
    ensures (a * 8 + c) / 8 == a && (a * 8 + c) % 8 == c
  {
  }

  /** A 6-bit value is its top 3 bits and its low 3. */
  lemma VcidSplit(v: nat)
    requires v < 64
    ensures v == ((v / 8) % 8) * 8 + v % 8
  {
  }

  /** In-range fields are read back from the bytes they were packed into. */
  lemma PrefixDecodes(h: Header, prior: Header)
    requires PrefixInRange(h)
    ensures ReadPrefix(prior, Prefix(h)) == WithPrefixOf(prior, h)
  {
    PrefixBytes(h);
    var p := Prefix(h);
    ScidSplit(h.scid);
    VcidSplit(h.vcid);
    Nibbles(p[0], h.tfvn, h.scid / 4096);
    Byte2Fields(p[2], h.scid % 16, h.sourceDestId, (h.vcid / 8) % 8);
    Byte3Fields(p[3], h.vcid % 8, h.mapid, h.endFlag);
  }

  /**
   * Reading back the four prefix bytes `Packetize` writes restores the six
   * fields exactly when each fits its bits.
   */
  lemma PrefixRoundTrip(h: Header, prior: Header)
    ensures ReadPrefix(prior, Prefix(h)) == WithPrefixOf(prior, h) <==> PrefixInRange(h)
  {
    if PrefixInRange(h) {
      PrefixDecodes(h, prior);
    } else {
      ReadPrefixInRange(prior, Prefix(h));
    }
  }

  /** Four bytes are determined by the six fields read out of them. */
  lemma FieldsDetermineBytes(b0: byte, b1: byte, b2: byte, b3: byte, c0: byte, c1: byte, c2: byte, c3: byte)
    requires b0 / 16 == c0 / 16 && (b2 / 8) % 2 == (c2 / 8) % 2 && (b3 / 2) % 16 == (c3 / 2) % 16 && b3 % 2 == c3 % 2
    requires (b0 % 16) * 4096 + b1 * 16 + b2 / 16 == (c0 % 16) * 4096 + c1 * 16 + c2 / 16
    requires (b2 % 8) * 8 + b3 / 32 == (c2 % 8) * 8 + c3 / 32
    ensures b0 == c0 && b1 == c1 && b2 == c2 && b3 == c3
  {
    ScidParts(b0 % 16, b1, b2 / 16);
    ScidParts(c0 % 16, c1, c2 / 16);
    VcidParts(b2 % 8, b3 / 32);
    VcidParts(c2 % 8, c3 / 32);
    ByteSplits(b0, b2, b3);
    ByteSplits(c0, c2, c3);
  }

  /** `ReadPrefix` tells apart any two different four-byte prefixes. */
  lemma ReadPrefixInjective(prior: Header, b: seq<byte>, c: seq<byte>)
    requires |b| >= TRUNCATED_HEADER_SIZE && |c| >= TRUNCATED_HEADER_SIZE
    requires ReadPrefix(prior, b) == ReadPrefix(prior, c)
    ensures b[..TRUNCATED_HEADER_SIZE] == c[..TRUNCATED_HEADER_SIZE]
  {
    FieldsDetermineBytes(b[0], b[1], b[2], b[3], c[0], c[1], c[2], c[3]);
  }

  /** Packing the fields read from any four bytes gives those bytes back. */
  lemma ReadPrefixPacks(b: seq<byte>, prior: Header)
    requires |b| >= TRUNCATED_HEADER_SIZE
    ensures Prefix(ReadPrefix(prior, b)) == b[..TRUNCATED_HEADER_SIZE]
  {
    var h := ReadPrefix(prior, b);
    var q := Prefix(h);
    ReadPrefixInRange(prior, b);
    PrefixDecodes(h, prior);
    assert WithPrefixOf(prior, h) == h;
    ReadPrefixInjective(prior, q, b);
  }

  /**
   * `Packetize` fails exactly when a non-truncated frame's length exceeds
   * 256 or a truncated frame's data length exceeds 249; the four prefix
   * bytes are written either way, and on failure nothing else is.
   */
  lemma PacketizedStatus(h: Header, f: Field, dataLength: byte, b: seq<byte>, ecfOf: EcfFunction)
    requires CanPacketize(h, f, dataLength, |b|)
    ensures var w := Packetized(h, f, dataLength, b, ecfOf);
      (w.status == Error <==>
        (h.endFlag == 0 && h.length > MAX_SIZE) || (h.endFlag != 0 && dataLength > DATA_MAX_SIZE)) &&
      |w.buffer| == |b| && w.buffer[..TRUNCATED_HEADER_SIZE] == Prefix(h) &&
      (w.status == Error ==> w.buffer[TRUNCATED_HEADER_SIZE..] == b[TRUNCATED_HEADER_SIZE..])
  {
    var p := Splice(b, 0, Prefix(h));
    if h.endFlag == 0 && h.length <= MAX_SIZE {
      FrameLayout(h, f, p, ecfOf);
    } else if h.endFlag != 0 && dataLength <= DATA_MAX_SIZE {
      TruncatedLayout(f, dataLength, p, ecfOf);
    }
  }

  // ---------------------------------------------------------------------
  // The non-truncated frame.

  /**
   * `Decode` on a non-truncated frame ignores `buffer_length`, fails exactly
   * when `length < 10 + vc_length` or the CRC of the first `length - 2`
   * bytes differs from the big-endian trailer, and writes the header fields,
   * the insert zone and the data field header whether or not it fails.
   */
  lemma FrameDecodedStatus(b: seq<byte>, bufferLength: nat, h: Header, f: Field, ecfOf: EcfFunction)
    requires Sized(h, f) && CanDecode(b, bufferLength) && b[3] % 2 == 0
    ensures CanDecode(b, 0) && Decoded(b, bufferLength, h, f, ecfOf) == Decoded(b, 0, h, f, ecfOf)
    ensures var d := Decoded(b, bufferLength, h, f, ecfOf);
      var vl := b[6] % 8;
      var len := Be16(b[4], b[5]);
      (d.status == Ok <==>
        FRAME_OVERHEAD + vl <= len && ecfOf(b[..len - ECF_SIZE]) == Trailer(b, len)) &&
      d.header == ReadFlags(ReadPrefix(h, b), b).(vcFrame := b[BASE_HEADER_SIZE..BASE_HEADER_SIZE + vl] + h.vcFrame[vl..]) &&
      d.field.constrRule == b[BASE_HEADER_SIZE + vl] / 32 && d.field.protocolId == b[BASE_HEADER_SIZE + vl] % 32
  {
  }

  /** The flags byte with in-range flags and a `vc_length` that fits its 3 bits. */
  lemma FlagsByteSum(h: Header)
    requires h.bypassFlag < 2 && h.commandFlag < 2 && h.ocfFlag < 2 && h.vcLength < 8
    ensures FlagsByte(h) == h.bypassFlag * 128 + h.commandFlag * 64 + h.ocfFlag * 8 + h.vcLength
  {
    TopOr(h.bypassFlag, h.commandFlag);
    FlagsOr(h.bypassFlag * 2 + h.commandFlag, h.ocfFlag, h.vcLength);
  }

  /** The OR of the bypass and command flags, the top two bits of the flags byte. */
  lemma TopOr(bp: nat, cm: nat)
    requires bp < 2 && cm < 2
    ensures Or8(bp * 128, cm * 64) == (bp * 2 + cm) * 64
  {
    Or8Disjoint(bp, cm * 64, 128);
  }

  /** The ORs of the flags byte below its top two bits: the OCF bits and `vc_length`. */
  lemma FlagsOr(top: nat, oc: nat, v: nat)
    requires top < 4 && oc < 8 && v < 8
    ensures Or8(Or8(top * 64, oc * 8), v) == top * 64 + oc * 8 + v
  {
    Or8Disjoint(top, oc * 8, 64);
    assert top * 64 + oc * 8 == (top * 8 + oc) * 8;
    Or8Disjoint(top * 8 + oc, v, 8);
  }

  /** The bit fields of the flags byte. */
  lemma FlagsFields(x: int, bp: nat, cm: nat, oc: nat, vl: nat)
    requires bp < 2 && cm < 2 && oc < 2 && vl < 8 && x == bp * 128 + cm * 64 + oc * 8 + vl
    ensures x / 128 == bp && (x / 64) % 2 == cm && (x / 8) % 2 == oc && x % 8 == vl
  {
  }

  /** The data field header byte with in-range fields, and its bit fields. */
  lemma DataHeaderFields(f: Field)
    requires f.constrRule < 8 && f.protocolId < 32
    ensures DataHeaderByte(f) == f.constrRule * 32 + f.protocolId
    ensures DataHeaderByte(f) / 32 == f.constrRule && DataHeaderByte(f) % 32 == f.protocolId
  {
    Or8Disjoint(f.constrRule, f.protocolId, 32);
  }

  /** Where the header, insert zone, data field header and data land. */
  lemma FrameBodyLayout(h: Header, f: Field, p: seq<byte>)
    requires CanPacketize(h, f, 0, |p|) && h.endFlag == 0 && h.length <= MAX_SIZE
    ensures var w := FrameBody(h, f, p);
      var vl := h.vcLength;
      var len := h.length;
      |w| == |p| && w[..TRUNCATED_HEADER_SIZE] == p[..TRUNCATED_HEADER_SIZE] &&
      w[4] == Hi(len) && w[5] == Lo(len) && w[6] == FlagsByte(h) &&
      w[BASE_HEADER_SIZE..BASE_HEADER_SIZE + vl] == h.vcFrame[..vl] &&
      w[BASE_HEADER_SIZE + vl] == DataHeaderByte(f) &&
      w[BASE_HEADER_SIZE + vl + DATA_HEADER_SIZE..len - ECF_SIZE] == f.data[..len - FRAME_OVERHEAD - vl]
  {
    var vl := h.vcLength;
    var x := p[4 := Hi(h.length)][5 := Lo(h.length)][6 := FlagsByte(h)];
    var y := Splice(x, BASE_HEADER_SIZE, h.vcFrame[..vl]);
    var z := y[BASE_HEADER_SIZE + vl := DataHeaderByte(f)];
    assert z[BASE_HEADER_SIZE..BASE_HEADER_SIZE + vl] == y[BASE_HEADER_SIZE..BASE_HEADER_SIZE + vl];
  }

  /** Storing the CRC of the first `len - 2` bytes big-endian after them makes the check pass. */
  lemma SealLayout(w: seq<byte>, len: nat, ecfOf: EcfFunction)
    requires ECF_SIZE <= len <= |w|
    ensures var out := Sealed(w, len, ecfOf);
      |out| == |w| && out[..len - ECF_SIZE] == w[..len - ECF_SIZE] && CheckStatus(out, len, ecfOf) == Ok
  {
    var out := Sealed(w, len, ecfOf);
    assert out[..len - ECF_SIZE] == w[..len - ECF_SIZE];
    Be16HiLo(ecfOf(w[..len - ECF_SIZE]), 0, 0);
  }

  /** Where `Packetize` puts each part of a non-truncated frame. */
  lemma FrameLayout(h: Header, f: Field, p: seq<byte>, ecfOf: EcfFunction)
    requires CanPacketize(h, f, 0, |p|) && h.endFlag == 0 && h.length <= MAX_SIZE
    ensures var out := FramePacketized(h, f, p, ecfOf);
      var vl := h.vcLength;
      var len := h.length;
      |out| == |p| && out[..TRUNCATED_HEADER_SIZE] == p[..TRUNCATED_HEADER_SIZE] &&
      out[4] == Hi(len) && out[5] == Lo(len) && out[6] == FlagsByte(h) &&
      out[BASE_HEADER_SIZE..BASE_HEADER_SIZE + vl] == h.vcFrame[..vl] &&
      out[BASE_HEADER_SIZE + vl] == DataHeaderByte(f) &&
      out[BASE_HEADER_SIZE + vl + DATA_HEADER_SIZE..len - ECF_SIZE] == f.data[..len - FRAME_OVERHEAD - vl] &&
      CheckStatus(out, len, ecfOf) == Ok
  {
    var vl := h.vcLength;
    var len := h.length;
    var w := FrameBody(h, f, p);
    FrameBodyLayout(h, f, p);
    SealLayout(w, len, ecfOf);
    var out := FramePacketized(h, f, p, ecfOf);
    var pre := out[..len - ECF_SIZE];
    assert out[..TRUNCATED_HEADER_SIZE] == pre[..TRUNCATED_HEADER_SIZE];
    assert out[BASE_HEADER_SIZE..BASE_HEADER_SIZE + vl] == pre[BASE_HEADER_SIZE..BASE_HEADER_SIZE + vl];
    assert out[BASE_HEADER_SIZE + vl + DATA_HEADER_SIZE..len - ECF_SIZE] == pre[BASE_HEADER_SIZE + vl + DATA_HEADER_SIZE..];
  }

  /** Every field of a non-truncated frame fits the bits the frame gives it. */
  predicate FrameInRange(h: Header, f: Field) {
    PrefixInRange(h) && h.endFlag == 0 &&
    h.bypassFlag < 2 && h.commandFlag < 2 && h.ocfFlag < 2 && h.vcLength < 8 &&
    FRAME_OVERHEAD + h.vcLength <= h.length <= MAX_SIZE &&
    f.constrRule < 8 && f.protocolId < 32
  }

  /** `Decode` on a buffer laid out as `Packetize` lays out a non-truncated frame. */
  lemma FrameDecodeOfLayout(out: seq<byte>, h: Header, f: Field, priorH: Header, priorF: Field, ecfOf: EcfFunction)
    requires Sized(h, f) && Sized(priorH, priorF) && FrameInRange(h, f) && h.length <= |out|
    requires out[..TRUNCATED_HEADER_SIZE] == Prefix(h)
    requires out[4] == Hi(h.length) && out[5] == Lo(h.length) && out[6] == FlagsByte(h)
    requires out[BASE_HEADER_SIZE..BASE_HEADER_SIZE + h.vcLength] == h.vcFrame[..h.vcLength]
    requires out[BASE_HEADER_SIZE + h.vcLength] == DataHeaderByte(f)
    requires out[BASE_HEADER_SIZE + h.vcLength + DATA_HEADER_SIZE..h.length - ECF_SIZE] ==
      f.data[..h.length - FRAME_OVERHEAD - h.vcLength]
    requires CheckStatus(out, h.length, ecfOf) == Ok
    ensures CanDecode(out, 0) && out[3] % 2 == 0
    ensures var vl := h.vcLength;
      var n := h.length - FRAME_OVERHEAD - vl;
      FrameDecoded(out, ReadPrefix(priorH, out), priorF, ecfOf) ==
        Outcome(Ok, h.(vcFrame := h.vcFrame[..vl] + priorH.vcFrame[vl..]), f.(data := f.data[..n] + priorF.data[n..]))
  {
    var vl := h.vcLength;
    var n := h.length - FRAME_OVERHEAD - vl;
    PrefixRead(h, out, priorH);
    var h0 := WithPrefixOf(priorH, h);
    FlagsRead(out, h, h0);
    assert ReadFlags(h0, out) == h.(vcFrame := priorH.vcFrame);
    assert ReadDataHeader(priorF, out[BASE_HEADER_SIZE + vl]) == f.(data := priorF.data) by {
      DataHeaderFields(f);
    }
  }

  /** Bytes 4-6 as `Packetize` writes them read back as the length, the flags and the insert zone length. */
  lemma FlagsRead(out: seq<byte>, h: Header, prior: Header)
    requires h.bypassFlag < 2 && h.commandFlag < 2 && h.ocfFlag < 2 && h.vcLength < 8
    requires |out| >= BASE_HEADER_SIZE
    requires out[4] == Hi(h.length) && out[5] == Lo(h.length) && out[6] == FlagsByte(h)
    ensures ReadFlags(prior, out) == prior.(length := h.length, bypassFlag := h.bypassFlag,
      commandFlag := h.commandFlag, ocfFlag := h.ocfFlag, vcLength := h.vcLength)
  {
    FlagsByteSum(h);
    FlagsFields(out[6], h.bypassFlag, h.commandFlag, h.ocfFlag, h.vcLength);
    Be16HiLo(h.length, 0, 0);
  }

  /**
   * A non-truncated frame with in-range fields and at most 7 insert-zone
   * bytes decodes to what was packed: `Packetize` succeeds, and `Decode`
   * succeeds and restores every header field, the insert zone, the data
   * field header and the `length - 10 - vc_length` data bytes; bytes past
   * those keep their previous values. `data_length` and `buffer_length`
   * play no part.
   */
  lemma PacketizeDecodeFrame(h: Header, f: Field, dataLength: byte, b: seq<byte>, bufferLength: nat,
                             priorH: Header, priorF: Field, ecfOf: EcfFunction)
    requires Sized(h, f) && Sized(priorH, priorF) && FrameInRange(h, f) && h.length <= |b|
    ensures CanPacketize(h, f, dataLength, |b|)
    ensures var w := Packetized(h, f, dataLength, b, ecfOf);
      var vl := h.vcLength;
      var n := h.length - FRAME_OVERHEAD - vl;
      w.status == Ok && CanDecode(w.buffer, bufferLength) &&
      Decoded(w.buffer, bufferLength, priorH, priorF, ecfOf) ==
        Outcome(Ok, h.(vcFrame := h.vcFrame[..vl] + priorH.vcFrame[vl..]), f.(data := f.data[..n] + priorF.data[n..]))
  {
    var p := Splice(b, 0, Prefix(h));
    FrameLayout(h, f, p, ecfOf);
    var out := FramePacketized(h, f, p, ecfOf);
    FrameDecodeOfLayout(out, h, f, priorH, priorF, ecfOf);
  }

  // ---------------------------------------------------------------------
  // The insert-zone length against its 3-bit field.

  /** An insert-zone length of 8 ORed into the flags byte lands on the OCF bit. */
  lemma FlagsByteOfEight(h: Header)
    requires h.bypassFlag < 2 && h.commandFlag < 2 && h.ocfFlag == 0 && h.vcLength == 8
    ensures FlagsByte(h) == (h.bypassFlag * 2 + h.commandFlag) * 64 + 8
  {
    var top := h.bypassFlag * 2 + h.commandFlag;
    TopOr(h.bypassFlag, h.commandFlag);
    Or8Disjoint(top, 0, 64);
    Or8Disjoint(top, 8, 64);
  }

  /** `Decode` on a frame whose flags byte carries an insert-zone length of 8. */
  lemma EightDecodeOfLayout(out: seq<byte>, h: Header, bufferLength: nat, priorH: Header, priorF: Field, ecfOf: EcfFunction)
    requires Sized(priorH, priorF) && PrefixInRange(h) && h.endFlag == 0
    requires h.bypassFlag < 2 && h.commandFlag < 2 && h.ocfFlag == 0 && h.vcLength == 8
    requires FRAME_OVERHEAD + h.vcLength <= h.length <= MAX_SIZE && h.length <= |out|
    requires out[..TRUNCATED_HEADER_SIZE] == Prefix(h)
    requires out[4] == Hi(h.length) && out[5] == Lo(h.length) && out[6] == FlagsByte(h)
    requires CheckStatus(out, h.length, ecfOf) == Ok
    ensures CanDecode(out, bufferLength)
    ensures var d := Decoded(out, bufferLength, priorH, priorF, ecfOf);
      d.status == Ok && d.header.length == h.length && d.header.vcLength == 0 && d.header.ocfFlag == 1
  {
    PrefixBytes(h);
    assert out[3] == out[..TRUNCATED_HEADER_SIZE][3] == (h.vcid % 8) * 32 + h.mapid * 2;
    Byte3Fields(out[3], h.vcid % 8, h.mapid, 0);
    FlagsByteOfEight(h);
    EightFields(out[6], h.bypassFlag * 2 + h.commandFlag);
    Be16HiLo(h.length, 0, 0);
  }

  /** The low three bits and the OCF bit of a flags byte whose low nibble is 8. */
  lemma EightFields(x: int, top: nat)
    requires top < 4 && x == top * 64 + 8
    ensures x % 8 == 0 && (x / 8) % 2 == 1
  {
  }

  /**
   * A frame packed with 8 insert-zone bytes and the OCF flag clear is
   * accepted by `Decode`, which reads an empty insert zone and a set OCF
   * flag.
   */
  lemma VcLengthUnmasked(h: Header, f: Field, dataLength: byte, b: seq<byte>, bufferLength: nat,
                         priorH: Header, priorF: Field, ecfOf: EcfFunction)
    requires Sized(h, f) && Sized(priorH, priorF) && PrefixInRange(h) && h.endFlag == 0
    requires h.bypassFlag < 2 && h.commandFlag < 2 && h.ocfFlag == 0 && h.vcLength == 8
    requires FRAME_OVERHEAD + h.vcLength <= h.length <= MAX_SIZE && h.length <= |b|
    ensures CanPacketize(h, f, dataLength, |b|)
    ensures var w := Packetized(h, f, dataLength, b, ecfOf);
      w.status == Ok && CanDecode(w.buffer, bufferLength) &&
      var d := Decoded(w.buffer, bufferLength, priorH, priorF, ecfOf);
      d.status == Ok && d.header.length == h.length && d.header.vcLength == 0 && d.header.ocfFlag == 1
  {
    var p := Splice(b, 0, Prefix(h));
    FrameLayout(h, f, p, ecfOf);
    var out := FramePacketized(h, f, p, ecfOf);
    EightDecodeOfLayout(out, h, bufferLength, priorH, priorF, ecfOf);
  }

  /** `SetData` accepts 8 insert-zone bytes for a non-truncated frame. */
  lemma SetDataAcceptsEight(data: seq<byte>, dataLength: byte, vc: seq<byte>, h: Header, f: Field)
    requires Sized(h, f) && CanSetData(data, dataLength, vc, 8)
    requires h.endFlag == 0 && dataLength + 8 + FRAME_OVERHEAD <= SET_DATA_MAX_LENGTH
    ensures var r := SetDataOf(data, dataLength, vc, 8, h, f);
      r.status == Ok && r.header.vcLength == 8 && r.header.length == dataLength + 18
  {
  }

  /**
   * End to end as written: `SetData` with 8 insert-zone bytes succeeds,
   * `Packetize` succeeds, and `Decode` succeeds but reports no insert zone
   * and a set OCF flag.
   */
  lemma SetDataEightMisread(data: seq<byte>, dataLength: byte, vc: seq<byte>, h: Header, f: Field, b: seq<byte>,
                            bufferLength: nat, priorH: Header, priorF: Field, ecfOf: EcfFunction)
    requires Sized(h, f) && Sized(priorH, priorF) && CanSetData(data, dataLength, vc, 8)
    requires PrefixInRange(h) && h.endFlag == 0 && h.bypassFlag < 2 && h.commandFlag < 2 && h.ocfFlag == 0
    requires dataLength + 8 + FRAME_OVERHEAD <= SET_DATA_MAX_LENGTH && dataLength + 18 <= |b|
    ensures var r := SetDataOf(data, dataLength, vc, 8, h, f);
      r.status == Ok && CanPacketize(r.header, r.field, dataLength, |b|) &&
      var w := Packetized(r.header, r.field, dataLength, b, ecfOf);
      w.status == Ok && CanDecode(w.buffer, bufferLength) &&
      var d := Decoded(w.buffer, bufferLength, priorH, priorF, ecfOf);
      d.status == Ok && d.header.vcLength == 0 && d.header.ocfFlag == 1
  {
    var r := SetDataOf(data, dataLength, vc, 8, h, f);
    VcLengthUnmasked(r.header, r.field, dataLength, b, bufferLength, priorH, priorF, ecfOf);
  }

  /**
   * End to end with the insert zone limited to 7 bytes: whenever `SetData`
   * succeeds on a non-truncated frame with in-range fields, `Packetize`
   * succeeds and `Decode` restores the header `SetData` built, the
   * `vc_length` insert-zone bytes and the `data_length` data bytes.
   */
  lemma SetDataPacketizeDecode(data: seq<byte>, dataLength: byte, vc: seq<byte>, vcLength: byte, h: Header, f: Field,
                               b: seq<byte>, bufferLength: nat, priorH: Header, priorF: Field, ecfOf: EcfFunction)
    requires Sized(h, f) && Sized(priorH, priorF) && CanSetData(data, dataLength, vc, vcLength)
    requires PrefixInRange(h) && h.endFlag == 0 && h.bypassFlag < 2 && h.commandFlag < 2 && h.ocfFlag < 2
    requires f.constrRule < 8 && f.protocolId < 32
    requires SetDataFixedOf(data, dataLength, vc, vcLength, h, f).status == Ok
    requires SetDataFixedOf(data, dataLength, vc, vcLength, h, f).header.length <= |b|
    ensures var r := SetDataFixedOf(data, dataLength, vc, vcLength, h, f);
      CanPacketize(r.header, r.field, dataLength, |b|) &&
      var w := Packetized(r.header, r.field, dataLength, b, ecfOf);
      w.status == Ok && CanDecode(w.buffer, bufferLength) &&
      Decoded(w.buffer, bufferLength, priorH, priorF, ecfOf) ==
        Outcome(Ok, r.header.(vcFrame := vc[..vcLength] + priorH.vcFrame[vcLength..]),
                r.field.(data := data[..dataLength] + priorF.data[dataLength..]))
  {
    var r := SetDataFixedOf(data, dataLength, vc, vcLength, h, f);
    assert r.header.vcFrame[..vcLength] == vc[..vcLength];
    assert r.field.data[..dataLength] == data[..dataLength];
    PacketizeDecodeFrame(r.header, r.field, dataLength, b, bufferLength, priorH, priorF, ecfOf);
  }

  // ---------------------------------------------------------------------
  // The truncated frame.

  /**
   * Where the corrected truncated frame puts its parts over `p`: the prefix
   * kept, the data field header at byte 4, the data from byte 5, and a
   * trailer that checks.
   */
  lemma TruncatedFixedLayout(f: Field, dataLength: byte, p: seq<byte>, ecfOf: EcfFunction)
    requires |f.data| == DATA_MAX_SIZE && dataLength <= DATA_MAX_SIZE && dataLength + BASE_HEADER_SIZE <= |p|
    ensures var x := p[TRUNCATED_HEADER_SIZE := DataHeaderByte(f)];
      var y := Splice(x, TRUNCATED_HEADER_SIZE + DATA_HEADER_SIZE, f.data[..dataLength]);
      var out := Sealed(y, dataLength + BASE_HEADER_SIZE, ecfOf);
      |out| == |p| &&
      out[..TRUNCATED_HEADER_SIZE] == p[..TRUNCATED_HEADER_SIZE] && out[TRUNCATED_HEADER_SIZE] == DataHeaderByte(f) &&
      out[5..dataLength + 5] == f.data[..dataLength] &&
      CheckStatus(out, dataLength + BASE_HEADER_SIZE, ecfOf) == Ok
  {
    var n := dataLength;
    var x := p[TRUNCATED_HEADER_SIZE := DataHeaderByte(f)];
    var y := Splice(x, TRUNCATED_HEADER_SIZE + DATA_HEADER_SIZE, f.data[..n]);
    SealLayout(y, n + BASE_HEADER_SIZE, ecfOf);
    var out := Sealed(y, n + BASE_HEADER_SIZE, ecfOf);
    var body := out[..n + 5];
    assert body == y[..n + 5] == p[..TRUNCATED_HEADER_SIZE] + [DataHeaderByte(f)] + f.data[..n];
    assert out[..TRUNCATED_HEADER_SIZE] == body[..TRUNCATED_HEADER_SIZE];
    assert out[5..n + 5] == body[5..];
  }

  /**
   * The corrected truncated frame round-trips: packing succeeds, and
   * reading back its `data_length + 7` bytes succeeds and restores the
   * prefix fields, the data field header and the `data_length` data bytes.
   */
  lemma TruncatedFixedRoundTrip(h: Header, f: Field, dataLength: byte, b: seq<byte>,
                                priorH: Header, priorF: Field, ecfOf: EcfFunction)
    requires Sized(h, f) && Sized(priorH, priorF) && PrefixInRange(h) && h.endFlag == 1
    requires f.constrRule < 8 && f.protocolId < 32
    requires dataLength <= DATA_MAX_SIZE && dataLength + BASE_HEADER_SIZE <= |b|
    ensures var w := TruncatedPacketizedFixed(h, f, dataLength, b, ecfOf);
      w.status == Ok && CanDecodeTruncatedFixed(w.buffer, dataLength + BASE_HEADER_SIZE) &&
      TruncatedDecodedFixed(w.buffer, dataLength + BASE_HEADER_SIZE, priorH, priorF, ecfOf) ==
        Outcome(Ok, WithPrefixOf(priorH, h), f.(data := f.data[..dataLength] + priorF.data[dataLength..]))
  {
    var n := dataLength;
    var p := Splice(b, 0, Prefix(h));
    TruncatedFixedLayout(f, n, p, ecfOf);
    var out := TruncatedPacketizedFixed(h, f, n, b, ecfOf).buffer;
    PrefixRead(h, out, priorH);
    DataHeaderFields(f);
  }

  /**
   * A correctly sealed truncated frame (CRC of everything before it,
   * big-endian, right after the data) is rejected by `Decode` as written,
   * which otherwise reads the same fields as the corrected decoder.
   */
  lemma TruncatedCrcInverted(h: Header, f: Field, dataLength: byte, b: seq<byte>,
                             priorH: Header, priorF: Field, ecfOf: EcfFunction)
    requires Sized(h, f) && Sized(priorH, priorF) && PrefixInRange(h) && h.endFlag == 1
    requires f.constrRule < 8 && f.protocolId < 32
    requires dataLength <= DATA_MAX_SIZE && dataLength + BASE_HEADER_SIZE <= |b|
    ensures var w := TruncatedPacketizedFixed(h, f, dataLength, b, ecfOf);
      var bl := dataLength + BASE_HEADER_SIZE;
      CanDecode(w.buffer, bl) &&
      Decoded(w.buffer, bl, priorH, priorF, ecfOf) ==
        Outcome(Error, WithPrefixOf(priorH, h), f.(data := f.data[..dataLength] + priorF.data[dataLength..]))
  {
    TruncatedFixedRoundTrip(h, f, dataLength, b, priorH, priorF, ecfOf);
    var out := TruncatedPacketizedFixed(h, f, dataLength, b, ecfOf).buffer;
    PrefixBytes(h);
    assert out[3] == out[..TRUNCATED_HEADER_SIZE][3] == Prefix(h)[3];
  }

  /** Four bytes packed from in-range fields read back to those fields, end flag included. */
  lemma PrefixRead(h: Header, out: seq<byte>, prior: Header)
    requires PrefixInRange(h) && |out| >= TRUNCATED_HEADER_SIZE && out[..TRUNCATED_HEADER_SIZE] == Prefix(h)
    ensures ReadPrefix(prior, out) == WithPrefixOf(prior, h) && out[3] % 2 == h.endFlag
  {
    PrefixDecodes(h, prior);
    assert ReadPrefix(prior, out) == ReadPrefix(prior, Prefix(h));
    PrefixBytes(h);
    assert out[3] == Prefix(h)[3];
    Byte3Fields(out[3], h.vcid % 8, h.mapid, h.endFlag);
  }

  /**
   * Where `Packetize` as written puts the parts of a truncated frame: the
   * first `data_length + 5` bytes are the old bytes 0-6, the data field
   * header and the data, cut short; the trailer after them holds their CRC
   * low byte first.
   */
  lemma TruncatedLayout(f: Field, dataLength: byte, p: seq<byte>, ecfOf: EcfFunction)
    requires |f.data| == DATA_MAX_SIZE && dataLength <= DATA_MAX_SIZE
    requires dataLength + BASE_HEADER_SIZE + DATA_HEADER_SIZE <= |p|
    ensures var out := TruncatedPacketized(f, dataLength, p, ecfOf);
      var e := ecfOf(out[..dataLength + 5]);
      |out| == |p| &&
      out[..TRUNCATED_HEADER_SIZE] == p[..TRUNCATED_HEADER_SIZE] && out[TRUNCATED_HEADER_SIZE] == p[TRUNCATED_HEADER_SIZE] &&
      out[5..dataLength + 5] == (p[5..BASE_HEADER_SIZE] + [DataHeaderByte(f)] + f.data[..dataLength])[..dataLength] &&
      Trailer(out, dataLength + BASE_HEADER_SIZE) == Be16(Lo(e), Hi(e))
  {
    var n := dataLength;
    var x := p[BASE_HEADER_SIZE := DataHeaderByte(f)];
    var y := Splice(x, BASE_HEADER_SIZE + DATA_HEADER_SIZE, f.data[..n]);
    var s := p[..BASE_HEADER_SIZE] + [DataHeaderByte(f)] + f.data[..n];
    assert y[..n + 8] == s;
    var out := TruncatedPacketized(f, n, p, ecfOf);
    var body := out[..n + 5];
    assert body == y[..n + 5] == s[..n + 5];
    assert out[..TRUNCATED_HEADER_SIZE] == body[..TRUNCATED_HEADER_SIZE];
    assert s[5..] == p[5..BASE_HEADER_SIZE] + [DataHeaderByte(f)] + f.data[..n];
    assert out[5..n + 5] == body[5..] == s[5..n + 5];
  }

  /** Two bytes read in the opposite order give the same word exactly when they are equal. */
  lemma SwappedWord(e: u16)
    ensures Be16(Lo(e), Hi(e)) == e <==> Hi(e) == Lo(e)
  {
  }

  /**
   * The truncated frame as written does not decode as written. `Packetize`
   * puts the data field header at byte 7 and the data at byte 8, but
   * `Decode` reads the header from byte 4 and the data from byte 5. So a
   * frame of `data_length + 7` bytes yields the caller's untouched byte 4
   * as the data field header, and data shifted by three bytes: bytes 5 and
   * 6 of the buffer, then the packed header byte, then the data. The CRC is
   * stored low byte first and read big-endian, and `Decode` inverts the
   * comparison. So the frame is accepted exactly when its two CRC bytes
   * differ.
   */
  lemma TruncatedLayoutMismatch(h: Header, f: Field, dataLength: byte, b: seq<byte>,
                                priorH: Header, priorF: Field, ecfOf: EcfFunction)
    requires Sized(h, f) && Sized(priorH, priorF) && PrefixInRange(h) && h.endFlag == 1
    requires dataLength <= DATA_MAX_SIZE && dataLength + BASE_HEADER_SIZE + DATA_HEADER_SIZE <= |b|
    ensures CanPacketize(h, f, dataLength, |b|)
    ensures var w := Packetized(h, f, dataLength, b, ecfOf);
      var bl := dataLength + BASE_HEADER_SIZE;
      w.status == Ok && CanDecode(w.buffer, bl) &&
      var d := Decoded(w.buffer, bl, priorH, priorF, ecfOf);
      var e := ecfOf(w.buffer[..dataLength + 5]);
      d.header == WithPrefixOf(priorH, h) &&
      d.field.constrRule == b[4] / 32 && d.field.protocolId == b[4] % 32 &&
      d.field.data[..dataLength] == (b[5..BASE_HEADER_SIZE] + [DataHeaderByte(f)] + f.data[..dataLength])[..dataLength] &&
      (d.status == Ok <==> Hi(e) != Lo(e))
  {
    var n := dataLength;
    var p := Splice(b, 0, Prefix(h));
    TruncatedLayout(f, n, p, ecfOf);
    var out := TruncatedPacketized(f, n, p, ecfOf);
    assert p[5..BASE_HEADER_SIZE] == b[5..BASE_HEADER_SIZE];
    PrefixRead(h, out, priorH);
    SwappedWord(ecfOf(out[..n + 5]));
  }
}
