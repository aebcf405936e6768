/**
 * The transfer-frame codec, loosely after the USLP frame of CCSDS 732.1-B.
 *
 * A non-truncated frame is a 7-byte primary header (version, spacecraft id,
 * source/destination bit, virtual channel id, MAP id, end flag, a 16-bit
 * length that counts every byte of the frame, and a flags byte whose low
 * three bits give the number of insert-zone bytes that follow), the
 * insert-zone bytes (`vc_frame`), a one-byte data field header (construction
 * rule, protocol id), the data, and a big-endian CRC trailer. A truncated
 * frame keeps only the first four header bytes.
 *
 * `tfph_packet_t` and `tfdf_packet_t` are the classes `PrimaryHeader` and
 * `DataField`; each method is tied to a function on values (`Header`,
 * `Field`, byte sequences) that says what it computes, and
 * tf_packet_proofs.dfy holds the properties of those functions. The methods
 * write before they check, as the source does, so the functions return the
 * partly updated state together with HAL_ERROR.
 */
module TfPacket {

  import opened Bytes
  import Crc

  const MAX_SIZE: nat := 256
  const ECF_SIZE: nat := 2
  const TRUNCATED_HEADER_SIZE: nat := 4
  const BASE_HEADER_SIZE: nat := 7
  const DATA_HEADER_SIZE: nat := 1
  const VCDATA_MAX_SIZE: nat := 56
  /** MAX_SIZE - TRUNCATED_HEADER_SIZE - DATA_HEADER_SIZE - ECF_SIZE. */
  const DATA_MAX_SIZE: nat := 249

  /** The bytes of a non-truncated frame that are not data: header, data field header, trailer. */
  const FRAME_OVERHEAD: nat := 10

  /** The largest `length` `tf_packet_SetData` accepts: DATA_MAX_SIZE - (7 - 4). */
  const SET_DATA_MAX_LENGTH: nat := 246

  /** The largest uint32_t: `buffer_length` is a uint32_t. */
  const UINT32_MAX: nat := 0xFFFF_FFFF

  /** int16_t, the type of the tf CRC routine's seed. */
  type i16 = x: int | -0x8000 <= x < 0x8000

  /** The value held by a `tfph_packet_t`. */
  datatype Header = Header(
    tfvn: byte,
    scid: u16,
    sourceDestId: byte,
    vcid: byte,
    mapid: byte,
    endFlag: byte,
    length: u16,
    bypassFlag: byte,
    commandFlag: byte,
    ocfFlag: byte,
    vcLength: byte,
    vcFrame: seq<byte>)

  /** The value held by a `tfdf_packet_t`. */
  datatype Field = Field(constrRule: byte, protocolId: byte, data: seq<byte>)

  /** A status together with the header and data field a call leaves behind. */
  datatype Outcome = Outcome(status: Status, header: Header, field: Field)

  /** A status together with the buffer a call leaves behind. */
  datatype Written = Written(status: Status, buffer: seq<byte>)

  /** A `tfph_packet_t` owned by the caller and updated in place. */
  class PrimaryHeader {
    var tfvn: byte
    var scid: u16
    var sourceDestId: byte
    var vcid: byte
    var mapid: byte
    var endFlag: byte
    var length: u16
    var bypassFlag: byte
    var commandFlag: byte
    var ocfFlag: byte
    var vcLength: byte
    const vcFrame: array<byte>

    ghost predicate Valid()
      reads this
    {
      vcFrame.Length == VCDATA_MAX_SIZE
    }

    function Value(): Header
      reads this, vcFrame
    {
      Header(tfvn, scid, sourceDestId, vcid, mapid, endFlag, length,
        bypassFlag, commandFlag, ocfFlag, vcLength, vcFrame[..])
    }

    /** `tfph_packet_t tfph = {0};` */
    constructor ()
      ensures Valid() && fresh(vcFrame)
      ensures Value() == Header(0, 0, 0, 0, 0, 0, 0, 0, 0, 0, 0, Zeros(VCDATA_MAX_SIZE))
    {
      tfvn, scid, sourceDestId, vcid, mapid, endFlag := 0, 0, 0, 0, 0, 0;
      length, bypassFlag, commandFlag, ocfFlag, vcLength := 0, 0, 0, 0, 0;
      vcFrame := new byte[VCDATA_MAX_SIZE](_ => 0);
      new;
      assert vcFrame[..] == Zeros(VCDATA_MAX_SIZE);
    }
  }

  /** A `tfdf_packet_t` owned by the caller and updated in place. */
  class DataField {
    var constrRule: byte
    var protocolId: byte
    const data: array<byte>

    ghost predicate Valid()
      reads this
    {
      data.Length == DATA_MAX_SIZE
    }

    function Value(): Field
      reads this, data
    {
      Field(constrRule, protocolId, data[..])
    }

    /** `tfdf_packet_t tfdf = {0};` */
    constructor ()
      ensures Valid() && fresh(data)
      ensures Value() == Field(0, 0, Zeros(DATA_MAX_SIZE))
    {
      constrRule, protocolId := 0, 0;
      data := new byte[DATA_MAX_SIZE](_ => 0);
      new;
      assert data[..] == Zeros(DATA_MAX_SIZE);
    }
  }

  /** The sizes of the two fixed arrays. */
  predicate Sized(h: Header, f: Field) {
    |h.vcFrame| == VCDATA_MAX_SIZE && |f.data| == DATA_MAX_SIZE
  }

  // ---------------------------------------------------------------------
  // Header bytes. Each `|` of the source is `Or8`, which also keeps only the
  // low eight bits as the store into a uint8_t does; shifts are products.

  /** Bytes 0-3: tfvn(4) scid(16) source_dest_id(1) vcid(6) mapid(4) end_flag(1), MSB first. */
  function Prefix(h: Header): seq<byte> {
    [ Or8(h.tfvn * 16, h.scid / 4096),
      (h.scid / 16) % 256,
      Or8(Or8((h.scid % 16) * 16, h.sourceDestId * 8), (h.vcid / 8) % 8),
      Or8(Or8((h.vcid % 8) * 32, h.mapid * 2), h.endFlag) ]
  }

  /** Byte 6: bypass(1) command(1) spare(2) ocf(1) and the unmasked `vc_length`. */
  function FlagsByte(h: Header): byte {
    Or8(Or8(Or8(h.bypassFlag * 128, h.commandFlag * 64), h.ocfFlag * 8), h.vcLength)
  }

  /** The data field header: constr_rule(3) protocol_id(5). */
  function DataHeaderByte(f: Field): byte {
    Or8(f.constrRule * 32, f.protocolId)
  }

  /**
   * The header after the source reads bytes 0-3 into it; the three
   * disjoint bit ranges of `scid` and the two of `vcid` are added.
   */
  function ReadPrefix(h: Header, b: seq<byte>): Header
    requires |b| >= TRUNCATED_HEADER_SIZE
  {
    h.(tfvn := b[0] / 16,
       scid := (b[0] % 16) as int * 4096 + b[1] as int * 16 + b[2] / 16,
       sourceDestId := (b[2] / 8) % 2,
       vcid := (b[2] % 8) * 8 + b[3] / 32,
       mapid := (b[3] / 2) % 16,
       endFlag := b[3] % 2)
  }

  /** The header after the source reads bytes 4-6 into it. */
  function ReadFlags(h: Header, b: seq<byte>): Header
    requires |b| >= BASE_HEADER_SIZE
  {
    h.(length := Be16(b[4], b[5]),
       bypassFlag := b[6] / 128,
       commandFlag := (b[6] / 64) % 2,
       ocfFlag := (b[6] / 8) % 2,
       vcLength := b[6] % 8)
  }

  /** The data field after the source reads its header byte `x`. */
  function ReadDataHeader(f: Field, x: byte): Field {
    f.(constrRule := x / 32, protocolId := x % 32)
  }

  /** The big-endian trailer ending at `len`. */
  function Trailer(b: seq<byte>, len: nat): u16
    requires ECF_SIZE <= len <= |b|
  {
    Be16(b[len - 2], b[len - 1])
  }

  /**
   * The CRC routine the codec calls on the bytes before the trailer: the
   * software CRC (`Crc.Ecf`) or, on STM32, the CRC peripheral configured
   * to compute the same function.
   */
  type EcfFunction = seq<byte> -> u16

  // ---------------------------------------------------------------------
  // tf_packet_SetData

  /**
   * The caller's arrays hold the bytes the source copies: `data_length`
   * bytes of `data` and `VCdata_length` bytes of `VCdata` whenever those
   * lengths pass the first two checks.
   */
  predicate CanSetData(data: seq<byte>, dataLength: byte, vc: seq<byte>, vcLength: byte) {
    (dataLength <= DATA_MAX_SIZE ==> dataLength <= |data|) &&
    (vcLength <= VCDATA_MAX_SIZE ==> vcLength <= |vc|)
  }

  /**
   * `tf_packet_SetData(data, dataLength, vc, vcLength, &h, &f)`. A data or
   * insert-zone length over its array fails before any write. For a
   * non-truncated frame `vc_length` and `length` (every byte of the frame)
   * are written, and a length over 246 fails after those writes; then the
   * insert zone and the data are copied.
   */
  function SetDataOf(data: seq<byte>, dataLength: byte, vc: seq<byte>, vcLength: byte, h: Header, f: Field): (r: Outcome)
    requires Sized(h, f) && CanSetData(data, dataLength, vc, vcLength)
    ensures Sized(r.header, r.field)
    ensures r.status == Ok <==>
      dataLength <= DATA_MAX_SIZE && vcLength <= VCDATA_MAX_SIZE &&
      (h.endFlag == 0 ==> dataLength + vcLength + FRAME_OVERHEAD <= SET_DATA_MAX_LENGTH)
    ensures r.status == Ok ==>
      r.field == f.(data := data[..dataLength] + f.data[dataLength..])
    ensures r.status == Ok && h.endFlag == 0 ==>
      r.header == h.(vcLength := vcLength, length := dataLength + vcLength + FRAME_OVERHEAD,
                     vcFrame := vc[..vcLength] + h.vcFrame[vcLength..])
    ensures r.status == Ok && h.endFlag != 0 ==> r.header == h
    ensures dataLength > DATA_MAX_SIZE || vcLength > VCDATA_MAX_SIZE ==> r == Outcome(Error, h, f)
    ensures r.status == Error && dataLength <= DATA_MAX_SIZE && vcLength <= VCDATA_MAX_SIZE ==>
      r == Outcome(Error, h.(vcLength := vcLength, length := dataLength + vcLength + FRAME_OVERHEAD), f)
  {
    if dataLength > DATA_MAX_SIZE || vcLength > VCDATA_MAX_SIZE then Outcome(Error, h, f)
    else
      var f1 := f.(data := Splice(f.data, 0, data[..dataLength]));
      if h.endFlag == 0 then
        var length := dataLength + vcLength + FRAME_OVERHEAD;
        var h1 := h.(vcLength := vcLength, length := length);
        if length > SET_DATA_MAX_LENGTH then Outcome(Error, h1, f)
        else Outcome(Ok, h1.(vcFrame := Splice(h.vcFrame, 0, vc[..vcLength])), f1)
      else Outcome(Ok, h, f1)
  }

  /** tf_packet_SetData. */
  method SetData(data: array<byte>, dataLength: byte, vcData: array<byte>, vcLength: byte,
                 tfph: PrimaryHeader, tfdf: DataField)
    returns (status: Status)
    requires tfph.Valid() && tfdf.Valid() && tfph.vcFrame != tfdf.data
    requires data != tfdf.data && data != tfph.vcFrame && vcData != tfph.vcFrame
    requires CanSetData(data[..], dataLength, vcData[..], vcLength)
    modifies tfph, tfph.vcFrame, tfdf.data
    ensures tfph.Valid() && tfdf.Valid()
    ensures Outcome(status, tfph.Value(), tfdf.Value()) ==
      SetDataOf(old(data[..]), dataLength, old(vcData[..]), vcLength, old(tfph.Value()), old(tfdf.Value()))
  {
    if dataLength > DATA_MAX_SIZE {
      return Error;
    }
    if vcLength > VCDATA_MAX_SIZE {
      return Error;
    }
    if tfph.endFlag == 0 {
      tfph.vcLength := vcLength;
      tfph.length := dataLength + vcLength + FRAME_OVERHEAD;
      if tfph.length > SET_DATA_MAX_LENGTH {
        return Error;
      }
      Copy(tfph.vcFrame, 0, vcData, 0, vcLength);
    }
    Copy(tfdf.data, 0, data, 0, dataLength);
    return Ok;
  }

  // ---------------------------------------------------------------------
  // tf_packet_Packetize

  /**
   * What `tf_packet_Packetize` needs to stay inside the caller's buffer of
   * `size` bytes and the two records: the four prefix bytes; for a frame
   * that passes the length check, an insert zone inside `vc_frame` and a
   * length that covers header, insert zone, data field header and trailer
   * and fits the buffer; for a truncated frame that passes its check, room
   * for `data_length + 8` bytes.
   */
  predicate CanPacketize(h: Header, f: Field, dataLength: byte, size: nat) {
    Sized(h, f) && size >= TRUNCATED_HEADER_SIZE &&
    if h.endFlag == 0 then
      h.length <= MAX_SIZE ==>
        h.vcLength <= VCDATA_MAX_SIZE && FRAME_OVERHEAD + h.vcLength <= h.length <= size
    else
      dataLength <= DATA_MAX_SIZE ==> dataLength + BASE_HEADER_SIZE + DATA_HEADER_SIZE <= size
  }

  /**
   * The non-truncated frame written over `p` (whose prefix is already in
   * place) up to its trailer: length big-endian at 4-5, the flags byte at
   * 6, `vc_length` insert-zone bytes at 7, the data field header after
   * them, and the `length - 10 - vc_length` data bytes.
   */
  function FrameBody(h: Header, f: Field, p: seq<byte>): seq<byte>
    requires CanPacketize(h, f, 0, |p|) && h.endFlag == 0 && h.length <= MAX_SIZE
  {
    var vl := h.vcLength;
    var x := p[4 := Hi(h.length)][5 := Lo(h.length)][6 := FlagsByte(h)];
    var y := Splice(x, BASE_HEADER_SIZE, h.vcFrame[..vl]);
    var z := y[BASE_HEADER_SIZE + vl := DataHeaderByte(f)];
    Splice(z, BASE_HEADER_SIZE + vl + DATA_HEADER_SIZE, f.data[..h.length - FRAME_OVERHEAD - vl])
  }

  /** `w` with the CRC of its first `len - 2` bytes stored big-endian at `len - 2`. */
  function Sealed(w: seq<byte>, len: nat, ecfOf: EcfFunction): seq<byte>
    requires ECF_SIZE <= len <= |w|
  {
    var e := ecfOf(w[..len - ECF_SIZE]);
    w[len - 2 := Hi(e)][len - 1 := Lo(e)]
  }

  /** The non-truncated frame written over `p`: its body, sealed at `length`. */
  function FramePacketized(h: Header, f: Field, p: seq<byte>, ecfOf: EcfFunction): seq<byte>
    requires CanPacketize(h, f, 0, |p|) && h.endFlag == 0 && h.length <= MAX_SIZE
  {
    Sealed(FrameBody(h, f, p), h.length, ecfOf)
  }

  /**
   * The truncated frame written over `p` as the source writes it: the data
   * field header at byte 7 and the data from byte 8, then the CRC of the
   * first `data_length + 5` bytes stored LOW byte first at
   * `data_length + 5`, overwriting what is there.
   */
  function TruncatedPacketized(f: Field, dataLength: byte, p: seq<byte>, ecfOf: EcfFunction): seq<byte>
    requires |f.data| == DATA_MAX_SIZE && dataLength <= DATA_MAX_SIZE
    requires dataLength + BASE_HEADER_SIZE + DATA_HEADER_SIZE <= |p|
  {
    var n := dataLength;
    var x := p[BASE_HEADER_SIZE := DataHeaderByte(f)];
    var y := Splice(x, BASE_HEADER_SIZE + DATA_HEADER_SIZE, f.data[..n]);
    var e := ecfOf(y[..n + TRUNCATED_HEADER_SIZE + DATA_HEADER_SIZE]);
    y[n + 5 := Lo(e)][n + 6 := Hi(e)]
  }

  /**
   * `tf_packet_Packetize(dataLength, &h, &f, b)`: the prefix is always
   * written; a non-truncated frame then fails when `length > 256` and a
   * truncated one when `data_length > 249`. `data_length` plays no part in
   * a non-truncated frame.
   */
  function Packetized(h: Header, f: Field, dataLength: byte, b: seq<byte>, ecfOf: EcfFunction): Written
    requires CanPacketize(h, f, dataLength, |b|)
  {
    var p := Splice(b, 0, Prefix(h));
    if h.endFlag == 0 then
      if h.length > MAX_SIZE then Written(Error, p)
      else Written(Ok, FramePacketized(h, f, p, ecfOf))
    else if dataLength > DATA_MAX_SIZE then Written(Error, p)
    else Written(Ok, TruncatedPacketized(f, dataLength, p, ecfOf))
  }

  /** tf_packet.c lines 112-115: the four prefix bytes. */
  method WritePrefix(tfph: PrimaryHeader, buffer: array<byte>)
    requires buffer.Length >= TRUNCATED_HEADER_SIZE && buffer != tfph.vcFrame
    modifies buffer
    ensures buffer[..] == Splice(old(buffer[..]), 0, Prefix(tfph.Value()))
  {
    buffer[0] := Or8(tfph.tfvn * 16, tfph.scid / 4096);
    buffer[1] := (tfph.scid / 16) % 256;
    buffer[2] := Or8(Or8((tfph.scid % 16) * 16, tfph.sourceDestId * 8), (tfph.vcid / 8) % 8);
    buffer[3] := Or8(Or8((tfph.vcid % 8) * 32, tfph.mapid * 2), tfph.endFlag);
    assert buffer[..] == Prefix(tfph.Value()) + old(buffer[..])[4..];
  }

  /** tf_packet.c lines 122-127: length, flags byte, insert zone and data field header. */
  method WriteFrameHeader(tfph: PrimaryHeader, tfdf: DataField, buffer: array<byte>)
    requires tfph.Valid() && tfdf.Valid() && tfph.vcFrame != tfdf.data
    requires buffer != tfph.vcFrame && buffer != tfdf.data
    requires tfph.vcLength <= VCDATA_MAX_SIZE && BASE_HEADER_SIZE + tfph.vcLength < buffer.Length
    modifies buffer
    ensures buffer[..] ==
      Splice(old(buffer[..])[4 := Hi(tfph.length)][5 := Lo(tfph.length)][6 := FlagsByte(tfph.Value())],
        BASE_HEADER_SIZE, tfph.vcFrame[..tfph.vcLength])
      [BASE_HEADER_SIZE + tfph.vcLength := DataHeaderByte(tfdf.Value())]
  {
    buffer[4] := Hi(tfph.length);
    buffer[5] := Lo(tfph.length);
    buffer[6] := Or8(Or8(Or8(tfph.bypassFlag * 128, tfph.commandFlag * 64), tfph.ocfFlag * 8), tfph.vcLength);
    Copy(buffer, BASE_HEADER_SIZE, tfph.vcFrame, 0, tfph.vcLength);
    buffer[BASE_HEADER_SIZE + tfph.vcLength] := Or8(tfdf.constrRule * 32, tfdf.protocolId);
  }

  /** tf_packet.c lines 132-138: the CRC of the first `len - 2` bytes, stored big-endian after them. */
  method Seal(buffer: array<byte>, len: nat)
    requires ECF_SIZE <= len <= buffer.Length
    modifies buffer
    ensures buffer[..] == Sealed(old(buffer[..]), len, Crc.Ecf)
  {
    var e := Crc.CalculateEcf(buffer, len - ECF_SIZE);
    buffer[len - 2] := Hi(e);
    buffer[len - 1] := Lo(e);
  }

  /** tf_packet.c lines 122-138: the non-truncated frame after its prefix. */
  method WriteFrame(tfph: PrimaryHeader, tfdf: DataField, buffer: array<byte>)
    requires tfph.Valid() && tfdf.Valid() && tfph.vcFrame != tfdf.data
    requires buffer != tfph.vcFrame && buffer != tfdf.data
    requires CanPacketize(tfph.Value(), tfdf.Value(), 0, buffer.Length)
    requires tfph.endFlag == 0 && tfph.length <= MAX_SIZE
    modifies buffer
    ensures buffer[..] == FramePacketized(tfph.Value(), tfdf.Value(), old(buffer[..]), Crc.Ecf)
  {
    var vl := tfph.vcLength;
    var len := tfph.length;
    ghost var h, f := tfph.Value(), tfdf.Value();
    ghost var body := FrameBody(h, f, buffer[..]);
    WriteFrameHeader(tfph, tfdf, buffer);
    Copy(buffer, BASE_HEADER_SIZE + vl + DATA_HEADER_SIZE, tfdf.data, 0, len - FRAME_OVERHEAD - vl);
    assert buffer[..] == body;
    Seal(buffer, len);
  }

  /** tf_packet.c lines 146-156: the truncated frame after its prefix. */
  method WriteTruncated(dataLength: byte, tfdf: DataField, buffer: array<byte>)
    requires tfdf.Valid() && buffer != tfdf.data
    requires dataLength <= DATA_MAX_SIZE && dataLength + BASE_HEADER_SIZE + DATA_HEADER_SIZE <= buffer.Length
    modifies buffer
    ensures buffer[..] == TruncatedPacketized(tfdf.Value(), dataLength, old(buffer[..]), Crc.Ecf)
  {
    buffer[BASE_HEADER_SIZE] := Or8(tfdf.constrRule * 32, tfdf.protocolId);
    Copy(buffer, BASE_HEADER_SIZE + DATA_HEADER_SIZE, tfdf.data, 0, dataLength);
    var e := Crc.CalculateEcf(buffer, dataLength + TRUNCATED_HEADER_SIZE + DATA_HEADER_SIZE);
    buffer[dataLength + 5] := Lo(e);
    buffer[dataLength + 6] := Hi(e);
  }

  /** tf_packet_Packetize. */
  method Packetize(dataLength: byte, tfph: PrimaryHeader, tfdf: DataField, buffer: array<byte>)
    returns (status: Status)
    requires tfph.Valid() && tfdf.Valid() && tfph.vcFrame != tfdf.data
    requires buffer != tfph.vcFrame && buffer != tfdf.data
    requires CanPacketize(tfph.Value(), tfdf.Value(), dataLength, buffer.Length)
    modifies buffer
    ensures Written(status, buffer[..]) ==
      Packetized(tfph.Value(), tfdf.Value(), dataLength, old(buffer[..]), Crc.Ecf)
  {
    WritePrefix(tfph, buffer);
    if tfph.endFlag == 0 {
      if tfph.length > MAX_SIZE {
        return Error;
      }
      WriteFrame(tfph, tfdf, buffer);
    } else {
      if dataLength > DATA_MAX_SIZE {
        return Error;
      }
      WriteTruncated(dataLength, tfdf, buffer);
    }
    return Ok;
  }

  // ---------------------------------------------------------------------
  // tf_packet_Decode

  /**
   * The bytes `tf_packet_Decode` reads lie inside the buffer, and the data
   * it copies fits `tfdf->data`. For a non-truncated frame that passes the
   * length check, the whole frame of `length` bytes; for a truncated frame,
   * a `buffer_length` of at least 7: the source's guard is computed in
   * unsigned arithmetic and does not stop a shorter one.
   */
  predicate CanDecode(b: seq<byte>, bufferLength: nat) {
    |b| >= TRUNCATED_HEADER_SIZE &&
    if b[3] % 2 == 0 then
      |b| > BASE_HEADER_SIZE && |b| > BASE_HEADER_SIZE + b[6] % 8 &&
      (var len := Be16(b[4], b[5]);
       var vl := b[6] % 8;
       FRAME_OVERHEAD + vl <= len ==> len <= |b| && len - FRAME_OVERHEAD - vl <= DATA_MAX_SIZE)
    else
      BASE_HEADER_SIZE <= bufferLength <= |b| && bufferLength - BASE_HEADER_SIZE <= DATA_MAX_SIZE
  }

  /**
   * A non-truncated frame read into `h` and `f` after its prefix: the rest of
   * the header, the insert zone and the data field header are written; it
   * fails if `length < 10 + vc_length`, else copies the data and fails if
   * the CRC of the first `length - 2` bytes differs from the big-endian
   * trailer.
   */
  function FrameDecoded(b: seq<byte>, h: Header, f: Field, ecfOf: EcfFunction): Outcome
    requires Sized(h, f) && CanDecode(b, 0) && b[3] % 2 == 0
  {
    var vl := b[6] % 8;
    var len := Be16(b[4], b[5]);
    var h1 := ReadFlags(h, b).(vcFrame := Splice(h.vcFrame, 0, b[BASE_HEADER_SIZE..BASE_HEADER_SIZE + vl]));
    var f1 := ReadDataHeader(f, b[BASE_HEADER_SIZE + vl]);
    if len < FRAME_OVERHEAD + vl then Outcome(Error, h1, f1)
    else Outcome(CheckStatus(b, len, ecfOf), h1, ReadData(f1, b, BASE_HEADER_SIZE + vl + DATA_HEADER_SIZE, len - ECF_SIZE))
  }

  /** The data field after `memcpy(f.data, &b[from], to - from)`. */
  function ReadData(f: Field, b: seq<byte>, from: nat, to: nat): Field
    requires from <= to <= |b| && to - from <= |f.data|
  {
    f.(data := Splice(f.data, 0, b[from..to]))
  }

  /** HAL_OK when the CRC of the first `len - 2` bytes equals the big-endian trailer. */
  function CheckStatus(b: seq<byte>, len: nat, ecfOf: EcfFunction): Status
    requires ECF_SIZE <= len <= |b|
  {
    if ecfOf(b[..len - ECF_SIZE]) != Trailer(b, len) then Error else Ok
  }

  /**
   * A truncated frame read into `f`: the data field header at byte 4,
   * `bufferLength - 7` data bytes from byte 5, and a status that is
   * HAL_ERROR when the CRC of the first `bufferLength - 2` bytes MATCHES the
   * trailer.
   */
  function TruncatedDecoded(b: seq<byte>, bufferLength: nat, h: Header, f: Field, ecfOf: EcfFunction): (r: Outcome)
    requires Sized(h, f) && CanDecode(b, bufferLength) && b[3] % 2 == 1
    ensures r.status == Ok <==> ecfOf(b[..bufferLength - ECF_SIZE]) != Trailer(b, bufferLength)
  {
    var f1 := ReadDataHeader(f, b[TRUNCATED_HEADER_SIZE]);
    Outcome(if CheckStatus(b, bufferLength, ecfOf) == Ok then Error else Ok, h,
      ReadData(f1, b, TRUNCATED_HEADER_SIZE + DATA_HEADER_SIZE, bufferLength - ECF_SIZE))
  }

  /**
   * `tf_packet_Decode(b, bufferLength, &h, &f)`: the prefix fields are
   * always written, then the end flag read from byte 3 selects the frame
   * form.
   */
  function Decoded(b: seq<byte>, bufferLength: nat, h: Header, f: Field, ecfOf: EcfFunction): Outcome
    requires Sized(h, f) && CanDecode(b, bufferLength)
  {
    var h1 := ReadPrefix(h, b);
    if b[3] % 2 == 0 then FrameDecoded(b, h1, f, ecfOf)
    else TruncatedDecoded(b, bufferLength, h1, f, ecfOf)
  }

  /** tf_packet.c lines 51-56: the prefix fields. */
  method ReadPrefixInto(buffer: array<byte>, tfph: PrimaryHeader)
    requires buffer.Length >= TRUNCATED_HEADER_SIZE
    modifies tfph
    ensures tfph.Value() == ReadPrefix(old(tfph.Value()), buffer[..])
  {
    tfph.tfvn := buffer[0] / 16;
    tfph.scid := (buffer[0] % 16) as int * 4096 + buffer[1] as int * 16 + buffer[2] / 16;
    tfph.sourceDestId := (buffer[2] / 8) % 2;
    tfph.vcid := (buffer[2] % 8) * 8 + buffer[3] / 32;
    tfph.mapid := (buffer[3] / 2) % 16;
    tfph.endFlag := buffer[3] % 2;
  }

  /** tf_packet.c lines 60-65: the length and the flags. */
  method ReadFlagsInto(buffer: array<byte>, tfph: PrimaryHeader)
    requires buffer.Length > BASE_HEADER_SIZE
    modifies tfph
    ensures tfph.Value() == ReadFlags(old(tfph.Value()), buffer[..])
  {
    tfph.length := Be16(buffer[4], buffer[5]);
    tfph.bypassFlag := buffer[6] / 128;
    tfph.commandFlag := (buffer[6] / 64) % 2;
    tfph.ocfFlag := (buffer[6] / 8) % 2;
    tfph.vcLength := buffer[6] % 8;
  }

  /** tf_packet.c lines 60-69: the rest of the header, the insert zone and the data field header. */
  method ReadFrameHeader(buffer: array<byte>, tfph: PrimaryHeader, tfdf: DataField)
    requires tfph.Valid() && tfdf.Valid() && tfph.vcFrame != tfdf.data
    requires buffer != tfph.vcFrame && buffer != tfdf.data
    requires buffer.Length > BASE_HEADER_SIZE && buffer.Length > BASE_HEADER_SIZE + buffer[6] % 8
    modifies tfph, tfph.vcFrame, tfdf
    ensures var vl := buffer[6] % 8;
      tfph.Value() == ReadFlags(old(tfph.Value()), buffer[..]).(vcFrame := Splice(old(tfph.vcFrame[..]), 0, buffer[BASE_HEADER_SIZE..BASE_HEADER_SIZE + vl])) &&
      tfdf.Value() == ReadDataHeader(old(tfdf.Value()), buffer[BASE_HEADER_SIZE + vl])
  {
    ReadFlagsInto(buffer, tfph);
    ghost var h := tfph.Value();
    Copy(tfph.vcFrame, 0, buffer, BASE_HEADER_SIZE, tfph.vcLength);
    assert tfph.Value() == h.(vcFrame := tfph.vcFrame[..]);
    tfdf.constrRule := buffer[BASE_HEADER_SIZE + tfph.vcLength] / 32;
    tfdf.protocolId := buffer[BASE_HEADER_SIZE + tfph.vcLength] % 32;
  }

  /** `memcpy(tfdf->data, &buffer[from], to - from)`. */
  method ReadDataInto(buffer: array<byte>, from: nat, to: nat, tfdf: DataField)
    requires tfdf.Valid() && buffer != tfdf.data
    requires from <= to <= buffer.Length && to - from <= DATA_MAX_SIZE
    modifies tfdf.data
    ensures tfdf.Value() == ReadData(old(tfdf.Value()), buffer[..], from, to)
  {
    Copy(tfdf.data, 0, buffer, from, to - from);
  }

  /** The CRC of the first `length - 2` bytes, and the big-endian trailer. */
  method FrameCheck(buffer: array<byte>, length: nat) returns (calculated: u16, ecf: u16)
    requires ECF_SIZE <= length <= buffer.Length
    ensures calculated == Crc.Ecf(buffer[..length - ECF_SIZE])
    ensures ecf == Trailer(buffer[..], length)
  {
    calculated := Crc.CalculateEcf(buffer, length - ECF_SIZE);
    ecf := Be16(buffer[length - 2], buffer[length - 1]);
  }

  /**
   * tf_packet.c lines 73-83: the data of a frame of `len` bytes with `vl` insert-zone
   * bytes, and the status of its CRC comparison.
   */
  method DecodeFrameData(buffer: array<byte>, len: nat, vl: nat, tfdf: DataField) returns (status: Status)
    requires tfdf.Valid() && buffer != tfdf.data
    requires FRAME_OVERHEAD + vl <= len <= buffer.Length && len - FRAME_OVERHEAD - vl <= DATA_MAX_SIZE
    modifies tfdf.data
    ensures tfdf.Value() == ReadData(old(tfdf.Value()), buffer[..], BASE_HEADER_SIZE + vl + DATA_HEADER_SIZE, len - ECF_SIZE)
    ensures status == CheckStatus(buffer[..], len, Crc.Ecf)
  {
    ReadDataInto(buffer, BASE_HEADER_SIZE + vl + DATA_HEADER_SIZE, len - ECF_SIZE, tfdf);
    var calculated, ecf := FrameCheck(buffer, len);
    if calculated != ecf {
      return Error;
    }
    return Ok;
  }

  /** tf_packet.c lines 60-83: the non-truncated frame after its prefix. */
  method DecodeFrame(buffer: array<byte>, tfph: PrimaryHeader, tfdf: DataField) returns (status: Status)
    requires tfph.Valid() && tfdf.Valid() && tfph.vcFrame != tfdf.data
    requires buffer != tfph.vcFrame && buffer != tfdf.data
    requires CanDecode(buffer[..], 0) && buffer[3] % 2 == 0
    modifies tfph, tfph.vcFrame, tfdf, tfdf.data
    ensures tfph.Valid() && tfdf.Valid()
    ensures Outcome(status, tfph.Value(), tfdf.Value()) ==
      FrameDecoded(buffer[..], old(tfph.Value()), old(tfdf.Value()), Crc.Ecf)
  {
    ghost var b := buffer[..];
    ghost var h, f := tfph.Value(), tfdf.Value();
    ReadFrameHeader(buffer, tfph, tfdf);
    ghost var h1, f1 := tfph.Value(), tfdf.Value();
    assert h1 == ReadFlags(h, b).(vcFrame := Splice(h.vcFrame, 0, b[BASE_HEADER_SIZE..BASE_HEADER_SIZE + b[6] % 8]));
    assert f1 == ReadDataHeader(f, b[BASE_HEADER_SIZE + b[6] % 8]);
    if tfph.length < FRAME_OVERHEAD + tfph.vcLength {
      return Error;
    }
    status := DecodeFrameData(buffer, tfph.length, tfph.vcLength, tfdf);
    assert tfph.Value() == h1;
  }

  /** tf_packet.c lines 88-101: the truncated frame after its prefix. */
  method DecodeTruncated(buffer: array<byte>, bufferLength: nat, tfph: PrimaryHeader, tfdf: DataField) returns (status: Status)
    requires tfph.Valid() && tfdf.Valid() && buffer != tfdf.data
    requires CanDecode(buffer[..], bufferLength) && buffer[3] % 2 == 1
    modifies tfdf, tfdf.data
    ensures tfdf.Valid()
    ensures Outcome(status, tfph.Value(), tfdf.Value()) ==
      TruncatedDecoded(buffer[..], bufferLength, tfph.Value(), old(tfdf.Value()), Crc.Ecf)
  {
    tfdf.constrRule := buffer[TRUNCATED_HEADER_SIZE] / 32;
    tfdf.protocolId := buffer[TRUNCATED_HEADER_SIZE] % 32;
    ReadDataInto(buffer, TRUNCATED_HEADER_SIZE + DATA_HEADER_SIZE, bufferLength - ECF_SIZE, tfdf);
    var calculated, ecf := FrameCheck(buffer, bufferLength);
    if calculated == ecf {
      return Error;
    }
    return Ok;
  }

  /** tf_packet_Decode. */
  method Decode(buffer: array<byte>, bufferLength: nat, tfph: PrimaryHeader, tfdf: DataField)
    returns (status: Status)
    requires tfph.Valid() && tfdf.Valid() && tfph.vcFrame != tfdf.data
    requires buffer != tfph.vcFrame && buffer != tfdf.data
    requires bufferLength <= UINT32_MAX && CanDecode(buffer[..], bufferLength)
    modifies tfph, tfph.vcFrame, tfdf, tfdf.data
    ensures tfph.Valid() && tfdf.Valid()
    ensures Outcome(status, tfph.Value(), tfdf.Value()) ==
      Decoded(buffer[..], bufferLength, old(tfph.Value()), old(tfdf.Value()), Crc.Ecf)
  {
    ReadPrefixInto(buffer, tfph);
    if tfph.endFlag == 0 {
      status := DecodeFrame(buffer, tfph, tfdf);
    } else {
      status := DecodeTruncated(buffer, bufferLength, tfph, tfdf);
    }
  }

  // ---------------------------------------------------------------------
  // The truncated frame with one layout on both sides, the CRC stored and
  // checked big-endian, a signed length guard, and HAL_ERROR on a mismatch.

  /**
   * The truncated frame of `data_length + 7` bytes: prefix, data field
   * header at byte 4, data from byte 5, and the CRC of everything before
   * it, big-endian.
   */
  function TruncatedPacketizedFixed(h: Header, f: Field, dataLength: byte, b: seq<byte>, ecfOf: EcfFunction): Written
    requires |f.data| == DATA_MAX_SIZE && dataLength + BASE_HEADER_SIZE <= |b|
  {
    var p := Splice(b, 0, Prefix(h));
    if dataLength > DATA_MAX_SIZE then Written(Error, p)
    else
      var n := dataLength;
      var x := p[TRUNCATED_HEADER_SIZE := DataHeaderByte(f)];
      var y := Splice(x, TRUNCATED_HEADER_SIZE + DATA_HEADER_SIZE, f.data[..n]);
      Written(Ok, Sealed(y, n + BASE_HEADER_SIZE, ecfOf))
  }

  predicate CanDecodeTruncatedFixed(b: seq<byte>, bufferLength: nat) {
    |b| > TRUNCATED_HEADER_SIZE &&
    (BASE_HEADER_SIZE <= bufferLength ==> bufferLength <= |b| && bufferLength - BASE_HEADER_SIZE <= DATA_MAX_SIZE)
  }

  /**
   * A truncated frame of `bufferLength` bytes read into `h` and `f`: the
   * prefix and the data field header are written, a length below 7 fails,
   * otherwise the data is copied and the CRC must match the trailer.
   */
  function TruncatedDecodedFixed(b: seq<byte>, bufferLength: nat, h: Header, f: Field, ecfOf: EcfFunction): (r: Outcome)
    requires Sized(h, f) && CanDecodeTruncatedFixed(b, bufferLength)
    ensures r.status == Ok <==>
      BASE_HEADER_SIZE <= bufferLength && ecfOf(b[..bufferLength - ECF_SIZE]) == Trailer(b, bufferLength)
  {
    var h1 := ReadPrefix(h, b);
    var f1 := ReadDataHeader(f, b[TRUNCATED_HEADER_SIZE]);
    if bufferLength < BASE_HEADER_SIZE then Outcome(Error, h1, f1)
    else Outcome(CheckStatus(b, bufferLength, ecfOf), h1,
      ReadData(f1, b, TRUNCATED_HEADER_SIZE + DATA_HEADER_SIZE, bufferLength - ECF_SIZE))
  }

  /**
   * `tf_packet_SetData` with the insert-zone length limited to the 7 bytes
   * the 3-bit `vc_length` field of the flags byte can carry.
   */
  const VC_LENGTH_FIELD_MAX: nat := 7

  function SetDataFixedOf(data: seq<byte>, dataLength: byte, vc: seq<byte>, vcLength: byte, h: Header, f: Field): (r: Outcome)
    requires Sized(h, f) && CanSetData(data, dataLength, vc, vcLength)
    ensures Sized(r.header, r.field)
    ensures r.status == Ok <==>
      dataLength <= DATA_MAX_SIZE && vcLength <= VC_LENGTH_FIELD_MAX &&
      (h.endFlag == 0 ==> dataLength + vcLength + FRAME_OVERHEAD <= SET_DATA_MAX_LENGTH)
    ensures vcLength > VC_LENGTH_FIELD_MAX ==> r == Outcome(Error, h, f)
    ensures vcLength <= VC_LENGTH_FIELD_MAX ==> r == SetDataOf(data, dataLength, vc, vcLength, h, f)
  {
    if vcLength > VC_LENGTH_FIELD_MAX then Outcome(Error, h, f)
    else SetDataOf(data, dataLength, vc, vcLength, h, f)
  }

  /** The size the truncated branch passes to `memcpy`: `buffer_length - 7` in uint32_t. */
  function TruncatedCopySize(bufferLength: nat): (n: nat)
    requires bufferLength <= UINT32_MAX
    ensures bufferLength >= BASE_HEADER_SIZE ==> n == bufferLength - BASE_HEADER_SIZE
    ensures bufferLength < BASE_HEADER_SIZE ==> n == UINT32_MAX + 1 - (BASE_HEADER_SIZE - bufferLength) && n > DATA_MAX_SIZE
  {
    (bufferLength - BASE_HEADER_SIZE) % (UINT32_MAX + 1)
  }

  // ---------------------------------------------------------------------
  // tf_packet_CRC16CCSDSCalculate

  /**
   * The tf copy of the CRC routine computes the bus routine's function; its
   * int16_t seed enters the 16-bit register as its two's-complement bits.
   */
  method CalculateCrc(seed: i16, buf: array<byte>, len: nat) returns (crc: u16)
    requires len <= buf.Length
    ensures crc == Crc.Crc16((seed % 0x1_0000) as bv16, buf[..len]) as int
  {
    var r := Crc.Calculate((seed % 0x1_0000) as bv16, buf, len);
    crc := r as int;
  }
}
