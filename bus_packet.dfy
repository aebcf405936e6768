/**
 * The internal-bus packet codec: a 2-byte header (type:1 | apid:7,
 * ecf_flag:1 | length:7), the data, and an optional big-endian CRC trailer
 * (the error control field, ECF). `bus_packet_t` is the class `Packet`; the
 * caller's byte buffers are arrays. Each method is tied to a function on
 * values that says what it computes; bus_packet_proofs.dfy holds the
 * properties of those functions.
 */
module BusPacket {

  import opened Bytes
  import Crc

  const BUS_SIZE: nat := 127
  const ECF_SIZE: nat := 2
  const HEADER_SIZE: nat := 2
  /** BUS_SIZE - ECF_SIZE - HEADER_SIZE. */
  const DATA_SIZE: nat := 123

  /** The largest uint32_t: `data_length` is a uint32_t. */
  const UINT32_MAX: nat := 0xFFFF_FFFF

  /** The value held by a `bus_packet_t`. */
  datatype Record = Record(
    packetType: byte,
    apid: byte,
    ecfFlag: byte,
    length: byte,
    data: seq<byte>,
    ecf: u16)

  /** A `bus_packet_t` owned by the caller and updated in place. */
  class Packet {
    var packetType: byte
    var apid: byte
    var ecfFlag: byte
    var length: byte
    const data: array<byte>
    var ecf: u16

    ghost predicate Valid()
      reads this
    {
      data.Length == DATA_SIZE
    }

    function Value(): Record
      reads this, data
    {
      Record(packetType, apid, ecfFlag, length, data[..], ecf)
    }

    /** `bus_packet_t packet = {0};` */
    constructor ()
      ensures Valid() && fresh(data)
      ensures Value() == Record(0, 0, 0, 0, Zeros(DATA_SIZE), 0)
    {
      packetType, apid, ecfFlag, length, ecf := 0, 0, 0, 0, 0;
      data := new byte[DATA_SIZE](_ => 0);
      new;
      assert data[..] == Zeros(DATA_SIZE);
    }
  }

  /** Header byte 0: `type << 7 | apid & 0x7F` stored into a byte keeps bit 0 of `type`. */
  function Header0(packetType: byte, apid: byte): byte {
    (packetType % 2) * 128 + apid % 128
  }

  /** Header byte 1: `ecf_flag << 7 | length & 0x7F`, likewise. */
  function Header1(ecfFlag: byte, length: byte): byte {
    (ecfFlag % 2) * 128 + length % 128
  }

  /** The type bit a header byte 0 carries (`buffer[0] >> 7`). */
  function TypeOf(h0: byte): byte { h0 / 128 }

  /** The APID a header byte 0 carries (`buffer[0] & 0x7F`). */
  function ApidOf(h0: byte): byte { h0 % 128 }

  /** The ECF flag a header byte 1 carries (`(buffer[1] & 0x80) >> 7`). */
  function FlagOf(h1: byte): byte { h1 / 128 }

  /** The length a header byte 1 carries (`buffer[1] & 0x7F`). */
  function LengthOf(h1: byte): byte { h1 % 128 }

  function Min(x: int, y: int): int { if x <= y then x else y }

  /**
   * The CRC routine the codec calls on the bytes before the trailer: the
   * software `bus_packet_CRC16CCSDSCalculate` (`Crc.Ecf`) or, on STM32, the
   * CRC peripheral configured to compute the same function. The functions
   * below take it as a parameter, so their properties hold for either.
   */
  type EcfFunction = seq<byte> -> u16

  // ---------------------------------------------------------------------
  // bus_packet_Encode

  /**
   * The record `bus_packet_Encode(t, a, f, d, |d|, &p)` leaves in a packet
   * whose previous value is `prior`, or None for HAL_ERROR (nothing written).
   * The length field counts the trailer only when the flag is set.
   */
  function Encoded(t: byte, a: byte, f: byte, d: seq<byte>, prior: Record, ecfOf: EcfFunction): Option<Record> {
    if |d| + HEADER_SIZE + ECF_SIZE > BUS_SIZE then None
    else
      var flag := f % 2;
      var length := |d| + HEADER_SIZE + (if flag != 0 then ECF_SIZE else 0);
      var ecf :=
        if flag != 0 then ecfOf([Header0(t % 2, a % 128), Header1(flag, length)] + d)
        else prior.ecf;
      Some(Record(t % 2, a % 128, flag, length, d + Zeros(DATA_SIZE - |d|), ecf))
  }

  /**
   * The flag-set branch of `bus_packet_Encode`: the two header bytes and the
   * first `n` data bytes gathered in `crc_data`, and their CRC.
   */
  method HeaderDataEcf(h0: byte, h1: byte, data: array<byte>, n: nat) returns (ecf: u16)
    requires n <= data.Length
    ensures ecf == Crc.Ecf([h0, h1] + data[..n])
  {
    var crcData := new byte[n + HEADER_SIZE];
    crcData[0] := h0;
    crcData[1] := h1;
    Copy(crcData, HEADER_SIZE, data, 0, n);
    assert crcData[..n + HEADER_SIZE] == [h0, h1] + data[..n];
    ecf := Crc.CalculateEcf(crcData, n + HEADER_SIZE);
  }

  /**
   * bus_packet_Encode. `data_length + 4` is computed in 32 bits; lengths
   * that would wrap are excluded, as they would copy past `packet->data`.
   * `data` is read only when the length check passes.
   */
  method Encode(t: byte, a: byte, f: byte, data: array<byte>, dataLength: nat, packet: Packet)
    returns (status: Status)
    requires packet.Valid() && data != packet.data
    requires dataLength + HEADER_SIZE + ECF_SIZE <= UINT32_MAX
    requires dataLength + HEADER_SIZE + ECF_SIZE <= BUS_SIZE ==> dataLength <= data.Length
    modifies packet, packet.data
    ensures packet.Valid()
    ensures status == Ok <==> dataLength + HEADER_SIZE + ECF_SIZE <= BUS_SIZE
    ensures status == Error ==> packet.Value() == old(packet.Value())
    ensures status == Ok ==>
      packet.Value() == Encoded(t, a, f, data[..dataLength], old(packet.Value()), Crc.Ecf).value
  {
    if dataLength + HEADER_SIZE + ECF_SIZE > BUS_SIZE {
      return Error;
    }
    ghost var prior := packet.Value();
    packet.packetType := t % 2;
    packet.apid := a % 128;
    packet.ecfFlag := f % 2;
    packet.length := dataLength + HEADER_SIZE;
    Copy(packet.data, 0, data, 0, dataLength);
    Fill(packet.data, dataLength, DATA_SIZE - dataLength);
    assert packet.data[..] == data[..dataLength] + Zeros(DATA_SIZE - dataLength);
    if packet.ecfFlag != 0 {
      packet.length := packet.length + ECF_SIZE;
      packet.ecf := HeaderDataEcf(
        Header0(packet.packetType, packet.apid), Header1(packet.ecfFlag, packet.length),
        packet.data, dataLength);
    }
    return Ok;
  }

  // ---------------------------------------------------------------------
  // bus_packet_Packetize

  /**
   * What `bus_packet_Packetize` needs to stay inside the caller's buffer of
   * `size` bytes and inside the packet: with the flag set a length from 2 to
   * BUS_SIZE, without it at most DATA_SIZE bytes copied; in both cases room
   * for the terminator at index `length`.
   */
  predicate CanPacketize(r: Record, size: nat) {
    |r.data| == DATA_SIZE && size > r.length && size >= HEADER_SIZE &&
    if r.ecfFlag != 0 then ECF_SIZE <= r.length <= BUS_SIZE
    else r.length <= DATA_SIZE && size >= r.length + HEADER_SIZE
  }

  /** The number of bytes `bus_packet_Packetize` copies out of `packet->data`. */
  function CopySize(r: Record): int {
    if r.ecfFlag != 0 then r.length - ECF_SIZE else r.length
  }

  /**
   * The buffer `b` after `bus_packet_Packetize(b, &r)`. With the flag set the
   * source copies `length - 2` bytes from `data`; for lengths 126 and 127 the
   * bytes read past `data` land in the two trailer positions, which are
   * written next, so only the first DATA_SIZE of them are kept here.
   */
  function Packetized(r: Record, b: seq<byte>): seq<byte>
    requires CanPacketize(r, |b|)
  {
    var len := r.length;
    var h := b[0 := Header0(r.packetType, r.apid)][1 := Header1(r.ecfFlag, r.length)];
    var body :=
      if r.ecfFlag != 0 then
        Splice(h, HEADER_SIZE, r.data[..Min(len - ECF_SIZE, DATA_SIZE)])
          [len - ECF_SIZE := Hi(r.ecf)][len - ECF_SIZE + 1 := Lo(r.ecf)]
      else
        Splice(h, HEADER_SIZE, r.data[..len]);
    body[len := 0]
  }

  /** bus_packet_Packetize. */
  method Packetize(buffer: array<byte>, packet: Packet)
    requires packet.Valid() && buffer != packet.data
    requires CanPacketize(packet.Value(), buffer.Length)
    modifies buffer
    ensures buffer[..] == Packetized(packet.Value(), old(buffer[..]))
  {
    buffer[0] := Header0(packet.packetType, packet.apid);
    buffer[1] := Header1(packet.ecfFlag, packet.length);
    var len := packet.length;
    if packet.ecfFlag != 0 {
      Copy(buffer, HEADER_SIZE, packet.data, 0, Min(len - ECF_SIZE, DATA_SIZE));
      buffer[len - ECF_SIZE] := Hi(packet.ecf);
      buffer[len - ECF_SIZE + 1] := Lo(packet.ecf);
    } else {
      Copy(buffer, HEADER_SIZE, packet.data, 0, len);
    }
    buffer[len] := 0;
  }

  // ---------------------------------------------------------------------
  // bus_packet_EncodePacketize

  /** What `bus_packet_EncodePacketize` writes of the buffer: the trailer only when `f` is nonzero. */
  predicate CanEncodePacketize(f: byte, n: nat, size: nat) {
    n + HEADER_SIZE + ECF_SIZE <= BUS_SIZE ==>
      size >= n + HEADER_SIZE + (if f != 0 then ECF_SIZE else 0)
  }

  /**
   * The buffer `b` after `bus_packet_EncodePacketize(t, a, f, d, |d|, b)`, or
   * None for HAL_ERROR (nothing written). The length field is always
   * `|d| + 4`; the header bytes keep bit 0 of `t` and `f` unmasked, and the
   * trailer is computed whenever `f` is nonzero.
   */
  function EncodePacketized(t: byte, a: byte, f: byte, d: seq<byte>, b: seq<byte>, ecfOf: EcfFunction): Option<seq<byte>>
    requires CanEncodePacketize(f, |d|, |b|)
  {
    var len := |d| + HEADER_SIZE + ECF_SIZE;
    if len > BUS_SIZE then None
    else
      var h := Splice(b, HEADER_SIZE, d)[0 := Header0(t, a)][1 := Header1(f, len)];
      if f != 0 then
        var ecf := ecfOf(h[..len - ECF_SIZE]);
        Some(h[len - ECF_SIZE := Hi(ecf)][len - ECF_SIZE + 1 := Lo(ecf)])
      else
        Some(h)
  }

  /** bus_packet_EncodePacketize; `data` is read only when the length check passes. */
  method EncodePacketize(t: byte, a: byte, f: byte, data: array<byte>, dataLength: nat, buffer: array<byte>)
    returns (status: Status)
    requires data != buffer
    requires dataLength + HEADER_SIZE + ECF_SIZE <= UINT32_MAX
    requires dataLength + HEADER_SIZE + ECF_SIZE <= BUS_SIZE ==> dataLength <= data.Length
    requires CanEncodePacketize(f, dataLength, buffer.Length)
    modifies buffer
    ensures status == Ok <==> dataLength + HEADER_SIZE + ECF_SIZE <= BUS_SIZE
    ensures status == Error ==> buffer[..] == old(buffer[..])
    ensures status == Ok ==>
      buffer[..] == EncodePacketized(t, a, f, data[..dataLength], old(buffer[..]), Crc.Ecf).value
  {
    var length := dataLength + HEADER_SIZE + ECF_SIZE;
    if length > BUS_SIZE {
      return Error;
    }
    Copy(buffer, HEADER_SIZE, data, 0, dataLength);
    buffer[0] := Header0(t, a);
    buffer[1] := Header1(f, length);
    if f != 0 {
      var ecf := Crc.CalculateEcf(buffer, length - ECF_SIZE);
      buffer[length - ECF_SIZE] := Hi(ecf);
      buffer[length - ECF_SIZE + 1] := Lo(ecf);
    }
    return Ok;
  }

  // ---------------------------------------------------------------------
  // bus_packet_Decode

  /**
   * The bytes `bus_packet_Decode` reads lie inside the buffer: the whole
   * frame when the flag is set, the header and data otherwise.
   */
  predicate Readable(b: seq<byte>) {
    |b| >= HEADER_SIZE &&
    var len := LengthOf(b[1]);
    len >= HEADER_SIZE + ECF_SIZE ==>
      |b| >= (if FlagOf(b[1]) != 0 then len else len - ECF_SIZE)
  }

  /** The big-endian trailer of a frame of `len` bytes. */
  function Trailer(b: seq<byte>, len: nat): u16
    requires ECF_SIZE <= len <= |b|
  {
    Be16(b[len - ECF_SIZE], b[len - ECF_SIZE + 1])
  }

  /**
   * The packet value after `bus_packet_Decode(b, &p)` on a packet holding
   * `prior`, or None for HAL_ERROR (nothing written). A length below 4 fails
   * whatever the flag; with the flag set the CRC of the first `length - 2`
   * bytes must equal the trailer; `length - 4` data bytes are always taken.
   */
  function Decoded(b: seq<byte>, prior: Record, ecfOf: EcfFunction): Option<Record>
    requires Readable(b) && |prior.data| == DATA_SIZE
  {
    var len := LengthOf(b[1]);
    var flag := FlagOf(b[1]);
    if len < HEADER_SIZE + ECF_SIZE then None
    else if flag != 0 && ecfOf(b[..len - ECF_SIZE]) != Trailer(b, len) then None
    else
      var n := len - HEADER_SIZE - ECF_SIZE;
      Some(Record(
        TypeOf(b[0]), ApidOf(b[0]), flag, len,
        b[HEADER_SIZE..HEADER_SIZE + n] + prior.data[n..],
        if flag != 0 then Trailer(b, len) else prior.ecf))
  }

  /**
   * The flag-set branch of `bus_packet_Decode` before its comparison: the CRC
   * of a copy of the first `length - 2` bytes, and the big-endian trailer.
   */
  method FrameCheck(buffer: array<byte>, length: nat) returns (calculated: u16, ecf: u16)
    requires ECF_SIZE <= length <= buffer.Length
    ensures calculated == Crc.Ecf(buffer[..length - ECF_SIZE])
    ensures ecf == Trailer(buffer[..], length)
  {
    var crcData := new byte[length - ECF_SIZE];
    Copy(crcData, 0, buffer, 0, length - ECF_SIZE);
    calculated := Crc.CalculateEcf(crcData, length - ECF_SIZE);
    assert crcData[..length - ECF_SIZE] == buffer[..length - ECF_SIZE];
    ecf := Be16(buffer[length - ECF_SIZE], buffer[length - ECF_SIZE + 1]);
  }

  /**
   * bus_packet_Decode. The source's second guard (`length - 2 < 0` with the
   * flag set) cannot fire after the first and has no counterpart here.
   */
  method Decode(buffer: array<byte>, packet: Packet) returns (status: Status)
    requires packet.Valid() && buffer != packet.data
    requires Readable(buffer[..])
    modifies packet, packet.data
    ensures packet.Valid()
    ensures var e := Decoded(old(buffer[..]), old(packet.Value()), Crc.Ecf);
      (status == Ok <==> e.Some?) &&
      packet.Value() == (if e.Some? then e.value else old(packet.Value()))
  {
    ghost var e := Decoded(buffer[..], packet.Value(), Crc.Ecf);
    var length := LengthOf(buffer[1]);
    var ecfFlag := FlagOf(buffer[1]);
    if length - ECF_SIZE - HEADER_SIZE < 0 {
      assert e.None?;
      return Error;
    }
    ghost var n := length - HEADER_SIZE - ECF_SIZE;
    ghost var data := buffer[HEADER_SIZE..HEADER_SIZE + n] + packet.data[..][n..];
    if ecfFlag != 0 {
      var calculated, ecf := FrameCheck(buffer, length);
      if calculated == ecf {
        packet.ecf := ecf;
        assert e == Some(packet.Value().(packetType := TypeOf(buffer[0]), apid := ApidOf(buffer[0]),
          ecfFlag := ecfFlag, length := length, data := data));
      } else {
        assert e.None?;
        return Error;
      }
    } else {
      assert e == Some(packet.Value().(packetType := TypeOf(buffer[0]), apid := ApidOf(buffer[0]),
        ecfFlag := ecfFlag, length := length, data := data));
    }
    Store(buffer, packet, length);
    return Ok;
  }

  /**
   * The common tail of `bus_packet_Decode`: the header fields and the
   * `length - 4` data bytes go into the packet, its CRC field stays.
   */
  method Store(buffer: array<byte>, packet: Packet, length: nat)
    requires packet.Valid() && buffer != packet.data
    requires HEADER_SIZE <= buffer.Length && length == LengthOf(buffer[1])
    requires HEADER_SIZE + ECF_SIZE <= length && length - ECF_SIZE <= buffer.Length
    modifies packet, packet.data
    ensures packet.Valid()
    ensures var n := length - HEADER_SIZE - ECF_SIZE;
      packet.Value() == old(packet.Value()).(
        packetType := TypeOf(buffer[0]), apid := ApidOf(buffer[0]),
        ecfFlag := FlagOf(buffer[1]), length := length,
        data := buffer[HEADER_SIZE..HEADER_SIZE + n] + old(packet.data[..])[n..])
  {
    packet.packetType := TypeOf(buffer[0]);
    packet.apid := ApidOf(buffer[0]);
    packet.ecfFlag := FlagOf(buffer[1]);
    packet.length := length;
    var n := length - ECF_SIZE - HEADER_SIZE;
    Copy(packet.data, 0, buffer, HEADER_SIZE, n);
  }

  // ---------------------------------------------------------------------
  // The codec under the documented length rule: `length` counts the header,
  // the data and the two trailer bytes only when the ECF is present. Encode
  // already sets it so; Packetize, Decode and EncodePacketize do not, and
  // these are their corrected counterparts.

  /** The number of data bytes a frame of `len` bytes with flag `flag` carries under that rule. */
  function DataLength(flag: byte, len: nat): int {
    len - HEADER_SIZE - (if flag != 0 then ECF_SIZE else 0)
  }

  /** The record carries a length the rule accepts and the buffer has room for the frame and terminator. */
  predicate CanPacketizeFixed(r: Record, size: nat) {
    |r.data| == DATA_SIZE && r.length <= BUS_SIZE && size > r.length &&
    0 <= DataLength(r.ecfFlag, r.length) <= DATA_SIZE
  }

  /** `Packetized` copying exactly the data bytes the length rule gives. */
  function PacketizedFixed(r: Record, b: seq<byte>): seq<byte>
    requires CanPacketizeFixed(r, |b|)
  {
    var len := r.length;
    var h := b[0 := Header0(r.packetType, r.apid)][1 := Header1(r.ecfFlag, r.length)];
    var body := Splice(h, HEADER_SIZE, r.data[..DataLength(r.ecfFlag, len)]);
    var framed :=
      if r.ecfFlag != 0 then body[len - ECF_SIZE := Hi(r.ecf)][len - ECF_SIZE + 1 := Lo(r.ecf)]
      else body;
    framed[len := 0]
  }

  /** The corrected Decode reads the whole frame of `length` bytes. */
  predicate ReadableFixed(b: seq<byte>) {
    |b| >= HEADER_SIZE && |b| >= LengthOf(b[1])
  }

  /**
   * `Decoded` taking `length - 2 - (2 if flagged)` data bytes, and failing
   * when that is negative or more than the packet holds.
   */
  function DecodedFixed(b: seq<byte>, prior: Record, ecfOf: EcfFunction): Option<Record>
    requires ReadableFixed(b) && |prior.data| == DATA_SIZE
  {
    var len := LengthOf(b[1]);
    var flag := FlagOf(b[1]);
    var n := DataLength(flag, len);
    if n < 0 || n > DATA_SIZE then None
    else if flag != 0 && ecfOf(b[..len - ECF_SIZE]) != Trailer(b, len) then None
    else
      Some(Record(
        TypeOf(b[0]), ApidOf(b[0]), flag, len,
        b[HEADER_SIZE..HEADER_SIZE + n] + prior.data[n..],
        if flag != 0 then Trailer(b, len) else prior.ecf))
  }

  /** The buffer holds the frame the corrected EncodePacketize writes. */
  predicate CanEncodePacketizeFixed(f: byte, n: nat, size: nat) {
    n + HEADER_SIZE + ECF_SIZE <= BUS_SIZE ==>
      size >= n + HEADER_SIZE + (if f % 2 != 0 then ECF_SIZE else 0)
  }

  /**
   * `EncodePacketized` with the length field of `Encode` and the flag masked
   * as `Encode` masks it: no trailer and a length of `|d| + 2` when bit 0 of
   * `f` is clear.
   */
  function EncodePacketizedFixed(t: byte, a: byte, f: byte, d: seq<byte>, b: seq<byte>, ecfOf: EcfFunction): Option<seq<byte>>
    requires CanEncodePacketizeFixed(f, |d|, |b|)
  {
    if |d| + HEADER_SIZE + ECF_SIZE > BUS_SIZE then None
    else
      var flag := f % 2;
      var len := |d| + HEADER_SIZE + (if flag != 0 then ECF_SIZE else 0);
      var h := Splice(b, HEADER_SIZE, d)[0 := Header0(t, a)][1 := Header1(flag, len)];
      if flag != 0 then
        var ecf := ecfOf(h[..len - ECF_SIZE]);
        Some(h[len - ECF_SIZE := Hi(ecf)][len - ECF_SIZE + 1 := Lo(ecf)])
      else
        Some(h)
  }
}
