# CCSDS-Protocol-FyCUS23 in Dafny

A model of the framing core of the FyCUS 2023 communication library, with its properties proved:

- **CRC-16 (`crc.dfy`).** The bit-serial CRC-16 both codecs use: polynomial 0x1021, most significant bit first, register preset to the caller's seed, no reflection and no final xor.
  - `Crc.Crc16` is the function.
  - `Crc.Calculate` is the source's `while`/`for` loop, proved equal to that function.
- **Sync detector (`bus_sync.dfy`).** The detector of the attached sync marker 0x1ACFFC1D. The detector's state is a one-hot flag, modelled as an unbounded `nat` so that shifts past the five named values stay visible.
- **Internal-bus packet codec (`bus_packet.dfy`, `bus_packet_proofs.dfy`).**
  - The wire layout is a 2-byte header (type:1 apid:7, ecf_flag:1 length:7), up to 123 data bytes and an optional big-endian CRC trailer, the error control field (ECF).
  - `bus_packet_t` is the class `BusPacket.Packet`.
- **Transfer-frame codec (`tf_packet.dfy`, `tf_packet_proofs.dfy`).** A frame loosely after the USLP frame of CCSDS 732.1-B, with two forms:
  - a non-truncated frame: a 7-byte primary header, up to 7 insert-zone bytes, a data field header, the data and a big-endian CRC;
  - a truncated frame, which keeps only 4 header bytes.
  - `tfph_packet_t` and `tfdf_packet_t` are the classes `TfPacket.PrimaryHeader` and `TfPacket.DataField`.

Bytes are the integers 0..255 and 16-bit fields the integers 0..65535. The C shifts, masks and stores into narrow types are written out as the arithmetic they amount to. The C `|` is `Bytes.Or`, a bitwise OR truncated to the destination width; where the operands' bit ranges are disjoint it is proved to be `+`.

Every method that writes into a caller's buffer or record is proved equal to a function on values. The methods are:

- `BusPacket.Encode`, `Packetize`, `EncodePacketize` and `Decode`;
- `TfPacket.SetData`, `Packetize` and `Decode`.

The functions return the status together with the state the call leaves behind (`Option<Record>`, `Outcome`, `Written`). Partial writes made before an error are part of that state. The lemmas about these functions carry the round trips, the error rules and the defects.

The codec functions take the CRC routine as a parameter `ecfOf`. On STM32 builds the codec calls the CRC peripheral; otherwise it calls the software routine. The round-trip lemmas hold for any such routine. The methods use the software routine, `Crc.Ecf`.

The model follows the C code as written, also where it departs from what the codec evidently means to do. Each such departure is a row under Findings, next to a corrected definition with its property proved. Among them:

- **Sync detector re-test.** A mismatching first marker byte shifts the current flag instead of restarting the match at the second state. So 1A CF 1A CF FC 1D, which ends with the marker, ends in FIND.
- **Bus decode length.** `Encode` sets the length field to the header, the data and, only with the ECF, the two trailer bytes: `length == 2 + n + (2 if ecf_flag)`. `Decode` nevertheless always takes `length - 4` data bytes.
- **Truncated-frame decode.** The guard against a negative derived length is computed unsigned and never fires.

## Model

| member | source | states |
|---|---|---|
| Crc.Step | bus_packet/bus_packet.c:342-353 | one pass of the outer loop: the byte loaded as `ch = b << 8`, then eight rounds that shift the register left and XOR 0x1021 in whenever the top bits of register and `ch` differ |
| Crc.Crc16 | bus_packet/bus_packet.c:339-354 | the register after the bytes of the input are fed in order from the seed, one `Step` each |
| Crc.Ecf | bus_packet/bus_packet.c:70 | the value both codecs store and compare: `Crc16` from seed 0, as an unsigned 16-bit number |
| Crc.Calculate | bus_packet/bus_packet.c:334-356 | the register loop returns the CRC-16 (poly 0x1021, MSB first, preset to `seed`, no final xor) of the first `len` bytes; the empty input returns `seed` |
| Crc.CalculateEcf | bus_packet/bus_packet.c:78 | the `& 0xFFFF` value the callers compare and store is the seed-0 CRC of the first `len` bytes |
| Crc.Crc16Append | bus_packet/bus_packet.c:341-354 | the CRC of a concatenation continues from the register after the first part: the register is the only state carried from byte to byte |
| Crc.ZerosKeepZero | bus_packet/bus_packet.c:339-354 | from seed 0, any run of zero bytes leaves the register 0 |
| Crc.LeadingZerosUndetected | bus_packet/bus_packet.c:339 | with the register preset to 0, a frame and the same frame behind any number of zero bytes have the same CRC |
| Crc.Crc16Trace | bus_packet/bus_packet.c:341-354 | a register trace whose every entry is one byte step of the previous one ends at the CRC of the bytes |
| CrcRegister.RoundsInjective | bus_packet/bus_packet.c:344-353 | any number of shift-register rounds fed the same input word map distinct registers to distinct registers |
| CrcRegister.LoadInjective | bus_packet/bus_packet.c:342-353 | from the same register, two different bytes loaded as `ch << 8` and shifted through the eight rounds leave different registers |
| Crc.StepRegisterInjective | bus_packet/bus_packet.c:342-353 | one byte step maps distinct registers to distinct registers |
| Crc.StepByteInjective | bus_packet/bus_packet.c:342-353 | one byte step from the same register tells any two different bytes apart |
| Crc.Crc16RegisterInjective | bus_packet/bus_packet.c:341-354 | distinct registers stay distinct over any byte string shifted into both |
| Crc.ChangedByteDetected | bus_packet/bus_packet.c:339-354 | replacing any one byte of the input by a different value changes the CRC, from any seed: every single-byte error, every single-bit error among them, is detected |
| Crc.ChangedByteChangesEcf | bus_packet/bus_packet.c:70 | the same holds for the uint16_t value Decode compares with the trailer |
| CrcCheck.CheckValue | bus_packet/bus_packet.c:334-356 | seed 0 over the ASCII bytes "123456789" gives 0x31C3 |
| TfPacket.CalculateCrc | tf_packet/tf_packet.c:200-222 | the transfer-frame copy of the routine computes the same CRC, its int16_t seed entering the register as its two's-complement bits |
| BusSync.Retest | bus_packet/bus_packet.c:215-221 | the `_first_sync_byte` label: any byte but 0x1A goes to FIND, 0x1A doubles the current flag |
| BusSync.Next | bus_packet/bus_packet.c:211-247 | the detector's transition as written: in SYNC_2, SYNC_3 and SYNC_4 the expected byte doubles the flag, any other byte and any other state go through the re-test, which shifts the current flag |
| BusSync.Run | bus_packet/bus_packet.c:211-247 | the flag after a receive loop feeds a byte stream to the detector one byte at a time |
| BusSync.NextCases | bus_packet/bus_packet.c:211-247 | the whole transition function: the expected byte shifts the flag left; otherwise 0x1A shifts the CURRENT flag left and any other byte gives FIND, from every state including COMPLETED and values outside the enum |
| BusSync.MarkerWalk | bus_packet/bus_packet.c:215-245 | feeding 1A CF FC 1D from FIND steps through SYNC_2, SYNC_3, SYNC_4 and COMPLETED |
| BusSync.RunSnoc | bus_packet/bus_packet.c:211-247 | running the detector over one more byte is one more transition |
| BusSync.RunAppend | bus_packet/bus_packet.c:211-247 | running over a concatenation continues from the state after the first part |
| BusSync.FalseDetection | bus_packet/bus_packet.c:216-220 | 1A 1A FC 1D, which does not end with the marker, reports COMPLETED |
| BusSync.MissedMarker | bus_packet/bus_packet.c:223-229 | 1A CF 1A CF FC 1D, which ends with the marker, ends in FIND |
| BusSync.PastCompleted | bus_packet/bus_packet.c:215-221 | a 0x1A after COMPLETED gives 32, outside the five named values |
| BusSync.PrefixAsSlice | bus_packet/bus_packet.c:45 | the recursive "ends with the first k marker bytes" is the comparison of the last k bytes with the marker's first k |
| BusSync.PrefixIsMatched | bus_packet/bus_packet.c:45 | the marker's bytes are distinct, so the end of a stream matches at most one nonzero marker prefix |
| BusSync.ExtendPrefix | bus_packet/bus_packet.c:45 | one more byte extends a matched prefix exactly when it is the next marker byte |
| BusSync.MatchedOfLast | bus_packet/bus_packet.c:211-247 | the matched prefix length after one more byte, from the length before it |
| BusSync.NextFixed | bus_packet/bus_packet.c:211-247 | the corrected transition: the expected byte doubles the flag, otherwise 0x1A restarts at SYNC_2 and any other byte goes to FIND |
| BusSync.RunFixed | bus_packet/bus_packet.c:211-247 | the corrected detector run over a byte stream |
| BusSync.NextFixedOfFlag | bus_packet/bus_packet.c:211-247 | the corrected transition on one-hot flags is the matched-length update |
| BusSync.RunFixedTracksMatch | bus_packet/bus_packet.c:211-247 | the corrected detector's flag is always the one-hot code of the longest marker prefix the stream ends with |
| BusSync.RunFixedDetects | bus_packet/bus_packet.c:211-247 | the corrected detector reports COMPLETED if and only if the bytes so far end with the marker |
| BusPacket.Packet.constructor | bus_packet/bus_packet.c:18 | a zero-initialised packet: every field 0 and 123 zero data bytes |
| BusPacket.Encoded | bus_packet/bus_packet.c:104-136 | the packet value Encode leaves: none when `n + 4 > 127`; else type and APID masked, flag bit 0 of `ecf_flag`, length `n + 2 (+2 with the flag)`, the data then zeros, and the CRC of header and data only with the flag |
| BusPacket.CopySize | bus_packet/bus_packet.c:151-159 | the byte count Packetize copies out of `data`: `length - 2` with the flag, `length` without |
| BusPacket.Packetized | bus_packet/bus_packet.c:144-162 | the buffer Packetize writes: the two header bytes, `CopySize` data bytes, the big-endian ECF at `length - 2` with the flag, and a 0 at `length` |
| BusPacket.EncodePacketized | bus_packet/bus_packet.c:178-202 | the buffer EncodePacketize writes: none when `n + 4 > 127`; else the data from byte 2, a length field of `n + 4` with `t` and `f` unmasked, and the big-endian CRC of the first `n + 2` bytes whenever `f` is nonzero |
| BusPacket.Decoded | bus_packet/bus_packet.c:54-87 | the packet value Decode leaves: none when `length < 4` or, with the flag, when the CRC of the first `length - 2` bytes differs from the trailer; else the header fields and `length - 4` data bytes, the trailer as ECF only with the flag |
| BusPacket.DataLength | bus_packet/bus_packet.c:112 | the data bytes a frame carries under the length rule Encode follows: `length - 2`, less 2 more with the flag |
| BusPacket.PacketizedFixed | bus_packet/bus_packet.c:144-162 | the corrected Packetize: exactly `DataLength` data bytes, then the trailer with the flag and the terminator |
| BusPacket.DecodedFixed | bus_packet/bus_packet.c:54-87 | the corrected Decode: none when `DataLength` is negative or over 123 or the CRC differs; else `DataLength` data bytes |
| BusPacket.EncodePacketizedFixed | bus_packet/bus_packet.c:178-202 | the corrected EncodePacketize: flag masked to bit 0 and length `n + 2 (+2 with the flag)`, as Encode sets them |
| BusPacket.HeaderDataEcf | bus_packet/bus_packet.c:122-132 | the ECF Encode stores is the CRC of the two header bytes followed by the data |
| BusPacket.Encode | bus_packet/bus_packet.c:104-136 | status Ok exactly when `data_length + 4 <= 127`, and the packet then holds the `Encoded` record; on HAL_ERROR the packet is unchanged and `data` is not read |
| BusPacket.Packetize | bus_packet/bus_packet.c:144-162 | the buffer becomes `Packetized` of the packet's value: header bytes, data, big-endian ECF when flagged, terminator at `length` |
| BusPacket.EncodePacketize | bus_packet/bus_packet.c:178-202 | status Ok exactly when `data_length + 4 <= 127`, and the buffer then holds the `EncodePacketized` frame; on HAL_ERROR the buffer is unchanged and `data` is not read |
| BusPacket.FrameCheck | bus_packet/bus_packet.c:61-72 | returns the CRC of a copy of the first `length - 2` bytes and the big-endian trailer |
| BusPacket.Decode | bus_packet/bus_packet.c:54-87 | status Ok exactly when `Decoded` succeeds and the packet then holds the decoded record; on HAL_ERROR nothing is written |
| BusPacket.Store | bus_packet/bus_packet.c:79-84 | type, APID, flag and length from the header bytes and `length - 4` data bytes go into the packet; the rest of the data and the ECF stay |
| BusPacketProofs.HeaderFields | bus_packet/bus_packet.c:147-148 | the header bytes carry exactly the type bit, the 7-bit APID, the flag bit and the 7-bit length |
| BusPacketProofs.HeaderOfFields | bus_packet/bus_packet.c:79-82 | each header byte is determined by the fields Decode reads from it |
| BusPacketProofs.HeaderMasked | bus_packet/bus_packet.c:109-111 | Encode's masks change nothing in the header bytes built from the fields |
| BusPacketProofs.EncodedFields | bus_packet/bus_packet.c:106-133 | Encode fails iff `data_length > 123`, whatever the flag; on success type&1, apid&0x7F, flag&1, length `n+2` plus 2 when flagged, data then zeros to 123, and the ECF is the CRC of header and data when flagged and otherwise left as it was |
| BusPacketProofs.DecodedStatus | bus_packet/bus_packet.c:56-76 | Decode fails iff `length < 4`, whatever the flag, or the flag is set and the CRC of the first `length - 2` bytes differs from the big-endian trailer |
| BusPacketProofs.EncodePacketizedLayout | bus_packet/bus_packet.c:180-199 | EncodePacketize succeeds for `n <= 123` and writes header bytes with length `n+4`, the data, then the big-endian CRC of the first `n+2` bytes when `f` is nonzero; when `f` is zero the two trailer bytes keep their old values |
| BusPacketProofs.PacketizedLayout | bus_packet/bus_packet.c:147-161 | with the flag set Packetize writes the header bytes, data up to `length - 2`, the ECF big-endian at `length - 2` and 0 at `length` |
| BusPacketProofs.DecodeOfLayout | bus_packet/bus_packet.c:54-87 | any buffer laid out as EncodePacketize lays it out, with a matching trailer when flagged, decodes to its fields and data |
| BusPacketProofs.EncodePacketizeDecode | bus_packet/bus_packet.c:21-23 | for `n <= 123` and either flag, Decode of the EncodePacketize frame succeeds and recovers type&1, apid&0x7F, the flag bit, length `n+4` and the data |
| BusPacketProofs.EncodePacketizeOfFrame | bus_packet/bus_packet.c:178-202 | EncodePacketize of a frame's own header fields and data rewrites that frame unchanged when its trailer already matches |
| BusPacketProofs.DecodeEncodePacketize | bus_packet/bus_packet.c:178-202 | re-encoding any frame Decode accepts with EncodePacketize reproduces the frame byte for byte |
| BusPacketProofs.FrameOfParts | bus_packet/bus_packet.c:187-199 | a frame is its two header bytes, its data and its two trailer bytes |
| BusPacketProofs.PacketizeEncodeMatches | bus_packet/bus_packet.c:118-133 | with the flag set, Packetize after Encode writes the same `n+4` frame bytes as EncodePacketize, then the terminator |
| BusPacketProofs.EncodePacketizeDecodeWithEcf | bus_packet/bus_packet.c:118-133 | with the flag set, Decode of Packetize of an Encode record gives that record back |
| BusPacketProofs.EncodeWithoutEcfDropsTwoBytes | bus_packet/bus_packet.c:112 | with the flag clear Encode sets length `n+2`; Decode of the Packetize frame fails for `n < 2` and otherwise yields only the first `n-2` data bytes |
| BusPacketProofs.DropsTwoBytesExample | bus_packet/bus_packet.c:112 | data 1 2 3 4 encoded without ECF decodes to 1 2 0 0 |
| BusPacketProofs.EncodeCopySize | bus_packet/bus_packet.c:151-159 | Packetize copies `n+2` bytes out of the 123-byte `packet->data` of any record Encode makes from `n` bytes, whatever the flag: past the array exactly when `n` is 122 or 123 |
| BusPacketProofs.OverreadExample | bus_packet/bus_packet.c:151-159 | after Encode of 122 bytes Packetize copies 124 bytes, with the flag set and with it clear |
| BusPacketProofs.DecodeFixedOfLayout | bus_packet/bus_packet.c:54-87 | the corrected Decode gives back the fields and data of any buffer holding the header with length `n+2` (plus 2 when flagged), the data and, when flagged, a matching trailer |
| BusPacketProofs.EncodePacketizeDecodeFixed | bus_packet/bus_packet.c:59-84 | with Decode taking `length - 2 - (2 if flagged)` data bytes, Decode of Packetize of Encode, both as written, recovers every field and all `n` data bytes whatever the flag, for every buffer size and data length the as-written Packetize accepts |
| BusPacketProofs.PacketizeFixedDecodeFixed | bus_packet/bus_packet.c:151-159 | the corrected Packetize copies exactly the `n` data bytes of every record Encode makes, `n` = 122 and 123 included, and the corrected Decode gives the record back |
| BusPacketProofs.EncodePacketizeFixedDecode | bus_packet/bus_packet.c:180-199 | EncodePacketize with Encode's length rule and flag mask round-trips through the corrected Decode: fields, length `n+2` (plus 2 when flagged) and data come back |
| BusPacketProofs.ChangedByteRejectedBy | bus_packet/bus_packet.c:61-76 | for any CRC routine that tells apart inputs differing in one byte, changing one of the `length` bytes of an accepted flagged frame, byte 1 excepted, makes Decode fail |
| BusPacketProofs.ChangedByteRejected | bus_packet/bus_packet.c:61-76 | with the software CRC, changing any one of the `length` bytes of an accepted flagged frame, byte 1 excepted, makes Decode fail |
| BusPacketProofs.TrailerChanged | bus_packet/bus_packet.c:72 | changing either trailer byte changes the big-endian value compared with the CRC |
| BusPacketProofs.EncodePacketizeTamperDetected | bus_packet/bus_packet.c:190-199 | with the flag set, changing any one of the `n+4` bytes EncodePacketize writes, byte 1 excepted, makes Decode fail |
| BusPacketProofs.FlagClearedAccepted | bus_packet/bus_packet.c:57-61 | byte 1 is outside that protection: clearing the flag bit of a flagged frame makes Decode skip the CRC and accept the frame |
| Bytes.Be16Injective | bus_packet/bus_packet.c:72 | two different byte pairs read as two different big-endian words |
| TfPacket.PrimaryHeader.constructor | tf_packet/tf_packet.h:114-128 | a zero-initialised primary header: every field 0 and 56 zero insert-zone bytes |
| TfPacket.DataField.constructor | tf_packet/tf_packet.h:131-136 | a zero-initialised data field: construction rule and protocol id 0 and 249 zero data bytes |
| TfPacket.Prefix | tf_packet/tf_packet.c:112-115 | bytes 0-3: version, spacecraft id, source/destination bit, virtual channel id, MAP id and end flag, most significant first, each OR kept to eight bits |
| TfPacket.FlagsByte | tf_packet/tf_packet.c:124 | byte 6: bypass, command and OCF flags at bits 7, 6 and 3, ORed with the unmasked `vc_length` |
| TfPacket.DataHeaderByte | tf_packet/tf_packet.c:127 | the data field header: construction rule in the top three bits ORed with the protocol id |
| TfPacket.ReadPrefix | tf_packet/tf_packet.c:51-56 | the six prefix fields as Decode reads them from bytes 0-3; the other fields unchanged |
| TfPacket.ReadFlags | tf_packet/tf_packet.c:60-65 | the big-endian length of bytes 4-5 and the flags and 3-bit `vc_length` of byte 6; the other fields unchanged |
| TfPacket.FrameBody | tf_packet/tf_packet.c:122-129 | the non-truncated frame before its trailer: length, flags byte, `vc_length` insert-zone bytes, data field header and `length - 10 - vc_length` data bytes |
| TfPacket.Sealed | tf_packet/tf_packet.c:131-138 | the CRC of the first `len - 2` bytes stored big-endian at `len - 2` |
| TfPacket.FramePacketized | tf_packet/tf_packet.c:118-139 | the non-truncated frame: its body sealed at `length` |
| TfPacket.TruncatedPacketized | tf_packet/tf_packet.c:142-157 | the truncated frame as written: data field header at byte 7, data from byte 8, and the CRC of the first `data_length + 5` bytes stored low byte first at `data_length + 5` |
| TfPacket.Packetized | tf_packet/tf_packet.c:110-160 | status and buffer of Packetize: the prefix always, then an error for `length > 256` (non-truncated) or `data_length > 249` (truncated), else the frame of that form |
| TfPacket.FrameDecoded | tf_packet/tf_packet.c:58-84 | the non-truncated decode: flags, insert zone and data field header read; an error when `length < 10 + vc_length`; else the data copied and an error when the CRC differs from the trailer |
| TfPacket.CheckStatus | tf_packet/tf_packet.c:76-83 | HAL_OK exactly when the CRC of the first `len - 2` bytes equals the big-endian trailer |
| TfPacket.Decoded | tf_packet/tf_packet.c:49-106 | status, header and data field of Decode: the prefix always read, then the end flag of byte 3 selects the non-truncated or truncated decode |
| TfPacket.TruncatedPacketizedFixed | tf_packet/tf_packet.c:142-157 | the corrected truncated frame: data field header at byte 4, data from byte 5, and the CRC of everything before it stored big-endian |
| TfPacket.SetDataOf | tf_packet/tf_packet.c:164-184 | fails before any write iff `data_length > 249` or `VCdata_length > 56`; for a non-truncated frame it sets vc_length and a length of `data + vc + 10` and fails (with those two fields written) iff that is over 246; on success it copies the data, and the insert zone only for a non-truncated frame |
| TfPacket.SetData | tf_packet/tf_packet.c:164-184 | status, header and data field after the call are those of `SetDataOf` |
| TfPacket.WritePrefix | tf_packet/tf_packet.c:112-115 | bytes 0-3 become the prefix bytes; nothing else changes |
| TfPacket.WriteFrameHeader | tf_packet/tf_packet.c:122-127 | length big-endian at 4-5, the flags byte at 6, the insert zone at 7 and the data field header after it |
| TfPacket.Seal | tf_packet/tf_packet.c:131-138 | the CRC of the first `len - 2` bytes is stored big-endian at `len - 2` |
| TfPacket.WriteFrame | tf_packet/tf_packet.c:122-138 | the buffer becomes the non-truncated frame after its prefix |
| TfPacket.WriteTruncated | tf_packet/tf_packet.c:146-156 | data field header at byte 7, data from byte 8, the CRC of the first `data_length + 5` bytes stored low byte first at `data_length + 5` |
| TfPacket.Packetize | tf_packet/tf_packet.c:110-160 | the status and buffer are those of `Packetized` |
| TfPacket.ReadPrefixInto | tf_packet/tf_packet.c:51-56 | the six prefix fields are read from bytes 0-3, the other fields stay |
| TfPacket.ReadFlagsInto | tf_packet/tf_packet.c:60-65 | length, bypass, command, OCF flag and vc_length are read from bytes 4-6 |
| TfPacket.ReadFrameHeader | tf_packet/tf_packet.c:60-69 | the rest of the header, `vc_length` insert-zone bytes and the data field header are read |
| TfPacket.ReadDataInto | tf_packet/tf_packet.c:73 | the bytes from `from` to `to` are copied to the start of the data field |
| TfPacket.FrameCheck | tf_packet/tf_packet.c:76-81 | returns the CRC of the first `length - 2` bytes and the big-endian trailer |
| TfPacket.DecodeFrameData | tf_packet/tf_packet.c:73-83 | copies the `length - 10 - vc_length` data bytes and returns HAL_ERROR iff the CRC differs from the trailer |
| TfPacket.DecodeFrame | tf_packet/tf_packet.c:58-84 | status, header and data field are those of `FrameDecoded` |
| TfPacket.DecodeTruncated | tf_packet/tf_packet.c:86-102 | status and data field are those of `TruncatedDecoded` |
| TfPacket.Decode | tf_packet/tf_packet.c:49-106 | status, header and data field are those of `Decoded` |
| TfPacket.TruncatedDecoded | tf_packet/tf_packet.c:86-102 | the truncated decode returns HAL_OK if and only if the CRC of the first `buffer_length - 2` bytes DIFFERS from the trailer |
| TfPacket.TruncatedCopySize | tf_packet/tf_packet.c:90-91 | for `buffer_length < 7` the uint32_t copy size wraps to `2^32 - (7 - buffer_length)`, larger than the 249-byte data array |
| TfPacket.TruncatedDecodedFixed | tf_packet/tf_packet.c:86-102 | the corrected truncated decode returns HAL_OK iff `buffer_length >= 7` and the CRC matches the trailer |
| TfPacket.SetDataFixedOf | tf_packet/tf_packet.c:167 | the corrected SetData accepts an insert zone only up to the 7 bytes the 3-bit vc_length can carry, and otherwise is SetData |
| TfPacketProofs.PrefixBytes | tf_packet/tf_packet.c:112-115 | with in-range fields each prefix byte is the sum of its disjoint bit fields |
| TfPacketProofs.ReadPrefixInRange | tf_packet/tf_packet.c:51-56 | the fields read from any four bytes are within their widths |
| TfPacketProofs.PrefixDecodes | tf_packet/tf_packet.c:51-56 | reading the prefix bytes back gives the six fields |
| TfPacketProofs.PrefixRoundTrip | tf_packet/tf_packet.c:112-115 | the prefix fields survive Packetize and Decode if and only if each is within its bit width |
| TfPacketProofs.FieldsDetermineBytes | tf_packet/tf_packet.c:51-56 | four prefix bytes are determined by the fields read from them |
| TfPacketProofs.ReadPrefixInjective | tf_packet/tf_packet.c:51-56 | two buffers whose prefixes read the same have the same four bytes |
| TfPacketProofs.ReadPrefixPacks | tf_packet/tf_packet.c:51-56 | packing the fields read from any four bytes gives those bytes back |
| TfPacketProofs.PacketizedStatus | tf_packet/tf_packet.c:110-160 | Packetize fails iff a non-truncated length is over 256 or a truncated data_length is over 249; the prefix is written in every case, and nothing after it on failure |
| TfPacketProofs.FrameDecodedStatus | tf_packet/tf_packet.c:58-84 | non-truncated Decode ignores buffer_length, succeeds iff `length >= 10 + vc_length` and the CRC matches, and writes header, insert zone and data field header before either check |
| TfPacketProofs.FlagsByteSum | tf_packet/tf_packet.c:124 | with in-range flags and vc_length below 8 the flags byte is the sum of its fields |
| TfPacketProofs.FlagsFields | tf_packet/tf_packet.c:61-65 | the flags read from a flags byte built of in-range fields are those fields |
| TfPacketProofs.FlagsRead | tf_packet/tf_packet.c:60-65 | bytes 4-6 written from a header read back as its length, flags and vc_length |
| TfPacketProofs.DataHeaderFields | tf_packet/tf_packet.c:127 | the data field header byte carries construction rule and protocol id, which read back unchanged |
| TfPacketProofs.FrameBodyLayout | tf_packet/tf_packet.c:122-129 | where the non-truncated frame puts length, flags, insert zone, data field header and data |
| TfPacketProofs.SealLayout | tf_packet/tf_packet.c:131-138 | sealing keeps the bytes before the trailer and makes the CRC check pass |
| TfPacketProofs.FrameLayout | tf_packet/tf_packet.c:118-139 | the complete non-truncated layout, with a trailer that passes the CRC check |
| TfPacketProofs.FrameDecodeOfLayout | tf_packet/tf_packet.c:58-84 | any buffer laid out as a non-truncated frame with in-range fields decodes to those fields and data |
| TfPacketProofs.PacketizeDecodeFrame | tf_packet/tf_packet.c:118-139 | with in-range fields, vc_length below 8 and `10 + vc_length <= length <= 256`, Decode of Packetize succeeds and restores every header field, the insert zone, construction rule, protocol id and data |
| TfPacketProofs.FlagsByteOfEight | tf_packet/tf_packet.c:124 | a vc_length of 8 ORed unmasked into the flags byte sets the OCF bit and clears the vc_length bits |
| TfPacketProofs.EightDecodeOfLayout | tf_packet/tf_packet.c:60-65 | a frame written with vc_length 8 reads back with vc_length 0 and the OCF flag set |
| TfPacketProofs.VcLengthUnmasked | tf_packet/tf_packet.c:124 | Packetize then Decode of a header with vc_length 8 succeeds but returns vc_length 0 and OCF flag 1 |
| TfPacketProofs.SetDataAcceptsEight | tf_packet/tf_packet.c:167-172 | SetData accepts an 8-byte insert zone and sets vc_length 8 and length `data_length + 18` |
| TfPacketProofs.SetDataEightMisread | tf_packet/tf_packet.c:164-184 | SetData, Packetize and Decode with an 8-byte insert zone all succeed, and the decoded header has vc_length 0 and OCF flag 1 |
| TfPacketProofs.SetDataPacketizeDecode | tf_packet/tf_packet.c:164-184 | with the corrected SetData, SetData then Packetize then Decode recovers the insert zone and the data |
| TfPacketProofs.TruncatedFixedLayout | tf_packet/tf_packet.c:142-157 | the corrected truncated frame has its data field header at 4, data from 5 and a trailer that passes the CRC check |
| TfPacketProofs.TruncatedFixedRoundTrip | tf_packet/tf_packet.c:142-157 | with the corrected layout and check, Decode of a truncated Packetize recovers the prefix fields, the data field header and the data |
| TfPacketProofs.TruncatedCrcInverted | tf_packet/tf_packet.c:101 | the source's truncated decode returns HAL_ERROR on a correctly sealed truncated frame, after writing its fields |
| TfPacketProofs.PrefixRead | tf_packet/tf_packet.c:51-56 | bytes 0-3 written from in-range fields read back as those fields, and byte 3 carries the end flag |
| TfPacketProofs.TruncatedLayout | tf_packet/tf_packet.c:146-156 | the source's truncated frame leaves byte 4 as it was, holds bytes 5-6 of the old buffer before the data field header and data, and has a byte-swapped trailer |
| TfPacketProofs.SwappedWord | tf_packet/tf_packet.c:155-156 | a CRC stored low byte first reads back big-endian as itself iff its two bytes are equal |
| TfPacketProofs.TruncatedLayoutMismatch | tf_packet/tf_packet.c:146-156 | Decode of the source's truncated Packetize reads the data field header from the old byte 4 and shifted data, and succeeds iff the swapped trailer's bytes differ |
| Bytes.Be16HiLo | tf_packet/tf_packet.c:122-123 | splitting a 16-bit word into its big-endian bytes and joining them again loses nothing, both ways |
| Bytes.Copy | bus_packet/bus_packet.c:115 | `memcpy` into a distinct array: the destination range receives the source bytes, nothing else changes |
| Bytes.Fill | bus_packet/bus_packet.c:116 | `memset(…, 0, n)`: the range becomes zeros, nothing else changes |
| Bytes.OrDisjoint | tf_packet/tf_packet.c:112-115 | OR of a value shifted left by k and a value below 2^k is their sum |
| Bytes.Or8Disjoint | tf_packet/tf_packet.c:124 | the byte ORs of the packers add when their bit ranges are disjoint |

## Left out

- STM32 CRC peripheral: `HAL_CRC_Calculate`, `bus_packet_CRC16CCSDSConfig` and `tf_packet_CRC16CCSDSConfig` are vendor peripheral calls. The codec functions take the CRC routine as a parameter. The methods use the software routine, which is what the peripheral is configured to compute.
- The commented-out UART receive callback and the Python ctypes binding are receive plumbing and marshalling, not codec logic.
- BusSync.Next: the enum flag is an unbounded `nat`. The shift past COMPLETED gives 32 rather than wrapping in a C enum of unspecified width.
- BusPacket.Encode: `data_length + 4` is computed in 32 bits. Lengths that would wrap are excluded by a precondition, because they would copy far past `packet->data`. `data` must hold `data_length` bytes only when the length check passes.
- BusPacket.EncodePacketize: the same two preconditions as Encode.
- BusPacket.Packetize, flag set: the source copies `length - 2` bytes from the 123-byte `packet->data`. At lengths 126 and 127, which Encode gives 122 and 123 data bytes, this reads past the array (see Findings). The stray bytes land in the two trailer positions, which are then overwritten, so the model copies `min(length - 2, 123)`. Lengths above 127 are excluded by a precondition. So is a buffer without room for the terminator at `buffer[length]`; at length 127 that excludes the 127-byte `buffer_in[BUS_PACKET_BUS_SIZE]` of the header's usage example (bus_packet/bus_packet.h:20).
- BusPacket.Packetize, flag clear: the source copies `length` bytes. A precondition limits that to 123, which excludes the records Encode makes from 122 and 123 data bytes (lengths 124 and 125, see Findings), and requires room for the copy and the terminator.
- BusPacket.Decode: the buffer must hold the bytes the source reads, a precondition (`Readable`). The second `length - 2 < 0` guard cannot fire after the first and has no counterpart.
- TfPacket.Packetize: the buffer and `vc_frame` must hold what the source writes and reads (`CanPacketize`). For a non-truncated frame this includes `length >= 10 + vc_length` and `vc_length <= 56`; shorter lengths would make the C copy size negative.
- TfPacket.Decode: the buffer must hold the bytes the source reads, and the copied data must fit the 249-byte array (`CanDecode`). Consequences:
  - `buffer_length >= 7` is required for a truncated frame, since the source's unsigned guard does not stop a shorter one (see TruncatedCopySize).
  - A non-truncated length field beyond the buffer is excluded.
- Aliasing: the caller's buffer, `vc_frame` and `tfdf->data` are required to be distinct arrays. Overlapping `memcpy` is undefined in C.
- The corrected transfer-frame variants are functions with proved properties, not methods. This covers the truncated frame (`TruncatedPacketizedFixed`, `TruncatedDecodedFixed`) and `SetDataFixedOf`.
- The corrected bus variants (`PacketizedFixed`, `DecodedFixed`, `EncodePacketizedFixed`) are likewise functions only.

## Findings

| source | as written | input that shows it | evidently intended | confidence | as-written member | corrected member |
|---|---|---|---|---|---|---|
| bus_packet/bus_packet.c:59-84 | Decode rejects length < 4 and always takes length - 4 data bytes, while Encode without ECF sets length = n + 2 (line 112), counting the trailer only when present | Encode(0, 1, 0, [1,2,3,4]), Packetize, Decode: data starts 1 2 0 0 | Decode takes length - 2 - (2 if ecf_flag) data bytes, the rule Encode follows, so the round trip recovers all n bytes with either flag; EncodePacketize writes its length by the same rule | high, not executed | BusPacketProofs.DropsTwoBytesExample | BusPacketProofs.EncodePacketizeDecodeFixed |
| bus_packet/bus_packet.c:151-159 | Packetize copies length - 2 (flag set) or length (flag clear) bytes out of the 123-byte packet->data: n + 2 bytes for a record Encode makes from n bytes | Encode(0, 0, f, 122 zero bytes), then Packetize, with f = 0 or 1: 124 bytes copied from the 123-byte array | copy exactly the n data bytes, so every record Encode accepts is packetized from inside the array | medium, not executed | BusPacketProofs.OverreadExample | BusPacketProofs.PacketizeFixedDecodeFixed |
| bus_packet/bus_packet.c:216-220 | a mismatching 0x1A shifts the current flag instead of restarting at SYNC_2 | 1A 1A FC 1D reports COMPLETED; 1A CF 1A CF FC 1D ends in FIND | COMPLETED exactly when the stream ends with 1A CF FC 1D | high, not executed | BusSync.FalseDetection | BusSync.RunFixedDetects |
| tf_packet/tf_packet.c:124 | vc_length is ORed into the flags byte unmasked, while SetData accepts up to 56 insert-zone bytes | SetData with an 8-byte insert zone, Packetize, Decode: vc_length 0 and OCF flag 1 | insert zone limited to what the 3-bit field can carry | medium, not executed | TfPacketProofs.SetDataEightMisread | TfPacketProofs.SetDataPacketizeDecode |
| tf_packet/tf_packet.c:101 | truncated Decode returns HAL_ERROR when the CRC matches | any correctly sealed truncated frame | HAL_ERROR on a mismatch, as in the non-truncated branch | high, not executed | TfPacketProofs.TruncatedCrcInverted | TfPacket.TruncatedDecodedFixed |
| tf_packet/tf_packet.c:146-156 | truncated Packetize writes the data field header at byte 7 and data at 8, and the CRC low byte first, while Decode reads them at 4 and 5 and big-endian | any truncated frame whose CRC bytes differ | one layout on both sides with a big-endian trailer, so the round trip holds | high, not executed | TfPacketProofs.TruncatedLayoutMismatch | TfPacketProofs.TruncatedFixedRoundTrip |
| tf_packet/tf_packet.c:90 | the truncated length guard is computed in uint32_t and never fires | buffer_length 6: copy size 2^32 - 1 | reject buffer_length below 7 | high, not executed | TfPacket.TruncatedCopySize | TfPacket.TruncatedDecodedFixed |
