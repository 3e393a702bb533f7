// src/rank/protocol.rs: the 80-byte frame header and the frame around it. usize has 64 bits.
module FrameCodec {
  import opened Wrappers
  import opened Bytes
  import opened Layout
  import opened Transpose

  const PROTOCOL_MAGIC: seq<Byte> := [0x47, 0x58, 0x43, 0x4C]
  const PROTOCOL_VERSION: U16 := 3
  const FRAME_HEADER_BYTES: U16 := 80
  const MAX_FRAME_PAYLOAD_BYTES: nat := 0x4000_0000
  const ANY_RANK: U32 := 0xFFFF_FFFF
  const FLAG_PAYLOAD: U16 := 1
  const FLAG_COUNTS_PREFIX: U16 := 2
  const FLAG_P2P_CHANNEL: U16 := 4
  const FLAG_COMBINATIONS: U16 := 2 * FLAG_P2P_CHANNEL

  datatype Opcode =
    | Join | Ready | Broadcast | AllGather | Gather | Scatter | Reduce | AllReduce | ReduceScatter | AllToAll
    | AllToAllV | Barrier | Send | Receive | Abort | Heartbeat | Leave | SetTimeout | PeerEndpoint

  datatype ElementType =
    | NoElement | U8 | UInt32 | I32 | F32 | F16 | BF16 | Bool | I8 | I16 | I64 | F64 | UInt16 | UInt64 | Complex64 | Complex128
    | F8E4M3Fn | F8E5M2 | F8E4M3Fnuz | F8E5M2Fnuz | F8E8M0Fnu | F4E2M1FnX2

  const OPCODES: seq<Opcode> := [
    Join, Ready, Broadcast, AllGather, Gather, Scatter, Reduce, AllReduce, ReduceScatter, AllToAll,
    AllToAllV, Barrier, Send, Receive, Abort, Heartbeat, Leave, SetTimeout, PeerEndpoint]

  const ELEMENT_TYPES: seq<ElementType> := [
    NoElement, U8, UInt32, I32, F32, F16, BF16, Bool, I8, I16, I64, F64, UInt16, UInt64, Complex64, Complex128,
    F8E4M3Fn, F8E5M2, F8E4M3Fnuz, F8E5M2Fnuz, F8E8M0Fnu, F4E2M1FnX2]

  datatype ProtocolError =
    | TruncatedHeader | BadMagic | UnsupportedVersion(version: nat) | UnsupportedHeaderLength(length: nat)
    | UnknownOpcode(byte: nat) | UnknownElementType(byte: nat) | UnknownFlags(flags: nat)
    | UnexpectedCountsPrefix | UnexpectedP2pChannelFlag | EmptyWorld | RankOutOfRange(name: string)
    | PayloadTooLarge | PayloadFlagMismatch | ElementLengthMismatch | PayloadLengthMismatch | FrameLengthMismatch | ChecksumMismatch

  type Sixteen = s: seq<Byte> | |s| == 16 witness [0, 0, 0, 0, 0, 0, 0, 0, 0, 0, 0, 0, 0, 0, 0, 0]

  datatype FrameHeader = FrameHeader(
    opcode: Opcode, elementType: ElementType, flags: U16, sourceRank: U32, destinationRank: U32, rootRank: U32, worldSize: U32,
    sequence: U64, tag: U64, elementCount: U64, payloadBytes: U64, uniqueId: Sixteen, payloadChecksum: U32)

  datatype Frame = Frame(header: FrameHeader, payload: seq<Byte>)

  // CRC-32; nothing is known about it but that it is a function.
  type Checksum = seq<Byte> -> U32

  // ---- single bytes ------------------------------------------------------------------------------

  function OpcodeByte(opcode: Opcode): (b: Byte)
    ensures 1 <= b <= 19 && OPCODES[b - 1] == opcode
  {
    match opcode
    case Join => 1 case Ready => 2 case Broadcast => 3 case AllGather => 4 case Gather => 5 case Scatter => 6 case Reduce => 7
    case AllReduce => 8 case ReduceScatter => 9 case AllToAll => 10 case AllToAllV => 11 case Barrier => 12 case Send => 13
    case Receive => 14 case Abort => 15 case Heartbeat => 16 case Leave => 17 case SetTimeout => 18 case PeerEndpoint => 19
  }

  function OpcodeFrom(b: Byte): (opcode: Result<Opcode, ProtocolError>)
    ensures opcode.Ok? <==> 1 <= b <= 19
    ensures opcode.Ok? ==> OpcodeByte(opcode.value) == b
    ensures forall o: Opcode :: OpcodeByte(o) == b ==> opcode == Ok(o)
  {
    if 1 <= b <= 19 then Ok(OPCODES[b - 1]) else Err(UnknownOpcode(b))
  }

  function ElementByte(element: ElementType): (b: Byte)
    ensures b <= 21 && ELEMENT_TYPES[b] == element
  {
    match element
    case NoElement => 0 case U8 => 1 case UInt32 => 2 case I32 => 3 case F32 => 4 case F16 => 5 case BF16 => 6 case Bool => 7
    case I8 => 8 case I16 => 9 case I64 => 10 case F64 => 11 case UInt16 => 12 case UInt64 => 13 case Complex64 => 14
    case Complex128 => 15 case F8E4M3Fn => 16 case F8E5M2 => 17 case F8E4M3Fnuz => 18 case F8E5M2Fnuz => 19
    case F8E8M0Fnu => 20 case F4E2M1FnX2 => 21
  }

  function ElementFrom(b: Byte): (element: Result<ElementType, ProtocolError>)
    ensures element.Ok? <==> b <= 21
    ensures element.Ok? ==> ElementByte(element.value) == b
    ensures forall e: ElementType :: ElementByte(e) == b ==> element == Ok(e)
  {
    if b <= 21 then Ok(ELEMENT_TYPES[b]) else Err(UnknownElementType(b))
  }

  function ByteWidth(element: ElementType): nat {
    match element
    case NoElement => 0
    case U8 | Bool | I8 | F8E4M3Fn | F8E5M2 | F8E4M3Fnuz | F8E5M2Fnuz | F8E8M0Fnu | F4E2M1FnX2 => 1
    case F16 | BF16 | I16 | UInt16 => 2
    case UInt32 | I32 | F32 => 4
    case I64 | F64 | UInt64 | Complex64 => 8
    case Complex128 => 16
  }

  // ---- validation --------------------------------------------------------------------------------

  predicate HasPayload(flags: U16) { flags / FLAG_PAYLOAD % 2 == 1 }

  predicate HasCountsPrefix(flags: U16) { flags / FLAG_COUNTS_PREFIX % 2 == 1 }

  predicate HasP2pChannel(flags: U16) { flags / FLAG_P2P_CHANNEL % 2 == 1 }

  function ValidateRank(name: string, rank: U32, worldSize: U32, allowAny: bool): Result<(), ProtocolError> {
    if (allowAny && rank == ANY_RANK) || rank < worldSize then Ok(()) else Err(RankOutOfRange(name))
  }

  function ValidateFlags(h: FrameHeader): Result<(), ProtocolError> {
    if h.flags / FLAG_COMBINATIONS != 0 then Err(UnknownFlags(h.flags - h.flags % FLAG_COMBINATIONS))
    else if HasCountsPrefix(h.flags) && h.opcode != AllToAllV then Err(UnexpectedCountsPrefix)
    else if HasP2pChannel(h.flags) && !(h.opcode.Join? || h.opcode.Ready?) then Err(UnexpectedP2pChannelFlag)
    else Ok(())
  }

  function ValidateRanks(h: FrameHeader): Result<(), ProtocolError> {
    if h.worldSize == 0 then Err(EmptyWorld)
    else if ValidateRank("source", h.sourceRank, h.worldSize, false).Err? then ValidateRank("source", h.sourceRank, h.worldSize, false)
    else if ValidateRank("destination", h.destinationRank, h.worldSize, true).Err? then ValidateRank("destination", h.destinationRank, h.worldSize, true)
    else ValidateRank("root", h.rootRank, h.worldSize, true)
  }

  // The bytes the element count announces. A product or sum that leaves 64 bits cannot equal the
  // payload length, so its error is the mismatch's.
  function AnnouncedBytes(h: FrameHeader): nat {
    h.elementCount * ByteWidth(h.elementType) + if HasCountsPrefix(h.flags) then h.worldSize * 8 else 0
  }

  function ValidateLength(h: FrameHeader): Result<(), ProtocolError> {
    if h.payloadBytes > MAX_FRAME_PAYLOAD_BYTES then Err(PayloadTooLarge)
    else if HasPayload(h.flags) != (h.payloadBytes != 0) then Err(PayloadFlagMismatch)
    else if h.elementType == NoElement then
      if h.elementCount != 0 || h.payloadBytes != 0 then Err(ElementLengthMismatch) else Ok(())
    else if HasPayload(h.flags) && AnnouncedBytes(h) != h.payloadBytes then Err(ElementLengthMismatch)
    else Ok(())
  }

  function ValidatePayload(h: FrameHeader, payload: seq<Byte>, crc: Checksum): Result<(), ProtocolError> {
    if |payload| != h.payloadBytes then Err(PayloadLengthMismatch)
    else if crc(payload) != h.payloadChecksum then Err(ChecksumMismatch)
    else Ok(())
  }

  function Validate(h: FrameHeader, payload: Option<seq<Byte>>, crc: Checksum): Result<(), ProtocolError> {
    if ValidateFlags(h).Err? then ValidateFlags(h)
    else if ValidateRanks(h).Err? then ValidateRanks(h)
    else if ValidateLength(h).Err? then ValidateLength(h)
    else if payload.Some? then ValidatePayload(h, payload.value, crc)
    else Ok(())
  }

  // ---- the header's layout -----------------------------------------------------------------------

  const WIDTHS: seq<nat> := [4, 2, 2, 1, 1, 2, 4, 4, 4, 4, 8, 8, 8, 8, 16, 4]
  const OFFSETS: seq<nat> := [0, 4, 6, 8, 9, 10, 12, 16, 20, 24, 28, 36, 44, 52, 60, 76, 80]

  lemma {:induction false} OffsetsArePrefixes(i: nat)
    requires i <= 16
    ensures Prefix(WIDTHS, i) == OFFSETS[i]
  {
    if i > 0 {
      OffsetsArePrefixes(i - 1);
      PrefixStep(WIDTHS, i - 1);
    }
  }

  lemma HeaderSize()
    ensures Sum(WIDTHS) == FRAME_HEADER_BYTES
  {
    OffsetsArePrefixes(16);
    assert WIDTHS[..16] == WIDTHS;
  }

  ghost function Fields(h: FrameHeader): (fields: seq<seq<Byte>>)
    ensures |fields| == 16
  {
    [PROTOCOL_MAGIC, LittleEndian(PROTOCOL_VERSION, 2), LittleEndian(FRAME_HEADER_BYTES, 2), [OpcodeByte(h.opcode)],
     [ElementByte(h.elementType)], LittleEndian(h.flags, 2), LittleEndian(h.sourceRank, 4), LittleEndian(h.destinationRank, 4),
     LittleEndian(h.rootRank, 4), LittleEndian(h.worldSize, 4), LittleEndian(h.sequence, 8), LittleEndian(h.tag, 8),
     LittleEndian(h.elementCount, 8), LittleEndian(h.payloadBytes, 8), h.uniqueId, LittleEndian(h.payloadChecksum, 4)]
  }

  ghost function HeaderBytes(h: FrameHeader): seq<Byte> {
    Concatenated(Fields(h))
  }

  function Field(bytes: seq<Byte>, i: nat): (field: seq<Byte>)
    requires |bytes| >= 80 && i < 16
    ensures |field| == WIDTHS[i]
  {
    bytes[OFFSETS[i]..OFFSETS[i + 1]]
  }

  lemma FieldIsPiece(bytes: seq<Byte>, i: nat)
    requires |bytes| == 80 && i < 16
    ensures |bytes| == Sum(WIDTHS) && Field(bytes, i) == Piece(bytes, WIDTHS, i)
  {
    HeaderSize();
    OffsetsArePrefixes(i);
  }

  lemma FieldsHaveWidths(h: FrameHeader)
    ensures Lengths(Fields(h)) == WIDTHS && |HeaderBytes(h)| == 80
  {
    assert Lengths(Fields(h)) == WIDTHS;
    ConcatenatedLength(Fields(h));
    HeaderSize();
  }

  lemma FieldOfHeader(h: FrameHeader, i: nat)
    requires i < 16
    ensures |HeaderBytes(h)| == 80 && Field(HeaderBytes(h), i) == Fields(h)[i]
  {
    FieldsHaveWidths(h);
    PieceOfConcatenated(Fields(h), i);
    FieldIsPiece(HeaderBytes(h), i);
  }

  // Eighty bytes with the fields of a header are that header's bytes.
  lemma SameFieldsSameBytes(bytes: seq<Byte>, h: FrameHeader)
    requires |bytes| == 80 && forall i | 0 <= i < 16 :: Field(bytes, i) == Fields(h)[i]
    ensures bytes == HeaderBytes(h)
  {
    HeaderSize();
    forall i | 0 <= i < 16 ensures Pieces(bytes, WIDTHS)[i] == Fields(h)[i] { FieldIsPiece(bytes, i); }
    ConcatenatedPieces(bytes, WIDTHS);
    assert Pieces(bytes, WIDTHS) == Fields(h);
  }

  // ---- decoding ----------------------------------------------------------------------------------

  function GetU16(bytes: seq<Byte>, i: nat): U16
    requires |bytes| >= 80 && i < 16 && WIDTHS[i] == 2
  {
    Powers();
    FromLittleEndian(Field(bytes, i))
  }

  function GetU32(bytes: seq<Byte>, i: nat): U32
    requires |bytes| >= 80 && i < 16 && WIDTHS[i] == 4
  {
    Powers();
    FromLittleEndian(Field(bytes, i))
  }

  function GetU64(bytes: seq<Byte>, i: nat): U64
    requires |bytes| >= 80 && i < 16 && WIDTHS[i] == 8
  {
    Powers();
    FromLittleEndian(Field(bytes, i))
  }

  function HeaderOf(bytes: seq<Byte>, opcode: Opcode, element: ElementType): FrameHeader
    requires |bytes| >= 80
  {
    FrameHeader(opcode, element, GetU16(bytes, 5), GetU32(bytes, 6), GetU32(bytes, 7), GetU32(bytes, 8), GetU32(bytes, 9),
      GetU64(bytes, 10), GetU64(bytes, 11), GetU64(bytes, 12), GetU64(bytes, 13), Field(bytes, 14), GetU32(bytes, 15))
  }

  function DecodeHeader(bytes: seq<Byte>, crc: Checksum): Result<FrameHeader, ProtocolError> {
    if |bytes| < 80 then Err(TruncatedHeader)
    else if bytes[0..4] != PROTOCOL_MAGIC then Err(BadMagic)
    else if GetU16(bytes, 1) != PROTOCOL_VERSION then Err(UnsupportedVersion(GetU16(bytes, 1)))
    else if GetU16(bytes, 2) != FRAME_HEADER_BYTES then Err(UnsupportedHeaderLength(GetU16(bytes, 2)))
    else if OpcodeFrom(bytes[8]).Err? then Err(OpcodeFrom(bytes[8]).error)
    else if ElementFrom(bytes[9]).Err? then Err(ElementFrom(bytes[9]).error)
    else
      var header := HeaderOf(bytes, OpcodeFrom(bytes[8]).value, ElementFrom(bytes[9]).value);
      if Validate(header, None, crc).Err? then Err(Validate(header, None, crc).error) else Ok(header)
  }

  ghost function EncodeHeader(h: FrameHeader, crc: Checksum): Result<seq<Byte>, ProtocolError> {
    if Validate(h, None, crc).Err? then Err(Validate(h, None, crc).error) else Ok(HeaderBytes(h))
  }

  lemma NumberFields(h: FrameHeader)
    ensures FromLittleEndian(LittleEndian(PROTOCOL_VERSION, 2)) == PROTOCOL_VERSION
    ensures FromLittleEndian(LittleEndian(FRAME_HEADER_BYTES, 2)) == FRAME_HEADER_BYTES
    ensures FromLittleEndian(LittleEndian(h.flags, 2)) == h.flags
    ensures FromLittleEndian(LittleEndian(h.sourceRank, 4)) == h.sourceRank && FromLittleEndian(LittleEndian(h.destinationRank, 4)) == h.destinationRank
    ensures FromLittleEndian(LittleEndian(h.rootRank, 4)) == h.rootRank && FromLittleEndian(LittleEndian(h.worldSize, 4)) == h.worldSize
    ensures FromLittleEndian(LittleEndian(h.sequence, 8)) == h.sequence && FromLittleEndian(LittleEndian(h.tag, 8)) == h.tag
    ensures FromLittleEndian(LittleEndian(h.elementCount, 8)) == h.elementCount && FromLittleEndian(LittleEndian(h.payloadBytes, 8)) == h.payloadBytes
    ensures FromLittleEndian(LittleEndian(h.payloadChecksum, 4)) == h.payloadChecksum
  {
    Powers();
    NumberRoundTrip(PROTOCOL_VERSION, 2);
    NumberRoundTrip(FRAME_HEADER_BYTES, 2);
    NumberRoundTrip(h.flags, 2);
    NumberRoundTrip(h.sourceRank, 4);
    NumberRoundTrip(h.destinationRank, 4);
    NumberRoundTrip(h.rootRank, 4);
    NumberRoundTrip(h.worldSize, 4);
    NumberRoundTrip(h.sequence, 8);
    NumberRoundTrip(h.tag, 8);
    NumberRoundTrip(h.elementCount, 8);
    NumberRoundTrip(h.payloadBytes, 8);
    NumberRoundTrip(h.payloadChecksum, 4);
  }

  // Decoding looks at the first eighty bytes only.
  lemma FieldIgnoresTail(bytes: seq<Byte>, i: nat)
    requires |bytes| >= 80 && i < 16
    ensures Field(bytes, i) == Field(bytes[..80], i)
  {
  }

  lemma FieldsOfHeader(h: FrameHeader, bytes: seq<Byte>)
    requires |bytes| >= 80 && bytes[..80] == HeaderBytes(h)
    ensures forall i | 0 <= i < 16 :: Field(bytes, i) == Fields(h)[i]
  {
    forall i | 0 <= i < 16 ensures Field(bytes, i) == Fields(h)[i] {
      FieldIgnoresTail(bytes, i);
      FieldOfHeader(h, i);
    }
  }

  ghost predicate HasFields(bytes: seq<Byte>, h: FrameHeader) {
    |bytes| >= 80 && forall i | 0 <= i < 16 :: Field(bytes, i) == Fields(h)[i]
  }

  lemma FixedFields(bytes: seq<Byte>)
    requires |bytes| >= 80
    ensures Field(bytes, 0) == bytes[0..4] && Field(bytes, 3) == [bytes[8]] && Field(bytes, 4) == [bytes[9]]
  {
  }

  lemma MarksOfHeader(h: FrameHeader, bytes: seq<Byte>)
    requires HasFields(bytes, h)
    ensures bytes[0..4] == PROTOCOL_MAGIC && GetU16(bytes, 1) == PROTOCOL_VERSION && GetU16(bytes, 2) == FRAME_HEADER_BYTES
    ensures bytes[8] == OpcodeByte(h.opcode) && bytes[9] == ElementByte(h.elementType)
  {
    NumberFields(h);
    FixedFields(bytes);
    assert Fields(h)[0] == PROTOCOL_MAGIC && Fields(h)[3] == [OpcodeByte(h.opcode)] && Fields(h)[4] == [ElementByte(h.elementType)];
  }

  lemma NumbersOfHeader(h: FrameHeader, bytes: seq<Byte>)
    requires HasFields(bytes, h)
    ensures HeaderOf(bytes, h.opcode, h.elementType) == h
  {
    NumberFields(h);
  }

  // A valid header decodes from its bytes, whatever follows them.
  lemma HeaderRoundTrip(h: FrameHeader, bytes: seq<Byte>, crc: Checksum)
    requires EncodeHeader(h, crc).Ok? && |bytes| >= 80 && bytes[..80] == EncodeHeader(h, crc).value
    ensures DecodeHeader(bytes, crc) == Ok(h)
  {
    FieldsOfHeader(h, bytes);
    MarksOfHeader(h, bytes);
    NumbersOfHeader(h, bytes);
    assert OpcodeFrom(bytes[8]) == Ok(h.opcode) && ElementFrom(bytes[9]) == Ok(h.elementType);
  }

  ghost predicate Decoded(bytes: seq<Byte>, h: FrameHeader) {
    && |bytes| >= 80 && bytes[0..4] == PROTOCOL_MAGIC && GetU16(bytes, 1) == PROTOCOL_VERSION && GetU16(bytes, 2) == FRAME_HEADER_BYTES
    && OpcodeByte(h.opcode) == bytes[8] && ElementByte(h.elementType) == bytes[9] && h == HeaderOf(bytes, h.opcode, h.elementType)
  }

  lemma DecodedMarks(bytes: seq<Byte>, h: FrameHeader)
    requires Decoded(bytes, h)
    ensures forall i | 0 <= i < 5 :: Fields(h)[i] == Field(bytes, i)
  {
    BytesRoundTrip(Field(bytes, 1));
    BytesRoundTrip(Field(bytes, 2));
    FixedFields(bytes);
  }

  lemma DecodedNumber(bytes: seq<Byte>, h: FrameHeader, i: nat)
    requires Decoded(bytes, h) && 5 <= i < 16
    ensures Fields(h)[i] == Field(bytes, i)
  {
    BytesRoundTrip(Field(bytes, i));
  }

  lemma DecodedField(bytes: seq<Byte>, h: FrameHeader, i: nat)
    requires Decoded(bytes, h) && i < 16
    ensures Fields(h)[i] == Field(bytes, i)
  {
    if i < 5 { DecodedMarks(bytes, h); } else { DecodedNumber(bytes, h, i); }
  }

  // Any bytes that decode are the bytes their header encodes to.
  lemma HeaderReencodes(bytes: seq<Byte>, crc: Checksum)
    requires DecodeHeader(bytes, crc).Ok?
    ensures |bytes| >= 80 && EncodeHeader(DecodeHeader(bytes, crc).value, crc) == Ok(bytes[..80])
  {
    var h := DecodeHeader(bytes, crc).value;
    DecodedShape(bytes, crc);
    forall i | 0 <= i < 16 ensures Field(bytes[..80], i) == Fields(h)[i] {
      FieldIgnoresTail(bytes, i);
      DecodedField(bytes, h, i);
    }
    SameFieldsSameBytes(bytes[..80], h);
  }

  lemma DecodedShape(bytes: seq<Byte>, crc: Checksum)
    requires DecodeHeader(bytes, crc).Ok?
    ensures Decoded(bytes, DecodeHeader(bytes, crc).value) && Validate(DecodeHeader(bytes, crc).value, None, crc).Ok?
  {
  }

  // ---- the encoder, field by field into one buffer -----------------------------------------------

  lemma ConcatenatedNext(fields: seq<seq<Byte>>, i: nat)
    requires i < |fields|
    ensures Concatenated(fields[..i + 1]) == Concatenated(fields[..i]) + fields[i]
  {
    assert fields[..i + 1][..i] == fields[..i];
  }

  method CopyField(buffer: array<Byte>, start: nat, field: seq<Byte>)
    requires start + |field| <= buffer.Length
    modifies buffer
    ensures buffer[..start + |field|] == old(buffer[..start]) + field
  {
    forall k | start <= k < start + |field| { buffer[k] := field[k - start]; }
  }

  // Field i goes to its place once the fields before it are written.
  method Put(buffer: array<Byte>, ghost fields: seq<seq<Byte>>, ghost i: nat, at: nat, field: seq<Byte>)
    requires i < |fields| && field == fields[i] && at + |field| <= buffer.Length
    requires buffer[..at] == Concatenated(fields[..i])
    modifies buffer
    ensures buffer[..at + |field|] == Concatenated(fields[..i + 1])
  {
    CopyField(buffer, at, field);
    ConcatenatedNext(fields, i);
  }

  method PutProtocol(buffer: array<Byte>, ghost h: FrameHeader)
    requires buffer.Length == 80
    modifies buffer
    ensures buffer[..8] == Concatenated(Fields(h)[..3])
  {
    assert Fields(h)[..0] == [] && buffer[..0] == [];
    Put(buffer, Fields(h), 0, 0, PROTOCOL_MAGIC);
    Put(buffer, Fields(h), 1, 4, LittleEndian(PROTOCOL_VERSION, 2));
    Put(buffer, Fields(h), 2, 6, LittleEndian(FRAME_HEADER_BYTES, 2));
  }

  method PutKind(buffer: array<Byte>, h: FrameHeader)
    requires buffer.Length == 80 && buffer[..8] == Concatenated(Fields(h)[..3])
    modifies buffer
    ensures buffer[..12] == Concatenated(Fields(h)[..6])
  {
    Put(buffer, Fields(h), 3, 8, [OpcodeByte(h.opcode)]);
    Put(buffer, Fields(h), 4, 9, [ElementByte(h.elementType)]);
    Put(buffer, Fields(h), 5, 10, LittleEndian(h.flags, 2));
  }

  method PutRanks(buffer: array<Byte>, h: FrameHeader)
    requires buffer.Length == 80 && buffer[..12] == Concatenated(Fields(h)[..6])
    modifies buffer
    ensures buffer[..28] == Concatenated(Fields(h)[..10])
  {
    Put(buffer, Fields(h), 6, 12, LittleEndian(h.sourceRank, 4));
    Put(buffer, Fields(h), 7, 16, LittleEndian(h.destinationRank, 4));
    Put(buffer, Fields(h), 8, 20, LittleEndian(h.rootRank, 4));
    Put(buffer, Fields(h), 9, 24, LittleEndian(h.worldSize, 4));
  }

  method PutCounts(buffer: array<Byte>, h: FrameHeader)
    requires buffer.Length == 80 && buffer[..28] == Concatenated(Fields(h)[..10])
    modifies buffer
    ensures buffer[..80] == Concatenated(Fields(h)[..16])
  {
    Put(buffer, Fields(h), 10, 28, LittleEndian(h.sequence, 8));
    Put(buffer, Fields(h), 11, 36, LittleEndian(h.tag, 8));
    Put(buffer, Fields(h), 12, 44, LittleEndian(h.elementCount, 8));
    Put(buffer, Fields(h), 13, 52, LittleEndian(h.payloadBytes, 8));
    Put(buffer, Fields(h), 14, 60, h.uniqueId);
    Put(buffer, Fields(h), 15, 76, LittleEndian(h.payloadChecksum, 4));
  }

  method Encode(h: FrameHeader, crc: Checksum) returns (result: Result<seq<Byte>, ProtocolError>)
    ensures result == EncodeHeader(h, crc)
  {
    var valid := Validate(h, None, crc);
    if valid.Err? { return Err(valid.error); }
    var buffer := new Byte[80](_ => 0);
    PutProtocol(buffer, h);
    PutKind(buffer, h);
    PutRanks(buffer, h);
    PutCounts(buffer, h);
    assert Fields(h)[..16] == Fields(h) && buffer[..80] == buffer[..];
    result := Ok(buffer[..]);
  }

  // ---- frames ------------------------------------------------------------------------------------

  function WithPayload(h: FrameHeader, payload: seq<Byte>, crc: Checksum): Result<FrameHeader, ProtocolError> {
    if |payload| > MAX_FRAME_PAYLOAD_BYTES then Err(PayloadTooLarge)
    else
      var filled := h.(flags := if HasPayload(h.flags) then h.flags else h.flags + FLAG_PAYLOAD, payloadBytes := |payload|, payloadChecksum := crc(payload));
      if Validate(filled, None, crc).Err? then Err(Validate(filled, None, crc).error) else Ok(filled)
  }

  function NewFrame(h: FrameHeader, payload: seq<Byte>, crc: Checksum): Result<Frame, ProtocolError> {
    if payload == [] then
      if Validate(h, Some(payload), crc).Err? then Err(Validate(h, Some(payload), crc).error) else Ok(Frame(h, payload))
    else
      var filled := WithPayload(h, payload, crc);
      if filled.Err? then Err(filled.error) else Ok(Frame(filled.value, payload))
  }

  ghost function EncodeFrame(f: Frame, crc: Checksum): Result<seq<Byte>, ProtocolError> {
    if Validate(f.header, Some(f.payload), crc).Err? then Err(Validate(f.header, Some(f.payload), crc).error)
    else Ok(HeaderBytes(f.header) + f.payload)
  }

  method EncodeWhole(f: Frame, crc: Checksum) returns (result: Result<seq<Byte>, ProtocolError>)
    ensures result == EncodeFrame(f, crc)
  {
    var valid := Validate(f.header, Some(f.payload), crc);
    if valid.Err? { return Err(valid.error); }
    var header := Encode(f.header, crc);
    assert header.Ok?;
    result := Ok(header.value + f.payload);
  }

  function DecodeFrame(bytes: seq<Byte>, crc: Checksum): Result<Frame, ProtocolError> {
    match DecodeHeader(bytes, crc)
    case Err(e) => Err(e)
    case Ok(h) =>
      if |bytes| != 80 + h.payloadBytes then Err(FrameLengthMismatch)
      else if Validate(h, Some(bytes[80..]), crc).Err? then Err(Validate(h, Some(bytes[80..]), crc).error)
      else Ok(Frame(h, bytes[80..]))
  }

  lemma FrameRoundTrip(f: Frame, crc: Checksum)
    requires EncodeFrame(f, crc).Ok?
    ensures DecodeFrame(EncodeFrame(f, crc).value, crc) == Ok(f)
  {
    EncodedParts(f, crc);
    HeaderRoundTrip(f.header, EncodeFrame(f, crc).value, crc);
    assert f.header.payloadBytes == |f.payload|;
  }

  lemma EncodedParts(f: Frame, crc: Checksum)
    requires EncodeFrame(f, crc).Ok?
    ensures EncodeHeader(f.header, crc) == Ok(HeaderBytes(f.header)) && |EncodeFrame(f, crc).value| == 80 + |f.payload|
    ensures EncodeFrame(f, crc).value[..80] == HeaderBytes(f.header) && EncodeFrame(f, crc).value[80..] == f.payload
  {
    FieldsHaveWidths(f.header);
  }

  lemma FrameReencodes(bytes: seq<Byte>, crc: Checksum)
    requires DecodeFrame(bytes, crc).Ok?
    ensures EncodeFrame(DecodeFrame(bytes, crc).value, crc) == Ok(bytes)
  {
    HeaderReencodes(bytes, crc);
    assert bytes == bytes[..80] + bytes[80..];
  }

  // Two different byte strings never decode to the same frame, and every valid frame has one.
  lemma CodecIsBijection(a: seq<Byte>, b: seq<Byte>, crc: Checksum)
    requires DecodeFrame(a, crc).Ok? && DecodeFrame(a, crc) == DecodeFrame(b, crc)
    ensures a == b
  {
    FrameReencodes(a, crc);
    FrameReencodes(b, crc);
  }

  // Every frame the constructor accepts can be sent, and arrives as itself.
  lemma NewFramesTravel(h: FrameHeader, payload: seq<Byte>, crc: Checksum)
    requires NewFrame(h, payload, crc).Ok?
    ensures var f := NewFrame(h, payload, crc).value;
      f.payload == payload && EncodeFrame(f, crc).Ok? && DecodeFrame(EncodeFrame(f, crc).value, crc) == Ok(f)
  {
    FrameRoundTrip(NewFrame(h, payload, crc).value, crc);
  }
}
