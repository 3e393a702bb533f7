// src/rank/protocol.rs: which headers and frames are valid, and where each field lies on the wire, number
// by number.
module FrameRules {
  import opened Wrappers
  import opened Bytes
  import opened Layout
  import opened Transpose
  import opened FrameCodec

  const PREFIXED: set<nat> := {2, 3, 6, 7}
  const CHANNELED: set<nat> := {4, 5, 6, 7}
  const PAYING: set<nat> := {1, 3, 5, 7}

  ghost predicate FlagsFit(h: FrameHeader) {
    h.flags < 8 && (h.flags in PREFIXED ==> h.opcode == AllToAllV) && (h.flags in CHANNELED ==> h.opcode in {Join, Ready})
  }

  // A rank of the world, or the wildcard.
  ghost predicate Addresses(rank: nat, world: nat) { rank < world || rank == 0xFFFF_FFFF }

  ghost predicate RanksFit(h: FrameHeader) {
    0 < h.worldSize && h.sourceRank < h.worldSize && Addresses(h.destinationRank, h.worldSize) && Addresses(h.rootRank, h.worldSize)
  }

  // Elements of `width` bytes each, after eight bytes per rank under the prefix flag.
  ghost predicate Fills(h: FrameHeader, width: nat) {
    h.payloadBytes == h.elementCount * width + (if h.flags in PREFIXED then 8 * h.worldSize else 0)
  }

  ghost predicate LengthFits(h: FrameHeader) {
    && h.payloadBytes <= 0x4000_0000 && (h.payloadBytes != 0 <==> h.flags in PAYING)
    && (h.elementType == NoElement ==> h.elementCount == 0 && h.payloadBytes == 0)
    && (h.payloadBytes != 0 ==>
          && (h.elementType in {U8, Bool, I8, F8E4M3Fn, F8E5M2, F8E4M3Fnuz, F8E5M2Fnuz, F8E8M0Fnu, F4E2M1FnX2} ==> Fills(h, 1))
          && (h.elementType in {F16, BF16, I16, UInt16} ==> Fills(h, 2))
          && (h.elementType in {UInt32, I32, F32} ==> Fills(h, 4))
          && (h.elementType in {I64, F64, UInt64, Complex64} ==> Fills(h, 8))
          && (h.elementType in {Complex128} ==> Fills(h, 16)))
  }

  lemma FlagBits(flags: U16)
    requires flags < 8
    ensures (flags % 2 == 1 <==> flags in PAYING) && (flags / 2 % 2 == 1 <==> flags in PREFIXED) && (flags / 4 % 2 == 1 <==> flags in CHANNELED)
  {
  }

  lemma FlagsValidExactlyWhen(h: FrameHeader)
    ensures ValidateFlags(h).Ok? <==> FlagsFit(h)
  {
    if h.flags < 8 { FlagBits(h.flags); }
  }

  lemma LengthValidExactlyWhen(h: FrameHeader)
    requires h.flags < 8
    ensures ValidateLength(h).Ok? <==> LengthFits(h)
  {
    FlagBits(h.flags);
  }

  // A header can be encoded exactly when its flags, ranks and lengths fit together.
  lemma EncodableExactlyWhen(h: FrameHeader, crc: Checksum)
    ensures EncodeHeader(h, crc).Ok? <==> FlagsFit(h) && RanksFit(h) && LengthFits(h)
  {
    FlagsValidExactlyWhen(h);
    if h.flags < 8 { LengthValidExactlyWhen(h); }
  }

  // A frame exactly when, besides, its payload is as long as its header says and has its checksum.
  lemma FrameEncodableExactlyWhen(f: Frame, crc: Checksum)
    ensures EncodeFrame(f, crc).Ok? <==>
      && FlagsFit(f.header) && RanksFit(f.header) && LengthFits(f.header)
      && |f.payload| == f.header.payloadBytes && crc(f.payload) == f.header.payloadChecksum
  {
    EncodableExactlyWhen(f.header, crc);
  }

  // A payload that is not empty is written into the header: its flag, its length and its checksum; an
  // empty one leaves the header as it is. The rest of the header stays, and the result must be valid.
  lemma NewFrameFills(h: FrameHeader, payload: seq<Byte>, crc: Checksum)
    ensures var filled := if payload == [] then h else
        h.(flags := if h.flags % 2 == 1 then h.flags else h.flags + 1, payloadBytes := if |payload| < 0x4000_0001 then |payload| else 0,
           payloadChecksum := crc(payload));
      NewFrame(h, payload, crc).Ok? ==> NewFrame(h, payload, crc).value == Frame(filled, payload)
    ensures NewFrame(h, payload, crc).Ok? ==> EncodeFrame(NewFrame(h, payload, crc).value, crc).Ok?
    ensures |payload| > 0x4000_0000 ==> NewFrame(h, payload, crc) == Err(PayloadTooLarge)
  {
    NewFramesAreValid(h, payload, crc);
  }

  lemma NewFramesAreValid(h: FrameHeader, payload: seq<Byte>, crc: Checksum)
    ensures NewFrame(h, payload, crc).Ok? ==> EncodeFrame(NewFrame(h, payload, crc).value, crc).Ok?
  {
  }

  // And it is accepted exactly when the filled header is valid.
  lemma NewFrameExactlyWhen(h: FrameHeader, payload: seq<Byte>, crc: Checksum, filled: FrameHeader)
    requires 0 < |payload| <= 0x4000_0000
    requires filled == h.(flags := if h.flags % 2 == 1 then h.flags else h.flags + 1, payloadBytes := |payload|, payloadChecksum := crc(payload))
    ensures NewFrame(h, payload, crc).Ok? <==> FlagsFit(filled) && RanksFit(filled) && LengthFits(filled)
  {
    EncodableExactlyWhen(filled, crc);
  }

  // ---- the wire ----------------------------------------------------------------------------------

  function Two(bytes: seq<Byte>, at: nat): nat
    requires at + 2 <= |bytes|
  {
    var low: nat, high: nat := bytes[at], bytes[at + 1];
    low + 0x100 * high
  }

  function Four(bytes: seq<Byte>, at: nat): nat
    requires at + 4 <= |bytes|
  {
    Two(bytes, at) + 0x1_0000 * Two(bytes, at + 2)
  }

  function Eight(bytes: seq<Byte>, at: nat): nat
    requires at + 8 <= |bytes|
  {
    Four(bytes, at) + 0x1_0000_0000 * Four(bytes, at + 4)
  }

  // The bytes of a number from `k` on count Power256(k) each.
  lemma {:induction false} NumberJoins(bytes: seq<Byte>, k: nat)
    requires k <= |bytes|
    ensures FromLittleEndian(bytes) == FromLittleEndian(bytes[..k]) + Power256(k) * FromLittleEndian(bytes[k..])
  {
    if k == 0 {
      assert bytes[..0] == [] && bytes[0..] == bytes;
    } else {
      NumberJoins(bytes[1..], k - 1);
      assert bytes[1..][..k - 1] == bytes[..k][1..] && bytes[1..][k - 1..] == bytes[k..];
      assert FromLittleEndian(bytes[..k]) == bytes[0] + 0x100 * FromLittleEndian(bytes[1..][..k - 1]) by { assert bytes[..k][0] == bytes[0]; }
      Scaled(Power256(k - 1), FromLittleEndian(bytes[k..]));
    }
  }

  lemma Scaled(p: nat, n: nat)
    ensures 0x100 * (p * n) == 0x100 * p * n
  {
  }

  lemma TwoIs(bytes: seq<Byte>, at: nat)
    requires at + 2 <= |bytes|
    ensures FromLittleEndian(bytes[at..at + 2]) == Two(bytes, at)
  {
    var number := bytes[at..at + 2];
    assert FromLittleEndian(number[1..]) == number[1] + 0x100 * FromLittleEndian(number[1..][1..]);
    assert number[1..][1..] == [];
  }

  lemma FourIs(bytes: seq<Byte>, at: nat)
    requires at + 4 <= |bytes|
    ensures FromLittleEndian(bytes[at..at + 4]) == Four(bytes, at)
  {
    var number := bytes[at..at + 4];
    NumberJoins(number, 2);
    Powers();
    assert number[..2] == bytes[at..at + 2] && number[2..] == bytes[at + 2..at + 4];
    TwoIs(bytes, at);
    TwoIs(bytes, at + 2);
  }

  lemma EightIs(bytes: seq<Byte>, at: nat)
    requires at + 8 <= |bytes|
    ensures FromLittleEndian(bytes[at..at + 8]) == Eight(bytes, at)
  {
    var number := bytes[at..at + 8];
    NumberJoins(number, 4);
    Powers();
    assert number[..4] == bytes[at..at + 4] && number[4..] == bytes[at + 4..at + 8];
    FourIs(bytes, at);
    FourIs(bytes, at + 4);
  }

  // The bytes carry the header: every field at its place, numbers with the lowest byte first.
  ghost predicate Carries(bytes: seq<Byte>, h: FrameHeader) {
    && |bytes| == 80 && bytes[..4] == [0x47, 0x58, 0x43, 0x4C] && Two(bytes, 4) == 3 && Two(bytes, 6) == 80
    && OpcodeFrom(bytes[8]) == Ok(h.opcode) && ElementFrom(bytes[9]) == Ok(h.elementType) && Two(bytes, 10) == h.flags
    && Four(bytes, 12) == h.sourceRank && Four(bytes, 16) == h.destinationRank && Four(bytes, 20) == h.rootRank && Four(bytes, 24) == h.worldSize
    && Eight(bytes, 28) == h.sequence && Eight(bytes, 36) == h.tag && Eight(bytes, 44) == h.elementCount && Eight(bytes, 52) == h.payloadBytes
    && bytes[60..76] == h.uniqueId && Four(bytes, 76) == h.payloadChecksum
  }

  lemma WireLayout(h: FrameHeader, crc: Checksum)
    requires EncodeHeader(h, crc).Ok?
    ensures Carries(EncodeHeader(h, crc).value, h)
  {
    var bytes := EncodeHeader(h, crc).value;
    FieldsHaveWidths(h);
    FieldsOfHeader(h, bytes);
    MarksOfHeader(h, bytes);
    NumbersOfHeader(h, bytes);
    ShortNumbers(bytes);
    RankNumbers(bytes);
    WideNumbers(bytes);
  }

  lemma ShortNumbers(bytes: seq<Byte>)
    requires |bytes| == 80
    ensures GetU16(bytes, 1) == Two(bytes, 4) && GetU16(bytes, 2) == Two(bytes, 6) && GetU16(bytes, 5) == Two(bytes, 10)
  {
    TwoIs(bytes, 4);
    TwoIs(bytes, 6);
    TwoIs(bytes, 10);
  }

  lemma RankNumbers(bytes: seq<Byte>)
    requires |bytes| == 80
    ensures GetU32(bytes, 6) == Four(bytes, 12) && GetU32(bytes, 7) == Four(bytes, 16) && GetU32(bytes, 8) == Four(bytes, 20)
    ensures GetU32(bytes, 9) == Four(bytes, 24) && GetU32(bytes, 15) == Four(bytes, 76)
  {
    FourIs(bytes, 12);
    FourIs(bytes, 16);
    FourIs(bytes, 20);
    FourIs(bytes, 24);
    FourIs(bytes, 76);
  }

  lemma WideNumbers(bytes: seq<Byte>)
    requires |bytes| == 80
    ensures GetU64(bytes, 10) == Eight(bytes, 28) && GetU64(bytes, 11) == Eight(bytes, 36)
    ensures GetU64(bytes, 12) == Eight(bytes, 44) && GetU64(bytes, 13) == Eight(bytes, 52)
  {
    EightIs(bytes, 28);
    EightIs(bytes, 36);
    EightIs(bytes, 44);
    EightIs(bytes, 52);
  }

  // The codes of the opcodes and of the element types.
  lemma OpcodeCodes()
    ensures Ok(Join) == OpcodeFrom(1) && Ok(Ready) == OpcodeFrom(2) && Ok(Broadcast) == OpcodeFrom(3) && Ok(AllGather) == OpcodeFrom(4)
    ensures Ok(Gather) == OpcodeFrom(5) && Ok(Scatter) == OpcodeFrom(6) && Ok(Reduce) == OpcodeFrom(7) && Ok(AllReduce) == OpcodeFrom(8)
    ensures Ok(ReduceScatter) == OpcodeFrom(9) && Ok(AllToAll) == OpcodeFrom(10) && Ok(AllToAllV) == OpcodeFrom(11) && Ok(Barrier) == OpcodeFrom(12)
    ensures Ok(Send) == OpcodeFrom(13) && Ok(Receive) == OpcodeFrom(14) && Ok(Abort) == OpcodeFrom(15) && Ok(Heartbeat) == OpcodeFrom(16)
    ensures Ok(Leave) == OpcodeFrom(17) && Ok(SetTimeout) == OpcodeFrom(18) && Ok(PeerEndpoint) == OpcodeFrom(19)
  {
  }

  // How many bytes an element takes; none where there is no element type.
  lemma ElementWidths(element: ElementType)
    ensures ByteWidth(element) == if element == NoElement then 0 else if element in {F16, BF16, I16, UInt16} then 2
      else if element in {UInt32, I32, F32} then 4 else if element in {I64, F64, UInt64, Complex64} then 8 else if element == Complex128 then 16 else 1
  {
  }

  lemma ElementCodes()
    ensures Ok(NoElement) == ElementFrom(0) && Ok(U8) == ElementFrom(1) && Ok(UInt32) == ElementFrom(2) && Ok(I32) == ElementFrom(3)
    ensures Ok(F32) == ElementFrom(4) && Ok(F16) == ElementFrom(5) && Ok(BF16) == ElementFrom(6) && Ok(Bool) == ElementFrom(7)
    ensures Ok(I8) == ElementFrom(8) && Ok(I16) == ElementFrom(9) && Ok(I64) == ElementFrom(10) && Ok(F64) == ElementFrom(11)
    ensures Ok(UInt16) == ElementFrom(12) && Ok(UInt64) == ElementFrom(13) && Ok(Complex64) == ElementFrom(14) && Ok(Complex128) == ElementFrom(15)
    ensures Ok(F8E4M3Fn) == ElementFrom(16) && Ok(F8E5M2) == ElementFrom(17) && Ok(F8E4M3Fnuz) == ElementFrom(18) && Ok(F8E5M2Fnuz) == ElementFrom(19)
    ensures Ok(F8E8M0Fnu) == ElementFrom(20) && Ok(F4E2M1FnX2) == ElementFrom(21)
  {
  }
}
