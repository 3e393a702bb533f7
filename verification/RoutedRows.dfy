// src/rank/network.rs: which frames of an all-to-all are read, what rows they hold and what the answers
// carry, byte by byte.
module RoutedRows {
  import opened Wrappers
  import opened Numbers
  import opened Layout
  import opened Transpose
  import opened Bytes
  import opened FrameCodec
  import opened FrameRules
  import opened Routing

  // ---- reading -----------------------------------------------------------------------------------

  // A prefix of eight-byte counts, one per rank, then as many elements as they name together, which is
  // what the header announces.
  ghost predicate Reads(frame: Frame, world: nat, width: nat, row: Row) {
    && frame.header.flags / 2 % 2 == 1 && world * 8 <= 0xFFFF_FFFF_FFFF_FFFF
    && |row.counts| == world && |frame.payload| == world * 8 + |row.data| && frame.payload[world * 8..] == row.data
    && (forall i, at: nat | 0 <= i < world && at == i * 8 :: at + 8 <= |frame.payload| && Eight(frame.payload, at) == row.counts[i])
    && Sum(row.counts) == frame.header.elementCount && |row.data| == Sum(row.counts) * width <= 0xFFFF_FFFF_FFFF_FFFF
  }

  lemma CountAt(payload: seq<Byte>, world: nat, i: nat)
    requires world * 8 <= |payload| && i < world
    ensures i * 8 + 8 <= |payload| && CountsIn(payload[..world * 8], world)[i] == Eight(payload, i * 8)
  {
    assert i * 8 + 8 <= world * 8;
    assert payload[..world * 8][i * 8..i * 8 + 8] == payload[i * 8..i * 8 + 8];
    EightIs(payload, i * 8);
  }

  lemma CountsAre(payload: seq<Byte>, world: nat, counts: seq<nat>)
    requires world * 8 <= |payload| && |counts| == world
    ensures counts == CountsIn(payload[..world * 8], world) <==>
      forall i, at: nat | 0 <= i < world && at == i * 8 :: at + 8 <= |payload| && Eight(payload, at) == counts[i]
  {
    forall i: nat | i < world ensures i * 8 + 8 <= |payload| && CountsIn(payload[..world * 8], world)[i] == Eight(payload, i * 8) {
      CountAt(payload, world, i);
    }
  }

  lemma ReadExactlyWhen(frame: Frame, world: nat, width: nat, row: Row)
    ensures DecodeCounts(frame, world, width) == Ok(row) <==> Reads(frame, world, width, row)
  {
    if world * 8 <= |frame.payload| && |row.counts| == world { CountsAre(frame.payload, world, row.counts); }
  }

  // What is wrong with a frame that is not read, the first of these: no prefix flag, counts that do not
  // fit, counts that another number of elements was announced for, elements that do not fit, other data.
  lemma RefusedBecause(frame: Frame, world: nat, width: nat, counts: seq<nat>)
    requires DecodeCounts(frame, world, width).Err?
    requires world * 8 <= |frame.payload| ==> counts == CountsIn(frame.payload[..world * 8], world)
    ensures DecodeCounts(frame, world, width).error ==
      if frame.header.flags / 2 % 2 == 0 then MissingCounts
      else if world * 8 > 0xFFFF_FFFF_FFFF_FFFF then SizeOverflow
      else if |frame.payload| < world * 8 then TruncatedCounts
      else if Sum(counts) > 0xFFFF_FFFF_FFFF_FFFF then CountOverflow
      else if Sum(counts) != frame.header.elementCount then CountMismatch
      else if Sum(counts) * width > 0xFFFF_FFFF_FFFF_FFFF then SizeOverflow
      else DataLength
  {
  }

  // ---- the answers to an unequal exchange --------------------------------------------------------

  // The block source s holds for rank d: it starts after the blocks for the ranks before.
  ghost predicate IsBlock(row: Row, width: nat, d: nat, block: seq<Byte>) {
    d < |row.counts| && var start, bytes := Sum(row.counts[..d]) * width, row.counts[d] * width;
    start + bytes <= |row.data| && block == row.data[start..start + bytes]
  }

  // Source by source, the counts and the blocks for rank d.
  ghost predicate IsRowFor(rows: seq<Row>, width: nat, d: nat, row: Row, blocks: seq<seq<Byte>>) {
    && |row.counts| == |blocks| == |rows| && row.data == Concatenated(blocks)
    && forall s | 0 <= s < |rows| :: d < |rows[s].counts| && row.counts[s] == rows[s].counts[d] && IsBlock(rows[s], width, d, blocks[s])
  }

  lemma DeliveryMeans(rows: seq<Row>, width: nat, d: nat) returns (blocks: seq<seq<Byte>>)
    requires Consistent(rows, width) && d < |rows|
    ensures IsRowFor(rows, width, d, Delivery(rows, width, d), blocks)
  {
    ConsistentFits(rows, width);
    blocks := Delivered(DataOf(rows), ScaledMatrix(CountsOf(rows), width), d);
    forall s | 0 <= s < |rows| ensures IsBlock(rows[s], width, d, blocks[s]) { BlockSlice(rows[s], width, d); }
  }

  // The header of an answer: from the coordinator to rank d, under the requests' number.
  ghost predicate Answers(header: FrameHeader, opcode: Opcode, element: ElementType, uniqueId: Sixteen, sequence: U64, world: nat, d: nat, count: nat) {
    && header.opcode == opcode && header.elementType == element && header.uniqueId == uniqueId && header.sequence == sequence
    && header.sourceRank == 0 && header.destinationRank == d && header.rootRank == 0xFFFF_FFFF && header.worldSize == world
    && header.tag == 0 && header.elementCount == count
  }

  ghost predicate Pays(frame: Frame, flags: nat, crc: Checksum) {
    frame.header.flags == flags && frame.header.payloadBytes == |frame.payload| && frame.header.payloadChecksum == crc(frame.payload)
  }

  // An answer that is built reads back, for rank d, as its counts and blocks.
  lemma AnswerCarries(rows: seq<Row>, element: ElementType, width: nat, uniqueId: Sixteen, sequence: U64, d: nat, crc: Checksum) returns (blocks: seq<seq<Byte>>)
    requires Consistent(rows, width) && d < |rows| < 0x1_0000_0000 && ResponseV(rows, element, width, uniqueId, sequence, d, crc).Ok?
    ensures var frame, row := ResponseV(rows, element, width, uniqueId, sequence, d, crc).value, Delivery(rows, width, d);
      && Answers(frame.header, AllToAllV, element, uniqueId, sequence, |rows|, d, Sum(row.counts)) && Pays(frame, 3, crc)
      && Reads(frame, |rows|, width, row) && IsRowFor(rows, width, d, row, blocks)
  {
    ResponseReads(rows, element, width, uniqueId, sequence, d, crc);
    var frame, row := ResponseV(rows, element, width, uniqueId, sequence, d, crc).value, Delivery(rows, width, d);
    ReadExactlyWhen(frame, |rows|, width, row);
    assert frame.payload != [] by { CountBytesLength(row.counts); }
    PrefixFlag();
    blocks := DeliveryMeans(rows, width, d);
  }

  function TooMuch(count: nat, bytes: nat): RouteError {
    if count > 0xFFFF_FFFF_FFFF_FFFF then CountOverflow else if bytes > 0xFFFF_FFFF_FFFF_FFFF then SizeOverflow else Protocol(PayloadTooLarge)
  }

  // It is built exactly when counts and blocks fit one frame together.
  lemma AnsweredExactlyWhen(rows: seq<Row>, element: ElementType, width: nat, uniqueId: Sixteen, sequence: U64, d: nat, crc: Checksum)
    requires element != NoElement && width == ByteWidth(element) && Consistent(rows, width) && d < |rows| < 0x1_0000_0000
    ensures match ResponseV(rows, element, width, uniqueId, sequence, d, crc)
      case Ok(_) => 8 * |rows| + |Delivery(rows, width, d).data| <= 0x4000_0000
      case Err(error) =>
        && 8 * |rows| + |Delivery(rows, width, d).data| > 0x4000_0000
        && error == TooMuch(Sum(Delivery(rows, width, d).counts), |Delivery(rows, width, d).data|)
  {
    var row := Delivery(rows, width, d);
    CountBytesLength(row.counts);
    assert |row.data| == Sum(row.counts) * width by {
      DeliveredConsistent(rows, width);
      assert Deliveries(rows, width)[d] == row;
    }
    WidthIsPositive(element, Sum(row.counts));
    if 8 * |rows| + |row.data| <= 0x4000_0000 {
      PrefixedFrame(element, uniqueId, sequence, d, |rows|, Sum(row.counts), CountBytes(row.counts) + row.data, crc);
    }
  }

  // ---- the answers to an equal exchange ----------------------------------------------------------

  // Shard d of every payload, source by source.
  ghost predicate AreShards(requests: seq<Frame>, shardBytes: nat, d: nat, shards: seq<seq<Byte>>) {
    |shards| == |requests| && forall s | 0 <= s < |requests| :: IsShard(requests[s].payload, shardBytes, d, shards[s])
  }

  ghost predicate IsShard(payload: seq<Byte>, shardBytes: nat, d: nat, shard: seq<Byte>) {
    d * shardBytes + shardBytes <= |payload| && shard == payload[d * shardBytes..d * shardBytes + shardBytes]
  }

  lemma PieceIsShard(payload: seq<Byte>, world: nat, shardBytes: nat, d: nat)
    requires d < world && |payload| == Sum(UniformRow(world, shardBytes))
    ensures IsShard(payload, shardBytes, d, Piece(payload, UniformRow(world, shardBytes), d))
  {
    PieceBounds(UniformRow(world, shardBytes), d);
    UniformPrefix(UniformRow(world, shardBytes), shardBytes, d);
  }

  lemma ShardAnswerCarries(requests: seq<Frame>, shardBytes: nat, count: U64, element: ElementType, uniqueId: Sixteen, sequence: U64, d: nat, crc: Checksum)
    returns (shards: seq<seq<Byte>>)
    requires d < |requests| < 0x1_0000_0000 && Fits(Payloads(requests), Uniform(|requests|, shardBytes))
    requires Response(requests, shardBytes, count, element, uniqueId, sequence, d, crc).Ok?
    ensures var frame := Response(requests, shardBytes, count, element, uniqueId, sequence, d, crc).value;
      && Answers(frame.header, AllToAll, element, uniqueId, sequence, |requests|, d, count)
      && Pays(frame, if frame.payload == [] then 0 else 1, crc)
      && AreShards(requests, shardBytes, d, shards) && frame.payload == Concatenated(shards)
  {
    shards := Delivered(Payloads(requests), Uniform(|requests|, shardBytes), d);
    forall s | 0 <= s < |requests| ensures IsShard(requests[s].payload, shardBytes, d, shards[s]) {
      ShardOf(requests, shardBytes, d, s);
      PieceIsShard(requests[s].payload, |requests|, shardBytes, d);
    }
  }

  lemma ShardPayload(requests: seq<Frame>, shardBytes: nat, d: nat)
    requires d < |requests| && Fits(Payloads(requests), Uniform(|requests|, shardBytes))
    ensures |Exchanged(Payloads(requests), Uniform(|requests|, shardBytes))[d]| == |requests| * shardBytes
  {
    var shards := Delivered(Payloads(requests), Uniform(|requests|, shardBytes), d);
    ConcatenatedLength(shards);
    assert Lengths(shards) == UniformRow(|requests|, shardBytes);
    UniformSum(UniformRow(|requests|, shardBytes), shardBytes);
  }

  // A payload as long as its header announces is framed unless it is too long, or has elements without a type.
  lemma FramedExactlyWhen(element: ElementType, uniqueId: Sixteen, sequence: U64, d: U32, world: U32, count: U64, payload: seq<Byte>, crc: Checksum)
    requires d < world && |payload| == count * ByteWidth(element)
    ensures NewFrame(ResponseHeader(uniqueId, AllToAll, element, sequence, d, world, count, crc), payload, crc).Ok? <==>
      |payload| <= 0x4000_0000 && (element == NoElement ==> count == 0)
  {
    var header := ResponseHeader(uniqueId, AllToAll, element, sequence, d, world, count, crc);
    if element != NoElement { WidthIsPositive(element, count); }
    if 0 < |payload| <= 0x4000_0000 {
      NewFrameExactlyWhen(header, payload, crc, header.(flags := 1, payloadBytes := |payload|, payloadChecksum := crc(payload)));
    }
  }

  lemma ShardAnsweredExactlyWhen(requests: seq<Frame>, shardBytes: nat, count: U64, element: ElementType, uniqueId: Sixteen, sequence: U64, d: nat, crc: Checksum)
    requires d < |requests| < 0x1_0000_0000 && Fits(Payloads(requests), Uniform(|requests|, shardBytes))
    requires count % |requests| == 0 && shardBytes == count / |requests| * ByteWidth(element)
    ensures Response(requests, shardBytes, count, element, uniqueId, sequence, d, crc).Ok? <==>
      count * ByteWidth(element) <= 0x4000_0000 && (element == NoElement ==> count == 0)
  {
    ShardPayload(requests, shardBytes, d);
    SplitBytes(count, |requests|, ByteWidth(element));
    FramedExactlyWhen(element, uniqueId, sequence, d, |requests|, count, Exchanged(Payloads(requests), Uniform(|requests|, shardBytes))[d], crc);
  }
}
