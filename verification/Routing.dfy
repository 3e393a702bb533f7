// src/rank/network.rs, src/rank/payload.rs: the coordinator's all-to-all, on payload bytes.
module Routing {
  import opened Wrappers
  import opened Numbers
  import opened Bytes
  import opened Layout
  import opened Transpose
  import opened FrameCodec


  datatype RouteError =
    | NoConcreteType | MissingCounts | TruncatedCounts | CountOverflow | CountMismatch | SizeOverflow | DataLength
    | WrongPayload(rank: nat) | NotDivisible | Protocol(error: ProtocolError)

  // ---- the counts prefix -------------------------------------------------------------------------

  predicate AllU64(counts: seq<nat>) {
    forall i | 0 <= i < |counts| :: counts[i] <= USIZE_MAX
  }

  function CountFields(counts: seq<nat>): (fields: seq<seq<Byte>>)
    ensures |fields| == |counts|
  {
    seq(|counts|, i requires 0 <= i < |counts| => LittleEndian(counts[i], 8))
  }

  function CountBytes(counts: seq<nat>): seq<Byte> {
    Concatenated(CountFields(counts))
  }

  method EncodeCounts(counts: seq<nat>) returns (encoded: seq<Byte>)
    ensures encoded == CountBytes(counts)
  {
    encoded := [];
    ghost var fields := CountFields(counts);
    for i := 0 to |counts|
      invariant encoded == Concatenated(fields[..i])
    {
      assert fields[..i + 1][..i] == fields[..i];
      encoded := encoded + LittleEndian(counts[i], 8);
    }
    assert fields[..|counts|] == fields;
  }

  function CountsIn(prefix: seq<Byte>, world: nat): (counts: seq<nat>)
    requires |prefix| == world * 8
    ensures |counts| == world
  {
    seq(world, i requires 0 <= i < world => FromLittleEndian(prefix[i * 8..i * 8 + 8]))
  }

  lemma CountBytesLength(counts: seq<nat>)
    ensures |CountBytes(counts)| == |counts| * 8 && Lengths(CountFields(counts)) == UniformRow(|counts|, 8)
  {
    ConcatenatedLength(CountFields(counts));
    assert Lengths(CountFields(counts)) == UniformRow(|counts|, 8);
    UniformSum(UniformRow(|counts|, 8), 8);
  }

  lemma CountsRoundTrip(counts: seq<nat>)
    requires AllU64(counts)
    ensures |CountBytes(counts)| == |counts| * 8 && CountsIn(CountBytes(counts), |counts|) == counts
  {
    CountBytesLength(counts);
    forall i | 0 <= i < |counts| ensures CountsIn(CountBytes(counts), |counts|)[i] == counts[i] {
      PieceOfConcatenated(CountFields(counts), i);
      UniformPrefix(UniformRow(|counts|, 8), 8, i);
      Powers();
      NumberRoundTrip(counts[i], 8);
    }
  }

  lemma CountsReencode(prefix: seq<Byte>, world: nat)
    requires |prefix| == world * 8
    ensures CountBytes(CountsIn(prefix, world)) == prefix && AllU64(CountsIn(prefix, world))
  {
    var counts, widths := CountsIn(prefix, world), UniformRow(world, 8);
    UniformSum(widths, 8);
    forall i | 0 <= i < world ensures CountFields(counts)[i] == Pieces(prefix, widths)[i] && counts[i] <= USIZE_MAX {
      CountReencodes(prefix, world, i);
    }
    assert CountFields(counts) == Pieces(prefix, widths);
    ConcatenatedPieces(prefix, widths);
  }

  lemma CountReencodes(prefix: seq<Byte>, world: nat, i: nat)
    requires |prefix| == world * 8 == Sum(UniformRow(world, 8)) && i < world
    ensures LittleEndian(CountsIn(prefix, world)[i], 8) == Piece(prefix, UniformRow(world, 8), i) && CountsIn(prefix, world)[i] <= USIZE_MAX
  {
    UniformPrefix(UniformRow(world, 8), 8, i);
    BytesRoundTrip(prefix[i * 8..i * 8 + 8]);
    Powers();
  }

  // ---- reading a frame of an unequal exchange ----------------------------------------------------

  datatype Row = Row(counts: seq<nat>, data: seq<Byte>)

  // The request side and the response side read frames alike.
  function DecodeCounts(frame: Frame, world: nat, elementBytes: nat): (row: Result<Row, RouteError>)
    ensures row.Ok? ==> |row.value.counts| == world && |row.value.data| == Sum(row.value.counts) * elementBytes
  {
    if !HasCountsPrefix(frame.header.flags) then Err(MissingCounts)
    else if world * 8 > USIZE_MAX then Err(SizeOverflow)
    else if |frame.payload| < world * 8 then Err(TruncatedCounts)
    else
      var counts, data := CountsIn(frame.payload[..world * 8], world), frame.payload[world * 8..];
      if Sum(counts) > USIZE_MAX then Err(CountOverflow)
      else if Sum(counts) != frame.header.elementCount then Err(CountMismatch)
      else if Sum(counts) * elementBytes > USIZE_MAX then Err(SizeOverflow)
      else if |data| != Sum(counts) * elementBytes then Err(DataLength)
      else Ok(Row(counts, data))
  }

  lemma DecodedPayload(frame: Frame, world: nat, elementBytes: nat)
    requires DecodeCounts(frame, world, elementBytes).Ok?
    ensures var row := DecodeCounts(frame, world, elementBytes).value;
      frame.payload == CountBytes(row.counts) + row.data && AllU64(row.counts) && Sum(row.counts) == frame.header.elementCount
  {
    CountsReencode(frame.payload[..world * 8], world);
    assert frame.payload == frame.payload[..world * 8] + frame.payload[world * 8..];
  }

  lemma DecodeWritten(frame: Frame, row: Row, elementBytes: nat)
    requires HasCountsPrefix(frame.header.flags) && AllU64(row.counts) && |row.counts| * 8 <= USIZE_MAX
    requires frame.payload == CountBytes(row.counts) + row.data && frame.header.elementCount == Sum(row.counts)
    requires Sum(row.counts) * elementBytes == |row.data| <= USIZE_MAX
    ensures DecodeCounts(frame, |row.counts|, elementBytes) == Ok(row)
  {
    CountsRoundTrip(row.counts);
    assert frame.payload[..|row.counts| * 8] == CountBytes(row.counts) && frame.payload[|row.counts| * 8..] == row.data;
  }

  // ---- the exchange ------------------------------------------------------------------------------

  ghost predicate IsFirstUnread(requests: seq<Frame>, world: nat, elementBytes: nat, s: nat, error: RouteError) {
    && s < |requests| && DecodeCounts(requests[s], world, elementBytes) == Err(error)
    && forall q | 0 <= q < s :: DecodeCounts(requests[q], world, elementBytes).Ok?
  }

  function Rows(requests: seq<Frame>, world: nat, elementBytes: nat): (rows: Result<seq<Row>, RouteError>)
    ensures rows.Ok? ==> |rows.value| == |requests|
    ensures rows.Ok? ==> forall s | 0 <= s < |requests| :: DecodeCounts(requests[s], world, elementBytes) == Ok(rows.value[s])
    ensures rows.Err? ==> exists s: nat :: IsFirstUnread(requests, world, elementBytes, s, rows.error)
  {
    if requests == [] then Ok([])
    else
      var front := Rows(requests[..|requests| - 1], world, elementBytes);
      if front.Err? then
        assert exists s: nat :: IsFirstUnread(requests, world, elementBytes, s, front.error) by {
          var s: nat :| IsFirstUnread(requests[..|requests| - 1], world, elementBytes, s, front.error);
          assert IsFirstUnread(requests, world, elementBytes, s, front.error);
        }
        front
      else
        match DecodeCounts(requests[|requests| - 1], world, elementBytes)
        case Err(e) =>
          assert IsFirstUnread(requests, world, elementBytes, |requests| - 1, e);
          Err(e)
        case Ok(row) => Ok(front.value + [row])
  }

  function CountsOf(rows: seq<Row>): (counts: seq<seq<nat>>)
    ensures |counts| == |rows|
  {
    seq(|rows|, s requires 0 <= s < |rows| => rows[s].counts)
  }

  function DataOf(rows: seq<Row>): (data: seq<seq<Byte>>)
    ensures |data| == |rows|
  {
    seq(|rows|, s requires 0 <= s < |rows| => rows[s].data)
  }

  ghost predicate Consistent(rows: seq<Row>, elementBytes: nat) {
    forall s | 0 <= s < |rows| :: |rows[s].counts| == |rows| && |rows[s].data| == Sum(rows[s].counts) * elementBytes
  }

  lemma ConsistentFits(rows: seq<Row>, elementBytes: nat)
    requires Consistent(rows, elementBytes)
    ensures Square(CountsOf(rows)) && Fits(DataOf(rows), ScaledMatrix(CountsOf(rows), elementBytes))
  {
    forall s | 0 <= s < |rows| ensures |DataOf(rows)[s]| == Sum(ScaledMatrix(CountsOf(rows), elementBytes)[s]) {
      ScaledSum(rows[s].counts, elementBytes);
    }
  }

  // What destination d is sent: its column of counts and its blocks, in source order.
  ghost function Delivery(rows: seq<Row>, elementBytes: nat, d: nat): Row
    requires Consistent(rows, elementBytes) && d < |rows|
  {
    ConsistentFits(rows, elementBytes);
    Row(Column(CountsOf(rows), d), Exchanged(DataOf(rows), ScaledMatrix(CountsOf(rows), elementBytes))[d])
  }

  function ResponseHeader(uniqueId: Sixteen, opcode: Opcode, element: ElementType, sequence: U64, destination: U32, world: U32, count: U64, crc: Checksum): FrameHeader {
    FrameHeader(opcode, element, 0, 0, destination, ANY_RANK, world, sequence, 0, count, 0, uniqueId, crc([]))
  }

  ghost function ResponseV(rows: seq<Row>, element: ElementType, elementBytes: nat, uniqueId: Sixteen, sequence: U64, d: nat, crc: Checksum): Result<Frame, RouteError>
    requires Consistent(rows, elementBytes) && d < |rows| < 0x1_0000_0000
  {
    var out := Delivery(rows, elementBytes, d);
    if Sum(out.counts) > USIZE_MAX then Err(CountOverflow)
    else if Sum(out.counts) * elementBytes > USIZE_MAX then Err(SizeOverflow)
    else
      var header := ResponseHeader(uniqueId, AllToAllV, element, sequence, d, |rows|, Sum(out.counts), crc);
      match NewFrame(header.(flags := FLAG_COUNTS_PREFIX), CountBytes(out.counts) + out.data, crc)
      case Err(e) => Err(Protocol(e))
      case Ok(frame) => Ok(frame)
  }

  lemma BlockSlice(row: Row, elementBytes: nat, d: nat)
    requires d < |row.counts| && |row.data| == Sum(row.counts) * elementBytes
    ensures var start, bytes := Sum(row.counts[..d]) * elementBytes, row.counts[d] * elementBytes;
      && start + bytes <= |row.data| && |row.data| == Sum(Scaled(row.counts, elementBytes))
      && row.data[start..start + bytes] == Piece(row.data, Scaled(row.counts, elementBytes), d)
  {
    ScaledSum(row.counts, elementBytes);
    BlockBytes(row.counts, elementBytes, d);
  }

  // Append source s's block for destination d to the payload being built.
  method AppendBlocks(rows: seq<Row>, elementBytes: nat, d: nat, head: seq<Byte>) returns (payload: seq<Byte>)
    requires Consistent(rows, elementBytes) && d < |rows|
    ensures payload == head + Delivery(rows, elementBytes, d).data
  {
    ConsistentFits(rows, elementBytes);
    payload := head;
    ghost var blocks := Delivered(DataOf(rows), ScaledMatrix(CountsOf(rows), elementBytes), d);
    for s := 0 to |rows|
      invariant payload == head + Concatenated(blocks[..s])
    {
      var block := TakeBlock(rows[s], elementBytes, d);
      NextBlock(head, blocks, s);
      payload := payload + block;
    }
    assert blocks[..|rows|] == blocks;
  }

  method TakeBlock(row: Row, elementBytes: nat, d: nat) returns (block: seq<Byte>)
    requires d < |row.counts| && |row.data| == Sum(row.counts) * elementBytes
    ensures |row.data| == Sum(Scaled(row.counts, elementBytes)) && block == Piece(row.data, Scaled(row.counts, elementBytes), d)
  {
    BlockSlice(row, elementBytes, d);
    var start := Sum(row.counts[..d]) * elementBytes;
    var bytes := row.counts[d] * elementBytes;
    block := row.data[start..start + bytes];
  }

  lemma NextBlock(head: seq<Byte>, blocks: seq<seq<Byte>>, s: nat)
    requires s < |blocks|
    ensures head + Concatenated(blocks[..s + 1]) == head + Concatenated(blocks[..s]) + blocks[s]
  {
    assert blocks[..s + 1][..s] == blocks[..s];
  }

  lemma BlockBytes(counts: seq<nat>, elementBytes: nat, d: nat)
    requires d < |counts|
    ensures Prefix(Scaled(counts, elementBytes), d) == Sum(counts[..d]) * elementBytes
    ensures Sum(counts[..d]) * elementBytes + counts[d] * elementBytes <= Sum(counts) * elementBytes
  {
    ScaledPrefix(counts, elementBytes, d);
    PieceBounds(Scaled(counts, elementBytes), d);
    ScaledSum(counts, elementBytes);
  }

  ghost predicate AreResponses(rows: seq<Row>, responses: seq<Frame>, element: ElementType, elementBytes: nat, uniqueId: Sixteen, sequence: U64, crc: Checksum)
    requires Consistent(rows, elementBytes) && |responses| <= |rows| < 0x1_0000_0000
  {
    forall d | 0 <= d < |responses| :: ResponseV(rows, element, elementBytes, uniqueId, sequence, d, crc) == Ok(responses[d])
  }

  ghost predicate IsFirstUnbuilt(rows: seq<Row>, element: ElementType, elementBytes: nat, uniqueId: Sixteen, sequence: U64, d: nat, crc: Checksum,
                                 error: RouteError)
    requires Consistent(rows, elementBytes) && |rows| < 0x1_0000_0000
  {
    && d < |rows| && ResponseV(rows, element, elementBytes, uniqueId, sequence, d, crc) == Err(error)
    && forall e | 0 <= e < d :: ResponseV(rows, element, elementBytes, uniqueId, sequence, e, crc).Ok?
  }

  // Every rank's frame is read, in rank order, before any response is built; the first response that
  // cannot be built ends the routing.
  method RouteAllToAllV(requests: seq<Frame>, uniqueId: Sixteen, sequence: U64, element: ElementType, crc: Checksum)
    returns (result: Result<seq<Frame>, RouteError>)
    requires |requests| < 0x1_0000_0000
    ensures element == NoElement ==> result == Err(NoConcreteType)
    ensures element != NoElement && Rows(requests, |requests|, ByteWidth(element)).Err? ==>
      result == Err(Rows(requests, |requests|, ByteWidth(element)).error)
    ensures element != NoElement && Rows(requests, |requests|, ByteWidth(element)).Ok? ==>
      var rows := Rows(requests, |requests|, ByteWidth(element)).value;
      && Consistent(rows, ByteWidth(element))
      && (result.Ok? ==> |result.value| == |requests| && AreResponses(rows, result.value, element, ByteWidth(element), uniqueId, sequence, crc))
      && (result.Err? ==> exists d: nat :: IsFirstUnbuilt(rows, element, ByteWidth(element), uniqueId, sequence, d, crc, result.error))
  {
    var width := ByteWidth(element);
    if element == NoElement || width == 0 { return Err(NoConcreteType); }
    var decoded := Rows(requests, |requests|, width);
    if decoded.Err? { return Err(decoded.error); }
    result := BuildAll(decoded.value, element, width, uniqueId, sequence, crc);
  }

  method BuildAll(rows: seq<Row>, element: ElementType, elementBytes: nat, uniqueId: Sixteen, sequence: U64, crc: Checksum)
    returns (result: Result<seq<Frame>, RouteError>)
    requires Consistent(rows, elementBytes) && |rows| < 0x1_0000_0000
    ensures result.Ok? ==> |result.value| == |rows| && AreResponses(rows, result.value, element, elementBytes, uniqueId, sequence, crc)
    ensures result.Err? ==> exists d: nat :: IsFirstUnbuilt(rows, element, elementBytes, uniqueId, sequence, d, crc, result.error)
  {
    var responses := [];
    for d := 0 to |rows|
      invariant |responses| == d && AreResponses(rows, responses, element, elementBytes, uniqueId, sequence, crc)
    {
      var response := BuildResponse(rows, element, elementBytes, uniqueId, sequence, d, crc);
      if response.Err? {
        assert IsFirstUnbuilt(rows, element, elementBytes, uniqueId, sequence, d, crc, response.error);
        return Err(response.error);
      }
      OneMoreResponse(rows, responses, response.value, element, elementBytes, uniqueId, sequence, crc);
      responses := responses + [response.value];
    }
    result := Ok(responses);
  }

  lemma OneMoreResponse(rows: seq<Row>, responses: seq<Frame>, next: Frame, element: ElementType, elementBytes: nat, uniqueId: Sixteen, sequence: U64, crc: Checksum)
    requires Consistent(rows, elementBytes) && |responses| < |rows| < 0x1_0000_0000
    requires AreResponses(rows, responses, element, elementBytes, uniqueId, sequence, crc)
    requires ResponseV(rows, element, elementBytes, uniqueId, sequence, |responses|, crc) == Ok(next)
    ensures AreResponses(rows, responses + [next], element, elementBytes, uniqueId, sequence, crc)
  {
  }

  method BuildResponse(rows: seq<Row>, element: ElementType, elementBytes: nat, uniqueId: Sixteen, sequence: U64, d: nat, crc: Checksum)
    returns (response: Result<Frame, RouteError>)
    requires Consistent(rows, elementBytes) && d < |rows| < 0x1_0000_0000
    ensures response == ResponseV(rows, element, elementBytes, uniqueId, sequence, d, crc)
  {
    ConsistentFits(rows, elementBytes);
    var receiveCounts := Column(CountsOf(rows), d);
    var total := Sum(receiveCounts);
    if total > USIZE_MAX { return Err(CountOverflow); }
    if total * elementBytes > USIZE_MAX { return Err(SizeOverflow); }
    var head := EncodeCounts(receiveCounts);
    var payload := AppendBlocks(rows, elementBytes, d, head);
    var header := ResponseHeader(uniqueId, AllToAllV, element, sequence, d, |rows|, total, crc);
    match NewFrame(header.(flags := FLAG_COUNTS_PREFIX), payload, crc) {
      case Err(e) => return Err(Protocol(e));
      case Ok(frame) => return Ok(frame);
    }
  }

  // ---- routing twice -----------------------------------------------------------------------------

  // A rank hands the response it received back in: the same frame, from itself.
  function Resubmitted(response: Frame, rank: U32): Frame {
    response.(header := response.header.(sourceRank := rank))
  }

  function AllResubmitted(responses: seq<Frame>): (again: seq<Frame>)
    requires |responses| < 0x1_0000_0000
    ensures |again| == |responses|
  {
    seq(|responses|, r requires 0 <= r < |responses| => Resubmitted(responses[r], r))
  }

  lemma PrefixFlag()
    ensures HasCountsPrefix(FLAG_COUNTS_PREFIX) && !HasPayload(FLAG_COUNTS_PREFIX) && HasCountsPrefix(3) && HasPayload(3)
  {
  }

  // A response, and so a resubmission, reads back as exactly what was delivered.
  lemma ResponseReads(rows: seq<Row>, element: ElementType, elementBytes: nat, uniqueId: Sixteen, sequence: U64, d: nat, crc: Checksum)
    requires Consistent(rows, elementBytes) && d < |rows| < 0x1_0000_0000
    requires ResponseV(rows, element, elementBytes, uniqueId, sequence, d, crc).Ok?
    ensures var frame, out := ResponseV(rows, element, elementBytes, uniqueId, sequence, d, crc).value, Delivery(rows, elementBytes, d);
      && frame.payload == CountBytes(out.counts) + out.data
      && DecodeCounts(frame, |rows|, elementBytes) == Ok(out) && DecodeCounts(Resubmitted(frame, d), |rows|, elementBytes) == Ok(out)
  {
    var frame, out := ResponseV(rows, element, elementBytes, uniqueId, sequence, d, crc).value, Delivery(rows, elementBytes, d);
    PrefixFlag();
    CountBytesLength(out.counts);
    ConsistentFits(rows, elementBytes);
    DeliveredLengths(DataOf(rows), ScaledMatrix(CountsOf(rows), elementBytes), d);
    ScaledColumn(CountsOf(rows), elementBytes, d);
    ScaledSum(out.counts, elementBytes);
    ColumnBelowSum(out.counts);
    DecodeWritten(frame, out, elementBytes);
    DecodeWritten(Resubmitted(frame, d), out, elementBytes);
  }

  lemma ColumnBelowSum(counts: seq<nat>)
    requires Sum(counts) <= USIZE_MAX
    ensures AllU64(counts)
  {
    forall i | 0 <= i < |counts| ensures counts[i] <= USIZE_MAX { PieceBounds(counts, i); }
  }

  ghost function Deliveries(rows: seq<Row>, elementBytes: nat): (out: seq<Row>)
    requires Consistent(rows, elementBytes)
    ensures |out| == |rows|
  {
    seq(|rows|, d requires 0 <= d < |rows| => Delivery(rows, elementBytes, d))
  }

  lemma DeliveredConsistent(rows: seq<Row>, elementBytes: nat)
    requires Consistent(rows, elementBytes)
    ensures Consistent(Deliveries(rows, elementBytes), elementBytes)
  {
    var out, counts, data, matrix := Deliveries(rows, elementBytes), CountsOf(rows), DataOf(rows), ScaledMatrix(CountsOf(rows), elementBytes);
    ConsistentFits(rows, elementBytes);
    forall d | 0 <= d < |rows| ensures |out[d].data| == Sum(out[d].counts) * elementBytes {
      DeliveredLengths(data, matrix, d);
      ScaledColumn(counts, elementBytes, d);
      ScaledSum(Column(counts, d), elementBytes);
    }
  }

  // Delivering transposes the counts and exchanges the data.
  lemma DeliveredParts(rows: seq<Row>, elementBytes: nat)
    requires Consistent(rows, elementBytes)
    ensures Square(CountsOf(rows)) && Fits(DataOf(rows), ScaledMatrix(CountsOf(rows), elementBytes))
    ensures CountsOf(Deliveries(rows, elementBytes)) == Transposed(CountsOf(rows))
    ensures DataOf(Deliveries(rows, elementBytes)) == Exchanged(DataOf(rows), ScaledMatrix(CountsOf(rows), elementBytes))
  {
    ConsistentFits(rows, elementBytes);
    var out := Deliveries(rows, elementBytes);
    assert CountsOf(out) == Transposed(CountsOf(rows));
    assert DataOf(out) == Exchanged(DataOf(rows), ScaledMatrix(CountsOf(rows), elementBytes));
  }

  lemma SameParts(a: seq<Row>, b: seq<Row>)
    requires CountsOf(a) == CountsOf(b) && DataOf(a) == DataOf(b) && |a| == |b|
    ensures a == b
  {
    forall s | 0 <= s < |a| ensures a[s] == b[s] {
      assert CountsOf(a)[s] == CountsOf(b)[s] && DataOf(a)[s] == DataOf(b)[s];
    }
  }

  // Delivering what was delivered gives every rank its own row back.
  lemma DeliveredTwice(rows: seq<Row>, elementBytes: nat)
    requires Consistent(rows, elementBytes)
    ensures Consistent(Deliveries(rows, elementBytes), elementBytes)
    ensures Deliveries(Deliveries(rows, elementBytes), elementBytes) == rows
  {
    var out := Deliveries(rows, elementBytes);
    DeliveredConsistent(rows, elementBytes);
    DeliveredParts(rows, elementBytes);
    DeliveredParts(out, elementBytes);
    ScaledTransposed(CountsOf(rows), elementBytes);
    ExchangedTwice(DataOf(rows), ScaledMatrix(CountsOf(rows), elementBytes));
    TransposedTwice(CountsOf(rows));
    SameParts(Deliveries(out, elementBytes), rows);
  }

  // The resubmitted responses read back as everything that was delivered.
  lemma ResubmittedRows(rows: seq<Row>, responses: seq<Frame>, element: ElementType, uniqueId: Sixteen, sequence: U64, crc: Checksum)
    requires |rows| == |responses| < 0x1_0000_0000 && Consistent(rows, ByteWidth(element))
    requires AreResponses(rows, responses, element, ByteWidth(element), uniqueId, sequence, crc)
    ensures Rows(AllResubmitted(responses), |rows|, ByteWidth(element)) == Ok(Deliveries(rows, ByteWidth(element)))
  {
    var width, again := ByteWidth(element), AllResubmitted(responses);
    forall d | 0 <= d < |rows| ensures DecodeCounts(again[d], |rows|, width) == Ok(Deliveries(rows, width)[d]) {
      ResponseReads(rows, element, width, uniqueId, sequence, d, crc);
    }
    assert Rows(again, |rows|, width).value == Deliveries(rows, width);
  }

  // All-to-all-v is a transpose: handing the responses back in routes successfully and returns every
  // original payload, counts prefix included.
  lemma RoutingTwiceRestores(requests: seq<Frame>, responses: seq<Frame>, element: ElementType, uniqueId: Sixteen, sequence: U64, crc: Checksum)
    requires 0 < |requests| == |responses| < 0x1_0000_0000 && element != NoElement
    requires forall s | 0 <= s < |requests| :: |requests[s].payload| <= MAX_FRAME_PAYLOAD_BYTES
    requires Rows(requests, |requests|, ByteWidth(element)).Ok?
    requires Consistent(Rows(requests, |requests|, ByteWidth(element)).value, ByteWidth(element))
    requires AreResponses(Rows(requests, |requests|, ByteWidth(element)).value, responses, element, ByteWidth(element), uniqueId, sequence, crc)
    ensures var again := AllResubmitted(responses);
      && Rows(again, |again|, ByteWidth(element)).Ok?
      && var back := Rows(again, |again|, ByteWidth(element)).value;
      && Consistent(back, ByteWidth(element))
      && forall s | 0 <= s < |requests| :: var frame := ResponseV(back, element, ByteWidth(element), uniqueId, sequence, s, crc);
           frame.Ok? && frame.value.payload == requests[s].payload
  {
    var width, again := ByteWidth(element), AllResubmitted(responses);
    var rows := Rows(requests, |requests|, width).value;
    ResubmittedRows(rows, responses, element, uniqueId, sequence, crc);
    var back := Deliveries(rows, width);
    DeliveredTwice(rows, width);
    forall s | 0 <= s < |requests|
      ensures var frame := ResponseV(back, element, width, uniqueId, sequence, s, crc); frame.Ok? && frame.value.payload == requests[s].payload
    {
      DecodedPayload(requests[s], |requests|, width);
      assert Delivery(back, width, s) == Deliveries(back, width)[s] == rows[s];
      RestoredResponse(back, rows[s], element, uniqueId, sequence, s, crc);
    }
  }

  lemma RestoredResponse(back: seq<Row>, row: Row, element: ElementType, uniqueId: Sixteen, sequence: U64, s: nat, crc: Checksum)
    requires element != NoElement && Consistent(back, ByteWidth(element)) && s < |back| < 0x1_0000_0000
    requires Delivery(back, ByteWidth(element), s) == row && |row.counts| == |back|
    requires |row.data| == Sum(row.counts) * ByteWidth(element) && |CountBytes(row.counts) + row.data| <= MAX_FRAME_PAYLOAD_BYTES
    ensures var frame := ResponseV(back, element, ByteWidth(element), uniqueId, sequence, s, crc);
      frame.Ok? && frame.value.payload == CountBytes(row.counts) + row.data
  {
    CountBytesLength(row.counts);
    WidthIsPositive(element, Sum(row.counts));
    PrefixedFrame(element, uniqueId, sequence, s, |back|, Sum(row.counts), CountBytes(row.counts) + row.data, crc);
  }

  lemma WidthIsPositive(element: ElementType, count: nat)
    requires element != NoElement
    ensures count <= count * ByteWidth(element)
  {
  }

  // A payload of the announced length makes a valid frame.
  lemma PrefixedFrame(element: ElementType, uniqueId: Sixteen, sequence: U64, d: U32, world: U32, count: U64, payload: seq<Byte>, crc: Checksum)
    requires element != NoElement && d < world
    requires |payload| == world * 8 + count * ByteWidth(element) <= MAX_FRAME_PAYLOAD_BYTES
    ensures var header := ResponseHeader(uniqueId, AllToAllV, element, sequence, d, world, count, crc).(flags := FLAG_COUNTS_PREFIX);
      NewFrame(header, payload, crc).Ok? && NewFrame(header, payload, crc).value.payload == payload
  {
    PrefixFlag();
    assert payload != [];
  }

  // ---- the same result as the in-process exchange ------------------------------------------------

  // Elements laid out as bytes, each of the same width.
  ghost predicate Elements(row: seq<seq<Byte>>, width: nat) {
    forall i | 0 <= i < |row| :: |row[i]| == width
  }

  lemma {:induction false} FlatLength(row: seq<seq<Byte>>, width: nat)
    requires Elements(row, width)
    ensures |Concatenated(row)| == |row| * width
  {
    ConcatenatedLength(row);
    assert Lengths(row) == UniformRow(|row|, width);
    UniformSum(UniformRow(|row|, width), width);
  }

  lemma Distribute(a: nat, b: nat, c: nat, width: nat)
    ensures (a + b + c) * width == a * width + b * width + c * width
  {
  }

  lemma ThreeParts(front: seq<seq<Byte>>, middle: seq<seq<Byte>>, back: seq<seq<Byte>>)
    ensures Concatenated(front + middle + back) == Concatenated(front) + Concatenated(middle) + Concatenated(back)
  {
    ConcatenatedAppend(front + middle, back);
    ConcatenatedAppend(front, middle);
  }

  // A run of elements is a run of bytes.
  lemma FlatSlice(row: seq<seq<Byte>>, width: nat, start: nat, count: nat)
    requires Elements(row, width) && start + count <= |row|
    ensures start * width + count * width <= |Concatenated(row)| == |row| * width
    ensures Concatenated(row)[start * width..start * width + count * width] == Concatenated(row[start..start + count])
  {
    var front, middle, back := row[..start], row[start..start + count], row[start + count..];
    FlatLength(row, width);
    FlatLength(front, width);
    FlatLength(middle, width);
    Distribute(start, count, |back|, width);
    assert row == front + middle + back;
    ThreeParts(front, middle, back);
  }

  lemma FlatPiece(row: seq<seq<Byte>>, counts: seq<nat>, width: nat, d: nat)
    requires Elements(row, width) && |row| == Sum(counts) && d < |counts|
    ensures |Concatenated(row)| == Sum(Scaled(counts, width))
    ensures Piece(Concatenated(row), Scaled(counts, width), d) == Concatenated(Piece(row, counts, d))
  {
    PieceBounds(counts, d);
    ScaledSum(counts, width);
    ScaledPrefix(counts, width, d);
    FlatSlice(row, width, Prefix(counts, d), counts[d]);
  }

  function Flattened(rows: seq<seq<seq<Byte>>>): (flat: seq<seq<Byte>>)
    ensures |flat| == |rows|
  {
    seq(|rows|, s requires 0 <= s < |rows| => Concatenated(rows[s]))
  }

  lemma {:induction false} FlattenConcatenated(blocks: seq<seq<seq<Byte>>>)
    ensures Concatenated(Concatenated(blocks)) == Concatenated(Flattened(blocks))
  {
    if blocks != [] {
      var front := blocks[..|blocks| - 1];
      FlattenConcatenated(front);
      ConcatenatedAppend(Concatenated(front), blocks[|blocks| - 1]);
      assert Flattened(blocks)[..|blocks| - 1] == Flattened(front);
    }
  }

  // Exchanging bytes with scaled counts is exchanging elements: the coordinator delivers the bytes of
  // what the in-process exchange leaves in each rank's buffer.
  lemma BytesFollowElements(rows: seq<seq<seq<Byte>>>, counts: seq<seq<nat>>, width: nat, d: nat)
    requires Fits(rows, counts) && d < |rows| && forall s | 0 <= s < |rows| :: Elements(rows[s], width)
    ensures Fits(Flattened(rows), ScaledMatrix(counts, width))
    ensures Exchanged(Flattened(rows), ScaledMatrix(counts, width))[d] == Concatenated(Exchanged(rows, counts)[d])
  {
    forall s | 0 <= s < |rows| ensures |Flattened(rows)[s]| == Sum(ScaledMatrix(counts, width)[s]) {
      FlatLength(rows[s], width);
      ScaledSum(counts[s], width);
    }
    forall s | 0 <= s < |rows|
      ensures Delivered(Flattened(rows), ScaledMatrix(counts, width), d)[s] == Flattened(Delivered(rows, counts, d))[s]
    {
      FlatPiece(rows[s], counts[s], width, d);
    }
    assert Delivered(Flattened(rows), ScaledMatrix(counts, width), d) == Flattened(Delivered(rows, counts, d));
    FlattenConcatenated(Delivered(rows, counts, d));
  }

  // ---- equal counts ------------------------------------------------------------------------------

  function Payloads(requests: seq<Frame>): (payloads: seq<seq<Byte>>)
    ensures |payloads| == |requests|
  {
    seq(|requests|, s requires 0 <= s < |requests| => requests[s].payload)
  }

  // The first rank whose payload has another length than the agreed one.
  function WrongLength(requests: seq<Frame>, bytes: nat, rank: nat): (wrong: Option<nat>)
    requires rank <= |requests|
    ensures wrong.None? <==> forall s | rank <= s < |requests| :: |requests[s].payload| == bytes
    ensures wrong.Some? ==> rank <= wrong.value < |requests| && |requests[wrong.value].payload| != bytes
    ensures wrong.Some? ==> forall s | rank <= s < wrong.value :: |requests[s].payload| == bytes
    decreases |requests| - rank
  {
    if rank == |requests| then None
    else if |requests[rank].payload| != bytes then Some(rank)
    else WrongLength(requests, bytes, rank + 1)
  }

  ghost function Response(requests: seq<Frame>, shardBytes: nat, count: U64, element: ElementType, uniqueId: Sixteen, sequence: U64, d: nat, crc: Checksum): Result<Frame, RouteError>
    requires d < |requests| < 0x1_0000_0000 && Fits(Payloads(requests), Uniform(|requests|, shardBytes))
  {
    match NewFrame(ResponseHeader(uniqueId, AllToAll, element, sequence, d, |requests|, count, crc),
                   Exchanged(Payloads(requests), Uniform(|requests|, shardBytes))[d], crc)
    case Err(e) => Err(Protocol(e))
    case Ok(frame) => Ok(frame)
  }

  lemma PayloadsFit(requests: seq<Frame>, shardBytes: nat)
    requires forall s | 0 <= s < |requests| :: |requests[s].payload| == |requests| * shardBytes
    ensures Fits(Payloads(requests), Uniform(|requests|, shardBytes))
  {
    UniformFits(Payloads(requests), shardBytes);
  }

  lemma ShardOf(requests: seq<Frame>, shardBytes: nat, d: nat, s: nat)
    requires Fits(Payloads(requests), Uniform(|requests|, shardBytes)) && d < |requests| && s < |requests|
    ensures |requests[s].payload| == Sum(UniformRow(|requests|, shardBytes))
    ensures Delivered(Payloads(requests), Uniform(|requests|, shardBytes), d)[s] == Piece(requests[s].payload, UniformRow(|requests|, shardBytes), d)
  {
    assert Payloads(requests)[s] == requests[s].payload;
  }

  method GatherShards(requests: seq<Frame>, shardBytes: nat, d: nat) returns (payload: seq<Byte>)
    requires Fits(Payloads(requests), Uniform(|requests|, shardBytes)) && d < |requests|
    ensures payload == Exchanged(Payloads(requests), Uniform(|requests|, shardBytes))[d]
  {
    payload := [];
    ghost var blocks := Delivered(Payloads(requests), Uniform(|requests|, shardBytes), d);
    for s := 0 to |requests|
      invariant payload == Concatenated(blocks[..s])
    {
      ShardOf(requests, shardBytes, d, s);
      var shard := TakeShard(requests[s].payload, |requests|, shardBytes, d);
      assert blocks[..s + 1][..s] == blocks[..s];
      payload := payload + shard;
    }
    assert blocks[..|requests|] == blocks;
  }

  method TakeShard(payload: seq<Byte>, world: nat, shardBytes: nat, d: nat) returns (shard: seq<Byte>)
    requires d < world && |payload| == Sum(UniformRow(world, shardBytes))
    ensures shard == Piece(payload, UniformRow(world, shardBytes), d)
  {
    PieceBounds(UniformRow(world, shardBytes), d);
    UniformPrefix(UniformRow(world, shardBytes), shardBytes, d);
    var start := d * shardBytes;
    shard := payload[start..start + shardBytes];
  }

  method BuildShard(requests: seq<Frame>, shardBytes: nat, count: U64, element: ElementType, uniqueId: Sixteen, sequence: U64, d: nat, crc: Checksum)
    returns (result: Result<Frame, RouteError>)
    requires d < |requests| < 0x1_0000_0000 && Fits(Payloads(requests), Uniform(|requests|, shardBytes))
    ensures result == Response(requests, shardBytes, count, element, uniqueId, sequence, d, crc)
  {
    var payload := GatherShards(requests, shardBytes, d);
    var frame := NewFrame(ResponseHeader(uniqueId, AllToAll, element, sequence, d, |requests|, count, crc), payload, crc);
    if frame.Err? { return Err(Protocol(frame.error)); }
    result := Ok(frame.value);
  }

  method BuildShards(requests: seq<Frame>, shardBytes: nat, count: U64, element: ElementType, uniqueId: Sixteen, sequence: U64, crc: Checksum)
    returns (result: Result<seq<Frame>, RouteError>)
    requires |requests| < 0x1_0000_0000 && forall s | 0 <= s < |requests| :: |requests[s].payload| == |requests| * shardBytes
    ensures Fits(Payloads(requests), Uniform(|requests|, shardBytes))
    ensures ShardsRouted(requests, shardBytes, count, element, uniqueId, sequence, crc, result)
  {
    PayloadsFit(requests, shardBytes);
    result := BuildAllShards(requests, shardBytes, count, element, uniqueId, sequence, crc);
  }

  method BuildAllShards(requests: seq<Frame>, shardBytes: nat, count: U64, element: ElementType, uniqueId: Sixteen, sequence: U64, crc: Checksum)
    returns (result: Result<seq<Frame>, RouteError>)
    requires |requests| < 0x1_0000_0000 && Fits(Payloads(requests), Uniform(|requests|, shardBytes))
    ensures ShardsRouted(requests, shardBytes, count, element, uniqueId, sequence, crc, result)
  {
    var responses := [];
    for d := 0 to |requests|
      invariant |responses| == d
      invariant forall e | 0 <= e < d :: Response(requests, shardBytes, count, element, uniqueId, sequence, e, crc) == Ok(responses[e])
    {
      var frame := BuildShard(requests, shardBytes, count, element, uniqueId, sequence, d, crc);
      if frame.Err? { return Err(frame.error); }
      responses := responses + [frame.value];
    }
    result := Ok(responses);
  }

  lemma SplitBytes(count: nat, world: nat, width: nat)
    requires world > 0 && count % world == 0
    ensures count * width == world * (count / world * width)
  {
    assert count == world * (count / world);
  }

  ghost predicate AreShardResponses(requests: seq<Frame>, shardBytes: nat, responses: seq<Frame>, count: U64, element: ElementType,
                                    uniqueId: Sixteen, sequence: U64, crc: Checksum)
    requires |requests| < 0x1_0000_0000 && Fits(Payloads(requests), Uniform(|requests|, shardBytes))
  {
    |responses| == |requests| &&
    forall d | 0 <= d < |requests| :: Response(requests, shardBytes, count, element, uniqueId, sequence, d, crc) == Ok(responses[d])
  }

  // What routing an equal exchange answers once the payloads have the agreed length.
  ghost predicate ShardsRouted(requests: seq<Frame>, shardBytes: nat, count: U64, element: ElementType, uniqueId: Sixteen, sequence: U64,
                               crc: Checksum, result: Result<seq<Frame>, RouteError>)
    requires |requests| < 0x1_0000_0000 && Fits(Payloads(requests), Uniform(|requests|, shardBytes))
  {
    match result
    case Ok(responses) => AreShardResponses(requests, shardBytes, responses, count, element, uniqueId, sequence, crc)
    case Err(error) =>
      exists d ::
        && 0 <= d < |requests| && Response(requests, shardBytes, count, element, uniqueId, sequence, d, crc) == Err(error)
        && forall e | 0 <= e < d :: Response(requests, shardBytes, count, element, uniqueId, sequence, e, crc).Ok?
  }

  // All ranks agreed on the count; every payload must have its bytes, and it must split evenly.
  method RouteAllToAll(requests: seq<Frame>, count: U64, element: ElementType, uniqueId: Sixteen, sequence: U64, crc: Checksum)
    returns (result: Result<seq<Frame>, RouteError>)
    requires 0 < |requests| < 0x1_0000_0000
    ensures var bytes := count * ByteWidth(element);
      && (bytes > USIZE_MAX ==> result == Err(SizeOverflow))
      && (bytes <= USIZE_MAX && WrongLength(requests, bytes, 0).Some? ==> result == Err(WrongPayload(WrongLength(requests, bytes, 0).value)))
      && (bytes <= USIZE_MAX && WrongLength(requests, bytes, 0).None? && count % |requests| != 0 ==> result == Err(NotDivisible))
    ensures var bytes, shardBytes := count * ByteWidth(element), count / |requests| * ByteWidth(element);
      bytes <= USIZE_MAX && WrongLength(requests, bytes, 0).None? && count % |requests| == 0 ==>
        Fits(Payloads(requests), Uniform(|requests|, shardBytes)) &&
        ShardsRouted(requests, shardBytes, count, element, uniqueId, sequence, crc, result)
  {
    var bytes := count * ByteWidth(element);
    if bytes > USIZE_MAX { return Err(SizeOverflow); }
    var wrong := WrongLength(requests, bytes, 0);
    if wrong.Some? { return Err(WrongPayload(wrong.value)); }
    if count % |requests| != 0 { return Err(NotDivisible); }
    SplitBytes(count, |requests|, ByteWidth(element));
    result := BuildShards(requests, count / |requests| * ByteWidth(element), count, element, uniqueId, sequence, crc);
  }

  // Whether a response can be framed depends on the length of its payload only.
  lemma FramedByLength(element: ElementType, uniqueId: Sixteen, sequence: U64, world: U32, count: U64, d: U32, a: seq<Byte>, e: U32, b: seq<Byte>,
                       crc: Checksum)
    requires d < world && e < world && |a| == |b|
    requires NewFrame(ResponseHeader(uniqueId, AllToAll, element, sequence, d, world, count, crc), a, crc).Ok?
    ensures var frame := NewFrame(ResponseHeader(uniqueId, AllToAll, element, sequence, e, world, count, crc), b, crc);
      frame.Ok? && frame.value.payload == b
  {
  }

  lemma ShardPayloads(requests: seq<Frame>, responses: seq<Frame>, shardBytes: nat, count: U64, element: ElementType, uniqueId: Sixteen,
                      sequence: U64, crc: Checksum)
    requires 0 < |requests| == |responses| < 0x1_0000_0000 && Fits(Payloads(requests), Uniform(|requests|, shardBytes))
    requires AreShardResponses(requests, shardBytes, responses, count, element, uniqueId, sequence, crc)
    ensures Payloads(AllResubmitted(responses)) == Exchanged(Payloads(requests), Uniform(|requests|, shardBytes))
  {
    var out := Exchanged(Payloads(requests), Uniform(|requests|, shardBytes));
    forall d | 0 <= d < |requests| ensures Payloads(AllResubmitted(responses))[d] == out[d] {
      assert Response(requests, shardBytes, count, element, uniqueId, sequence, d, crc) == Ok(responses[d]);
    }
    assert Payloads(AllResubmitted(responses)) == out;
  }

  // The equal exchange is its own inverse: handing the responses back in passes every check again, and
  // every second response is framed with the rank's original payload.
  lemma EqualRoutingTwiceRestores(requests: seq<Frame>, responses: seq<Frame>, shardBytes: nat, count: U64, element: ElementType,
                                  uniqueId: Sixteen, sequence: U64, crc: Checksum)
    requires 0 < |requests| == |responses| < 0x1_0000_0000
    requires count % |requests| == 0 && shardBytes == count / |requests| * ByteWidth(element)
    requires Fits(Payloads(requests), Uniform(|requests|, shardBytes))
    requires AreShardResponses(requests, shardBytes, responses, count, element, uniqueId, sequence, crc)
    ensures WrongLength(AllResubmitted(responses), count * ByteWidth(element), 0).None?
    ensures Fits(Payloads(AllResubmitted(responses)), Uniform(|requests|, shardBytes))
    ensures forall s | 0 <= s < |requests| ::
      var second := Response(AllResubmitted(responses), shardBytes, count, element, uniqueId, sequence, s, crc);
      second.Ok? && second.value.payload == requests[s].payload
  {
    var again, uniform := AllResubmitted(responses), Uniform(|requests|, shardBytes);
    var first := Exchanged(Payloads(requests), uniform);
    ShardPayloads(requests, responses, shardBytes, count, element, uniqueId, sequence, crc);
    UniformIsItsTranspose(|requests|, shardBytes);
    ExchangedTwice(Payloads(requests), uniform);
    SplitBytes(count, |requests|, ByteWidth(element));
    forall s | 0 <= s < |requests| ensures |again[s].payload| == |requests[s].payload| == count * ByteWidth(element) {
      UniformSum(UniformRow(|requests|, shardBytes), shardBytes);
      assert again[s].payload == Payloads(again)[s] && requests[s].payload == Payloads(requests)[s];
    }
    forall s | 0 <= s < |requests|
      ensures var second := Response(again, shardBytes, count, element, uniqueId, sequence, s, crc);
        second.Ok? && second.value.payload == requests[s].payload
    {
      assert Response(requests, shardBytes, count, element, uniqueId, sequence, s, crc) == Ok(responses[s]);
      assert Payloads(again)[s] == first[s] && Payloads(requests)[s] == requests[s].payload == Exchanged(first, uniform)[s];
      FramedByLength(element, uniqueId, sequence, |requests|, count, s, first[s], s, requests[s].payload, crc);
    }
  }
}
