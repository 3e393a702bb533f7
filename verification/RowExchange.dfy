// src/tensor_device/bounded_exchange.rs: a variable-row exchange in rounds that fit a byte budget.
//
// A row stands for row_elements elements of the trailing axes. All ranks run the same rounds in
// lockstep, so the other ranks' packets are what this code makes of their rows and counts.
module RowExchange {
  import opened Wrappers
  import opened Numbers
  import opened Layout
  import opened Transpose
  import opened ChunkedOutput

  datatype Failure = EmptyWorld | CountsDiffer | ZeroRow | BudgetTooSmall

  datatype Progress = Progress(completedRounds: nat, totalRounds: nat, sentRows: nat, totalSendRows: nat, receivedRows: nat, totalReceiveRows: nat)

  datatype Received<T> = Received(value: seq<T>, receiveCounts: seq<nat>, reports: seq<Progress>)

  // ---- counting rows -----------------------------------------------------------------------------

  function RoundCounts(counts: seq<nat>, offset: nat, peerRows: nat): (round: seq<nat>)
    ensures |round| == |counts|
  {
    seq(|counts|, i requires 0 <= i < |counts| => Min(SaturatingSub(counts[i], offset), peerRows))
  }

  // How much of each count the rounds before `limit` have covered.
  function Capped(counts: seq<nat>, limit: nat): (capped: seq<nat>)
    ensures |capped| == |counts|
  {
    seq(|counts|, i requires 0 <= i < |counts| => Min(counts[i], limit))
  }

  lemma {:induction false} RoundAdvances(counts: seq<nat>, offset: nat, peerRows: nat)
    ensures Sum(Capped(counts, offset)) + Sum(RoundCounts(counts, offset, peerRows)) == Sum(Capped(counts, offset + peerRows))
  {
    if counts != [] {
      var front := counts[..|counts| - 1];
      RoundAdvances(front, offset, peerRows);
      assert Capped(counts, offset)[..|front|] == Capped(front, offset);
      assert Capped(counts, offset + peerRows)[..|front|] == Capped(front, offset + peerRows);
      assert RoundCounts(counts, offset, peerRows)[..|front|] == RoundCounts(front, offset, peerRows);
    }
  }

  lemma {:induction false} NothingCovered(counts: seq<nat>)
    ensures Sum(Capped(counts, 0)) == 0
  {
    if counts != [] {
      NothingCovered(counts[..|counts| - 1]);
      assert Capped(counts, 0)[..|counts| - 1] == Capped(counts[..|counts| - 1], 0);
    }
  }

  lemma {:induction false} RoundBound(counts: seq<nat>, offset: nat, peerRows: nat)
    ensures Sum(RoundCounts(counts, offset, peerRows)) <= |counts| * peerRows
  {
    if counts != [] {
      var front := counts[..|counts| - 1];
      RoundBound(front, offset, peerRows);
      assert RoundCounts(counts, offset, peerRows)[..|front|] == RoundCounts(front, offset, peerRows);
      assert |counts| * peerRows == |front| * peerRows + peerRows;
    }
  }

  lemma BudgetHolds(rows: nat, world: nat, peerRows: nat, rowBytes: nat, budget: nat)
    requires world > 0 && rowBytes > 0 && rows <= world * peerRows && peerRows <= budget / world / rowBytes
    ensures rows * rowBytes <= budget
  {
    var share := budget / world;
    assert peerRows * rowBytes <= share by { assert share / rowBytes * rowBytes <= share; }
    assert world * share <= budget;
    assert rows * rowBytes <= world * peerRows * rowBytes;
    assert world * peerRows * rowBytes == world * (peerRows * rowBytes) <= world * share;
  }

  // ---- one round ---------------------------------------------------------------------------------

  function Chunks<T>(row: seq<T>, counts: seq<nat>, offset: nat, peerRows: nat): (chunks: seq<seq<T>>)
    requires |row| == Sum(counts)
    ensures |chunks| == |counts|
  {
    seq(|counts|, d requires 0 <= d < |counts| => Chunk(Piece(row, counts, d), offset, peerRows))
  }

  function Packet<T>(row: seq<T>, counts: seq<nat>, offset: nat, peerRows: nat): seq<T>
    requires |row| == Sum(counts)
  {
    Concatenated(Chunks(row, counts, offset, peerRows))
  }

  function Packets<T>(rows: seq<seq<T>>, counts: seq<seq<nat>>, offset: nat, peerRows: nat): (packets: seq<seq<T>>)
    requires Fits(rows, counts)
    ensures |packets| == |rows|
  {
    seq(|rows|, s requires 0 <= s < |rows| => Packet(rows[s], counts[s], offset, peerRows))
  }

  function RoundMatrix(counts: seq<seq<nat>>, offset: nat, peerRows: nat): (round: seq<seq<nat>>)
    requires Square(counts)
    ensures |round| == |counts| && Square(round)
  {
    seq(|counts|, s requires 0 <= s < |counts| => RoundCounts(counts[s], offset, peerRows))
  }

  lemma PacketsFit<T>(rows: seq<seq<T>>, counts: seq<seq<nat>>, offset: nat, peerRows: nat)
    requires Fits(rows, counts)
    ensures Fits(Packets(rows, counts, offset, peerRows), RoundMatrix(counts, offset, peerRows))
    ensures forall s | 0 <= s < |rows| :: Lengths(Chunks(rows[s], counts[s], offset, peerRows)) == RoundCounts(counts[s], offset, peerRows)
  {
    forall s | 0 <= s < |rows|
      ensures Lengths(Chunks(rows[s], counts[s], offset, peerRows)) == RoundCounts(counts[s], offset, peerRows)
      ensures |Packets(rows, counts, offset, peerRows)[s]| == Sum(RoundMatrix(counts, offset, peerRows)[s])
    {
      assert Lengths(Chunks(rows[s], counts[s], offset, peerRows)) == RoundCounts(counts[s], offset, peerRows);
      ConcatenatedLength(Chunks(rows[s], counts[s], offset, peerRows));
    }
  }

  // The counts a round reports are the ones derived from the original matrix, so that check never fails.
  lemma RoundCountsMatch(counts: seq<seq<nat>>, offset: nat, peerRows: nat, me: nat)
    requires Square(counts) && me < |counts|
    ensures Column(RoundMatrix(counts, offset, peerRows), me) == RoundCounts(Column(counts, me), offset, peerRows)
  {
  }

  // What source s delivers in a round is the next chunk of the block it holds for this rank.
  lemma RoundDelivers<T>(rows: seq<seq<T>>, counts: seq<seq<nat>>, offset: nat, peerRows: nat, me: nat, s: nat)
    requires Fits(rows, counts) && me < |rows| && s < |rows|
    ensures Fits(Packets(rows, counts, offset, peerRows), RoundMatrix(counts, offset, peerRows))
    ensures var received := Exchanged(Packets(rows, counts, offset, peerRows), RoundMatrix(counts, offset, peerRows))[me];
      && |received| == Sum(Column(RoundMatrix(counts, offset, peerRows), me))
      && Piece(received, Column(RoundMatrix(counts, offset, peerRows), me), s) == Chunk(Piece(rows[s], counts[s], me), offset, peerRows)
  {
    PacketsFit(rows, counts, offset, peerRows);
    ExchangedPiece(Packets(rows, counts, offset, peerRows), RoundMatrix(counts, offset, peerRows), s, me);
    PieceOfConcatenated(Chunks(rows[s], counts[s], offset, peerRows), me);
  }

  // ---- the method --------------------------------------------------------------------------------

  method RowPrefix(counts: seq<nat>) returns (prefix: seq<nat>)
    ensures |prefix| == |counts| + 1 && forall i | 0 <= i <= |counts| :: prefix[i] == Prefix(counts, i)
  {
    prefix := [0];
    for i := 0 to |counts|
      invariant |prefix| == i + 1 && forall k | 0 <= k <= i :: prefix[k] == Prefix(counts, k)
    {
      PrefixStep(counts, i);
      prefix := prefix + [prefix[i] + counts[i]];
    }
  }

  lemma SliceOfSlice<T>(row: seq<T>, start: nat, length: nat, from: nat, count: nat)
    requires start + length <= |row| && from + count <= length
    ensures row[start..start + length][from..from + count] == row[start + from..start + from + count]
  {
    var inner, direct := row[start..start + length][from..from + count], row[start + from..start + from + count];
    forall i | 0 <= i < count ensures inner[i] == direct[i] {
      assert inner[i] == row[start..start + length][from + i] == row[start + from + i];
    }
  }

  lemma ChunkSlice<T>(row: seq<T>, counts: seq<nat>, offset: nat, peerRows: nat, d: nat)
    requires |row| == Sum(counts) && d < |counts|
    ensures var count, start := RoundCounts(counts, offset, peerRows)[d], Prefix(counts, d) + offset;
      var chunk := Chunk(Piece(row, counts, d), offset, peerRows);
      |chunk| == count && (count > 0 ==> start + count <= |row| && row[start..start + count] == chunk)
  {
    PieceBounds(counts, d);
    var count := RoundCounts(counts, offset, peerRows)[d];
    if count > 0 { SliceOfSlice(row, Prefix(counts, d), counts[d], offset, count); }
  }

  lemma ConcatenatedStep<T>(chunks: seq<seq<T>>, d: nat)
    requires d < |chunks|
    ensures Concatenated(chunks[..d + 1]) == Concatenated(chunks[..d]) + chunks[d]
  {
    assert chunks[..d + 1][..d] == chunks[..d];
  }

  // The rows this rank sends in one round: what is left for each destination, up to peerRows each.
  method BuildPacket<T>(row: seq<T>, counts: seq<nat>, prefix: seq<nat>, offset: nat, peerRows: nat) returns (packet: seq<T>, sent: nat)
    requires |row| == Sum(counts) && |prefix| == |counts| + 1 && forall i | 0 <= i <= |counts| :: prefix[i] == Prefix(counts, i)
    ensures packet == Packet(row, counts, offset, peerRows) && sent == Sum(RoundCounts(counts, offset, peerRows)) == |packet|
  {
    ghost var chunks := Chunks(row, counts, offset, peerRows);
    var round := RoundCounts(counts, offset, peerRows);
    packet, sent := [], 0;
    for d := 0 to |counts|
      invariant packet == Concatenated(chunks[..d]) && sent == Prefix(round, d) == |packet|
    {
      ChunkSlice(row, counts, offset, peerRows, d);
      ConcatenatedStep(chunks, d);
      PrefixStep(round, d);
      if round[d] > 0 {
        var start := prefix[d] + offset;
        packet := packet + row[start..start + round[d]];
      }
      sent := sent + round[d];
    }
    assert chunks[..|counts|] == chunks && round[..|counts|] == round;
  }

  // Copy what every source delivered in this round to its place.
  method WriteRound<T>(ghost pieces: seq<seq<T>>, offset: nat, peerRows: nat, received: seq<T>, chunkCounts: seq<nat>,
                       receivePrefix: seq<nat>, output: seq<Option<T>>)
    returns (next: seq<Option<T>>)
    requires |received| == Sum(chunkCounts) && |chunkCounts| == |pieces|
    requires forall s | 0 <= s < |pieces| :: Piece(received, chunkCounts, s) == Chunk(pieces[s], offset, peerRows)
    requires |receivePrefix| == |pieces| + 1 && forall s | 0 <= s <= |pieces| :: receivePrefix[s] == Prefix(Lengths(pieces), s)
    requires output == Concatenated(Filling(pieces, offset, peerRows, 0))
    ensures next == Concatenated(Filling(pieces, offset + peerRows, peerRows, 0))
  {
    next := output;
    var chunkPrefix := RowPrefix(chunkCounts);
    for source := 0 to |chunkCounts|
      invariant next == Concatenated(Filling(pieces, offset, peerRows, source))
    {
      PieceBounds(chunkCounts, source);
      var piece := received[chunkPrefix[source]..chunkPrefix[source + 1]];
      assert piece == Piece(received, chunkCounts, source);
      next := WritePiece(pieces, offset, peerRows, source, piece, receivePrefix[source], next);
    }
    NextRound(pieces, offset, peerRows);
  }

  function Largest(counts: seq<nat>): nat {
    if counts == [] then 0 else if Largest(counts[..|counts| - 1]) > counts[|counts| - 1] then Largest(counts[..|counts| - 1]) else counts[|counts| - 1]
  }

  lemma {:induction false} LargestBounds(counts: seq<nat>)
    ensures forall i | 0 <= i < |counts| :: counts[i] <= Largest(counts)
    ensures Largest(counts) > 0 ==> exists i :: 0 <= i < |counts| && counts[i] == Largest(counts)
  {
    if counts != [] {
      var front := counts[..|counts| - 1];
      LargestBounds(front);
      if Largest(front) > counts[|counts| - 1] {
        var i :| 0 <= i < |front| && front[i] == Largest(front);
        assert counts[i] == Largest(counts);
      } else {
        assert counts[|counts| - 1] == Largest(counts);
      }
    }
  }

  function LargestCount(counts: seq<seq<nat>>): nat {
    Largest(seq(|counts|, s requires 0 <= s < |counts| => Largest(counts[s])))
  }

  lemma LargestCountBounds(counts: seq<seq<nat>>, s: nat, d: nat)
    requires s < |counts| && d < |counts[s]|
    ensures counts[s][d] <= LargestCount(counts)
  {
    var largest := seq(|counts|, q requires 0 <= q < |counts| => Largest(counts[q]));
    LargestBounds(largest);
    LargestBounds(counts[s]);
    assert largest[s] == Largest(counts[s]);
  }

  // One round for rank `me`: build the packet, exchange it, copy what arrived. The exchange is the
  // one-shot all-to-all-v over every rank's packet of this round.
  method Round<T>(rows: seq<seq<T>>, counts: seq<seq<nat>>, me: nat, offset: nat, peerRows: nat,
                  sendPrefix: seq<nat>, receivePrefix: seq<nat>, output: seq<Option<T>>)
    returns (next: seq<Option<T>>, sent: nat, received: nat)
    requires Fits(rows, counts) && me < |rows|
    requires |sendPrefix| == |rows| + 1 && forall i | 0 <= i <= |rows| :: sendPrefix[i] == Prefix(counts[me], i)
    requires |receivePrefix| == |rows| + 1 && forall i | 0 <= i <= |rows| :: receivePrefix[i] == Prefix(Column(counts, me), i)
    requires output == Concatenated(Filling(Delivered(rows, counts, me), offset, peerRows, 0))
    ensures next == Concatenated(Filling(Delivered(rows, counts, me), offset + peerRows, peerRows, 0))
    ensures sent == Sum(RoundCounts(counts[me], offset, peerRows))
    ensures received == Sum(RoundCounts(Column(counts, me), offset, peerRows))
  {
    var packet;
    packet, sent := BuildPacket(rows[me], counts[me], sendPrefix, offset, peerRows);
    PacketsFit(rows, counts, offset, peerRows);
    var packets := Packets(rows, counts, offset, peerRows)[me := packet];
    assert packets == Packets(rows, counts, offset, peerRows);
    var arrived, chunkCounts := Exchanged(packets, RoundMatrix(counts, offset, peerRows))[me], Column(RoundMatrix(counts, offset, peerRows), me);
    RoundCountsMatch(counts, offset, peerRows, me);
    // The source compares these counts with the ones it expects; the comparison cannot fail.
    assert chunkCounts == RoundCounts(Column(counts, me), offset, peerRows);
    ghost var pieces := Delivered(rows, counts, me);
    DeliveredLengths(rows, counts, me);
    forall s | 0 <= s < |rows|
      ensures |arrived| == Sum(chunkCounts) && Piece(arrived, chunkCounts, s) == Chunk(pieces[s], offset, peerRows)
    {
      RoundDelivers(rows, counts, offset, peerRows, me, s);
    }
    next := WriteRound(pieces, offset, peerRows, arrived, chunkCounts, receivePrefix, output);
    received := Sum(chunkCounts);
  }

  // A report after each round; between two reports at most `most` rows went out, and at most as many came in.
  ghost predicate WithinBudget(reports: seq<Progress>, most: nat) {
    forall i | 0 <= i < |reports| - 1 :: Follows(reports[i], reports[i + 1], most)
  }

  ghost predicate Follows(a: Progress, b: Progress, most: nat) {
    && b.completedRounds == a.completedRounds + 1
    && a.sentRows <= b.sentRows <= a.sentRows + most && a.receivedRows <= b.receivedRows <= a.receivedRows + most
  }

  lemma OneMoreReport(reports: seq<Progress>, next: Progress, most: nat)
    requires reports != [] && WithinBudget(reports, most) && Follows(reports[|reports| - 1], next, most)
    ensures WithinBudget(reports + [next], most)
  {
  }

  ghost function ReportAt(counts: seq<seq<nat>>, me: nat, rounds: nat, k: nat, offset: nat): Progress
    requires Square(counts) && me < |counts|
  {
    Progress(k, rounds, Sum(Capped(counts[me], offset)), Sum(counts[me]), Sum(Capped(Column(counts, me), offset)), Sum(Column(counts, me)))
  }

  function Advance(state: Progress, sent: nat, received: nat): Progress {
    state.(completedRounds := state.completedRounds + 1, sentRows := state.sentRows + sent, receivedRows := state.receivedRows + received)
  }

  lemma RoundReport(counts: seq<seq<nat>>, me: nat, rounds: nat, k: nat, offset: nat, peerRows: nat, next: Progress)
    requires Square(counts) && me < |counts|
    requires next == Advance(ReportAt(counts, me, rounds, k, offset), Sum(RoundCounts(counts[me], offset, peerRows)), Sum(RoundCounts(Column(counts, me), offset, peerRows)))
    ensures next == ReportAt(counts, me, rounds, k + 1, offset + peerRows)
    ensures Follows(ReportAt(counts, me, rounds, k, offset), next, |counts| * peerRows)
  {
    RoundAdvances(counts[me], offset, peerRows);
    RoundAdvances(Column(counts, me), offset, peerRows);
    RoundBound(counts[me], offset, peerRows);
    RoundBound(Column(counts, me), offset, peerRows);
  }

  lemma CappedWhole(counts: seq<nat>, limit: nat)
    requires forall i | 0 <= i < |counts| :: counts[i] <= limit
    ensures Capped(counts, limit) == counts
  {
  }

  // Where round `round` starts.
  function Times(round: nat, peerRows: nat): nat {
    if round == 0 then 0 else Times(round - 1, peerRows) + peerRows
  }

  lemma {:induction false} TimesIsProduct(round: nat, peerRows: nat)
    ensures Times(round, peerRows) == round * peerRows
  {
    if round > 0 {
      TimesIsProduct(round - 1, peerRows);
      assert round * peerRows == (round - 1) * peerRows + peerRows;
    }
  }

  // Prefixes, an empty output and the first report.
  method Begin<T>(rows: seq<seq<T>>, counts: seq<seq<nat>>, me: nat, ghost peerRows: nat, rounds: nat)
    returns (sendPrefix: seq<nat>, receivePrefix: seq<nat>, output: seq<Option<T>>, state: Progress)
    requires Fits(rows, counts) && me < |rows|
    ensures |sendPrefix| == |rows| + 1 && forall i | 0 <= i <= |rows| :: sendPrefix[i] == Prefix(counts[me], i)
    ensures |receivePrefix| == |rows| + 1 && forall i | 0 <= i <= |rows| :: receivePrefix[i] == Prefix(Column(counts, me), i)
    ensures output == Concatenated(Filling(Delivered(rows, counts, me), 0, peerRows, 0))
    ensures state == ReportAt(counts, me, rounds, 0, 0)
  {
    sendPrefix := RowPrefix(counts[me]);
    receivePrefix := RowPrefix(Column(counts, me));
    assert Column(counts, me)[..|rows|] == Column(counts, me) && counts[me][..|rows|] == counts[me];
    state := Progress(0, rounds, 0, sendPrefix[|rows|], 0, receivePrefix[|rows|]);
    DeliveredLengths(rows, counts, me);
    output := StartOutput(Delivered(rows, counts, me), receivePrefix[|rows|], peerRows);
    NothingCovered(counts[me]);
    NothingCovered(Column(counts, me));
  }

  // One report before the first round and one after each, every one within the budget.
  ghost predicate Reported(reports: seq<Progress>, counts: seq<seq<nat>>, me: nat, rounds: nat, round: nat, offset: nat, most: nat)
    requires Square(counts) && me < |counts|
  {
    && |reports| == round + 1 && WithinBudget(reports, most)
    && reports[0] == ReportAt(counts, me, rounds, 0, 0) && reports[round] == ReportAt(counts, me, rounds, round, offset)
  }

  lemma ReportRound(reports: seq<Progress>, counts: seq<seq<nat>>, me: nat, rounds: nat, round: nat, offset: nat, peerRows: nat, sent: nat, received: nat)
    requires Square(counts) && me < |counts| && Reported(reports, counts, me, rounds, round, offset, |counts| * peerRows)
    requires sent == Sum(RoundCounts(counts[me], offset, peerRows)) && received == Sum(RoundCounts(Column(counts, me), offset, peerRows))
    ensures Reported(reports + [Advance(reports[round], sent, received)], counts, me, rounds, round + 1, offset + peerRows, |counts| * peerRows)
  {
    var next := Advance(reports[round], sent, received);
    RoundReport(counts, me, rounds, round, offset, peerRows, next);
    OneMoreReport(reports, next, |counts| * peerRows);
  }

  // One round and its report.
  method ReportedRound<T>(rows: seq<seq<T>>, counts: seq<seq<nat>>, me: nat, ghost rounds: nat, ghost round: nat, offset: nat, peerRows: nat,
                      sendPrefix: seq<nat>, receivePrefix: seq<nat>, output: seq<Option<T>>, state: Progress, ghost reports: seq<Progress>)
    returns (next: seq<Option<T>>, report: Progress)
    requires Fits(rows, counts) && me < |rows|
    requires |sendPrefix| == |rows| + 1 && forall i | 0 <= i <= |rows| :: sendPrefix[i] == Prefix(counts[me], i)
    requires |receivePrefix| == |rows| + 1 && forall i | 0 <= i <= |rows| :: receivePrefix[i] == Prefix(Column(counts, me), i)
    requires output == Concatenated(Filling(Delivered(rows, counts, me), offset, peerRows, 0))
    requires Reported(reports, counts, me, rounds, round, offset, |rows| * peerRows) && state == reports[round]
    ensures next == Concatenated(Filling(Delivered(rows, counts, me), offset + peerRows, peerRows, 0))
    ensures Reported(reports + [report], counts, me, rounds, round + 1, offset + peerRows, |rows| * peerRows)
  {
    var sent, received;
    next, sent, received := Round(rows, counts, me, offset, peerRows, sendPrefix, receivePrefix, output);
    ReportRound(reports, counts, me, rounds, round, offset, peerRows, sent, received);
    report := Advance(state, sent, received);
  }

  method AllRounds<T>(rows: seq<seq<T>>, counts: seq<seq<nat>>, me: nat, peerRows: nat, rounds: nat)
    returns (output: seq<Option<T>>, reports: seq<Progress>, ghost reached: nat)
    requires Fits(rows, counts) && me < |rows|
    ensures reached == Times(rounds, peerRows) && output == Concatenated(Filling(Delivered(rows, counts, me), reached, peerRows, 0))
    ensures |reports| == rounds + 1 && WithinBudget(reports, |rows| * peerRows)
    ensures reports[0] == ReportAt(counts, me, rounds, 0, 0) && reports[rounds] == ReportAt(counts, me, rounds, rounds, reached)
  {
    var sendPrefix, receivePrefix, state;
    sendPrefix, receivePrefix, output, state := Begin(rows, counts, me, peerRows, rounds);
    reports := [state];
    var offset := 0;
    for round := 0 to rounds
      invariant offset == Times(round, peerRows)
      invariant output == Concatenated(Filling(Delivered(rows, counts, me), offset, peerRows, 0))
      invariant Reported(reports, counts, me, rounds, round, offset, |rows| * peerRows) && state == reports[round]
    {
      output, state := ReportedRound(rows, counts, me, rounds, round, offset, peerRows, sendPrefix, receivePrefix, output, state, reports);
      reports := reports + [state];
      offset := offset + peerRows;
    }
    reached := offset;
  }

  // Rounds to cover the largest count: div_ceil.
  lemma RoundsCover(largest: nat, peerRows: nat)
    requires peerRows > 0
    ensures largest <= (largest + peerRows - 1) / peerRows * peerRows
  {
  }

  predicate AllValid<T>(rows: seq<seq<T>>, counts: seq<seq<nat>>) {
    |counts| == |rows| && forall s | 0 <= s < |rows| :: |counts[s]| == |rows| && Sum(counts[s]) == |rows[s]|
  }

  // The largest share of the budget one peer's rows may take in a round.
  function PeerRows(counts: seq<seq<nat>>, rowBytes: nat, budget: nat): nat
    requires counts != [] && rowBytes > 0
  {
    if LargestCount(counts) == 0 then 1 else budget / |counts| / rowBytes
  }

  function RoundsFor(counts: seq<seq<nat>>, peerRows: nat): nat
    requires peerRows > 0
  {
    (LargestCount(counts) + peerRows - 1) / peerRows
  }

  lemma {:induction false} LargestIsLeast(counts: seq<nat>, limit: nat)
    ensures Largest(counts) <= limit <==> forall i | 0 <= i < |counts| :: counts[i] <= limit
  {
    if counts != [] {
      LargestIsLeast(counts[..|counts| - 1], limit);
      assert forall i | 0 <= i < |counts| - 1 :: counts[..|counts| - 1][i] == counts[i];
    }
  }

  lemma LargestCountIsLeast(counts: seq<seq<nat>>, limit: nat)
    ensures LargestCount(counts) <= limit <==> forall s, d | 0 <= s < |counts| && 0 <= d < |counts[s]| :: counts[s][d] <= limit
  {
    var largest := seq(|counts|, s requires 0 <= s < |counts| => Largest(counts[s]));
    LargestIsLeast(largest, limit);
    assert forall s | 0 <= s < |counts| :: largest[s] == Largest(counts[s]);
    forall s | 0 <= s < |counts| ensures Largest(counts[s]) <= limit <==> forall d | 0 <= d < |counts[s]| :: counts[s][d] <= limit {
      LargestIsLeast(counts[s], limit);
    }
  }

  // A round takes as many rows for each peer as the budget allows for all of them; one if there is no row at all.
  lemma PeerRowsMeans(counts: seq<seq<nat>>, rowBytes: nat, budget: nat, k: nat)
    requires counts != [] && rowBytes > 0
    ensures (exists s, d :: 0 <= s < |counts| && 0 <= d < |counts[s]| && counts[s][d] > 0) ==>
      (k <= PeerRows(counts, rowBytes, budget) <==> |counts| * (k * rowBytes) <= budget)
    ensures (forall s, d | 0 <= s < |counts| && 0 <= d < |counts[s]| :: counts[s][d] == 0) ==> PeerRows(counts, rowBytes, budget) == 1
  {
    LargestCountIsLeast(counts, 0);
    QuotientIsLargest(k, budget / |counts|, rowBytes);
    QuotientIsLargest(k * rowBytes, budget, |counts|);
  }

  // There are just as many rounds as the largest block needs.
  lemma RoundsMean(counts: seq<seq<nat>>, peerRows: nat, rounds: nat)
    requires peerRows > 0
    ensures RoundsFor(counts, peerRows) <= rounds <==>
      forall s, d | 0 <= s < |counts| && 0 <= d < |counts[s]| :: counts[s][d] <= rounds * peerRows
  {
    LargestCountIsLeast(counts, rounds * peerRows);
    var largest := LargestCount(counts);
    QuotientIsLargest(rounds + 1, largest + peerRows - 1, peerRows);
    assert (rounds + 1) * peerRows == rounds * peerRows + peerRows;
  }

  // What rank `me` returns. It is the unbounded exchange's result, with every output row written once;
  // the reports start at nothing and end at everything.
  method NativeRowsChunked<T>(rows: seq<seq<T>>, counts: seq<seq<nat>>, me: nat, rowElements: nat, elementBytes: nat, budget: nat)
    returns (result: Result<Received<T>, Failure>)
    requires elementBytes > 0 && (rows != [] ==> me < |rows|)
    ensures rows == [] ==> result == Err(EmptyWorld)
    ensures rows != [] && !Fits(rows, counts) ==> result == Err(CountsDiffer)
    ensures rows != [] && Fits(rows, counts) && rowElements == 0 ==> result == Err(ZeroRow)
    ensures rows != [] && Fits(rows, counts) && rowElements * elementBytes > 0 ==>
      var peerRows := PeerRows(counts, rowElements * elementBytes, budget);
      if peerRows == 0 then result == Err(BudgetTooSmall)
      else
        && result.Ok? && result.value.value == Exchanged(rows, counts)[me] && result.value.receiveCounts == Column(counts, me)
        && var reports, rounds := result.value.reports, RoundsFor(counts, peerRows);
        && |reports| == rounds + 1 && WithinBudget(reports, |rows| * peerRows)
        && reports[0] == Progress(0, rounds, 0, |rows[me]|, 0, Sum(Column(counts, me)))
        && reports[rounds] == Progress(rounds, rounds, |rows[me]|, |rows[me]|, Sum(Column(counts, me)), Sum(Column(counts, me)))
  {
    if rows == [] { return Err(EmptyWorld); }
    if !AllValid(rows, counts) { return Err(CountsDiffer); }
    if rowElements == 0 { return Err(ZeroRow); }
    PositiveProduct(rowElements, elementBytes);
    var peerRows := PeerRows(counts, rowElements * elementBytes, budget);
    if peerRows == 0 { return Err(BudgetTooSmall); }
    var received := Exchange(rows, counts, me, peerRows);
    result := Ok(received);
  }

  lemma PositiveProduct(a: nat, b: nat)
    requires a > 0 && b > 0
    ensures a * b > 0
  {
  }

  method Exchange<T>(rows: seq<seq<T>>, counts: seq<seq<nat>>, me: nat, peerRows: nat) returns (result: Received<T>)
    requires Fits(rows, counts) && me < |rows| && peerRows > 0
    ensures result.value == Exchanged(rows, counts)[me] && result.receiveCounts == Column(counts, me)
    ensures var reports, rounds := result.reports, RoundsFor(counts, peerRows);
      && |reports| == rounds + 1 && WithinBudget(reports, |rows| * peerRows)
      && reports[0] == Progress(0, rounds, 0, |rows[me]|, 0, Sum(Column(counts, me)))
      && reports[rounds] == Progress(rounds, rounds, |rows[me]|, |rows[me]|, Sum(Column(counts, me)), Sum(Column(counts, me)))
  {
    var rounds := RoundsFor(counts, peerRows);
    var output, reports, reached := AllRounds(rows, counts, me, peerRows, rounds);
    RoundsCover(LargestCount(counts), peerRows);
    TimesIsProduct(rounds, peerRows);
    forall s, d | 0 <= s < |rows| && 0 <= d < |rows| ensures counts[s][d] <= reached { LargestCountBounds(counts, s, d); }
    FilledIsComplete(Delivered(rows, counts, me), reached, peerRows);
    CappedWhole(counts[me], reached);
    CappedWhole(Column(counts, me), reached);
    NothingCovered(counts[me]);
    NothingCovered(Column(counts, me));
    assert output == Somes(Exchanged(rows, counts)[me]);
    var value := TakeValues(output, Exchanged(rows, counts)[me]);
    result := Received(value, Column(counts, me), reports);
  }

  // Every packet fits the byte budget, and every count of a nonempty exchange leaves room for a row.
  lemma PacketsFitBudget(counts: seq<seq<nat>>, rowBytes: nat, budget: nat, me: nat, offset: nat)
    requires Square(counts) && me < |counts| && rowBytes > 0 && LargestCount(counts) > 0
    ensures Sum(RoundCounts(counts[me], offset, PeerRows(counts, rowBytes, budget))) * rowBytes <= budget
    ensures Sum(RoundCounts(Column(counts, me), offset, PeerRows(counts, rowBytes, budget))) * rowBytes <= budget
  {
    var peerRows := PeerRows(counts, rowBytes, budget);
    RoundBound(counts[me], offset, peerRows);
    RoundBound(Column(counts, me), offset, peerRows);
    BudgetHolds(Sum(RoundCounts(counts[me], offset, peerRows)), |counts|, peerRows, rowBytes, budget);
    BudgetHolds(Sum(RoundCounts(Column(counts, me), offset, peerRows)), |counts|, peerRows, rowBytes, budget);
  }
}
