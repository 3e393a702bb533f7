// An output assembled block by block, each block in steps, as the chunked collectives do it.
module ChunkedOutput {
  import opened Wrappers
  import opened Numbers
  import opened Layout
  import opened Transpose

  function SaturatingSub(a: nat, b: nat): nat { if a < b then 0 else a - b }

  // The part of one block that goes in the step starting at `offset`.
  function Chunk<T>(piece: seq<T>, offset: nat, step: nat): (chunk: seq<T>)
    ensures |chunk| == Min(SaturatingSub(|piece|, offset), step)
  {
    piece[Min(|piece|, offset)..Min(|piece|, offset + step)]
  }

  // ---- the output while it fills -----------------------------------------------------------------

  // One block: its first `limit` rows written, the rest not yet.
  function Partial<T>(piece: seq<T>, limit: nat): (block: seq<Option<T>>)
    ensures |block| == |piece|
  {
    seq(|piece|, i requires 0 <= i < |piece| => if i < limit then Some(piece[i]) else None)
  }

  function Somes<T>(values: seq<T>): (cells: seq<Option<T>>)
    ensures |cells| == |values|
  {
    seq(|values|, i requires 0 <= i < |values| => Some(values[i]))
  }

  // Blocks before `s` are one round ahead.
  ghost function Filling<T>(pieces: seq<seq<T>>, offset: nat, step: nat, s: nat): (blocks: seq<seq<Option<T>>>)
    ensures |blocks| == |pieces|
  {
    seq(|pieces|, q requires 0 <= q < |pieces| => Partial(pieces[q], if q < s then offset + step else offset))
  }

  lemma FillingLengths<T>(pieces: seq<seq<T>>, offset: nat, step: nat, s: nat)
    ensures Lengths(Filling(pieces, offset, step, s)) == Lengths(pieces)
  {
  }

  lemma Splice<X>(a: seq<X>, b: seq<X>, c: seq<X>, from: nat, count: nat)
    requires from + count <= |b|
    ensures var whole, start := a + b + c, |a| + from;
      && whole[start..start + count] == b[from..from + count]
      && whole[..start] == a + b[..from]
      && whole[start + count..] == b[from + count..] + c
  {
  }

  lemma SpliceWith<X>(whole: seq<X>, a: seq<X>, b: seq<X>, c: seq<X>, start: nat, from: nat, values: seq<X>)
    requires whole == a + b + c && from + |values| <= |b| && start == |a| + from
    ensures start + |values| <= |whole| && whole[start..start + |values|] == b[from..from + |values|]
    ensures whole[..start] + values + whole[start + |values|..] == a + (b[..from] + values + b[from + |values|..]) + c
  {
    Splice(a, b, c, from, |values|);
  }

  lemma ReplaceInBlock<X>(blocks: seq<seq<X>>, whole: seq<X>, s: nat, start: nat, from: nat, values: seq<X>, after: seq<X>)
    requires s < |blocks| && from + |values| <= |blocks[s]| && whole == Concatenated(blocks)
    requires after == blocks[s][..from] + values + blocks[s][from + |values|..]
    requires start == Prefix(Lengths(blocks), s) + from
    ensures start + |values| <= |whole| && whole[start..start + |values|] == blocks[s][from..from + |values|]
    ensures whole[..start] + values + whole[start + |values|..] == Concatenated(blocks[s := after])
  {
    var a, c := Concatenated(blocks[..s]), Concatenated(blocks[s + 1..]);
    assert whole == a + blocks[s] + c && start == |a| + from by { BlockPlace(blocks, s); }
    SpliceWith(whole, a, blocks[s], c, start, from, values);
    assert Concatenated(blocks[s := after]) == a + after + c by { ReplacedBlock(blocks, s, after); }
  }

  lemma ReplacedBlock<X>(blocks: seq<seq<X>>, s: nat, after: seq<X>)
    requires s < |blocks|
    ensures Concatenated(blocks[s := after]) == Concatenated(blocks[..s]) + after + Concatenated(blocks[s + 1..])
  {
    BlockPlace(blocks[s := after], s);
    assert blocks[s := after][..s] == blocks[..s] && blocks[s := after][s + 1..] == blocks[s + 1..];
  }

  lemma PartialAdvances<T>(piece: seq<T>, offset: nat, step: nat)
    requires offset <= |piece|
    ensures var chunk, before := Chunk(piece, offset, step), Partial(piece, offset);
      && offset + |chunk| <= |piece|
      && Partial(piece, offset + step) == before[..offset] + Somes(chunk) + before[offset + |chunk|..]
      && forall j | offset <= j < offset + |chunk| :: before[j].None?
  {
    var chunk, before, after := Chunk(piece, offset, step), Partial(piece, offset), Partial(piece, offset + step);
    var built := before[..offset] + Somes(chunk) + before[offset + |chunk|..];
    forall j | 0 <= j < |piece| ensures after[j] == built[j] {
      if j < offset { assert built[j] == before[j]; }
      else if j < offset + |chunk| { assert built[j] == Some(chunk[j - offset]) && chunk[j - offset] == piece[j]; }
      else { assert built[j] == before[j]; }
    }
  }

  lemma StillNone<X>(output: seq<Option<X>>, block: seq<Option<X>>, start: nat, from: nat, count: nat)
    requires start + count <= |output| && from + count <= |block| && output[start..start + count] == block[from..from + count]
    requires forall j | from <= j < from + count :: block[j].None?
    ensures forall i | start <= i < start + count :: output[i].None?
  {
    forall i | start <= i < start + count ensures output[i].None? {
      assert output[i] == output[start..start + count][i - start] == block[from..from + count][i - start] == block[from + i - start];
    }
  }

  // Writing piece s's next chunk at its place moves that piece one round ahead, and writes only
  // cells that were never written.
  lemma WriteChunk<T>(pieces: seq<seq<T>>, offset: nat, step: nat, s: nat)
    requires s < |pieces| && offset <= |pieces[s]|
    ensures var output, start := Concatenated(Filling(pieces, offset, step, s)), Prefix(Lengths(pieces), s) + offset;
      var chunk := Chunk(pieces[s], offset, step);
      && start + |chunk| <= |output|
      && (forall i | start <= i < start + |chunk| :: output[i].None?)
      && output[..start] + Somes(chunk) + output[start + |chunk|..] == Concatenated(Filling(pieces, offset, step, s + 1))
  {
    var blocks, piece := Filling(pieces, offset, step, s), pieces[s];
    var chunk, after := Chunk(piece, offset, step), Partial(piece, offset + step);
    FillingLengths(pieces, offset, step, s);
    PartialAdvances(piece, offset, step);
    var output, start := Concatenated(blocks), Prefix(Lengths(pieces), s) + offset;
    ReplaceInBlock(blocks, output, s, start, offset, Somes(chunk), after);
    FillingStep(pieces, offset, step, s);
    StillNone(output, blocks[s], start, offset, |chunk|);
  }

  lemma FillingStep<T>(pieces: seq<seq<T>>, offset: nat, step: nat, s: nat)
    requires s < |pieces|
    ensures Filling(pieces, offset, step, s + 1) ==
      Filling(pieces, offset, step, s)[s := Partial(pieces[s], offset + step)]
  {
  }

  lemma SkipChunk<T>(pieces: seq<seq<T>>, offset: nat, step: nat, s: nat)
    requires s < |pieces|
    requires Chunk(pieces[s], offset, step) == []
    ensures Filling(pieces, offset, step, s + 1) == Filling(pieces, offset, step, s)
  {
    assert Partial(pieces[s], offset + step) == Partial(pieces[s], offset);
  }

  lemma NextRound<T>(pieces: seq<seq<T>>, offset: nat, step: nat)
    ensures Filling(pieces, offset, step, |pieces|) == Filling(pieces, offset + step, step, 0)
  {
  }

  lemma {:induction false} EmptyFilling<T>(blocks: seq<seq<Option<T>>>)
    requires forall i, j | 0 <= i < |blocks| && 0 <= j < |blocks[i]| :: blocks[i][j].None?
    ensures forall i | 0 <= i < |Concatenated(blocks)| :: Concatenated(blocks)[i].None?
  {
    if blocks != [] { EmptyFilling(blocks[..|blocks| - 1]); }
  }

  lemma {:induction false} SomesConcatenated<T>(blocks: seq<seq<Option<T>>>, pieces: seq<seq<T>>)
    requires |blocks| == |pieces| && forall i | 0 <= i < |blocks| :: blocks[i] == Somes(pieces[i])
    ensures Concatenated(blocks) == Somes(Concatenated(pieces))
  {
    if blocks != [] { SomesConcatenated(blocks[..|blocks| - 1], pieces[..|pieces| - 1]); }
  }

  // Once the offset has passed every count, the output is the pieces laid end to end.
  lemma FilledIsComplete<T>(pieces: seq<seq<T>>, offset: nat, step: nat)
    requires forall s | 0 <= s < |pieces| :: |pieces[s]| <= offset
    ensures Concatenated(Filling(pieces, offset, step, 0)) == Somes(Concatenated(pieces))
  {
    forall s | 0 <= s < |pieces|
      ensures Filling(pieces, offset, step, 0)[s] == Somes(pieces[s])
    {
    }
    SomesConcatenated(Filling(pieces, offset, step, 0), pieces);
  }

  method Assign<T>(output: seq<Option<T>>, start: nat, values: seq<T>) returns (next: seq<Option<T>>)
    requires start + |values| <= |output|
    ensures next == output[..start] + Somes(values) + output[start + |values|..]
  {
    next := output[..start] + Somes(values) + output[start + |values|..];
  }

  // Put the next chunk of block s in its place; an empty chunk is skipped.
  method WritePiece<T>(ghost pieces: seq<seq<T>>, offset: nat, ghost step: nat, ghost s: nat, chunk: seq<T>, blockStart: nat, output: seq<Option<T>>)
    returns (next: seq<Option<T>>)
    requires s < |pieces| && chunk == Chunk(pieces[s], offset, step) && blockStart == Prefix(Lengths(pieces), s)
    requires output == Concatenated(Filling(pieces, offset, step, s))
    ensures next == Concatenated(Filling(pieces, offset, step, s + 1))
  {
    if chunk == [] {
      SkipChunk(pieces, offset, step, s);
      return output;
    }
    WriteChunk(pieces, offset, step, s);
    next := Assign(output, blockStart + offset, chunk);
  }

  // Nothing is written at first, and in the end everything.
  method StartOutput<T>(ghost pieces: seq<seq<T>>, total: nat, ghost step: nat) returns (output: seq<Option<T>>)
    requires total == Sum(Lengths(pieces))
    ensures output == Concatenated(Filling(pieces, 0, step, 0))
  {
    output := seq(total, _ => None);
    ghost var blocks := Filling(pieces, 0, step, 0);
    FillingLengths(pieces, 0, step, 0);
    ConcatenatedLength(blocks);
    EmptyFilling(blocks);
    assert output == Concatenated(blocks);
  }

  method TakeValues<T>(output: seq<Option<T>>, ghost values: seq<T>) returns (taken: seq<T>)
    requires output == Somes(values)
    ensures taken == values
  {
    taken := seq(|output|, i requires 0 <= i < |output| && output[i].Some? => output[i].value);
  }
}
