// What every all-to-all computes: rank d receives, in source order, the blocks the sources hold for it.
module Transpose {
  import opened Layout

  function Sum(counts: seq<nat>): nat {
    if counts == [] then 0 else Sum(counts[..|counts| - 1]) + counts[|counts| - 1]
  }

  function Prefix(counts: seq<nat>, i: nat): nat
    requires i <= |counts|
  {
    Sum(counts[..i])
  }

  lemma PrefixStep(counts: seq<nat>, i: nat)
    requires i < |counts|
    ensures Prefix(counts, i + 1) == Prefix(counts, i) + counts[i]
  {
    assert counts[..i + 1][..i] == counts[..i];
  }

  lemma {:induction false} PrefixMonotone(counts: seq<nat>, i: nat, j: nat)
    requires i <= j <= |counts|
    ensures Prefix(counts, i) <= Prefix(counts, j)
  {
    if i < j {
      PrefixMonotone(counts, i, j - 1);
      PrefixStep(counts, j - 1);
    }
  }

  lemma PieceBounds(counts: seq<nat>, i: nat)
    requires i < |counts|
    ensures Prefix(counts, i + 1) == Prefix(counts, i) + counts[i] <= Sum(counts)
  {
    PrefixStep(counts, i);
    PrefixMonotone(counts, i + 1, |counts|);
    assert counts[..|counts|] == counts;
  }

  // Block i of a row cut by counts.
  function Piece<T>(row: seq<T>, counts: seq<nat>, i: nat): (piece: seq<T>)
    requires |row| == Sum(counts) && i < |counts|
    ensures |piece| == counts[i]
  {
    PieceBounds(counts, i);
    row[Prefix(counts, i)..Prefix(counts, i) + counts[i]]
  }

  function Pieces<T>(row: seq<T>, counts: seq<nat>): (pieces: seq<seq<T>>)
    requires |row| == Sum(counts)
    ensures |pieces| == |counts|
  {
    seq(|counts|, i requires 0 <= i < |counts| => Piece(row, counts, i))
  }

  function Lengths<T>(blocks: seq<seq<T>>): (lengths: seq<nat>)
    ensures |lengths| == |blocks|
  {
    seq(|blocks|, i requires 0 <= i < |blocks| => |blocks[i]|)
  }

  lemma {:induction false} ConcatenatedLength<T>(blocks: seq<seq<T>>)
    ensures |Concatenated(blocks)| == Sum(Lengths(blocks))
  {
    if blocks != [] {
      ConcatenatedLength(blocks[..|blocks| - 1]);
      assert Lengths(blocks)[..|blocks| - 1] == Lengths(blocks[..|blocks| - 1]);
    }
  }

  lemma {:induction false} ConcatenatedAppend<T>(a: seq<seq<T>>, b: seq<seq<T>>)
    ensures Concatenated(a + b) == Concatenated(a) + Concatenated(b)
  {
    if b == [] {
      assert a + b == a;
    } else {
      var front, last := b[..|b| - 1], b[|b| - 1];
      ConcatenatedAppend(a, front);
      assert (a + b)[..|a + b| - 1] == a + front && (a + b)[|a + b| - 1] == last;
      assert (Concatenated(a) + Concatenated(front)) + last == Concatenated(a) + (Concatenated(front) + last);
    }
  }

  // Where block i lies among the blocks laid end to end.
  lemma BlockPlace<T>(blocks: seq<seq<T>>, i: nat)
    requires i < |blocks|
    ensures Concatenated(blocks) == Concatenated(blocks[..i]) + blocks[i] + Concatenated(blocks[i + 1..])
    ensures |Concatenated(blocks[..i])| == Prefix(Lengths(blocks), i)
  {
    assert blocks == blocks[..i] + blocks[i..] && blocks[i..] == [blocks[i]] + blocks[i + 1..];
    ConcatenatedAppend(blocks[..i], blocks[i..]);
    ConcatenatedAppend([blocks[i]], blocks[i + 1..]);
    assert Concatenated([blocks[i]]) == blocks[i] by { assert [blocks[i]][..0] == []; }
    ConcatenatedLength(blocks[..i]);
    assert Lengths(blocks[..i]) == Lengths(blocks)[..i];
  }

  // Cutting what was laid end to end gives the blocks back ...
  lemma PieceOfConcatenated<T>(blocks: seq<seq<T>>, i: nat)
    requires i < |blocks|
    ensures |Concatenated(blocks)| == Sum(Lengths(blocks))
    ensures Piece(Concatenated(blocks), Lengths(blocks), i) == blocks[i]
  {
    ConcatenatedLength(blocks);
    BlockPlace(blocks, i);
  }

  lemma {:induction false} PiecesPrefix<T>(row: seq<T>, counts: seq<nat>, k: nat)
    requires |row| == Sum(counts) && k <= |counts|
    ensures Prefix(counts, k) <= |row| && Concatenated(Pieces(row, counts)[..k]) == row[..Prefix(counts, k)]
  {
    if k > 0 {
      PiecesPrefix(row, counts, k - 1);
      PieceBounds(counts, k - 1);
      assert Pieces(row, counts)[..k][..k - 1] == Pieces(row, counts)[..k - 1];
    }
  }

  // ... and laying the pieces of a row end to end gives the row back.
  lemma ConcatenatedPieces<T>(row: seq<T>, counts: seq<nat>)
    requires |row| == Sum(counts)
    ensures Concatenated(Pieces(row, counts)) == row
  {
    PiecesPrefix(row, counts, |counts|);
    assert Pieces(row, counts)[..|counts|] == Pieces(row, counts) && counts[..|counts|] == counts;
  }

  // ---- the exchange ------------------------------------------------------------------------------

  // counts[s][d] elements go from source s to destination d.
  predicate Fits<T>(rows: seq<seq<T>>, counts: seq<seq<nat>>) {
    && Square(counts) && |rows| == |counts|
    && forall s | 0 <= s < |rows| :: |rows[s]| == Sum(counts[s])
  }

  predicate Square(counts: seq<seq<nat>>) {
    forall s | 0 <= s < |counts| :: |counts[s]| == |counts|
  }

  function Transposed(counts: seq<seq<nat>>): (columns: seq<seq<nat>>)
    requires Square(counts)
    ensures |columns| == |counts| && Square(columns)
  {
    seq(|counts|, d requires 0 <= d < |counts| => Column(counts, d))
  }

  function Delivered<T>(rows: seq<seq<T>>, counts: seq<seq<nat>>, d: nat): (blocks: seq<seq<T>>)
    requires Fits(rows, counts) && d < |rows|
    ensures |blocks| == |rows|
  {
    seq(|rows|, s requires 0 <= s < |rows| => Piece(rows[s], counts[s], d))
  }

  function Exchanged<T>(rows: seq<seq<T>>, counts: seq<seq<nat>>): (out: seq<seq<T>>)
    requires Fits(rows, counts)
    ensures |out| == |rows|
  {
    seq(|rows|, d requires 0 <= d < |rows| => Concatenated(Delivered(rows, counts, d)))
  }

  lemma DeliveredLengths<T>(rows: seq<seq<T>>, counts: seq<seq<nat>>, d: nat)
    requires Fits(rows, counts) && d < |rows|
    ensures Lengths(Delivered(rows, counts, d)) == Column(counts, d)
    ensures |Exchanged(rows, counts)[d]| == Sum(Column(counts, d))
  {
    assert Lengths(Delivered(rows, counts, d)) == Column(counts, d);
    ConcatenatedLength(Delivered(rows, counts, d));
  }

  // Block s of what d receives is block d of what s held.
  lemma ExchangedPiece<T>(rows: seq<seq<T>>, counts: seq<seq<nat>>, s: nat, d: nat)
    requires Fits(rows, counts) && s < |rows| && d < |rows|
    ensures |Exchanged(rows, counts)[d]| == Sum(Column(counts, d))
    ensures Piece(Exchanged(rows, counts)[d], Column(counts, d), s) == Piece(rows[s], counts[s], d)
  {
    DeliveredLengths(rows, counts, d);
    PieceOfConcatenated(Delivered(rows, counts, d), s);
  }

  lemma ExchangedFits<T>(rows: seq<seq<T>>, counts: seq<seq<nat>>)
    requires Fits(rows, counts)
    ensures Fits(Exchanged(rows, counts), Transposed(counts))
  {
    forall d | 0 <= d < |rows| ensures |Exchanged(rows, counts)[d]| == Sum(Transposed(counts)[d]) {
      DeliveredLengths(rows, counts, d);
    }
  }

  // Exchanging what was received gives every rank its own row back: no element is lost, invented or moved.
  lemma ExchangedTwice<T>(rows: seq<seq<T>>, counts: seq<seq<nat>>)
    requires Fits(rows, counts)
    ensures Fits(Exchanged(rows, counts), Transposed(counts))
    ensures Exchanged(Exchanged(rows, counts), Transposed(counts)) == rows
  {
    ExchangedFits(rows, counts);
    var out, columns := Exchanged(rows, counts), Transposed(counts);
    forall s | 0 <= s < |rows| ensures Exchanged(out, columns)[s] == rows[s] {
      forall d | 0 <= d < |rows| ensures Delivered(out, columns, s)[d] == Pieces(rows[s], counts[s])[d] {
        ExchangedPiece(rows, counts, s, d);
      }
      assert Delivered(out, columns, s) == Pieces(rows[s], counts[s]);
      ConcatenatedPieces(rows[s], counts[s]);
    }
  }

  // ---- equal counts ------------------------------------------------------------------------------

  function UniformRow(world: nat, shard: nat): (row: seq<nat>)
    ensures |row| == world && forall k | 0 <= k < world :: row[k] == shard
  {
    seq(world, _ => shard)
  }

  function Uniform(world: nat, shard: nat): (counts: seq<seq<nat>>)
    ensures |counts| == world && Square(counts) && forall s | 0 <= s < world :: counts[s] == UniformRow(world, shard)
  {
    seq(world, _ => UniformRow(world, shard))
  }

  lemma {:induction false} UniformPrefix(counts: seq<nat>, shard: nat, i: nat)
    requires i <= |counts| && forall k | 0 <= k < |counts| :: counts[k] == shard
    ensures Prefix(counts, i) == i * shard
  {
    if i > 0 {
      UniformPrefix(counts, shard, i - 1);
      PrefixStep(counts, i - 1);
      assert i * shard == (i - 1) * shard + shard;
    }
  }

  lemma UniformSum(counts: seq<nat>, shard: nat)
    requires forall k | 0 <= k < |counts| :: counts[k] == shard
    ensures Sum(counts) == |counts| * shard
  {
    UniformPrefix(counts, shard, |counts|);
    assert counts[..|counts|] == counts;
  }

  lemma UniformFits<T>(rows: seq<seq<T>>, shard: nat)
    requires forall s | 0 <= s < |rows| :: |rows[s]| == |rows| * shard
    ensures Fits(rows, Uniform(|rows|, shard))
    ensures Sum(UniformRow(|rows|, shard)) == |rows| * shard
    ensures forall d | 0 <= d < |rows| :: Column(Uniform(|rows|, shard), d) == UniformRow(|rows|, shard)
  {
    UniformSum(UniformRow(|rows|, shard), shard);
  }

  lemma UniformColumn(world: nat, shard: nat, d: nat)
    requires d < world
    ensures Column(Uniform(world, shard), d) == UniformRow(world, shard)
  {
  }

  lemma UniformIsItsTranspose(world: nat, shard: nat)
    ensures Transposed(Uniform(world, shard)) == Uniform(world, shard)
  {
    forall d | 0 <= d < world ensures Column(Uniform(world, shard), d) == UniformRow(world, shard) { UniformColumn(world, shard, d); }
  }

  // ---- counts in elements and in bytes -----------------------------------------------------------

  function Scaled(counts: seq<nat>, width: nat): (bytes: seq<nat>)
    ensures |bytes| == |counts|
  {
    seq(|counts|, i requires 0 <= i < |counts| => counts[i] * width)
  }

  lemma {:induction false} ScaledSum(counts: seq<nat>, width: nat)
    ensures Sum(Scaled(counts, width)) == Sum(counts) * width
  {
    if counts != [] {
      var front, last := counts[..|counts| - 1], counts[|counts| - 1];
      ScaledSum(front, width);
      assert Scaled(counts, width)[..|front|] == Scaled(front, width);
      assert (Sum(front) + last) * width == Sum(front) * width + last * width;
    }
  }

  lemma ScaledPrefix(counts: seq<nat>, width: nat, i: nat)
    requires i <= |counts|
    ensures Prefix(Scaled(counts, width), i) == Prefix(counts, i) * width
  {
    ScaledSum(counts[..i], width);
    assert Scaled(counts, width)[..i] == Scaled(counts[..i], width);
  }

  function ScaledMatrix(counts: seq<seq<nat>>, width: nat): (bytes: seq<seq<nat>>)
    requires Square(counts)
    ensures |bytes| == |counts| && Square(bytes)
  {
    seq(|counts|, s requires 0 <= s < |counts| => Scaled(counts[s], width))
  }

  lemma ScaledColumn(counts: seq<seq<nat>>, width: nat, d: nat)
    requires Square(counts) && d < |counts|
    ensures Column(ScaledMatrix(counts, width), d) == Scaled(Column(counts, d), width)
  {
  }

  lemma ScaledTransposed(counts: seq<seq<nat>>, width: nat)
    requires Square(counts)
    ensures Transposed(ScaledMatrix(counts, width)) == ScaledMatrix(Transposed(counts), width)
  {
    forall d | 0 <= d < |counts| ensures Transposed(ScaledMatrix(counts, width))[d] == ScaledMatrix(Transposed(counts), width)[d] {
      ScaledColumn(counts, width, d);
    }
  }

  lemma TransposedTwice(counts: seq<seq<nat>>)
    requires Square(counts)
    ensures Transposed(Transposed(counts)) == counts
  {
    forall s | 0 <= s < |counts| ensures Transposed(Transposed(counts))[s] == counts[s] {
    }
  }
}
