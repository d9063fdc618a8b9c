/** `create_dmap` in compress_gmp.py: the `DMAP` chunk body built from the
    output of `create_columns` and the record dictionary. */
module Dmap {
  import opened Bytes
  import opened Blocks
  import opened Umap
  import opened Column
  import opened Encoder

  /** `dmap_dict`: the chunk size and its five parts. */
  datatype DmapInfo = DmapInfo(size: nat, base: seq<Byte>, columnDwords: nat, columnData: seq<Byte>,
                               numBlocks: nat, blockInfo: seq<Byte>)

  /** The IndexError of `[-1]` on an empty list, and the two asserts that
      can fail. */
  datatype DmapError = EmptyColumnList | ColumnDataLength | BlockInfoLength

  /** The base table: one dword per (x, y), row by row. */
  function BaseOf(indices: array2<nat>): (base: seq<Byte>)
    requires indices.Length0 == MapSide && indices.Length1 == MapSide
    reads indices
  {
    Concat(BaseCells(indices))
  }

  function BaseCells(indices: array2<nat>): (cells: seq<seq<Byte>>)
    requires indices.Length0 == MapSide && indices.Length1 == MapSide
    reads indices
    ensures |cells| == LevelCells
    ensures forall k :: 0 <= k < LevelCells ==> cells[k] == Dword(indices[k / MapSide, k % MapSide]) && |cells[k]| == 4
  {
    seq(LevelCells, k requires 0 <= k < LevelCells reads indices => Dword(indices[k / MapSide, k % MapSide]))
  }

  /** The base table is 4 * 65536 bytes and the dword at x + 256 y is the
      column index of (x, y), modulo 2^32. */
  lemma {:induction false} BaseLayout(indices: array2<nat>, y: nat, x: nat)
    requires indices.Length0 == MapSide && indices.Length1 == MapSide
    requires y < MapSide && x < MapSide
    ensures |BaseOf(indices)| == 4 * LevelCells
    ensures var k := MapSide * y + x;
      4 * k + 4 <= |BaseOf(indices)| && BaseOf(indices)[4 * k..4 * k + 4] == Dword(indices[y, x])
    ensures var k := MapSide * y + x;
      4 * k + 4 <= |BaseOf(indices)| && LittleEndian(BaseOf(indices)[4 * k..4 * k + 4]) == indices[y, x] % TwoTo32
  {
    var k := MapSide * y + x;
    CellIndex(y, x);
    ConcatUniform(BaseCells(indices), 4, k);
    DwordRoundTrip(indices[y, x]);
  }

  /** `column_dwords`: the last column's offset plus its dword count. */
  function ColumnDwords(columns: seq<seq<Byte>>, offsets: seq<nat>): nat
    requires |columns| > 0 && |offsets| > 0
  {
    offsets[|offsets| - 1] + |columns[|columns| - 1]| / 4
  }

  /** `create_dmap`. */
  method CreateDmap(indices: array2<nat>, columns: seq<seq<Byte>>, blockList: seq<seq<Byte>>, offsets: seq<nat>)
    returns (r: Result<DmapInfo, DmapError>)
    requires indices.Length0 == MapSide && indices.Length1 == MapSide
    ensures r.Err? <==>
      |offsets| == 0 || |columns| == 0
      || |Concat(columns)| != 4 * ColumnDwords(columns, offsets)
      || |Concat(blockList)| != RecordSize * |blockList|
    ensures |offsets| == 0 || |columns| == 0 ==> r == Err(EmptyColumnList)
    ensures r.Ok? ==> r.value == DmapInfo(
      4 * LevelCells + 4 + |Concat(columns)| + 4 + |Concat(blockList)|,
      BaseOf(indices), ColumnDwords(columns, offsets), Concat(columns), |blockList|, Concat(blockList))
  {
    var base := BuildBase(indices);
    if |offsets| == 0 || |columns| == 0 {
      return Err(EmptyColumnList);
    }
    var columnDwords := offsets[|offsets| - 1] + |columns[|columns| - 1]| / 4;
    var columnData := JoinBytes(columns);
    if |columnData| != 4 * columnDwords {
      return Err(ColumnDataLength);
    }
    var numBlocks := |blockList|;
    var blockInfo := JoinBytes(blockList);
    if |blockInfo| != RecordSize * numBlocks {
      return Err(BlockInfoLength);
    }
    var size := |base| + 4 + |columnData| + 4 + |blockInfo|;
    return Ok(DmapInfo(size, base, columnDwords, columnData, numBlocks, blockInfo));
  }

  /** The base loop of `create_dmap`: the dwords of the column indices,
      row by row, 4 * 65536 bytes in all. */
  method BuildBase(indices: array2<nat>) returns (base: seq<Byte>)
    requires indices.Length0 == MapSide && indices.Length1 == MapSide
    ensures base == BaseOf(indices) && |base| == 4 * LevelCells
  {
    base := [];
    for y := 0 to 256
      invariant base == Concat(BaseCells(indices)[..MapSide * y])
    {
      for x := 0 to 256
        invariant base == Concat(BaseCells(indices)[..MapSide * y + x])
      {
        BaseStep(indices, y, x, base);
        base := base + Dword(indices[y, x]);
      }
    }
    BaseDone(indices, base);
  }

  /** One pass of the inner base loop appends the dword of cell (x, y). */
  lemma BaseStep(indices: array2<nat>, y: nat, x: nat, base: seq<Byte>)
    requires indices.Length0 == MapSide && indices.Length1 == MapSide
    requires y < MapSide && x < MapSide
    requires base == Concat(BaseCells(indices)[..MapSide * y + x])
    ensures base + Dword(indices[y, x]) == Concat(BaseCells(indices)[..MapSide * y + x + 1])
  {
    var cells := BaseCells(indices);
    CellIndex(y, x);
    assert cells[..MapSide * y + x + 1][..MapSide * y + x] == cells[..MapSide * y + x];
  }

  lemma BaseDone(indices: array2<nat>, base: seq<Byte>)
    requires indices.Length0 == MapSide && indices.Length1 == MapSide
    requires base == Concat(BaseCells(indices)[..MapSide * MapSide])
    ensures base == BaseOf(indices) && |base| == 4 * LevelCells
  {
    assert BaseCells(indices)[..MapSide * MapSide] == BaseCells(indices);
    ConcatLength(BaseCells(indices), 4);
  }

  /** The `+=` loops of `create_dmap` over the columns and over the
      records: the parts joined in order. */
  method JoinBytes(parts: seq<seq<Byte>>) returns (joined: seq<Byte>)
    ensures joined == Concat(parts)
  {
    joined := [];
    for i := 0 to |parts|
      invariant joined == Concat(parts[..i])
    {
      assert parts[..i + 1][..i] == parts[..i];
      joined := joined + parts[i];
    }
    assert parts[..|parts|] == parts;
  }

  /** Joining byte strings whose lengths are multiples of 4 puts string `k`
      at dword `DwordsBefore(cs, k)`, and the whole is
      `4 * DwordsBefore(cs, |cs|)` bytes. */
  lemma ColumnsLocated(cs: seq<seq<Byte>>, k: nat)
    requires forall j :: 0 <= j < |cs| ==> |cs[j]| % 4 == 0
    requires k < |cs|
    ensures |Concat(cs)| == 4 * DwordsBefore(cs, |cs|)
    ensures 4 * DwordsBefore(cs, k) + |cs[k]| <= |Concat(cs)|
    ensures Concat(cs)[4 * DwordsBefore(cs, k)..4 * DwordsBefore(cs, k) + |cs[k]|] == cs[k]
  {
    PrefixDwords(cs, |cs|);
    assert cs[..|cs|] == cs;
    PrefixDwords(cs, k);
    ConcatAround(cs, k);
  }

  lemma WholeDwords(e: seq<Byte>, n: nat)
    requires |e| == 4 * n + 4
    ensures |e| % 4 == 0
  {
  }

  /** `Dedup` of dword-aligned strings is dword-aligned. */
  lemma DedupAligned(s: seq<seq<Byte>>)
    requires forall k :: 0 <= k < |s| ==> |s[k]| % 4 == 0
    ensures forall j :: 0 <= j < |Dedup(s)| ==> |Dedup(s)[j]| % 4 == 0
  {
    DedupSpec(s);
    forall j | 0 <= j < |Dedup(s)| ensures |Dedup(s)[j]| % 4 == 0 {
      assert Dedup(s)[j] in s;
    }
  }

  lemma DedupNonEmpty(s: seq<seq<Byte>>)
    requires |s| > 0
    ensures |Dedup(s)| > 0
  {
    DedupSpec(s);
    assert s[0] in Dedup(s);
  }

  /** Every column encoding is a whole number of dwords. */
  lemma EncodingsAligned(g: Grid, blockList: seq<seq<Byte>>)
    requires IsGrid(g)
    ensures forall k :: 0 <= k < |Encodings(g, blockList)| ==> |Encodings(g, blockList)[k]| % 4 == 0
  {
    var encs := Encodings(g, blockList);
    forall k | 0 <= k < |encs| ensures |encs[k]| % 4 == 0 {
      var col := ColumnAt(g, k % MapSide, k / MapSide);
      WholeDwords(encs[k], IdCount(col));
    }
  }

  /** Joined, `columns` has every column at its recorded dword offset. */
  predicate AtOffsets(columns: seq<seq<Byte>>, offsets: seq<nat>)
    requires |offsets| == |columns|
  {
    forall j :: 0 <= j < |columns| ==>
      4 * offsets[j] + |columns[j]| <= |Concat(columns)|
      && Concat(columns)[4 * offsets[j]..4 * offsets[j] + |columns[j]|] == columns[j]
  }

  /** Joined, a list of distinct dword-aligned columns (such as `Dedup` of
      the encodings) has every column at its recorded offset, and its
      length is `4 * column_dwords`. */
  lemma {:induction false} AlignedColumnsConsistent(columns: seq<seq<Byte>>, offsets: seq<nat>)
    requires |columns| > 0 && |offsets| == |columns|
    requires forall j :: 0 <= j < |columns| ==> |columns[j]| % 4 == 0
    requires forall j :: 0 <= j < |offsets| ==> offsets[j] == DwordsBefore(columns, j)
    ensures |Concat(columns)| == 4 * ColumnDwords(columns, offsets)
    ensures AtOffsets(columns, offsets)
  {
    ColumnsLocated(columns, |columns| - 1);
    forall j | 0 <= j < |columns|
      ensures 4 * offsets[j] + |columns[j]| <= |Concat(columns)|
      ensures Concat(columns)[4 * offsets[j]..4 * offsets[j] + |columns[j]|] == columns[j]
    {
      ColumnsLocated(columns, j);
    }
  }

  /** What `create_columns` returns passes the `column_data` assert of
      `create_dmap`: there is at least one column, and the column data is
      `4 * column_dwords` bytes with every column at its recorded offset. */
  lemma {:induction false} ColumnsConsistent(g: Grid, blockList: seq<seq<Byte>>, offsets: seq<nat>)
    requires IsGrid(g)
    requires |offsets| == |Dedup(Encodings(g, blockList))|
    requires forall j :: 0 <= j < |offsets| ==> offsets[j] == DwordsBefore(Dedup(Encodings(g, blockList)), j)
    ensures var columns := Dedup(Encodings(g, blockList));
      |columns| > 0 && |Concat(columns)| == 4 * ColumnDwords(columns, offsets)
    ensures AtOffsets(Dedup(Encodings(g, blockList)), offsets)
  {
    EncodingsAligned(g, blockList);
    DedupConsistent(Encodings(g, blockList), offsets);
  }

  lemma DedupConsistent(encs: seq<seq<Byte>>, offsets: seq<nat>)
    requires |encs| > 0 && forall k :: 0 <= k < |encs| ==> |encs[k]| % 4 == 0
    requires |offsets| == |Dedup(encs)|
    requires forall j :: 0 <= j < |offsets| ==> offsets[j] == DwordsBefore(Dedup(encs), j)
    ensures var columns := Dedup(encs);
      |columns| > 0 && |Concat(columns)| == 4 * ColumnDwords(columns, offsets)
    ensures AtOffsets(Dedup(encs), offsets)
  {
    DedupAligned(encs);
    DedupNonEmpty(encs);
    AlignedColumnsConsistent(Dedup(encs), offsets);
  }

  /** The `block_info` assert holds when every dictionary record is 12 bytes. */
  lemma BlockInfoConsistent(blockList: seq<seq<Byte>>)
    requires forall i :: 0 <= i < |blockList| ==> |blockList[i]| == RecordSize
    ensures |Concat(blockList)| == RecordSize * |blockList|
  {
    ConcatLength(blockList, RecordSize);
  }
}
