/** The column decoders of compress_gmp.py: `DMAP_read_all_columns` and
    `CMAP_read_all_columns`, which walk a chunk's column stream up to its
    block records, and `DMAP_decompress` and `CMAP_decompress`, which
    rebuild the 8 x 256 x 256 grid of block records. The PC `DMAP` and the
    PSX `CMAP` share one layout and differ in the width of their fields and
    in how an id selects a record, so both are one format parameter here.
    The file is an in-memory byte string and positions are integers. */
module Decoder {
  import opened Bytes
  import opened Blocks
  import opened Umap
  import opened Column
  import opened Encoder
  import opened Dmap
  import opened Gmp
  import opened Container

  /** `DMAP` (PC, dword fields) or `CMAP` (PSX, word fields). */
  datatype Format = Pc | Psx

  /** The width of a base entry, of the column-word count, of a column
      header (height, offset and, for `DMAP`, two pad bytes) and of an id. */
  function Width(f: Format): (w: nat)
    ensures w == 2 || w == 4
  {
    if f == Pc then 4 else 2
  }

  /** `MAP_MAX_Z`, the highest level. */
  const MaxLevel: nat := 7

  /** The `sys.exit` calls of the scans, with the position of the column,
      and the endless loop on a column of size 0. */
  datatype ScanError = HeightAbove7(at: nat) | OffsetAbove7(at: nat) | NegativeSize(at: nat) | NoProgress(at: nat)

  /** The word counter's bound: the count field counts dwords in `DMAP`
      (`2 * column_words`) and words in `CMAP`. */
  function Target(f: Format, columnWords: nat): nat
  {
    if f == Pc then 2 * columnWords else columnWords
  }

  /** The byte at `pos` as read by `int.from_bytes(file.read(1))`, 0 past
      the end of the file. */
  function ByteAt(file: seq<Byte>, pos: nat): nat
  {
    if pos < |file| then file[pos] else 0
  }

  /** `ByteAt` is the one-byte read. */
  lemma ByteRead(file: seq<Byte>, pos: nat)
    ensures LittleEndian(Read(file, pos, 1)) == ByteAt(file, pos)
  {
    if pos < |file| {
      assert Read(file, pos, 1) == [file[pos]];
      assert LittleEndian([file[pos]][1..]) == 0;
    }
  }

  /** The bytes of a column with `numBlocks` ids: height, offset, for
      `DMAP` two pad bytes, and one id field each. */
  function ColumnBytes(f: Format, numBlocks: int): int
  {
    if f == Pc then 1 + 1 + 2 + 4 * numBlocks else 1 + 1 + 2 * numBlocks
  }

  /** The size in bytes of the column at `pos`: header plus
      `height - offset` ids, or the error that stops the scan there. A
      positive size is at least one word, so the counter moves. */
  function ColumnSize(file: seq<Byte>, f: Format, pos: nat): (r: Result<nat, ScanError>)
    ensures r.Ok? ==> r.value >= 2
  {
    var h := ByteAt(file, pos);
    var o := ByteAt(file, After(file, pos, 1));
    if h > MaxLevel then Err(HeightAbove7(pos))
    else if o > MaxLevel then Err(OffsetAbove7(pos))
    else
      var size := ColumnBytes(f, h - o);
      if size < 0 then Err(NegativeSize(pos))
      else if size == 0 then Err(NoProgress(pos))
      else Ok(size)
  }

  /** The scan loop from `pos` with the counter at `words`: the position
      where it stops, or the error. */
  function Walk(file: seq<Byte>, f: Format, pos: nat, words: nat, target: nat): Result<nat, ScanError>
    decreases target - words
  {
    if words >= target then Ok(pos)
    else
      match ColumnSize(file, f, pos)
      case Err(e) => Err(e)
      case Ok(size) => Walk(file, f, After(file, pos, size), words + size / 2, target)
  }

  /** The while loop shared by both `*_read_all_columns`: reads the
      column-word count at `countPos`, then steps over columns, each one
      read as height, offset, a seek back and a read of the whole column. */
  method ScanColumns(file: seq<Byte>, f: Format, countPos: nat) returns (r: Result<nat, ScanError>)
    ensures r == Walk(file, f, After(file, countPos, Width(f)), 0, Target(f, LittleEndian(Read(file, countPos, Width(f)))))
  {
    var w := Width(f);
    var columnWords := LittleEndian(Read(file, countPos, w));
    var pos := After(file, countPos, w);
    var target := if f == Pc then 2 * columnWords else columnWords;
    ghost var spec := Walk(file, f, pos, 0, target);
    var words: nat := 0;
    while words < target
      invariant Walk(file, f, pos, words, target) == spec
      decreases target - words
    {
      var startOffset := pos;
      ByteRead(file, pos);
      var columnHeight := LittleEndian(Read(file, pos, 1));
      pos := After(file, pos, 1);
      ByteRead(file, pos);
      var columnOffset := LittleEndian(Read(file, pos, 1));
      pos := After(file, pos, 1);
      if columnHeight > MaxLevel {
        return Err(HeightAbove7(startOffset));
      }
      if columnOffset > MaxLevel {
        return Err(OffsetAbove7(startOffset));
      }
      pos := startOffset;
      var numBlocks := columnHeight - columnOffset;
      var columnSize := if f == Pc then 1 + 1 + 2 + 4 * numBlocks else 1 + 1 + 2 * numBlocks;
      if columnSize < 0 {
        return Err(NegativeSize(startOffset));
      }
      if columnSize == 0 {
        return Err(NoProgress(startOffset));
      }
      assert ColumnSize(file, f, pos) == Ok(columnSize);
      pos := After(file, pos, columnSize);
      words := words + columnSize / 2;
    }
    return Ok(pos);
  }

  /** What `DMAP_read_all_columns` returns for a `DMAP` body at
      `dmapOffset`: the end of the column stream plus the 4 bytes of the
      record count, where the block records start. */
  function DmapColumnsEnd(file: seq<Byte>, dmapOffset: nat): Result<nat, ScanError>
  {
    var countPos := dmapOffset + 4 * LevelCells;
    match Walk(file, Pc, After(file, countPos, 4), 0, 2 * LittleEndian(Read(file, countPos, 4)))
    case Err(e) => Err(e)
    case Ok(finish) => Ok(finish + 4)
  }

  method DmapReadAllColumns(file: seq<Byte>, dmapOffset: nat) returns (r: Result<nat, ScanError>)
    ensures r == DmapColumnsEnd(file, dmapOffset)
  {
    var scan := ScanColumns(file, Pc, dmapOffset + 4 * LevelCells);
    if scan.Err? {
      return Err(scan.error);
    }
    var columnFinishOffset := scan.value;
    return Ok(columnFinishOffset + 4);
  }

  /** What `CMAP_read_all_columns` returns: where the first record
      dictionary starts, where it ends (12 bytes per record as counted) and
      its record count. */
  datatype CmapLayout = CmapLayout(blockInfo: nat, blockFinish: nat, numBlocks: nat)

  /** The 1024 bytes between the `CMAP` column stream and the dictionary's
      record count. */
  const CmapGap: nat := 1024

  function CmapLayoutOf(file: seq<Byte>, cmapOffset: nat): Result<CmapLayout, ScanError>
  {
    var countPos := cmapOffset + 2 * LevelCells;
    match Walk(file, Psx, After(file, countPos, 2), 0, LittleEndian(Read(file, countPos, 2)))
    case Err(e) => Err(e)
    case Ok(finish) =>
      var n := LittleEndian(Read(file, finish + CmapGap, 2));
      Ok(CmapLayout(finish + CmapGap + 2, finish + CmapGap + RecordSize * n, n))
  }

  method CmapReadAllColumns(file: seq<Byte>, cmapOffset: nat) returns (r: Result<CmapLayout, ScanError>)
    ensures r == CmapLayoutOf(file, cmapOffset)
  {
    var scan := ScanColumns(file, Psx, cmapOffset + 2 * LevelCells);
    if scan.Err? {
      return Err(scan.error);
    }
    var columnFinishOffset := scan.value;
    var blockDataInfoOffset := columnFinishOffset + CmapGap;
    var numTotalBlocks := LittleEndian(Read(file, blockDataInfoOffset, 2));
    var blockDataFinishOffset := blockDataInfoOffset + numTotalBlocks * RecordSize;
    return Ok(CmapLayout(blockDataInfoOffset + 2, blockDataFinishOffset, numTotalBlocks));
  }

  /** A column as the scan expects it: height and offset bytes with
      offset <= height <= 7, and `height - offset` ids after the header. */
  predicate WellFormed(f: Format, c: seq<Byte>)
  {
    |c| >= 2 && c[1] <= c[0] <= MaxLevel && |c| == ColumnBytes(f, c[0] - c[1])
  }

  /** The words the scan counts for the columns `cs`. */
  function HalfWords(cs: seq<seq<Byte>>): nat
  {
    if |cs| == 0 then 0 else HalfWords(cs[..|cs| - 1]) + |cs[|cs| - 1]| / 2
  }

  /** A well-formed column whose header bytes the file holds at `p`, with
      room for the whole column. */
  predicate HeaderAt(file: seq<Byte>, f: Format, p: nat, c: seq<Byte>)
  {
    WellFormed(f, c) && p + |c| <= |file| && ByteAt(file, p) == c[0] && ByteAt(file, p + 1) == c[1]
  }

  /** One well-formed column lying at `pos` is stepped over whole. */
  lemma WalkStep(file: seq<Byte>, f: Format, pos: nat, words: nat, target: nat, c: seq<Byte>, pos': nat, words': nat)
    requires HeaderAt(file, f, pos, c)
    requires words + |c| / 2 <= target
    requires pos' == pos + |c| && words' == words + |c| / 2
    ensures Walk(file, f, pos, words, target) == Walk(file, f, pos', words', target)
  {
    assert After(file, pos, 1) == pos + 1;
    assert ColumnSize(file, f, pos) == Ok(|c|);
  }

  /** Bytes `a + b` at `pos` are `a` at `pos` and `b` right after it. */
  lemma SliceSplit(file: seq<Byte>, pos: nat, a: seq<Byte>, b: seq<Byte>)
    requires pos + |a + b| <= |file| && file[pos..pos + |a + b|] == a + b
    ensures pos + |a| + |b| <= |file|
    ensures file[pos..pos + |a|] == a && file[pos + |a|..pos + |a| + |b|] == b
  {
    assert file[pos..pos + |a|] == (a + b)[..|a|];
    assert file[pos + |a|..pos + |a| + |b|] == (a + b)[|a|..];
  }

  /** A run of well-formed columns lying in the file at `pos`. */
  predicate ColumnsAt(file: seq<Byte>, f: Format, pos: nat, cs: seq<seq<Byte>>)
  {
    && (forall j :: 0 <= j < |cs| ==> WellFormed(f, cs[j]))
    && pos + |Concat(cs)| <= |file| && file[pos..pos + |Concat(cs)|] == Concat(cs)
  }

  /** What the scan sees of such a run: each column's header where the
      columns before it end. */
  predicate HeadersAt(file: seq<Byte>, f: Format, pos: nat, cs: seq<seq<Byte>>)
    decreases |cs|
  {
    |cs| == 0 ||
    (HeadersAt(file, f, pos, cs[..|cs| - 1]) && HeaderAt(file, f, pos + |Concat(cs[..|cs| - 1])|, cs[|cs| - 1]))
  }

  /** A run of columns is the run without its last column, then the last
      column right after it. */
  lemma SplitLast(file: seq<Byte>, f: Format, pos: nat, cs: seq<seq<Byte>>)
    requires |cs| > 0 && ColumnsAt(file, f, pos, cs)
    ensures var init := cs[..|cs| - 1];
      var c := cs[|cs| - 1];
      && ColumnsAt(file, f, pos, init)
      && WellFormed(f, c)
      && pos + |Concat(init)| + |c| <= |file| && file[pos + |Concat(init)|..pos + |Concat(init)| + |c|] == c
  {
    var init := cs[..|cs| - 1];
    var c := cs[|cs| - 1];
    assert Concat(cs) == Concat(init) + c;
    SliceSplit(file, pos, Concat(init), c);
    assert forall j :: 0 <= j < |init| ==> init[j] == cs[j];
  }

  /** The header of a column lying at `p`. */
  lemma HeaderOf(file: seq<Byte>, f: Format, p: nat, c: seq<Byte>)
    requires WellFormed(f, c)
    requires p + |c| <= |file| && file[p..p + |c|] == c
    ensures HeaderAt(file, f, p, c)
  {
    assert file[p] == c[0] && file[p + 1] == c[1];
  }

  lemma {:induction false} HeadersOf(file: seq<Byte>, f: Format, pos: nat, cs: seq<seq<Byte>>)
    requires ColumnsAt(file, f, pos, cs)
    ensures HeadersAt(file, f, pos, cs)
    decreases |cs|
  {
    if |cs| > 0 {
      var init := cs[..|cs| - 1];
      SplitLast(file, f, pos, cs);
      HeadersOf(file, f, pos, init);
      HeaderOf(file, f, pos + |Concat(init)|, cs[|cs| - 1]);
    }
  }

  /** The scan steps over a run of columns whose headers it finds, as long
      as the counter stays within its bound: from `pos` and `words` it
      reaches `end` and `endWords`. */
  lemma {:induction false} WalkHeaders(file: seq<Byte>, f: Format, pos: nat, words: nat, target: nat, cs: seq<seq<Byte>>, end: nat, endWords: nat)
    requires HeadersAt(file, f, pos, cs)
    requires end == pos + |Concat(cs)| && endWords == words + HalfWords(cs) <= target
    ensures Walk(file, f, pos, words, target) == Walk(file, f, end, endWords, target)
    decreases |cs|
  {
    if |cs| > 0 {
      var init := cs[..|cs| - 1];
      var c := cs[|cs| - 1];
      var mid := pos + |Concat(init)|;
      var midWords := words + HalfWords(init);
      assert end == mid + |c| && endWords == midWords + |c| / 2;
      WalkHeaders(file, f, pos, words, target, init, mid, midWords);
      WalkStep(file, f, mid, midWords, target, c, end, endWords);
    } else {
      assert Concat(cs) == [] && HalfWords(cs) == 0;
    }
  }

  /** The scan steps over a run of well-formed columns as long as the
      counter stays within its bound. */
  lemma WalkOver(file: seq<Byte>, f: Format, pos: nat, words: nat, target: nat, cs: seq<seq<Byte>>, end: nat, endWords: nat)
    requires ColumnsAt(file, f, pos, cs)
    requires end == pos + |Concat(cs)| && endWords == words + HalfWords(cs) <= target
    ensures Walk(file, f, pos, words, target) == Walk(file, f, end, endWords, target)
  {
    HeadersOf(file, f, pos, cs);
    WalkHeaders(file, f, pos, words, target, cs, end, endWords);
  }

  /** A column with no occupied level. */
  predicate AllEmpty(col: seq<seq<Byte>>)
  {
    forall z :: 0 <= z < |col| ==> IsEmpty(col[z])
  }

  /** `create_columns`' encoding of a column with no occupied level. */
  const AllEmptyColumn: seq<Byte> := [0, 8, 0, 0]

  /** Every column encoding is either a column the scan steps over or the
      all-empty column's `[0, 8, 0, 0]`, whose offset byte the scan
      rejects; the latter exactly when no level is occupied. */
  lemma {:induction false} EncodingScans(col: seq<seq<Byte>>, blockList: seq<seq<Byte>>)
    requires |col| == MapLevels
    ensures var enc := ColumnEncoding(col, blockList); WellFormed(Pc, enc) <==> enc != AllEmptyColumn
    ensures ColumnEncoding(col, blockList) == AllEmptyColumn <==> AllEmpty(col)
  {
    LeadTopSpec(col);
    var enc := ColumnEncoding(col, blockList);
    assert enc[0] == HeaderHeight(col) && enc[1] == HeaderOffset(col);
    if Lead(col) == 8 {
      assert Top(col) == 0;
      assert enc == AllEmptyColumn;
    } else {
      assert !IsEmpty(col[Lead(col)]);
      assert HeaderOffset(col) <= HeaderHeight(col) <= 7;
    }
  }

  /** A well-formed column is a whole number of words. */
  lemma WellFormedEven(f: Format, c: seq<Byte>)
    requires WellFormed(f, c)
    ensures |c| == 2 * (|c| / 2)
  {
    var n := c[0] - c[1];
    if f == Pc {
      assert |c| == 2 * (2 + 2 * n);
    } else {
      assert |c| == 2 * (1 + n);
    }
  }

  /** Well-formed columns count half their bytes. */
  lemma {:induction false} HalfWordsConcat(f: Format, cs: seq<seq<Byte>>)
    requires forall j :: 0 <= j < |cs| ==> WellFormed(f, cs[j])
    ensures 2 * HalfWords(cs) == |Concat(cs)|
    decreases |cs|
  {
    if |cs| > 0 {
      var init := cs[..|cs| - 1];
      assert forall j :: 0 <= j < |init| ==> init[j] == cs[j];
      HalfWordsConcat(f, init);
      WellFormedEven(f, cs[|cs| - 1]);
    }
  }

  /** The fields of a `DMAP` body ahead of its column data. */
  lemma DmapBodyParts(d: DmapInfo)
    requires |d.base| == 4 * LevelCells && d.columnDwords < TwoTo32
    ensures var file := DmapBody(d);
      4 * LevelCells + 8 + |d.columnData| <= |file|
      && LittleEndian(Read(file, 4 * LevelCells, 4)) == d.columnDwords
      && After(file, 4 * LevelCells, 4) == 4 * LevelCells + 4
      && file[4 * LevelCells + 4..4 * LevelCells + 4 + |d.columnData|] == d.columnData
      && file[4 * LevelCells + 8 + |d.columnData|..] == d.blockInfo
  {
    var file := DmapBody(d);
    var n := 4 * LevelCells;
    assert file[n..n + 4] == Dword(d.columnDwords);
    assert Read(file, n, 4) == Dword(d.columnDwords);
    DwordOfSmall(d.columnDwords);
    assert file[n + 4..n + 4 + |d.columnData|] == d.columnData;
    assert file[n + 8 + |d.columnData|..] == d.blockInfo;
  }

  /** A column stream of `4 * columnDwords` bytes at `start` made of
      well-formed columns is walked to its end. */
  lemma {:induction false} StreamWalked(file: seq<Byte>, start: nat, columnDwords: nat, cs: seq<seq<Byte>>)
    requires forall j :: 0 <= j < |cs| ==> WellFormed(Pc, cs[j])
    requires |Concat(cs)| == 4 * columnDwords
    requires start + |Concat(cs)| <= |file| && file[start..start + |Concat(cs)|] == Concat(cs)
    ensures Walk(file, Pc, start, 0, 2 * columnDwords) == Ok(start + |Concat(cs)|)
  {
    HalfWordsConcat(Pc, cs);
    WalkOver(file, Pc, start, 0, 2 * columnDwords, cs, start + |Concat(cs)|, 2 * columnDwords);
  }

  /** The walk stops at a column whose offset byte is above 7. */
  lemma WalkStops(file: seq<Byte>, f: Format, pos: nat, words: nat, target: nat)
    requires ByteAt(file, pos) <= MaxLevel && ByteAt(file, pos + 1) > MaxLevel
    requires words < target
    ensures Walk(file, f, pos, words, target) == Err(OffsetAbove7(pos))
  {
  }

  /** The columns before column `k` of such a stream lie at its start, and
      the all-empty column right after them. */
  lemma StopSlices(file: seq<Byte>, start: nat, cs: seq<seq<Byte>>, k: nat)
    requires k < |cs| && cs[k] == AllEmptyColumn
    requires forall j :: 0 <= j < k ==> WellFormed(Pc, cs[j])
    requires start + |Concat(cs)| <= |file| && file[start..start + |Concat(cs)|] == Concat(cs)
    ensures var p := start + |Concat(cs[..k])|;
      && ColumnsAt(file, Pc, start, cs[..k])
      && |Concat(cs[..k])| + 4 <= |Concat(cs)|
      && p + 1 < |file| && file[p] == 0 && file[p + 1] == 8
  {
    var before := cs[..k];
    var after := AllEmptyColumn + Concat(cs[k + 1..]);
    ConcatAround(cs, k);
    SliceSplit(file, start, Concat(before), after);
    assert forall j :: 0 <= j < |before| ==> before[j] == cs[j];
    var p := start + |Concat(before)|;
    assert file[p] == after[0] && file[p + 1] == after[1];
  }

  /** What the walk meets in such a stream: the headers of the columns
      before column `k`, within the counter's bound, then the all-empty
      column's header. */
  lemma StopSplit(file: seq<Byte>, start: nat, columnDwords: nat, cs: seq<seq<Byte>>, k: nat)
    requires k < |cs| && cs[k] == AllEmptyColumn
    requires forall j :: 0 <= j < k ==> WellFormed(Pc, cs[j])
    requires |Concat(cs)| == 4 * columnDwords
    requires start + |Concat(cs)| <= |file| && file[start..start + |Concat(cs)|] == Concat(cs)
    ensures var p := start + |Concat(cs[..k])|;
      && HeadersAt(file, Pc, start, cs[..k])
      && HalfWords(cs[..k]) < 2 * columnDwords
      && ByteAt(file, p) == 0 && ByteAt(file, p + 1) == 8
  {
    StopSlices(file, start, cs, k);
    HalfWordsConcat(Pc, cs[..k]);
    HeadersOf(file, Pc, start, cs[..k]);
  }

  /** A column stream at `start` whose column `k` is the all-empty one,
      after well-formed columns, stops the walk at that column. */
  lemma StreamStops(file: seq<Byte>, start: nat, columnDwords: nat, cs: seq<seq<Byte>>, k: nat)
    requires k < |cs| && cs[k] == AllEmptyColumn
    requires forall j :: 0 <= j < k ==> WellFormed(Pc, cs[j])
    requires |Concat(cs)| == 4 * columnDwords
    requires start + |Concat(cs)| <= |file| && file[start..start + |Concat(cs)|] == Concat(cs)
    ensures Walk(file, Pc, start, 0, 2 * columnDwords) == Err(OffsetAbove7(start + |Concat(cs[..k])|))
  {
    StopSplit(file, start, columnDwords, cs, k);
    WalkToStop(file, start, 2 * columnDwords, cs[..k], start + |Concat(cs[..k])|);
  }

  /** The walk over columns whose headers it finds, up to a column whose
      offset byte is above 7, stops there. */
  lemma WalkToStop(file: seq<Byte>, start: nat, target: nat, before: seq<seq<Byte>>, p: nat)
    requires HeadersAt(file, Pc, start, before) && HalfWords(before) < target
    requires p == start + |Concat(before)| && ByteAt(file, p) == 0 && ByteAt(file, p + 1) == 8
    ensures Walk(file, Pc, start, 0, target) == Err(OffsetAbove7(p))
  {
    WalkHeaders(file, Pc, start, 0, target, before, p, HalfWords(before));
    WalkStops(file, Pc, p, HalfWords(before), target);
  }

  /** A `DMAP` body whose column data is a run of well-formed columns, with
      `column_dwords` counting them: `DMAP_read_all_columns` stops exactly
      where the block records start. */
  lemma {:induction false} DmapScanFindsRecords(d: DmapInfo, cs: seq<seq<Byte>>)
    requires |d.base| == 4 * LevelCells && d.columnDwords < TwoTo32
    requires d.columnData == Concat(cs) && |d.columnData| == 4 * d.columnDwords
    requires forall j :: 0 <= j < |cs| ==> WellFormed(Pc, cs[j])
    ensures DmapColumnsEnd(DmapBody(d), 0) == Ok(4 * LevelCells + 8 + |d.columnData|)
    ensures DmapBody(d)[4 * LevelCells + 8 + |d.columnData|..] == d.blockInfo
  {
    DmapBodyParts(d);
    StreamWalked(DmapBody(d), 4 * LevelCells + 4, d.columnDwords, cs);
  }

  /** A `CMAP` chunk at `cmapOffset` whose column stream, after the base
      and the word count, is a run of well-formed columns that the count
      counts in words: `CMAP_read_all_columns` steps over the whole stream,
      finds the record count 1024 bytes after it, the first record 2 bytes
      after the count and the end of the table 12 bytes per counted record
      after the count. */
  lemma {:induction false} CmapScanFindsRecords(file: seq<Byte>, cmapOffset: nat, cs: seq<seq<Byte>>)
    requires forall j :: 0 <= j < |cs| ==> WellFormed(Psx, cs[j])
    requires var countPos := cmapOffset + 2 * LevelCells;
      countPos + 2 <= |file| && LittleEndian(file[countPos..countPos + 2]) == HalfWords(cs)
    requires var start := cmapOffset + 2 * LevelCells + 2;
      start + |Concat(cs)| <= |file| && file[start..start + |Concat(cs)|] == Concat(cs)
    ensures var p := cmapOffset + 2 * LevelCells + 2 + |Concat(cs)| + CmapGap;
      var n := LittleEndian(Read(file, p, 2));
      CmapLayoutOf(file, cmapOffset) == Ok(CmapLayout(p + 2, p + RecordSize * n, n))
  {
    var countPos := cmapOffset + 2 * LevelCells;
    var start := countPos + 2;
    var end := start + |Concat(cs)|;
    assert Read(file, countPos, 2) == file[countPos..countPos + 2];
    assert After(file, countPos, 2) == start;
    WalkOver(file, Psx, start, 0, HalfWords(cs), cs, end, HalfWords(cs));
    assert Walk(file, Psx, end, HalfWords(cs), HalfWords(cs)) == Ok(end);
  }

  /** When column `k` of the data is the all-empty column and the columns
      before it are well formed, `DMAP_read_all_columns` exits on its
      offset byte 8. */
  lemma {:induction false} DmapScanStopsAtEmptyColumn(d: DmapInfo, cs: seq<seq<Byte>>, k: nat)
    requires |d.base| == 4 * LevelCells && d.columnDwords < TwoTo32
    requires d.columnData == Concat(cs) && |d.columnData| == 4 * d.columnDwords
    requires forall j :: 0 <= j < |cs| ==> |cs[j]| % 4 == 0
    requires k < |cs| && cs[k] == AllEmptyColumn
    requires forall j :: 0 <= j < k ==> WellFormed(Pc, cs[j])
    ensures DmapColumnsEnd(DmapBody(d), 0) == Err(OffsetAbove7(4 * LevelCells + 4 + |Concat(cs[..k])|))
  {
    DmapBodyParts(d);
    StreamStops(DmapBody(d), 4 * LevelCells + 4, d.columnDwords, cs, k);
  }

  lemma {:induction false} ConcatAligned(cs: seq<seq<Byte>>)
    requires forall j :: 0 <= j < |cs| ==> |cs[j]| % 4 == 0
    ensures |Concat(cs)| % 4 == 0
    decreases |cs|
  {
    if |cs| > 0 {
      var init := cs[..|cs| - 1];
      assert forall j :: 0 <= j < |init| ==> init[j] == cs[j];
      ConcatAligned(init);
      var a := |Concat(init)|;
      var b := |cs[|cs| - 1]|;
      assert a == 4 * (a / 4) && b == 4 * (b / 4);
      assert a + b == 4 * (a / 4 + b / 4);
    }
  }

  /** The `DMAP` built from deduplicated column encodings, each either
      well formed or the all-empty one: the scan reaches the block records
      when no encoding is the all-empty one, and otherwise exits at it. */
  lemma {:induction false} DedupStreamScan(d: DmapInfo, encs: seq<seq<Byte>>, offsets: seq<nat>)
    requires |encs| > 0
    requires forall k :: 0 <= k < |encs| ==> |encs[k]| % 4 == 0
    requires forall k :: 0 <= k < |encs| ==> WellFormed(Pc, encs[k]) || encs[k] == AllEmptyColumn
    requires |offsets| == |Dedup(encs)|
    requires forall j :: 0 <= j < |offsets| ==> offsets[j] == DwordsBefore(Dedup(encs), j)
    requires |d.base| == 4 * LevelCells && d.columnDwords < TwoTo32
    requires d.columnData == Concat(Dedup(encs)) && d.columnDwords == ColumnDwords(Dedup(encs), offsets)
    ensures AllEmptyColumn !in encs ==> DmapColumnsEnd(DmapBody(d), 0) == Ok(4 * LevelCells + 8 + |d.columnData|)
    ensures AllEmptyColumn in encs ==>
      var k := IndexOf(Dedup(encs), AllEmptyColumn);
      0 <= k < |offsets| && DmapColumnsEnd(DmapBody(d), 0) == Err(OffsetAbove7(4 * LevelCells + 4 + 4 * offsets[k]))
  {
    var cs := Dedup(encs);
    DedupShapes(encs);
    PrefixDwords(cs, |cs|);
    assert cs[..|cs|] == cs;
    assert |Concat(cs)| == 4 * d.columnDwords;
    if AllEmptyColumn !in encs {
      DmapScanFindsRecords(d, cs);
    } else {
      var k := IndexOf(cs, AllEmptyColumn);
      PrefixDwords(cs, k);
      DmapScanStopsAtEmptyColumn(d, cs, k);
    }
  }

  /** What `Dedup` keeps of column encodings: aligned, well-formed or
      all-empty strings, with the all-empty one kept if present. */
  lemma DedupShapes(encs: seq<seq<Byte>>)
    requires forall k :: 0 <= k < |encs| ==> |encs[k]| % 4 == 0
    requires forall k :: 0 <= k < |encs| ==> WellFormed(Pc, encs[k]) || encs[k] == AllEmptyColumn
    ensures |encs| > 0 ==> |Dedup(encs)| > 0
    ensures forall j :: 0 <= j < |Dedup(encs)| ==>
      |Dedup(encs)[j]| % 4 == 0 && (WellFormed(Pc, Dedup(encs)[j]) || Dedup(encs)[j] == AllEmptyColumn)
    ensures AllEmptyColumn in Dedup(encs) <==> AllEmptyColumn in encs
  {
    DedupSpec(encs);
    forall j | 0 <= j < |Dedup(encs)|
      ensures |Dedup(encs)[j]| % 4 == 0 && (WellFormed(Pc, Dedup(encs)[j]) || Dedup(encs)[j] == AllEmptyColumn)
    {
      assert Dedup(encs)[j] in encs;
    }
    if |encs| > 0 {
      assert encs[0] in Dedup(encs);
    }
  }

  /** The `DMAP` that `create_columns` and `create_dmap` build from a
      grid: `DMAP_read_all_columns` reaches its block records exactly when
      every (x, y) has an occupied level. */
  lemma {:induction false} EncodedDmapScan(g: Grid, blockList: seq<seq<Byte>>, offsets: seq<nat>, d: DmapInfo)
    requires IsGrid(g)
    requires |offsets| == |Dedup(Encodings(g, blockList))|
    requires forall j :: 0 <= j < |offsets| ==> offsets[j] == DwordsBefore(Dedup(Encodings(g, blockList)), j)
    requires |d.base| == 4 * LevelCells && d.columnDwords < TwoTo32
    requires d.columnData == Concat(Dedup(Encodings(g, blockList)))
    requires d.columnDwords == ColumnDwords(Dedup(Encodings(g, blockList)), offsets)
    ensures DmapColumnsEnd(DmapBody(d), 0).Ok? <==>
      forall x, y :: 0 <= x < MapSide && 0 <= y < MapSide ==> !AllEmpty(ColumnAt(g, x, y))
    ensures DmapColumnsEnd(DmapBody(d), 0).Ok? ==>
      DmapColumnsEnd(DmapBody(d), 0) == Ok(4 * LevelCells + 8 + |d.columnData|)
      && DmapBody(d)[4 * LevelCells + 8 + |d.columnData|..] == d.blockInfo
  {
    EncodingsAligned(g, blockList);
    EncodingsScan(g, blockList);
    DedupStreamScan(d, Encodings(g, blockList), offsets);
    DmapBodyParts(d);
  }

  /** The column encodings of a grid are columns the scan steps over or
      the all-empty column, and the latter occurs exactly when some
      (x, y) has no occupied level. */
  lemma EncodingsScan(g: Grid, blockList: seq<seq<Byte>>)
    requires IsGrid(g)
    ensures forall k :: 0 <= k < |Encodings(g, blockList)| ==>
      WellFormed(Pc, Encodings(g, blockList)[k]) || Encodings(g, blockList)[k] == AllEmptyColumn
    ensures AllEmptyColumn in Encodings(g, blockList) <==>
      exists x, y :: 0 <= x < MapSide && 0 <= y < MapSide && AllEmpty(ColumnAt(g, x, y))
  {
    var encs := Encodings(g, blockList);
    forall k | 0 <= k < |encs| ensures WellFormed(Pc, encs[k]) || encs[k] == AllEmptyColumn {
      EncodingScans(ColumnAt(g, k % MapSide, k / MapSide), blockList);
    }
    if AllEmptyColumn in encs {
      var k :| 0 <= k < |encs| && encs[k] == AllEmptyColumn;
      EncodingScans(ColumnAt(g, k % MapSide, k / MapSide), blockList);
      assert AllEmpty(ColumnAt(g, k % MapSide, k / MapSide));
    }
    forall x, y | 0 <= x < MapSide && 0 <= y < MapSide && AllEmpty(ColumnAt(g, x, y))
      ensures AllEmptyColumn in encs
    {
      CellIndex(y, x);
      EncodingScans(ColumnAt(g, x, y), blockList);
      assert encs[MapSide * y + x] == AllEmptyColumn;
    }
  }

  /** Ids from 0x8000 up select the second, partial record table. */
  const SecondTableBias: nat := 32768

  /** The second table's 4-byte entries start 0x600 + 4 bytes past the end
      of the first table as `CMAP_read_all_columns` computes it. */
  const SecondTableGap: nat := 1540

  /** The IndexError the decompressors raise: a level above 7, or `[-1]`
      of an empty record read past the end of the file. */
  datatype DecodeError = IndexError

  /** Two file positions read alike: equal, or both at or past the end
      (Python's reads and `tell` after a short read). */
  predicate SamePlace(file: seq<Byte>, p: nat, q: nat)
  {
    p == q || (p >= |file| && q >= |file|)
  }

  lemma SamePlaceRead(file: seq<Byte>, p: nat, q: nat, n: nat)
    requires SamePlace(file, p, q)
    ensures Read(file, p, n) == Read(file, q, n)
  {
  }

  /** Reading on from `p` leaves the file where reading on from `q` would. */
  lemma SamePlaceAfter(file: seq<Byte>, p: nat, q: nat, n: nat)
    requires SamePlace(file, p, q)
    ensures SamePlace(file, After(file, p, n), q + n)
  {
  }

  /** Position `start + w * i`, item `i` of a run of `w`-byte items, by
      repeated addition. */
  function Slot(start: nat, w: nat, i: nat): nat
  {
    if i == 0 then start else Slot(start, w, i - 1) + w
  }

  lemma {:induction false} SlotIs(start: nat, w: nat, i: nat)
    ensures Slot(start, w, i) == start + w * i
  {
    if i > 0 {
      SlotIs(start, w, i - 1);
      assert w * i == w * (i - 1) + w;
    }
  }

  /** `n` little-endian integers of `w` bytes each, stored one after
      another from `start`. */
  function IdsAt(file: seq<Byte>, start: nat, w: nat, n: nat): (ids: seq<nat>)
    ensures |ids| == n
  {
    if n == 0 then [] else IdsAt(file, start, w, n - 1) + [LittleEndian(Read(file, Slot(start, w, n - 1), w))]
  }

  lemma {:induction false} IdsAtIndex(file: seq<Byte>, start: nat, w: nat, n: nat, i: nat)
    requires i < n
    ensures IdsAt(file, start, w, n)[i] == LittleEndian(Read(file, Slot(start, w, i), w))
  {
    var init := IdsAt(file, start, w, n - 1);
    assert IdsAt(file, start, w, n) == init + [LittleEndian(Read(file, Slot(start, w, n - 1), w))];
    if i < n - 1 {
      IdsAtIndex(file, start, w, n - 1, i);
      assert IdsAt(file, start, w, n)[i] == init[i];
    }
  }

  /** The ids of a column: `n` little-endian integers of `w` bytes read one
      after another from `pos`, none when `n` is not positive (`range` of a
      negative count is empty). `start` is where `pos` stands in the file. */
  method ReadIds(file: seq<Byte>, pos: nat, n: int, w: nat, ghost start: nat) returns (ids: seq<nat>)
    requires SamePlace(file, pos, start)
    ensures ids == IdsAt(file, start, w, if n > 0 then n else 0)
  {
    ids := [];
    var p := pos;
    var count := if n > 0 then n else 0;
    for i := 0 to count
      invariant ids == IdsAt(file, start, w, i)
      invariant SamePlace(file, p, Slot(start, w, i))
    {
      SamePlaceRead(file, p, Slot(start, w, i), w);
      var blockId := LittleEndian(Read(file, p, w));
      ids := ids + [blockId];
      SamePlaceAfter(file, p, Slot(start, w, i), w);
      p := After(file, p, w);
    }
  }

  /** Where the column of (x, y) starts: its base entry read as a count of
      words (`DMAP`: dwords) into the column data, which follows the base
      and the column-word count. */
  function ColumnStart(file: seq<Byte>, f: Format, chunkOffset: nat, y: nat, x: nat): nat
  {
    if f == Pc then chunkOffset + 4 * LevelCells + 4 + 4 * LittleEndian(Read(file, chunkOffset + 4 * (x + y * MapSide), 4))
    else chunkOffset + 2 * LevelCells + 2 + 2 * LittleEndian(Read(file, chunkOffset + 2 * (x + y * MapSide), 2))
  }

  /** Id `i` of the column at `p`, after its header. */
  function IdAt(file: seq<Byte>, f: Format, p: nat, i: nat): nat
  {
    LittleEndian(Read(file, Slot(p + Width(f), Width(f), i), Width(f)))
  }

  /** The record an id stands for. `DMAP`: the 12 bytes at
      `info + 12 id`. `CMAP`: below 0x8000 the same, with the slope lid fix
      applied to slopes; from 0x8000 up, 8 zero bytes and the 4-byte entry
      of the second table. */
  function BlockRecord(file: seq<Byte>, f: Format, info: nat, finish: nat, id: nat): seq<Byte>
  {
    if f == Pc then Read(file, info + RecordSize * id, RecordSize)
    else if id < SecondTableBias then
      var b := Read(file, info + RecordSize * id, RecordSize);
      if |b| > 0 && IsSlope(b) then FixPsxSlope(b) else b
    else [0, 0, 0, 0, 0, 0, 0, 0] + Read(file, finish + SecondTableGap + 4 * (id - SecondTableBias), 4)
  }

  /** `is_slope` would index an empty record: a `CMAP` id below 0x8000
      whose record lies past the end of the file. */
  predicate RecordMissing(file: seq<Byte>, f: Format, info: nat, id: nat)
  {
    f == Psx && id < SecondTableBias && |Read(file, info + RecordSize * id, RecordSize)| == 0
  }

  /** Level `z` of the column at `p` once decoded: the record of id
      `z - offset` for offset <= z < height, the empty record otherwise. */
  function LevelOf(file: seq<Byte>, f: Format, p: nat, info: nat, finish: nat, z: nat): seq<Byte>
  {
    var h := ByteAt(file, p);
    var o := ByteAt(file, p + 1);
    if o <= z < h then BlockRecord(file, f, info, finish, IdAt(file, f, p, z - o)) else EmptyRecord
  }

  /** Id `i` of the column at `p` raises IndexError: its level is above 7
      or its record is missing. */
  predicate FailsAt(file: seq<Byte>, f: Format, p: nat, info: nat, i: nat)
  {
    var h := ByteAt(file, p);
    var o := ByteAt(file, p + 1);
    i < h - o && (o + i >= MapLevels || RecordMissing(file, f, info, IdAt(file, f, p, i)))
  }

  /** The number of ids of the column at `p`: `height - offset` when
      positive. */
  function IdCountAt(file: seq<Byte>, p: nat): nat
  {
    var h := ByteAt(file, p);
    var o := ByteAt(file, p + 1);
    if h > o then h - o else 0
  }

  /** None of the first `n` ids of the column at `p` raises. */
  predicate NoFailBefore(file: seq<Byte>, f: Format, p: nat, info: nat, n: nat)
  {
    n == 0 || (NoFailBefore(file, f, p, info, n - 1) && !FailsAt(file, f, p, info, n - 1))
  }

  /** The column at `p` decodes without an IndexError. */
  predicate ColumnOk(file: seq<Byte>, f: Format, p: nat, info: nat)
  {
    NoFailBefore(file, f, p, info, IdCountAt(file, p))
  }

  lemma NoFailBeforeSpec(file: seq<Byte>, f: Format, p: nat, info: nat, n: nat)
    ensures NoFailBefore(file, f, p, info, n) <==> forall i: nat :: i < n ==> !FailsAt(file, f, p, info, i)
  {
    if NoFailBefore(file, f, p, info, n) {
      forall i: nat | i < n
        ensures !FailsAt(file, f, p, info, i)
      {
        NoFailBeforeAt(file, f, p, info, n, i);
      }
    } else {
      NoFailBeforeWitness(file, f, p, info, n);
    }
  }

  lemma {:induction false} NoFailBeforeAt(file: seq<Byte>, f: Format, p: nat, info: nat, n: nat, i: nat)
    requires NoFailBefore(file, f, p, info, n) && i < n
    ensures !FailsAt(file, f, p, info, i)
  {
    if i < n - 1 {
      NoFailBeforeAt(file, f, p, info, n - 1, i);
    }
  }

  lemma {:induction false} NoFailBeforeWitness(file: seq<Byte>, f: Format, p: nat, info: nat, n: nat)
    requires !NoFailBefore(file, f, p, info, n)
    ensures exists i: nat :: i < n && FailsAt(file, f, p, info, i)
  {
    if !FailsAt(file, f, p, info, n - 1) {
      NoFailBeforeWitness(file, f, p, info, n - 1);
    }
  }

  /** A column decodes without error exactly when none of its ids is at a
      level above 7 or has a missing record. */
  lemma {:induction false} ColumnOkSpec(file: seq<Byte>, f: Format, p: nat, info: nat)
    ensures ColumnOk(file, f, p, info) <==> forall i: nat :: !FailsAt(file, f, p, info, i)
  {
    NoFailBeforeSpec(file, f, p, info, IdCountAt(file, p));
  }

  /** The decoded record at (x, y, z). */
  function Decoded(file: seq<Byte>, f: Format, chunkOffset: nat, info: nat, finish: nat, z: nat, y: nat, x: nat): seq<Byte>
    requires z < MapLevels
  {
    LevelOf(file, f, ColumnStart(file, f, chunkOffset, y, x), info, finish, z)
  }

  /** The column of (x, y) decodes without an IndexError. */
  predicate CellOk(file: seq<Byte>, f: Format, chunkOffset: nat, info: nat, y: nat, x: nat)
  {
    ColumnOk(file, f, ColumnStart(file, f, chunkOffset, y, x), info)
  }

  lemma NoFailBeforeMono(file: seq<Byte>, f: Format, p: nat, info: nat, m: nat, n: nat)
    requires m <= n && NoFailBefore(file, f, p, info, n)
    ensures NoFailBefore(file, f, p, info, m)
    decreases n
  {
    if m < n {
      NoFailBeforeMono(file, f, p, info, m, n - 1);
    }
  }

  /** The record of one id, as the loop over `all_column_blocks_id`
      reads it; `found` is false where `is_slope` raises. */
  method ReadRecord(file: seq<Byte>, f: Format, info: nat, finish: nat, blockId: nat)
    returns (found: bool, blockData: seq<Byte>)
    ensures found <==> !RecordMissing(file, f, info, blockId)
    ensures found ==> blockData == BlockRecord(file, f, info, finish, blockId)
  {
    if f == Pc {
      blockData := Read(file, info + blockId * RecordSize, RecordSize);
    } else if blockId < SecondTableBias {
      blockData := Read(file, info + RecordSize * blockId, RecordSize);
      if |blockData| == 0 {
        return false, blockData;
      }
      if IsSlope(blockData) {
        blockData := FixPsxSlope(blockData);
      }
    } else {
      blockData := [0, 0, 0, 0, 0, 0, 0, 0] + Read(file, finish + SecondTableGap + 4 * (blockId - SecondTableBias), 4);
    }
    return true, blockData;
  }

  /** The height and offset bytes at the start of a column, read one
      after the other, and the position after the header (`DMAP` skips its
      two pad bytes). */
  method ReadColumnHeader(file: seq<Byte>, f: Format, columnPos: nat) returns (h: nat, o: nat, pos: nat)
    ensures h == ByteAt(file, columnPos) && o == ByteAt(file, columnPos + 1)
    ensures SamePlace(file, pos, columnPos + Width(f))
  {
    ByteRead(file, columnPos);
    h := LittleEndian(Read(file, columnPos, 1));
    pos := After(file, columnPos, 1);
    SamePlaceAfter(file, columnPos, columnPos, 1);
    SamePlaceRead(file, pos, columnPos + 1, 1);
    ByteRead(file, columnPos + 1);
    o := LittleEndian(Read(file, pos, 1));
    SamePlaceAfter(file, pos, columnPos + 1, 1);
    pos := After(file, pos, 1);
    if f == Pc {
      SamePlaceAfter(file, pos, columnPos + 2, 2);
      pos := After(file, pos, 2);
    }
  }

  /** The body of the x loop of the decompressors for one (x, y): reads
      the base entry, the column header and the ids, and writes each id's
      record at z = offset + i. */
  method DecodeColumn(file: seq<Byte>, f: Format, chunkOffset: nat, info: nat, finish: nat,
                      grid: array3<seq<Byte>>, y: nat, x: nat) returns (ok: bool)
    requires Shaped(grid)
    requires y < MapSide && x < MapSide
    requires CellEmpty(grid, y, x)
    modifies grid
    ensures ok == CellOk(file, f, chunkOffset, info, y, x)
    ensures ok ==> CellDecoded(grid, file, f, chunkOffset, info, finish, y, x)
    ensures OthersUnchanged(grid, y, x)
    ensures forall xx :: 0 <= xx < MapSide && xx != x && old(CellDecoded(grid, file, f, chunkOffset, info, finish, y, xx)) ==>
              CellDecoded(grid, file, f, chunkOffset, info, finish, y, xx)
  {
    var columnPos := LocateColumn(file, f, chunkOffset, y, x);
    var columnOffset, ids := ReadColumn(file, f, columnPos);
    ok := PlaceIds(file, f, info, finish, grid, y, x, columnPos, columnOffset, ids);
    forall xx, z | 0 <= xx < MapSide && xx != x && 0 <= z < MapLevels
      ensures grid[z, y, xx] == old(grid[z, y, xx])
    {
    }
  }

  /** Reads the base entry of (x, y) and answers where its column starts. */
  method LocateColumn(file: seq<Byte>, f: Format, chunkOffset: nat, y: nat, x: nat) returns (columnPos: nat)
    ensures columnPos == ColumnStart(file, f, chunkOffset, y, x)
  {
    if f == Pc {
      var cellOffset := chunkOffset + 4 * (x + y * MapSide);
      var wordsOffset := LittleEndian(Read(file, cellOffset, 4));
      columnPos := chunkOffset + 4 * LevelCells + 4 + 4 * wordsOffset;
    } else {
      var cellOffset := chunkOffset + 2 * (x + y * MapSide);
      var wordsOffset := LittleEndian(Read(file, cellOffset, 2));
      columnPos := chunkOffset + 2 * LevelCells + 2 + 2 * wordsOffset;
    }
  }

  /** Reads the header and the ids of the column at `columnPos`. */
  method ReadColumn(file: seq<Byte>, f: Format, columnPos: nat) returns (columnOffset: nat, ids: seq<nat>)
    ensures ColumnIds(file, f, columnPos, columnOffset, ids)
  {
    var w := Width(f);
    var columnHeight, pos;
    columnHeight, columnOffset, pos := ReadColumnHeader(file, f, columnPos);
    var numBlocks := columnHeight as int - columnOffset as int;
    ghost var count := IdCountAt(file, columnPos);
    assert (if numBlocks > 0 then numBlocks else 0) == count;
    ids := ReadIds(file, pos, numBlocks, w, columnPos + w);
    ColumnIdsIntro(file, f, columnPos, columnOffset, ids, count);
  }

  lemma ColumnIdsIntro(file: seq<Byte>, f: Format, columnPos: nat, columnOffset: nat, ids: seq<nat>, count: nat)
    requires columnOffset == ByteAt(file, columnPos + 1) && count == IdCountAt(file, columnPos)
    requires ids == IdsAt(file, columnPos + Width(f), Width(f), count)
    ensures ColumnIds(file, f, columnPos, columnOffset, ids)
  {
  }

  /** `grid` has the decompressors' dimensions: 8 levels of 256 by 256. */
  predicate Shaped(grid: array3<seq<Byte>>)
  {
    grid.Length0 == MapLevels && grid.Length1 == MapSide && grid.Length2 == MapSide
  }

  /** `ids` are the ids stored in the column at `columnPos`, whose offset
      byte is `columnOffset`. */
  predicate ColumnIds(file: seq<Byte>, f: Format, columnPos: nat, columnOffset: nat, ids: seq<nat>)
  {
    columnOffset == ByteAt(file, columnPos + 1) && ids == IdsAt(file, columnPos + Width(f), Width(f), IdCountAt(file, columnPos))
  }

  /** Levels `lo` to `hi - 1` of column (x, y) of `grid` hold the levels
      of the column at `p` once decoded and the other levels hold the
      empty record. */
  predicate Placed(grid: array3<seq<Byte>>, y: nat, x: nat, file: seq<Byte>, f: Format, p: nat, info: nat, finish: nat,
                   lo: nat, hi: nat)
    requires Shaped(grid)
    requires y < MapSide && x < MapSide
    reads grid
  {
    forall z :: 0 <= z < MapLevels ==> grid[z, y, x] == if lo <= z < hi then LevelOf(file, f, p, info, finish, z) else EmptyRecord
  }

  /** Only column (x, y) of `grid` differs from `old(grid)`. */
  twostate predicate OthersUnchanged(grid: array3<seq<Byte>>, y: nat, x: nat)
    requires Shaped(grid)
    reads grid
  {
    forall z, yy, xx :: 0 <= z < MapLevels && 0 <= yy < MapSide && 0 <= xx < MapSide && (yy != y || xx != x) ==>
      grid[z, yy, xx] == old(grid[z, yy, xx])
  }

  /** The id loop of one column: writes the record of id `i` at level
      `offset + i`, stopping with false at the first id whose level is
      above 7 or whose record is missing. */
  method PlaceIds(file: seq<Byte>, f: Format, info: nat, finish: nat, grid: array3<seq<Byte>>, y: nat, x: nat,
                  columnPos: nat, columnOffset: nat, ids: seq<nat>) returns (ok: bool)
    requires Shaped(grid)
    requires y < MapSide && x < MapSide
    requires forall z :: 0 <= z < MapLevels ==> grid[z, y, x] == EmptyRecord
    requires ColumnIds(file, f, columnPos, columnOffset, ids)
    modifies grid
    ensures ok == ColumnOk(file, f, columnPos, info)
    ensures ok ==> forall z :: 0 <= z < MapLevels ==> grid[z, y, x] == LevelOf(file, f, columnPos, info, finish, z)
    ensures forall z, yy, xx :: 0 <= z < MapLevels && 0 <= yy < MapSide && 0 <= xx < MapSide && (yy != y || xx != x) ==>
              grid[z, yy, xx] == old(grid[z, yy, xx])
  {
    assert Placed(grid, y, x, file, f, columnPos, info, finish, columnOffset, columnOffset);
    for i := 0 to |ids|
      invariant NoFailBefore(file, f, columnPos, info, i)
      invariant Placed(grid, y, x, file, f, columnPos, info, finish, columnOffset, columnOffset + i)
      invariant OthersUnchanged(grid, y, x)
    {
      var placed := PlaceId(file, f, info, finish, grid, y, x, columnPos, columnOffset, ids, i);
      if !placed {
        NoFailBeforeUpTo(file, f, columnPos, info, i, |ids|);
        return false;
      }
    }
    PlacedAll(file, f, info, finish, grid, y, x, columnPos, columnOffset, |ids|);
    return true;
  }

  /** Once every id is placed, the column holds exactly its decoded levels. */
  lemma PlacedAll(file: seq<Byte>, f: Format, info: nat, finish: nat, grid: array3<seq<Byte>>, y: nat, x: nat,
                  columnPos: nat, columnOffset: nat, count: nat)
    requires Shaped(grid) && y < MapSide && x < MapSide
    requires columnOffset == ByteAt(file, columnPos + 1) && count == IdCountAt(file, columnPos)
    requires Placed(grid, y, x, file, f, columnPos, info, finish, columnOffset, columnOffset + count)
    ensures forall z :: 0 <= z < MapLevels ==> grid[z, y, x] == LevelOf(file, f, columnPos, info, finish, z)
  {
  }

  /** One iteration of the id loop: reads the record of id `i` and writes
      it at level `offset + i`, or answers false when the level is above 7
      or the record is missing. */
  method PlaceId(file: seq<Byte>, f: Format, info: nat, finish: nat, grid: array3<seq<Byte>>, y: nat, x: nat,
                 columnPos: nat, columnOffset: nat, ids: seq<nat>, i: nat)
    returns (ok: bool)
    requires Shaped(grid)
    requires y < MapSide && x < MapSide
    requires ColumnIds(file, f, columnPos, columnOffset, ids) && i < |ids|
    requires Placed(grid, y, x, file, f, columnPos, info, finish, columnOffset, columnOffset + i)
    modifies grid
    ensures ok == !FailsAt(file, f, columnPos, info, i)
    ensures ok ==> Placed(grid, y, x, file, f, columnPos, info, finish, columnOffset, columnOffset + i + 1)
    ensures OthersUnchanged(grid, y, x)
  {
    var w := Width(f);
    var blockId := ids[i];
    IdsAtIndex(file, columnPos + w, w, |ids|, i);
    assert blockId == IdAt(file, f, columnPos, i);
    var found, blockData := ReadRecord(file, f, info, finish, blockId);
    if !found {
      return false;
    }
    var z := columnOffset + i;
    if z >= MapLevels {
      return false;
    }
    LevelAtId(file, f, columnPos, info, finish, i);
    assert blockData == LevelOf(file, f, columnPos, info, finish, z);
    label before:
    grid[z, y, x] := blockData;
    forall zz | 0 <= zz < MapLevels
      ensures grid[zz, y, x] == if columnOffset <= zz < columnOffset + i + 1 then LevelOf(file, f, columnPos, info, finish, zz) else EmptyRecord
    {
      if zz != z {
        assert grid[zz, y, x] == old@before(grid[zz, y, x]);
      }
    }
    return true;
  }


  /** Id `i` of a column decodes to level `offset + i`. */
  lemma LevelAtId(file: seq<Byte>, f: Format, p: nat, info: nat, finish: nat, i: nat)
    requires i < IdCountAt(file, p)
    ensures LevelOf(file, f, p, info, finish, ByteAt(file, p + 1) + i) == BlockRecord(file, f, info, finish, IdAt(file, f, p, i))
  {
  }

  /** A failing id `i` below the id count makes the column fail. */
  lemma NoFailBeforeUpTo(file: seq<Byte>, f: Format, p: nat, info: nat, i: nat, n: nat)
    requires i < n && FailsAt(file, f, p, info, i)
    ensures !NoFailBefore(file, f, p, info, n)
  {
    if NoFailBefore(file, f, p, info, n) {
      NoFailBeforeMono(file, f, p, info, i + 1, n);
    }
  }

  /** All levels of column (x, y) of `grid` hold the empty record. */
  predicate CellEmpty(grid: array3<seq<Byte>>, y: nat, x: nat)
    requires Shaped(grid) && y < MapSide && x < MapSide
    reads grid
  {
    forall z :: 0 <= z < MapLevels ==> grid[z, y, x] == EmptyRecord
  }

  /** All levels of column (x, y) of `grid` hold their decoded records. */
  predicate CellDecoded(grid: array3<seq<Byte>>, file: seq<Byte>, f: Format, chunkOffset: nat, info: nat, finish: nat,
                        y: nat, x: nat)
    requires Shaped(grid) && y < MapSide && x < MapSide
    reads grid
  {
    forall z :: 0 <= z < MapLevels ==> grid[z, y, x] == Decoded(file, f, chunkOffset, info, finish, z, y, x)
  }

  /** Only row y of `grid` differs from `old(grid)`. */
  twostate predicate OtherRowsUnchanged(grid: array3<seq<Byte>>, y: nat)
    requires Shaped(grid)
    reads grid
  {
    forall z, yy, xx :: 0 <= z < MapLevels && 0 <= yy < MapSide && 0 <= xx < MapSide && yy != y ==>
      grid[z, yy, xx] == old(grid[z, yy, xx])
  }

  /** The whole 256 by 256 grid decodes without an IndexError. */
  predicate Decodes(file: seq<Byte>, f: Format, chunkOffset: nat, info: nat)
  {
    forall y: nat, x: nat :: y < MapSide && x < MapSide ==> CellOk(file, f, chunkOffset, info, y, x)
  }

  /** The columns of row y left of x decode without an IndexError. */
  predicate RowOkBefore(file: seq<Byte>, f: Format, chunkOffset: nat, info: nat, y: nat, x: nat)
  {
    forall xx: nat :: xx < x ==> CellOk(file, f, chunkOffset, info, y, xx)
  }

  lemma RowOkStep(file: seq<Byte>, f: Format, chunkOffset: nat, info: nat, y: nat, x: nat)
    requires RowOkBefore(file, f, chunkOffset, info, y, x) && CellOk(file, f, chunkOffset, info, y, x)
    ensures RowOkBefore(file, f, chunkOffset, info, y, x + 1)
  {
  }

  /** The x loop of the decompressors for row y. */
  method DecodeRow(file: seq<Byte>, f: Format, chunkOffset: nat, info: nat, finish: nat,
                   grid: array3<seq<Byte>>, y: nat) returns (ok: bool)
    requires Shaped(grid) && y < MapSide
    requires forall z, x :: 0 <= z < MapLevels && 0 <= x < MapSide ==> grid[z, y, x] == EmptyRecord
    modifies grid
    ensures ok <==> forall x: nat :: x < MapSide ==> CellOk(file, f, chunkOffset, info, y, x)
    ensures ok ==> forall x :: 0 <= x < MapSide ==> CellDecoded(grid, file, f, chunkOffset, info, finish, y, x)
    ensures OtherRowsUnchanged(grid, y)
    ensures forall yy, xx :: 0 <= yy < MapSide && 0 <= xx < MapSide && yy != y && old(CellDecoded(grid, file, f, chunkOffset, info, finish, yy, xx)) ==>
              CellDecoded(grid, file, f, chunkOffset, info, finish, yy, xx)
  {
    for x := 0 to MapSide
      invariant RowOkBefore(file, f, chunkOffset, info, y, x)
      invariant forall xx :: 0 <= xx < x ==> CellDecoded(grid, file, f, chunkOffset, info, finish, y, xx)
      invariant forall z, xx :: 0 <= z < MapLevels && x <= xx < MapSide ==> grid[z, y, xx] == EmptyRecord
      invariant OtherRowsUnchanged(grid, y)
    {
      label before:
      ok := DecodeColumn(file, f, chunkOffset, info, finish, grid, y, x);
      if !ok {
        return false;
      }
      RowOkStep(file, f, chunkOffset, info, y, x);
      forall xx | 0 <= xx < x
        ensures CellDecoded(grid, file, f, chunkOffset, info, finish, y, xx)
      {
        assert old@before(CellDecoded(grid, file, f, chunkOffset, info, finish, y, xx));
      }
    }
    return true;
  }

  /** `DMAP_decompress` (PC) and `CMAP_decompress` (PSX): a fresh grid of
      empty records, decoded column by column; an IndexError on any column
      aborts the whole map. */
  method Decompress(file: seq<Byte>, f: Format, chunkOffset: nat, info: nat, finish: nat)
    returns (r: Result<array3<seq<Byte>>, DecodeError>)
    ensures r.Ok? == Decodes(file, f, chunkOffset, info)
    ensures r.Ok? ==> fresh(r.value) && Shaped(r.value)
    ensures r.Ok? ==> forall y, x :: 0 <= y < MapSide && 0 <= x < MapSide ==>
      CellDecoded(r.value, file, f, chunkOffset, info, finish, y, x)
  {
    var grid := new seq<Byte>[MapLevels, MapSide, MapSide]((_, _, _) => EmptyRecord);
    for y := 0 to MapSide
      invariant forall yy: nat, xx: nat :: yy < y && xx < MapSide ==> CellOk(file, f, chunkOffset, info, yy, xx)
      invariant forall yy, xx :: 0 <= yy < y && 0 <= xx < MapSide ==> CellDecoded(grid, file, f, chunkOffset, info, finish, yy, xx)
      invariant forall z, yy, xx :: 0 <= z < MapLevels && y <= yy < MapSide && 0 <= xx < MapSide ==> grid[z, yy, xx] == EmptyRecord
    {
      var ok := DecodeRow(file, f, chunkOffset, info, finish, grid, y);
      if !ok {
        return Err(IndexError);
      }
    }
    return Ok(grid);
  }

  /** Why `uncompress_gmp` gives up: the map chunk is absent (`sys.exit`),
      the column scan aborts, or the decompressor raises IndexError. */
  datatype UncompressError = NotCompressed | ScanFailed(scan: ScanError) | DecodeFailed(decode: DecodeError)

  /** The chunk holding the compressed map: `DMAP` on PC, `CMAP` on PSX. */
  function MapTag(f: Format): Tag
  {
    if f == Pc then DMAP else CMAP
  }

  /** What `uncompress_gmp` hands the decompressor: the chunk offset, where
      the record table starts and the `CMAP` finish offset. */
  datatype DecodeArgs = DecodeArgs(chunkOffset: nat, info: nat, finish: nat)

  /** The first half of `uncompress_gmp`: the presence test and the column
      scan. On PC the record table starts where the scan ends. */
  function ArgsOf(file: seq<Byte>, chunkInfo: map<Tag, Location>, f: Format): Result<DecodeArgs, UncompressError>
    requires MapTag(f) in chunkInfo
  {
    match chunkInfo[MapTag(f)]
    case Absent => Err(NotCompressed)
    case At(off, _) =>
      if f == Pc then
        match DmapColumnsEnd(file, off)
        case Err(e) => Err(ScanFailed(e))
        case Ok(finish) => Ok(DecodeArgs(off, finish, finish))
      else
        match CmapLayoutOf(file, off)
        case Err(e) => Err(ScanFailed(e))
        case Ok(l) => Ok(DecodeArgs(off, l.blockInfo, l.blockFinish))
  }

  /** `uncompress_gmp`: `f` is the `psx` flag and `chunkInfo` the
      `chunk_info` dictionary, which holds every tag. */
  method UncompressGmp(file: seq<Byte>, chunkInfo: map<Tag, Location>, f: Format)
    returns (r: Result<array3<seq<Byte>>, UncompressError>)
    requires MapTag(f) in chunkInfo
    ensures (r == Err(NotCompressed)) == chunkInfo[MapTag(f)].Absent?
    ensures ArgsOf(file, chunkInfo, f).Err? ==> r == Err(ArgsOf(file, chunkInfo, f).error)
    ensures ArgsOf(file, chunkInfo, f).Ok? ==>
      var a := ArgsOf(file, chunkInfo, f).value;
      && (r.Ok? <==> Decodes(file, f, a.chunkOffset, a.info))
      && (r.Err? ==> r.error == DecodeFailed(IndexError))
      && (r.Ok? ==> fresh(r.value) && Shaped(r.value))
      && (r.Ok? ==> forall y, x :: 0 <= y < MapSide && 0 <= x < MapSide ==>
            CellDecoded(r.value, file, f, a.chunkOffset, a.info, a.finish, y, x))
  {
    var loc := chunkInfo[MapTag(f)];
    if loc.Absent? {
      return Err(NotCompressed);
    }
    var info, finish;
    if f == Pc {
      var scan := DmapReadAllColumns(file, loc.offset);
      if scan.Err? {
        return Err(ScanFailed(scan.error));
      }
      info, finish := scan.value, scan.value;
    } else {
      var scan := CmapReadAllColumns(file, loc.offset);
      if scan.Err? {
        return Err(ScanFailed(scan.error));
      }
      info, finish := scan.value.blockInfo, scan.value.blockFinish;
    }
    var grid := Decompress(file, f, loc.offset, info, finish);
    if grid.Err? {
      return Err(DecodeFailed(grid.error));
    }
    return Ok(grid.value);
  }

  /** A part of `s` stored at `p`, read from the file. */
  lemma SliceWithin(file: seq<Byte>, p: nat, s: seq<Byte>, i: nat, j: nat)
    requires p + |s| <= |file| && file[p..p + |s|] == s && i <= j <= |s|
    ensures Read(file, p + i, j - i) == s[i..j]
  {
    var whole := file[p..p + |s|];
    forall k | 0 <= k < j - i
      ensures file[p + i..p + j][k] == s[i..j][k]
    {
      assert file[p + i + k] == whole[i + k];
    }
    assert file[p + i..p + j] == s[i..j];
  }

  /** Bytes of a column encoding `enc` stored at `p`, as the decompressor
      reads them: the height, the offset and dword id `i`. */
  lemma EncodingRead(file: seq<Byte>, p: nat, enc: seq<Byte>, i: nat)
    requires |enc| >= 4 && p + |enc| <= |file| && file[p..p + |enc|] == enc
    ensures ByteAt(file, p) == enc[0] && ByteAt(file, p + 1) == enc[1]
    ensures 8 + 4 * i <= |enc| ==> IdAt(file, Pc, p, i) == LittleEndian(enc[4 + 4 * i..8 + 4 * i])
  {
    assert file[p] == enc[0] && file[p + 1] == enc[1];
    if 8 + 4 * i <= |enc| {
      SlotIs(p + 4, 4, i);
      SliceWithin(file, p, enc, 4 + 4 * i, 8 + 4 * i);
    }
  }

  /** A `DMAP` id below the number of stored records reads back that record. */
  lemma RecordRead(file: seq<Byte>, info: nat, finish: nat, blockList: seq<seq<Byte>>, id: nat)
    requires forall k :: 0 <= k < |blockList| ==> |blockList[k]| == RecordSize
    requires info + |Concat(blockList)| <= |file| && file[info..info + |Concat(blockList)|] == Concat(blockList)
    requires id < |blockList|
    ensures BlockRecord(file, Pc, info, finish, id) == blockList[id]
  {
    ConcatUniform(blockList, RecordSize, id);
    SliceWithin(file, info, Concat(blockList), RecordSize * id, RecordSize * id + RecordSize);
  }

  /** Every id below the number of stored records reads back its record. */
  predicate RecordsRead(file: seq<Byte>, info: nat, finish: nat, blockList: seq<seq<Byte>>)
  {
    forall id: nat :: id < |blockList| ==> BlockRecord(file, Pc, info, finish, id) == blockList[id]
  }

  lemma RecordsStored(file: seq<Byte>, info: nat, finish: nat, blockList: seq<seq<Byte>>)
    requires forall k :: 0 <= k < |blockList| ==> |blockList[k]| == RecordSize
    requires info + |Concat(blockList)| <= |file| && file[info..info + |Concat(blockList)|] == Concat(blockList)
    ensures RecordsRead(file, info, finish, blockList)
  {
    forall id: nat | id < |blockList|
      ensures BlockRecord(file, Pc, info, finish, id) == blockList[id]
    {
      RecordRead(file, info, finish, blockList, id);
    }
  }

  /** Decoding a `DMAP` column that `create_columns` encoded: levels from the
      offset up to, but not including, the height come back as the
      original records, except that an empty level there comes back as
      `block_list[0]` (its id is 0); every other level, the topmost
      occupied one included, comes back empty. */
  lemma DecodeEncodedColumn(file: seq<Byte>, p: nat, info: nat, finish: nat,
                            col: seq<seq<Byte>>, blockList: seq<seq<Byte>>, z: nat)
    requires |col| == MapLevels && Listed(col, blockList) && |blockList| <= TwoTo32
    requires forall k :: 0 <= k < |blockList| ==> |blockList[k]| == RecordSize
    requires var enc := ColumnEncoding(col, blockList); p + |enc| <= |file| && file[p..p + |enc|] == enc
    requires info + |Concat(blockList)| <= |file| && file[info..info + |Concat(blockList)|] == Concat(blockList)
    requires z < MapLevels
    ensures HeaderOffset(col) <= z < HeaderHeight(col) && !IsEmpty(col[z]) ==>
      LevelOf(file, Pc, p, info, finish, z) == col[z]
    ensures HeaderOffset(col) <= z < HeaderHeight(col) && IsEmpty(col[z]) ==>
      |blockList| > 0 && LevelOf(file, Pc, p, info, finish, z) == blockList[0]
    ensures !(HeaderOffset(col) <= z < HeaderHeight(col)) ==> LevelOf(file, Pc, p, info, finish, z) == EmptyRecord
  {
    EncodedHeader(file, p, col, blockList);
    if HeaderOffset(col) <= z < HeaderHeight(col) {
      EncodedIdRead(file, p, col, blockList, z);
      RecordsStored(file, info, finish, blockList);
      EncodedLevel(file, p, info, finish, col, blockList, z);
    } else {
      LevelOutside(file, Pc, p, info, finish, z);
    }
  }

  /** The header bytes of an encoded column, read from the file. */
  lemma EncodedHeader(file: seq<Byte>, p: nat, col: seq<seq<Byte>>, blockList: seq<seq<Byte>>)
    requires |col| == MapLevels
    requires var enc := ColumnEncoding(col, blockList); p + |enc| <= |file| && file[p..p + |enc|] == enc
    ensures ByteAt(file, p) == HeaderHeight(col) && ByteAt(file, p + 1) == HeaderOffset(col)
  {
    EncodingRead(file, p, ColumnEncoding(col, blockList), 0);
  }

  /** The id of level z of an encoded `DMAP` column, read from the file:
      0 for an empty level, otherwise the index of the level's record. */
  lemma EncodedIdRead(file: seq<Byte>, p: nat, col: seq<seq<Byte>>, blockList: seq<seq<Byte>>, z: nat)
    requires |col| == MapLevels && Listed(col, blockList) && |blockList| <= TwoTo32
    requires var enc := ColumnEncoding(col, blockList); p + |enc| <= |file| && file[p..p + |enc|] == enc
    requires HeaderOffset(col) <= z < HeaderHeight(col)
    ensures var id := IdAt(file, Pc, p, z - HeaderOffset(col));
      (IsEmpty(col[z]) ==> id == 0) && (!IsEmpty(col[z]) ==> id < |blockList| && blockList[id] == col[z])
  {
    var i := z - HeaderOffset(col);
    assert i < IdCount(col);
    ColumnIdDecodes(col, blockList, i);
    EncodingRead(file, p, ColumnEncoding(col, blockList), i);
  }

  /** One level between the offset and the height of an encoded column,
      once its header, its id and the records have been read. */
  lemma EncodedLevel(file: seq<Byte>, p: nat, info: nat, finish: nat,
                     col: seq<seq<Byte>>, blockList: seq<seq<Byte>>, z: nat)
    requires |col| == MapLevels && Listed(col, blockList)
    requires ByteAt(file, p) == HeaderHeight(col) && ByteAt(file, p + 1) == HeaderOffset(col)
    requires HeaderOffset(col) <= z < HeaderHeight(col)
    requires var id := IdAt(file, Pc, p, z - HeaderOffset(col));
      (IsEmpty(col[z]) ==> id == 0) && (!IsEmpty(col[z]) ==> id < |blockList| && blockList[id] == col[z])
    requires RecordsRead(file, info, finish, blockList)
    ensures |blockList| > 0
    ensures LevelOf(file, Pc, p, info, finish, z) == if IsEmpty(col[z]) then blockList[0] else col[z]
  {
    var id := IdAt(file, Pc, p, z - HeaderOffset(col));
    LeadTopSpec(col);
    assert col[Lead(col)] in blockList;
    LevelIsRecord(file, Pc, p, info, finish, z, id, blockList[id]);
  }

  /** A level outside offset .. height - 1 decodes to the empty record. */
  lemma LevelOutside(file: seq<Byte>, f: Format, p: nat, info: nat, finish: nat, z: nat)
    requires !(ByteAt(file, p + 1) <= z < ByteAt(file, p))
    ensures LevelOf(file, f, p, info, finish, z) == EmptyRecord
  {
  }

  /** A level between the offset and the height decodes to the record of
      its id. */
  lemma LevelIsRecord(file: seq<Byte>, f: Format, p: nat, info: nat, finish: nat, z: nat, id: nat, r: seq<Byte>)
    requires ByteAt(file, p + 1) <= z < ByteAt(file, p)
    requires IdAt(file, f, p, z - ByteAt(file, p + 1)) == id && BlockRecord(file, f, info, finish, id) == r
    ensures LevelOf(file, f, p, info, finish, z) == r
  {
  }

  /** An encoded `DMAP` column never raises IndexError: its ids lie below
      the height, which is at most 7, and `DMAP` records are read without
      a check. */
  lemma EncodedColumnOk(file: seq<Byte>, p: nat, info: nat, col: seq<seq<Byte>>, blockList: seq<seq<Byte>>)
    requires |col| == MapLevels
    requires var enc := ColumnEncoding(col, blockList); p + |enc| <= |file| && file[p..p + |enc|] == enc
    ensures ColumnOk(file, Pc, p, info)
  {
    var enc := ColumnEncoding(col, blockList);
    EncodingRead(file, p, enc, 0);
    ColumnOkSpec(file, Pc, p, info);
  }

  /** The decoder loses the topmost occupied level of every encoded column
      whose lowest occupied level is below 7: the header's height is that
      level's z, and only levels below the height get ids. */
  lemma TopLevelLost(file: seq<Byte>, p: nat, info: nat, finish: nat, col: seq<seq<Byte>>, blockList: seq<seq<Byte>>)
    requires |col| == MapLevels && Listed(col, blockList) && |blockList| <= TwoTo32
    requires forall k :: 0 <= k < |blockList| ==> |blockList[k]| == RecordSize
    requires var enc := ColumnEncoding(col, blockList); p + |enc| <= |file| && file[p..p + |enc|] == enc
    requires info + |Concat(blockList)| <= |file| && file[info..info + |Concat(blockList)|] == Concat(blockList)
    requires Lead(col) < 7
    ensures var top := HeaderHeight(col);
      top < MapLevels && !IsEmpty(col[top]) && LevelOf(file, Pc, p, info, finish, top) == EmptyRecord
  {
    LeadTopSpec(col);
    DecodeEncodedColumn(file, p, info, finish, col, blockList, HeaderHeight(col));
  }

  /** A `CMAP` record: below 0x8000 the stored record with the slope lid
      fix applied (a fixed point of the fix, 12 bytes when it lies in the
      file); from 0x8000 up, 8 zero bytes then the second-table entry. */
  lemma CmapRecordShape(file: seq<Byte>, info: nat, finish: nat, id: nat)
    ensures var raw := Read(file, info + RecordSize * id, RecordSize);
      id < SecondTableBias && |raw| > 0 ==>
        BlockRecord(file, Psx, info, finish, id) == FixPsxSlope(raw)
        && FixPsxSlope(BlockRecord(file, Psx, info, finish, id)) == BlockRecord(file, Psx, info, finish, id)
    ensures id < SecondTableBias && info + RecordSize * id + RecordSize <= |file| ==>
      |BlockRecord(file, Psx, info, finish, id)| == RecordSize
    ensures id >= SecondTableBias ==>
      var entry := Read(file, finish + SecondTableGap + 4 * (id - SecondTableBias), 4);
        BlockRecord(file, Psx, info, finish, id)[..8] == [0, 0, 0, 0, 0, 0, 0, 0]
        && BlockRecord(file, Psx, info, finish, id)[8..] == entry
  {
    var raw := Read(file, info + RecordSize * id, RecordSize);
    if id < SecondTableBias && |raw| > 0 {
      if !IsSlope(raw) {
        FixPsxSlopeOnlySlopes(raw);
      }
      FixPsxSlopeIdempotent(raw);
      FixPsxSlopeSpec(raw);
    }
  }
}
