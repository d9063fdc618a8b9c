/** The grid-wide half of the `DMAP` encoder in compress_gmp.py:
    `create_set_from_array`, which collects the distinct records of a grid,
    and `create_columns`, which encodes every (x, y) column and keeps each
    distinct encoding once. */
module Encoder {
  import opened Bytes
  import opened Blocks
  import opened Umap
  import opened Column

  /** The records of one row. */
  function RowSet(row: seq<seq<Byte>>): set<seq<Byte>>
  {
    set x | 0 <= x < |row| :: row[x]
  }

  /** The records of the rows of one level. */
  function LevelSet(level: seq<seq<seq<Byte>>>): set<seq<Byte>>
  {
    if |level| == 0 then {} else LevelSet(level[..|level| - 1]) + RowSet(level[|level| - 1])
  }

  /** The records of every level of a grid, rows of any length. */
  function GridSet(g: Grid): set<seq<Byte>>
  {
    if |g| == 0 then {} else GridSet(g[..|g| - 1]) + LevelSet(g[|g| - 1])
  }

  /** `b` is the record at some (z, y, x) of `g`. */
  ghost predicate InGrid(g: Grid, b: seq<Byte>)
  {
    exists z, y, x :: 0 <= z < |g| && 0 <= y < |g[z]| && 0 <= x < |g[z][y]| && g[z][y][x] == b
  }

  lemma {:induction false} LevelSetSpec(level: seq<seq<seq<Byte>>>, b: seq<Byte>)
    ensures b in LevelSet(level) <==> exists y, x :: 0 <= y < |level| && 0 <= x < |level[y]| && level[y][x] == b
    decreases |level|
  {
    if |level| > 0 {
      var n := |level| - 1;
      LevelSetSpec(level[..n], b);
      if b in LevelSet(level) {
        if b in LevelSet(level[..n]) {
          var y, x :| 0 <= y < n && 0 <= x < |level[..n][y]| && level[..n][y][x] == b;
          assert level[y][x] == b;
        } else {
          var x :| 0 <= x < |level[n]| && level[n][x] == b;
          assert level[n][x] == b;
        }
      } else {
        forall y, x | 0 <= y < |level| && 0 <= x < |level[y]|
          ensures level[y][x] != b
        {
          if y < n {
            assert level[..n][y][x] == level[y][x];
          } else {
            assert level[n][x] in RowSet(level[n]);
          }
        }
      }
    }
  }

  /** `GridSet` holds exactly the records found somewhere in the grid. */
  lemma {:induction false} GridSetSpec(g: Grid, b: seq<Byte>)
    ensures b in GridSet(g) <==> InGrid(g, b)
    decreases |g|
  {
    if |g| > 0 {
      var n := |g| - 1;
      GridSetSpec(g[..n], b);
      LevelSetSpec(g[n], b);
      if b in GridSet(g) {
        if b in GridSet(g[..n]) {
          var z, y, x :| 0 <= z < n && 0 <= y < |g[..n][z]| && 0 <= x < |g[..n][z][y]| && g[..n][z][y][x] == b;
          assert g[z][y][x] == b;
        } else {
          var y, x :| 0 <= y < |g[n]| && 0 <= x < |g[n][y]| && g[n][y][x] == b;
          assert g[n][y][x] == b;
        }
      } else {
        forall z, y, x | 0 <= z < |g| && 0 <= y < |g[z]| && 0 <= x < |g[z][y]|
          ensures g[z][y][x] != b
        {
          if z < n {
            assert g[..n][z] == g[z];
          }
        }
      }
    }
  }

  lemma RowSetStep(row: seq<seq<Byte>>, x: nat)
    requires x < |row|
    ensures RowSet(row[..x + 1]) == RowSet(row[..x]) + {row[x]}
  {
    assert row[..x + 1][x] == row[x];
    forall b | b in RowSet(row[..x + 1]) ensures b in RowSet(row[..x]) + {row[x]} {
      var i :| 0 <= i < x + 1 && row[..x + 1][i] == b;
      if i < x {
        assert row[..x][i] == b;
      }
    }
    forall b | b in RowSet(row[..x]) ensures b in RowSet(row[..x + 1]) {
      var i :| 0 <= i < x && row[..x][i] == b;
      assert row[..x + 1][i] == b;
    }
  }

  /** The IndexError of `block_info_array[0][0][0]` or of
      `block_info_array[z][y][x]` on a grid too small for the index. */
  datatype EncodeError = MissingCell

  /** `create_set_from_array`: the set of all records of a grid whose rows
      may have any length, seeded with `g[0][0][0]`, which raises on a grid
      without a first record. */
  method CreateSetFromArray(g: Grid) returns (r: Result<set<seq<Byte>>, EncodeError>)
    ensures r.Err? <==> |g| == 0 || |g[0]| == 0 || |g[0][0]| == 0
    ensures r.Err? ==> r.error == MissingCell
    ensures r.Ok? ==> r.value == GridSet(g)
  {
    if |g| == 0 || |g[0]| == 0 || |g[0][0]| == 0 {
      return Err(MissingCell);
    }
    var blockSet := {g[0][0][0]};
    for z := 0 to |g|
      invariant blockSet == {g[0][0][0]} + GridSet(g[..z])
    {
      assert g[..z + 1][..z] == g[..z];
      for y := 0 to |g[z]|
        invariant blockSet == {g[0][0][0]} + GridSet(g[..z]) + LevelSet(g[z][..y])
      {
        assert g[z][..y + 1][..y] == g[z][..y];
        for x := 0 to |g[z][y]|
          invariant blockSet == {g[0][0][0]} + GridSet(g[..z]) + LevelSet(g[z][..y]) + RowSet(g[z][y][..x])
        {
          RowSetStep(g[z][y], x);
          blockSet := blockSet + {g[z][y][x]};
        }
        assert g[z][y][..|g[z][y]|] == g[z][y];
      }
      assert g[z][..|g[z]|] == g[z];
    }
    assert g[..|g|] == g;
    GridSetSpec(g, g[0][0][0]);
    assert InGrid(g, g[0][0][0]) by {
      assert 0 < |g| && 0 < |g[0]| && 0 < |g[0][0]|;
    }
    return Ok(blockSet);
  }

  /** Every occupied record of the first `MapLevels` levels is listed in
      `blockList`, as `block_list.index` needs. */
  ghost predicate GridListed(g: Grid, blockList: seq<seq<Byte>>)
  {
    forall z, y, x ::
      0 <= z < |g| && z < MapLevels && 0 <= y < |g[z]| && y < MapSide && 0 <= x < |g[z][y]| && x < MapSide && !IsEmpty(g[z][y][x])
      ==> g[z][y][x] in blockList
  }

  /** The column at (x, y): `block_info_array[z][y][x]` for z = 0..7. */
  function ColumnAt(g: Grid, x: nat, y: nat): (col: seq<seq<Byte>>)
    requires IsGrid(g) && x < MapSide && y < MapSide
    ensures |col| == MapLevels
    ensures forall z :: 0 <= z < MapLevels ==> col[z] == g[z][y][x]
  {
    seq(MapLevels, z requires 0 <= z < MapLevels => g[z][y][x])
  }

  /** The encoding of every column, row by row: entry `256 y + x` is the
      column at (x, y). */
  function Encodings(g: Grid, blockList: seq<seq<Byte>>): (encs: seq<seq<Byte>>)
    requires IsGrid(g)
    ensures |encs| == LevelCells
    ensures forall k :: 0 <= k < LevelCells ==> encs[k] == ColumnEncoding(ColumnAt(g, k % MapSide, k / MapSide), blockList)
  {
    seq(LevelCells, k requires 0 <= k < LevelCells => ColumnEncoding(ColumnAt(g, k % MapSide, k / MapSide), blockList))
  }

  /** The distinct elements of `s` in order of first occurrence. */
  function Dedup(s: seq<seq<Byte>>): (d: seq<seq<Byte>>)
  {
    if |s| == 0 then []
    else
      var d := Dedup(s[..|s| - 1]);
      if s[|s| - 1] in d then d else d + [s[|s| - 1]]
  }

  /** `Dedup` keeps every element of `s`, adds none, and repeats none. */
  lemma {:induction false} DedupSpec(s: seq<seq<Byte>>)
    ensures forall e :: e in Dedup(s) <==> e in s
    ensures forall i, j :: 0 <= i < j < |Dedup(s)| ==> Dedup(s)[i] != Dedup(s)[j]
    decreases |s|
  {
    if |s| > 0 {
      var p := s[..|s| - 1];
      DedupSpec(p);
      assert s == p + [s[|s| - 1]];
    }
  }

  /** The dword offset of column `k` in the joined column data: the dwords
      of the columns before it. */
  function DwordsBefore(columns: seq<seq<Byte>>, k: nat): nat
    requires k <= |columns|
  {
    if k == 0 then 0 else DwordsBefore(columns, k - 1) + |columns[k - 1]| / 4
  }

  /** Dword-aligned strings joined up to string `k` end at dword
      `DwordsBefore(cs, k)`. */
  lemma {:induction false} PrefixDwords(cs: seq<seq<Byte>>, k: nat)
    requires forall j :: 0 <= j < |cs| ==> |cs[j]| % 4 == 0
    requires k <= |cs|
    ensures |Concat(cs[..k])| == 4 * DwordsBefore(cs, k)
    decreases k
  {
    if k > 0 {
      PrefixDwords(cs, k - 1);
      assert cs[..k][..k - 1] == cs[..k - 1];
      assert Concat(cs[..k]) == Concat(cs[..k - 1]) + cs[k - 1];
      assert |cs[k - 1]| == 4 * (|cs[k - 1]| / 4);
    }
  }

  lemma {:induction false} DwordsBeforeAppend(columns: seq<seq<Byte>>, c: seq<Byte>, k: nat)
    requires k <= |columns|
    ensures DwordsBefore(columns + [c], k) == DwordsBefore(columns, k)
    decreases k
  {
    if k > 0 {
      DwordsBeforeAppend(columns, c, k - 1);
      assert (columns + [c])[k - 1] == columns[k - 1];
    }
  }

  /** The state `create_columns` keeps after the first `k` columns:
      `columns_array`, `dword_columns_offset_array` and
      `dword_column_offset`. */
  ghost predicate Registered(encs: seq<seq<Byte>>, k: nat, columns: seq<seq<Byte>>, offsets: seq<nat>, dwordColumnOffset: nat)
    requires k <= |encs|
  {
    && columns == Dedup(encs[..k])
    && |offsets| == |columns|
    && (forall j :: 0 <= j < |offsets| ==> offsets[j] == DwordsBefore(columns, j))
    && dwordColumnOffset == DwordsBefore(columns, |columns|)
  }

  /** The `try`/`except` step for the column encoded as `encs[k]`. */
  lemma RegisterStep(encs: seq<seq<Byte>>, k: nat, columns: seq<seq<Byte>>, offsets: seq<nat>, dwordColumnOffset: nat)
    requires k < |encs| && Registered(encs, k, columns, offsets, dwordColumnOffset)
    ensures IndexOf(columns, encs[k]) >= 0 ==> Registered(encs, k + 1, columns, offsets, dwordColumnOffset)
    ensures IndexOf(columns, encs[k]) < 0 ==>
      Registered(encs, k + 1, columns + [encs[k]], offsets + [dwordColumnOffset], dwordColumnOffset + |encs[k]| / 4)
  {
    assert encs[..k + 1][..k] == encs[..k];
    var c := encs[k];
    if IndexOf(columns, c) < 0 {
      forall j | 0 <= j <= |columns| ensures DwordsBefore(columns + [c], j) == DwordsBefore(columns, j) {
        DwordsBeforeAppend(columns, c, j);
      }
    }
  }

  lemma CellIndex(y: nat, x: nat)
    requires x < MapSide
    ensures (MapSide * y + x) % MapSide == x && (MapSide * y + x) / MapSide == y
  {
  }

  /** The `try`/`except` of `create_columns` for one encoded column: the
      index of an equal entry already in `columns`, or a new entry at the
      end with its dword offset, the running offset and `dmap_index`
      advanced. */
  method RegisterColumn(columns: seq<seq<Byte>>, offsets: seq<nat>, dwordColumnOffset: nat, dmapIndex: nat,
                        columnData: seq<Byte>, ghost encs: seq<seq<Byte>>, ghost k: nat)
    returns (index: nat, columns': seq<seq<Byte>>, offsets': seq<nat>, dwordColumnOffset': nat, dmapIndex': nat)
    requires k < |encs| && columnData == encs[k]
    requires Registered(encs, k, columns, offsets, dwordColumnOffset) && dmapIndex == |columns|
    ensures Registered(encs, k + 1, columns', offsets', dwordColumnOffset') && dmapIndex' == |columns'|
    ensures index < |columns'| && columns'[index] == columnData
    ensures |columns| <= |columns'| && columns'[..|columns|] == columns
  {
    RegisterStep(encs, k, columns, offsets, dwordColumnOffset);
    var found := IndexOf(columns, columnData);
    if found >= 0 {
      index := found;
      columns', offsets', dwordColumnOffset', dmapIndex' := columns, offsets, dwordColumnOffset, dmapIndex;
    } else {
      columns' := columns + [columnData];
      offsets' := offsets + [dwordColumnOffset];
      dwordColumnOffset' := dwordColumnOffset + |columnData| / 4;
      index := dmapIndex;
      dmapIndex' := dmapIndex + 1;
    }
  }

  /** Cells before (x, y) in row-major order hold the index of their
      column's encoding in `columns`. */
  ghost predicate IndexedBefore(indices: array2<nat>, encs: seq<seq<Byte>>, columns: seq<seq<Byte>>, y: nat, x: nat)
    requires indices.Length0 == MapSide && indices.Length1 == MapSide && |encs| == LevelCells
    reads indices
  {
    forall yy, xx :: 0 <= xx < 256 && (0 <= yy < y || (yy == y && xx < x)) && yy < 256 ==>
      indices[yy, xx] < |columns| && columns[indices[yy, xx]] == encs[256 * yy + xx]
  }

  /** Entry 256 y + x of the encodings is the encoding of column (x, y). */
  lemma EncodingAt(g: Grid, blockList: seq<seq<Byte>>, y: nat, x: nat)
    requires IsGrid(g) && y < MapSide && x < MapSide
    ensures 256 * y + x < LevelCells
    ensures Encodings(g, blockList)[256 * y + x] == ColumnEncoding(ColumnAt(g, x, y), blockList)
  {
    CellIndex(y, x);
  }

  /** Entries 256 y to 256 y + 255 of `encs` encode the columns of row y. */
  ghost predicate RowEncoded(g: Grid, blockList: seq<seq<Byte>>, encs: seq<seq<Byte>>, y: nat)
    requires IsGrid(g) && y < MapSide && |encs| == LevelCells
  {
    forall x :: 0 <= x < MapSide ==> encs[256 * y + x] == ColumnEncoding(ColumnAt(g, x, y), blockList)
  }

  lemma RowEncodings(g: Grid, blockList: seq<seq<Byte>>, y: nat)
    requires IsGrid(g) && y < MapSide
    ensures RowEncoded(g, blockList, Encodings(g, blockList), y)
  {
    forall x | 0 <= x < MapSide
      ensures Encodings(g, blockList)[256 * y + x] == ColumnEncoding(ColumnAt(g, x, y), blockList)
    {
      EncodingAt(g, blockList, y, x);
    }
  }

  /** `dmap_base_indices[y][x] = index`: cell (x, y) joins the cells
      before it, whose entries still index the grown `columns`. */
  method SetIndex(indices: array2<nat>, ghost encs: seq<seq<Byte>>, ghost columns: seq<seq<Byte>>,
                  ghost columns': seq<seq<Byte>>, y: nat, x: nat, index: nat)
    requires indices.Length0 == MapSide && indices.Length1 == MapSide && |encs| == LevelCells
    requires y < MapSide && x < MapSide
    requires IndexedBefore(indices, encs, columns, y, x)
    requires |columns| <= |columns'| && columns'[..|columns|] == columns
    requires index < |columns'| && columns'[index] == encs[256 * y + x]
    modifies indices
    ensures IndexedBefore(indices, encs, columns', y, x + 1)
    ensures forall yy, xx :: 0 <= yy < MapSide && 0 <= xx < MapSide && (yy != y || xx != x) ==>
      indices[yy, xx] == old(indices[yy, xx])
  {
    indices[y, x] := index;
    forall yy, xx | 0 <= xx < 256 && (0 <= yy < y || (yy == y && xx < x + 1)) && yy < 256
      ensures indices[yy, xx] < |columns'| && columns'[indices[yy, xx]] == encs[256 * yy + xx]
    {
      if yy != y || xx != x {
        assert indices[yy, xx] == old(indices[yy, xx]);
        assert columns[indices[yy, xx]] == columns'[indices[yy, xx]];
      }
    }
  }

  /** One pass of the x loop of `create_columns`: row `y`. */
  method CreateRow(g: Grid, blockList: seq<seq<Byte>>, y: nat, indices: array2<nat>,
                   columns: seq<seq<Byte>>, offsets: seq<nat>, dwordColumnOffset: nat, dmapIndex: nat,
                   ghost encs: seq<seq<Byte>>)
    returns (columns': seq<seq<Byte>>, offsets': seq<nat>, dwordColumnOffset': nat, dmapIndex': nat)
    requires IsGrid(g) && GridListed(g, blockList) && y < MapSide
    requires indices.Length0 == MapSide && indices.Length1 == MapSide
    requires |encs| == LevelCells && RowEncoded(g, blockList, encs, y)
    requires Registered(encs, 256 * y, columns, offsets, dwordColumnOffset) && dmapIndex == |columns|
    requires IndexedBefore(indices, encs, columns, y, 0)
    modifies indices
    ensures Registered(encs, 256 * y + 256, columns', offsets', dwordColumnOffset') && dmapIndex' == |columns'|
    ensures IndexedBefore(indices, encs, columns', y + 1, 0)
  {
    columns', offsets', dwordColumnOffset', dmapIndex' := columns, offsets, dwordColumnOffset, dmapIndex;
    for x := 0 to 256
      invariant Registered(encs, 256 * y + x, columns', offsets', dwordColumnOffset')
      invariant dmapIndex' == |columns'|
      invariant IndexedBefore(indices, encs, columns', y, x)
    {
      columns', offsets', dwordColumnOffset', dmapIndex' :=
        CreateCell(g, blockList, y, x, indices, columns', offsets', dwordColumnOffset', dmapIndex', encs);
    }
    RowDone(indices, encs, columns', y);
  }

  /** A row filled up to x = 256 leaves every cell before the next row
      indexed. */
  lemma RowDone(indices: array2<nat>, encs: seq<seq<Byte>>, columns: seq<seq<Byte>>, y: nat)
    requires indices.Length0 == MapSide && indices.Length1 == MapSide && |encs| == LevelCells
    requires IndexedBefore(indices, encs, columns, y, 256)
    ensures IndexedBefore(indices, encs, columns, y + 1, 0)
  {
  }

  /** One pass of the x loop body of `create_columns`: encode column
      (x, y), register it and record its index. */
  method CreateCell(g: Grid, blockList: seq<seq<Byte>>, y: nat, x: nat, indices: array2<nat>,
                    columns: seq<seq<Byte>>, offsets: seq<nat>, dwordColumnOffset: nat, dmapIndex: nat,
                    ghost encs: seq<seq<Byte>>)
    returns (columns': seq<seq<Byte>>, offsets': seq<nat>, dwordColumnOffset': nat, dmapIndex': nat)
    requires IsGrid(g) && GridListed(g, blockList) && y < MapSide && x < MapSide
    requires indices.Length0 == MapSide && indices.Length1 == MapSide
    requires |encs| == LevelCells && encs[256 * y + x] == ColumnEncoding(ColumnAt(g, x, y), blockList)
    requires Registered(encs, 256 * y + x, columns, offsets, dwordColumnOffset) && dmapIndex == |columns|
    requires IndexedBefore(indices, encs, columns, y, x)
    modifies indices
    ensures Registered(encs, 256 * y + x + 1, columns', offsets', dwordColumnOffset') && dmapIndex' == |columns'|
    ensures IndexedBefore(indices, encs, columns', y, x + 1)
  {
    var col := ColumnAt(g, x, y);
    assert Listed(col, blockList);
    var columnData := EncodeColumn(col, blockList);
    var index;
    index, columns', offsets', dwordColumnOffset', dmapIndex' :=
      RegisterColumn(columns, offsets, dwordColumnOffset, dmapIndex, columnData, encs, 256 * y + x);
    SetIndex(indices, encs, columns, columns', y, x, index);
  }

  /** What `create_columns` returns: the index of every (x, y) column in
      the list of distinct encodings, that list, and each entry's dword
      offset in the joined column data. */
  datatype ColumnTables = ColumnTables(indices: array2<nat>, columns: seq<seq<Byte>>, offsets: seq<nat>)

  /** `create_columns`. It raises IndexError at the first (x, y, z) the
      grid lacks; nothing it computed before then is returned, so the
      failure is decided by the grid's shape alone. */
  method CreateColumns(g: Grid, blockList: seq<seq<Byte>>) returns (r: Result<ColumnTables, EncodeError>)
    requires GridListed(g, blockList)
    ensures r.Err? <==> !IsGrid(g)
    ensures r.Err? ==> r.error == MissingCell
    ensures r.Ok? ==> IsGrid(g) && r.value.indices.Length0 == MapSide && r.value.indices.Length1 == MapSide
    ensures r.Ok? ==> r.value.columns == Dedup(Encodings(g, blockList))
    ensures r.Ok? ==> |r.value.offsets| == |r.value.columns|
    ensures r.Ok? ==> forall j :: 0 <= j < |r.value.offsets| ==> r.value.offsets[j] == DwordsBefore(r.value.columns, j)
    ensures r.Ok? ==> forall y, x :: 0 <= y < MapSide && 0 <= x < MapSide ==>
      r.value.indices[y, x] < |r.value.columns|
      && r.value.columns[r.value.indices[y, x]] == Encodings(g, blockList)[MapSide * y + x]
  {
    if !IsGrid(g) {
      return Err(MissingCell);
    }
    var indices, columns, offsets := EncodeGrid(g, blockList);
    return Ok(ColumnTables(indices, columns, offsets));
  }

  /** The loops of `create_columns` over a grid that has every cell they
      read. */
  method EncodeGrid(g: Grid, blockList: seq<seq<Byte>>)
    returns (indices: array2<nat>, columns: seq<seq<Byte>>, offsets: seq<nat>)
    requires IsGrid(g) && GridListed(g, blockList)
    ensures indices.Length0 == MapSide && indices.Length1 == MapSide
    ensures columns == Dedup(Encodings(g, blockList))
    ensures |offsets| == |columns|
    ensures forall j :: 0 <= j < |offsets| ==> offsets[j] == DwordsBefore(columns, j)
    ensures forall y, x :: 0 <= y < MapSide && 0 <= x < MapSide ==>
      indices[y, x] < |columns| && columns[indices[y, x]] == Encodings(g, blockList)[MapSide * y + x]
  {
    ghost var encs := Encodings(g, blockList);
    columns := [];
    var dwordColumnOffset: nat := 0;
    offsets := [];
    indices := new nat[256, 256]((_, _) => 0);
    var dmapIndex: nat := 0;
    for y := 0 to 256
      invariant Registered(encs, 256 * y, columns, offsets, dwordColumnOffset)
      invariant dmapIndex == |columns|
      invariant IndexedBefore(indices, encs, columns, y, 0)
    {
      RowEncodings(g, blockList, y);
      columns, offsets, dwordColumnOffset, dmapIndex :=
        CreateRow(g, blockList, y, indices, columns, offsets, dwordColumnOffset, dmapIndex, encs);
    }
    assert encs[..256 * 256] == encs;
    assert IndexedBefore(indices, encs, columns, 256, 0);
  }
}
