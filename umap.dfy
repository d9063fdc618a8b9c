/** The flat `UMAP` grid: `get_block_info_data_from_UMAP`, which cuts the
    chunk into 12-byte records and groups them x fastest, then y, then z,
    and `write_uncompressed_map`, which writes a grid back in that order. */
module Umap {
  import opened Bytes
  import opened Blocks

  /** The side of the map, `MAP_WIDTH + 1` and `MAP_HEIGHT + 1`. */
  const MapSide: nat := 256
  /** The levels of the map, `MAP_MAX_Z + 1`. */
  const MapLevels: nat := 8
  /** Records in one level. */
  const LevelCells: nat := 65536

  /** `block_info_array[z][y][x]`: levels of rows of records. */
  type Grid = seq<seq<seq<seq<Byte>>>>

  /** Every level of `g` is `MapSide` rows of `MapSide` records. */
  ghost predicate FullLevels(g: Grid)
  {
    forall z :: 0 <= z < |g| ==>
      |g[z]| == MapSide && forall y :: 0 <= y < MapSide ==> |g[z][y]| == MapSide
  }

  /** A grid the column encoder and the writer can index at every
      (z, y, x) with z < 8 and x, y < 256: its first `MapLevels` levels have
      at least `MapSide` rows of at least `MapSide` records. */
  predicate IsGrid(g: Grid)
  {
    |g| >= MapLevels
    && forall z :: 0 <= z < MapLevels ==>
         |g[z]| >= MapSide && forall y :: 0 <= y < MapSide ==> |g[z][y]| >= MapSide
  }

  /** The `k`-th record read from a `UMAP` payload at `off`. */
  function RecordAt(file: seq<Byte>, off: nat, k: nat): seq<Byte>
  {
    Read(file, off + RecordSize * k, RecordSize)
  }

  /** How many records the reader's loop reads from `size` bytes: one per
      12 bytes, the last one possibly short. */
  function RecordCount(size: nat): nat
  {
    (size + RecordSize - 1) / RecordSize
  }

  /** Row `y` of level `z` of the records read from `off`. */
  function Row(file: seq<Byte>, off: nat, z: nat, y: nat): (r: seq<seq<Byte>>)
    ensures |r| == MapSide
  {
    seq(MapSide, x requires 0 <= x < MapSide => RecordAt(file, off, LevelCells * z + MapSide * y + x))
  }

  /** Level `z` of the records read from `off`. */
  function Level(file: seq<Byte>, off: nat, z: nat): (r: seq<seq<seq<Byte>>>)
    ensures |r| == MapSide
  {
    seq(MapSide, y requires 0 <= y < MapSide => Row(file, off, z, y))
  }

  /** The grid the reader builds from a `UMAP` payload of `size` bytes at
      `off`: only complete levels are kept, any trailing part-level is
      dropped, and there may be more or fewer than `MapLevels` of them. */
  function UmapGrid(file: seq<Byte>, off: nat, size: nat): (g: Grid)
    ensures |g| == RecordCount(size) / LevelCells
    ensures FullLevels(g)
  {
    Levels(file, off, RecordCount(size) / LevelCells)
  }

  /** The first `n` levels of the records read from `off`. */
  function Levels(file: seq<Byte>, off: nat, n: nat): (g: Grid)
    ensures |g| == n
    ensures forall z :: 0 <= z < n ==> g[z] == Level(file, off, z)
  {
    seq(n, z requires 0 <= z < n => Level(file, off, z))
  }

  /** Where a record of the grid comes from: the record at `x + 256 y +
      65536 z` of the payload, so x varies fastest. */
  lemma UmapGridAt(file: seq<Byte>, off: nat, size: nat, z: nat, y: nat, x: nat)
    requires z < RecordCount(size) / LevelCells && y < MapSide && x < MapSide
    ensures UmapGrid(file, off, size)[z][y][x] == RecordAt(file, off, LevelCells * z + MapSide * y + x)
  {
  }

  /** `get_block_info_data_from_UMAP` over the payload at `umapOffset`. */
  method GetBlockInfoDataFromUmap(file: seq<Byte>, umapOffset: nat, size: nat) returns (xyz: Grid)
    ensures xyz == UmapGrid(file, umapOffset, size)
  {
    xyz := [];
    var xArray: seq<seq<Byte>> := [];
    var xyArray: seq<seq<seq<Byte>>> := [];
    var x: nat, y: nat, z: nat := 0, 0, 0;
    var current: nat := umapOffset;
    ghost var k: nat := 0;
    while current < umapOffset + size
      invariant x < MapSide && y < MapSide
      invariant k == LevelCells * z + MapSide * y + x
      invariant current == umapOffset + RecordSize * k
      invariant k <= RecordCount(size)
      invariant xyz == Levels(file, umapOffset, z)
      invariant xyArray == Level(file, umapOffset, z)[..y]
      invariant xArray == Row(file, umapOffset, z, y)[..x]
      decreases umapOffset + size - current
    {
      var blockData := Read(file, current, RecordSize);
      assert RecordAt(file, umapOffset, k) == Row(file, umapOffset, z, y)[x];
      assert blockData == RecordAt(file, umapOffset, k);
      xArray := xArray + [blockData];
      current := current + RecordSize;
      k := k + 1;
      x := x + 1;
      if x > 255 {
        x := 0;
        assert xArray == Row(file, umapOffset, z, y);
        xyArray := xyArray + [xArray];
        xArray := [];
        y := y + 1;
      }
      if y > 255 {
        y := 0;
        assert xyArray == Level(file, umapOffset, z);
        xyz := xyz + [xyArray];
        assert xyz == Levels(file, umapOffset, z + 1);
        xyArray := [];
        z := z + 1;
      }
    }
    assert k == RecordCount(size);
    assert z == RecordCount(size) / LevelCells;
  }

  /** The records of the first `MapLevels` levels in writing order: record
      `x + 256 y + 65536 z` is `g[z][y][x]`. */
  function Flat(g: Grid): (r: seq<seq<Byte>>)
    requires IsGrid(g)
    ensures |r| == MapLevels * LevelCells
  {
    seq(MapLevels * LevelCells, k requires 0 <= k < MapLevels * LevelCells =>
      g[k / LevelCells][k / MapSide % MapSide][k % MapSide])
  }

  lemma FlatAt(g: Grid, z: nat, y: nat, x: nat)
    requires IsGrid(g) && z < MapLevels && y < MapSide && x < MapSide
    ensures Flat(g)[LevelCells * z + MapSide * y + x] == g[z][y][x]
  {
    var k := LevelCells * z + MapSide * y + x;
    assert k / LevelCells == z;
    assert k / MapSide == MapSide * z + y;
    assert k / MapSide % MapSide == y;
  }

  /** Python's `seek(off)` then `write(data)` on a file holding `file`: the
      bytes from `off` are replaced, the file grows as needed, and a gap
      before `off` fills with zero bytes. */
  function Overwrite(file: seq<Byte>, off: nat, data: seq<Byte>): (r: seq<Byte>)
    ensures |r| >= off + |data|
    ensures r[off..off + |data|] == data
    ensures r[..if off <= |file| then off else |file|] == file[..if off <= |file| then off else |file|]
  {
    if off <= |file| then
      file[..off] + data + (if off + |data| < |file| then file[off + |data|..] else [])
    else
      file + seq(off - |file|, _ => 0) + data
  }

  /** `write_uncompressed_map`: with a non-empty `UMAP` chunk, all records of
      the first `MapLevels` levels, x fastest, overwrite the payload. The
      source's loop never advances its offset test, so only the level
      counter ends it. */
  method WriteUncompressedMap(file: seq<Byte>, umapOffset: nat, size: nat, g: Grid) returns (out: seq<Byte>)
    requires IsGrid(g)
    ensures size == 0 ==> out == file
    ensures size > 0 ==> out == Overwrite(file, umapOffset, Concat(Flat(g)))
  {
    if size == 0 {
      return file;
    }
    var written: seq<Byte> := [];
    var x, y, z := 0, 0, 0;
    ghost var k: nat := 0;
    ghost var flat := Flat(g);
    while true
      invariant x < MapSide && y < MapSide && z < MapLevels
      invariant k == LevelCells * z + MapSide * y + x
      invariant written == Concat(flat[..k])
      decreases MapLevels * LevelCells - k
    {
      FlatAt(g, z, y, x);
      ConcatStep(flat, k);
      written := written + g[z][y][x];
      k := k + 1;
      x := x + 1;
      if x > 255 {
        x := 0;
        y := y + 1;
      }
      if y > 255 {
        y := 0;
        z := z + 1;
      }
      if z >= 8 {
        break;
      }
    }
    assert flat[..k] == flat;
    out := Overwrite(file, umapOffset, written);
  }

  /** Every record of the first `MapLevels` levels is 12 bytes long. */
  ghost predicate FullRecords(g: Grid)
    requires IsGrid(g)
  {
    forall z, y, x :: 0 <= z < MapLevels && 0 <= y < MapSide && 0 <= x < MapSide ==>
      |g[z][y][x]| == RecordSize
  }

  lemma FlatRecords(g: Grid)
    requires IsGrid(g) && FullRecords(g)
    ensures forall j :: 0 <= j < |Flat(g)| ==> |Flat(g)[j]| == RecordSize
  {
    var flat := Flat(g);
    forall j | 0 <= j < |flat| ensures |flat[j]| == RecordSize {
      var zz, yy, xx := j / LevelCells, j / MapSide % MapSide, j % MapSide;
      assert flat[j] == g[zz][yy][xx];
    }
  }

  /** The bytes `write_uncompressed_map` writes for a grid of 12-byte records. */
  function UmapBytes(g: Grid): (data: seq<Byte>)
    requires IsGrid(g) && FullRecords(g)
    ensures |data| == RecordSize * MapLevels * LevelCells
  {
    FlatRecords(g);
    ConcatUniform(Flat(g), RecordSize, 0);
    Concat(Flat(g))
  }

  lemma {:induction false} UmapCellRoundTrip(file: seq<Byte>, off: nat, g: Grid, z: nat, y: nat, x: nat)
    requires IsGrid(g) && FullRecords(g)
    requires z < MapLevels && y < MapSide && x < MapSide
    ensures RecordAt(Overwrite(file, off, UmapBytes(g)), off, LevelCells * z + MapSide * y + x) == g[z][y][x]
  {
    var flat := Flat(g);
    var k := LevelCells * z + MapSide * y + x;
    FlatRecords(g);
    ConcatUniform(flat, RecordSize, k);
    FlatAt(g, z, y, x);
    var data := UmapBytes(g);
    var out := Overwrite(file, off, data);
    var lo := RecordSize * k;
    assert out[off..off + |data|] == data;
    assert out[off + lo..off + lo + RecordSize] == data[lo..lo + RecordSize];
  }

  /** Reading back what `write_uncompressed_map` wrote gives the grid again,
      when the grid has exactly `MapLevels` levels of 256 by 256 12-byte
      records and the `UMAP` payload is exactly their size. */
  lemma {:induction false} UmapRoundTrip(file: seq<Byte>, off: nat, g: Grid)
    requires IsGrid(g) && |g| == MapLevels && FullLevels(g) && FullRecords(g)
    ensures UmapGrid(Overwrite(file, off, UmapBytes(g)), off, |UmapBytes(g)|) == g
  {
    var out := Overwrite(file, off, UmapBytes(g));
    var size := |UmapBytes(g)|;
    var r := UmapGrid(out, off, size);
    assert |r| == MapLevels;
    forall z | 0 <= z < MapLevels ensures r[z] == g[z] {
      forall y | 0 <= y < MapSide ensures r[z][y] == g[z][y] {
        forall x | 0 <= x < MapSide ensures r[z][y][x] == g[z][y][x] {
          UmapCellRoundTrip(file, off, g, z, y, x);
          UmapGridAt(out, off, size, z, y, x);
        }
      }
    }
  }
}
