/** One column of the `DMAP` encoder in compress_gmp.py (the body of the
    x loop in `create_columns`): the z scan that finds the column's offset
    and height and collects dictionary ids, then the header and the dwords
    of the encoding. Modelled as written: `height` is the z of the topmost
    occupied level, not one past it, and the reset to 0/0 tests
    `offset == 7`, so an all-empty column keeps offset 8. */
module Column {
  import opened Bytes
  import opened Blocks

  /** `block_data == EMPTY_BLOCK_DATA`. */
  predicate IsEmpty(b: seq<Byte>)
  {
    b == EmptyRecord
  }

  /** Python's `list.index`: the first index holding `e`, or -1 where the
      source would raise ValueError. */
  function IndexOf<T(==)>(s: seq<T>, e: T): (i: int)
    ensures -1 <= i < |s|
    ensures i >= 0 ==> s[i] == e && forall j :: 0 <= j < i ==> s[j] != e
    ensures i < 0 <==> e !in s
  {
    if |s| == 0 then -1
    else if s[0] == e then 0
    else
      var i := IndexOf(s[1..], e);
      assert forall j :: 1 <= j < |s| ==> s[j] == s[1..][j - 1];
      if i < 0 then -1 else i + 1
  }

  /** The number of leading empty levels of `col` (see `LeadTopSpec`). */
  function Lead(col: seq<seq<Byte>>): (n: nat)
    ensures n <= |col|
  {
    if |col| == 0 then 0
    else
      var m := Lead(col[..|col| - 1]);
      if m == |col| - 1 && IsEmpty(col[|col| - 1]) then |col| else m
  }

  /** The z of the topmost occupied level of `col`, 0 when there is none
      (see `LeadTopSpec`). */
  function Top(col: seq<seq<Byte>>): (h: nat)
    ensures |col| > 0 ==> h < |col|
  {
    if |col| == 0 then 0
    else if !IsEmpty(col[|col| - 1]) then |col| - 1
    else Top(col[..|col| - 1])
  }

  /** `Lead` counts the empty levels below the first occupied one and `Top`
      is the z of the last occupied one. */
  lemma {:induction false} LeadTopSpec(col: seq<seq<Byte>>)
    ensures forall z :: 0 <= z < Lead(col) ==> IsEmpty(col[z])
    ensures Lead(col) < |col| ==> !IsEmpty(col[Lead(col)])
    ensures forall z :: Top(col) < z < |col| ==> IsEmpty(col[z])
    ensures Lead(col) < |col| ==> !IsEmpty(col[Top(col)]) && Lead(col) <= Top(col)
    ensures Lead(col) == |col| ==> Top(col) == 0
    decreases |col|
  {
    if |col| > 0 {
      var p := col[..|col| - 1];
      LeadTopSpec(p);
      assert forall z :: 0 <= z < |p| ==> p[z] == col[z];
    }
  }

  /** The id recorded for a level: 0 for an empty one (whatever
      `block_list[0]` is), otherwise the record's index in `blockList`. */
  function LevelId(blockList: seq<seq<Byte>>, b: seq<Byte>): (id: int)
    ensures !IsEmpty(b) && b in blockList ==> 0 <= id < |blockList| && blockList[id] == b
    ensures IsEmpty(b) ==> id == 0
  {
    if IsEmpty(b) then 0 else IndexOf(blockList, b)
  }

  /** Every occupied level of `col` has its record in `blockList`. */
  predicate Listed(col: seq<seq<Byte>>, blockList: seq<seq<Byte>>)
  {
    forall z :: 0 <= z < |col| && !IsEmpty(col[z]) ==> col[z] in blockList
  }

  /** The column header's height and offset bytes. */
  function HeaderHeight(col: seq<seq<Byte>>): (h: nat)
    ensures |col| > 0 ==> h < |col|
  {
    if Lead(col) == 7 then 0 else Top(col)
  }

  function HeaderOffset(col: seq<seq<Byte>>): nat
  {
    if Lead(col) == 7 then 0 else Lead(col)
  }

  /** The number of dword ids after the header: `height - offset` when
      positive (a negative count makes `range` empty). */
  function IdCount(col: seq<seq<Byte>>): (n: nat)
    ensures n > 0 ==> HeaderOffset(col) + n == HeaderHeight(col)
  {
    if HeaderHeight(col) > HeaderOffset(col) then HeaderHeight(col) - HeaderOffset(col) else 0
  }

  /** The ids after the header, one dword each, for the levels from the
      offset up. */
  function IdDwords(col: seq<seq<Byte>>, blockList: seq<seq<Byte>>): (ds: seq<seq<Byte>>)
    requires |col| == 8
    ensures |ds| == IdCount(col)
    ensures forall j :: 0 <= j < |ds| ==> HeaderOffset(col) + j < 8 && |ds[j]| == 4
    ensures forall j :: 0 <= j < |ds| ==> ds[j] == Dword(LevelId(blockList, col[HeaderOffset(col) + j]))
  {
    var o := HeaderOffset(col);
    var ds := seq(IdCount(col), j requires 0 <= j < IdCount(col) => Dword(LevelId(blockList, col[o + j])));
    assert forall j :: 0 <= j < |ds| ==> ds[j] == Dword(LevelId(blockList, col[o + j]));
    ds
  }

  /** The encoding of an 8-level column. */
  function ColumnEncoding(col: seq<seq<Byte>>, blockList: seq<seq<Byte>>): (enc: seq<Byte>)
    requires |col| == 8
    ensures |enc| == 4 + 4 * IdCount(col)
  {
    var ds := IdDwords(col, blockList);
    ConcatLength(ds, 4);
    [HeaderHeight(col), HeaderOffset(col), 0, 0] + Concat(ds)
  }

  /** How `Lead` and `Top` grow by one level. */
  lemma PrefixStep(col: seq<seq<Byte>>, z: nat)
    requires z < |col|
    ensures col[..z + 1][..z] == col[..z] && col[..z + 1][z] == col[z]
    ensures Lead(col[..z + 1]) == if Lead(col[..z]) == z && IsEmpty(col[z]) then z + 1 else Lead(col[..z])
    ensures Top(col[..z + 1]) == if !IsEmpty(col[z]) then z else Top(col[..z])
  {
    assert col[..z + 1][..z] == col[..z];
  }

  /** `ids` are the ids of the levels of `col` from `offset` up. */
  predicate IdsFrom(col: seq<seq<Byte>>, blockList: seq<seq<Byte>>, offset: nat, ids: seq<int>)
  {
    offset + |ids| <= |col| && forall i :: 0 <= i < |ids| ==> ids[i] == LevelId(blockList, col[offset + i])
  }

  lemma IdsStep(col: seq<seq<Byte>>, blockList: seq<seq<Byte>>, offset: nat, ids: seq<int>, id: int)
    requires IdsFrom(col, blockList, offset, ids) && offset + |ids| < |col|
    requires id == LevelId(blockList, col[offset + |ids|])
    ensures IdsFrom(col, blockList, offset, ids + [id])
  {
  }

  /** The z loop of `create_columns` (lines 644-667) over the column `col`
      (levels z = 0..7 of one (x, y)): how many levels lead the column
      empty, the z of its topmost occupied level, and the ids of the levels
      from the first occupied one up. */
  method ScanColumn(col: seq<seq<Byte>>, blockList: seq<seq<Byte>>)
    returns (offset: nat, height: nat, blockdArray: seq<int>)
    requires |col| == 8
    ensures offset == Lead(col) && height == Top(col)
    ensures offset <= 8 && height < 8
    ensures |blockdArray| == 8 - offset
    ensures forall i :: 0 <= i < |blockdArray| ==> blockdArray[i] == LevelId(blockList, col[offset + i])
  {
    offset := 0;
    height := 0;
    var emptyBlocksFinished := false;
    blockdArray := [];
    for z := 0 to 8
      invariant offset == Lead(col[..z])
      invariant height == Top(col[..z])
      invariant emptyBlocksFinished <==> offset < z
      invariant |blockdArray| == z - offset
      invariant IdsFrom(col, blockList, offset, blockdArray)
    {
      PrefixStep(col, z);
      var blockData := col[z];
      if blockData == EmptyRecord {
        if !emptyBlocksFinished {
          offset := offset + 1;
        } else {
          IdsStep(col, blockList, offset, blockdArray, 0);
          blockdArray := blockdArray + [0];
        }
      } else {
        emptyBlocksFinished := true;
        height := z;
        IdsStep(col, blockList, offset, blockdArray, IndexOf(blockList, blockData));
        blockdArray := blockdArray + [IndexOf(blockList, blockData)];
      }
    }
    assert col[..8] == col;
  }

  /** One dword per id. */
  function Dwords(ids: seq<int>): (ds: seq<seq<Byte>>)
    ensures |ds| == |ids|
    ensures forall i :: 0 <= i < |ids| ==> ds[i] == Dword(ids[i])
  {
    if |ids| == 0 then [] else Dwords(ids[..|ids| - 1]) + [Dword(ids[|ids| - 1])]
  }

  /** The ids the scan collected, from the offset up, are the ones the
      encoding writes. */
  lemma ScannedIds(col: seq<seq<Byte>>, blockList: seq<seq<Byte>>, blockdArray: seq<int>)
    requires |col| == 8
    requires |blockdArray| == 8 - Lead(col)
    requires forall i :: 0 <= i < |blockdArray| ==> blockdArray[i] == LevelId(blockList, col[Lead(col) + i])
    ensures IdCount(col) <= |blockdArray|
    ensures Dwords(blockdArray[..IdCount(col)]) == IdDwords(col, blockList)
  {
    if IdCount(col) > 0 {
      assert HeaderOffset(col) == Lead(col);
    }
  }

  /** The loop of lines 670-676: the first `n` ids, one dword each. */
  method WriteIds(blockdArray: seq<int>, n: nat) returns (data: seq<Byte>)
    requires n <= |blockdArray|
    ensures data == Concat(Dwords(blockdArray[..n]))
  {
    data := [];
    for blockColIdx := 0 to n
      invariant data == Concat(Dwords(blockdArray[..blockColIdx]))
    {
      assert blockdArray[..blockColIdx + 1][..blockColIdx] == blockdArray[..blockColIdx];
      data := data + Dword(blockdArray[blockColIdx]);
    }
  }

  /** Lines 644-676 of `create_columns` for one column: the scan, the reset
      of a column whose first occupied level is z = 7, the 4-byte header and
      one dword per id from the offset up to (not including) the height. */
  method EncodeColumn(col: seq<seq<Byte>>, blockList: seq<seq<Byte>>) returns (columnData: seq<Byte>)
    requires |col| == 8 && Listed(col, blockList)
    ensures columnData == ColumnEncoding(col, blockList)
  {
    var offset, height, blockdArray := ScanColumn(col, blockList);
    if offset == 7 {
      height := 0;
      offset := 0;
    }
    assert offset == HeaderOffset(col) && height == HeaderHeight(col);
    var numBlocks := height as int - offset as int;
    ScannedIds(col, blockList, blockdArray);
    assert (if numBlocks > 0 then numBlocks else 0) == IdCount(col);
    var ids := WriteIds(blockdArray, if numBlocks > 0 then numBlocks else 0);
    assert ids == Concat(IdDwords(col, blockList));
    var heightByte: Byte := height;
    var offsetByte: Byte := offset;
    columnData := [heightByte, offsetByte, 0, 0] + ids;
  }

  /** The header: bytes 2 and 3 are zero and the encoding is the header and
      one dword per id. Below an offset of 7 byte 1 is the z of the lowest
      occupied level and byte 0 the z of the highest; a column whose only
      occupied level is z = 7 gets the header 0/0 and no ids, and an
      all-empty column keeps the offset 8. */
  lemma {:induction false} ColumnHeaderSpec(col: seq<seq<Byte>>, blockList: seq<seq<Byte>>)
    requires |col| == 8 && Listed(col, blockList)
    ensures var enc := ColumnEncoding(col, blockList);
      |enc| == 4 + 4 * IdCount(col) && |enc| % 4 == 0 && enc[2] == 0 && enc[3] == 0
    ensures var enc := ColumnEncoding(col, blockList);
      Lead(col) < 7 ==>
        enc[1] <= enc[0] < 8 && !IsEmpty(col[enc[1]]) && !IsEmpty(col[enc[0]])
        && (forall z :: 0 <= z < enc[1] ==> IsEmpty(col[z]))
        && (forall z :: enc[0] < z < 8 ==> IsEmpty(col[z]))
    ensures (forall z :: 0 <= z < 7 ==> IsEmpty(col[z])) && !IsEmpty(col[7]) ==>
      ColumnEncoding(col, blockList) == [0, 0, 0, 0]
    ensures (forall z :: 0 <= z < 8 ==> IsEmpty(col[z])) ==>
      ColumnEncoding(col, blockList) == [0, 8, 0, 0]
  {
    LeadTopSpec(col);
    if (forall z :: 0 <= z < 7 ==> IsEmpty(col[z])) && !IsEmpty(col[7]) {
      assert Lead(col) == 7;
    }
    if forall z :: 0 <= z < 8 ==> IsEmpty(col[z]) {
      assert Lead(col) == 8;
      assert Top(col) == 0;
    }
  }

  /** Id `i` of the encoding is the dword at bytes 4 + 4i .. 8 + 4i and
      belongs to level offset + i, which lies below the height: the
      topmost occupied level never gets an id. */
  lemma {:induction false} ColumnIdSpec(col: seq<seq<Byte>>, blockList: seq<seq<Byte>>, i: nat)
    requires |col| == 8
    requires i < IdCount(col)
    ensures HeaderOffset(col) + i < HeaderHeight(col)
    ensures 8 + 4 * i <= |ColumnEncoding(col, blockList)|
    ensures ColumnEncoding(col, blockList)[4 + 4 * i..8 + 4 * i]
         == Dword(LevelId(blockList, col[HeaderOffset(col) + i]))
  {
    var ids := IdDwords(col, blockList);
    ConcatUniform(ids, 4, i);
    assert ColumnEncoding(col, blockList)[4 + 4 * i..8 + 4 * i] == Concat(ids)[4 * i..4 * i + 4];
  }

  /** Read back, id `i` is 0 for an empty level and otherwise indexes the
      level's own record in `blockList`. */
  lemma {:induction false} ColumnIdDecodes(col: seq<seq<Byte>>, blockList: seq<seq<Byte>>, i: nat)
    requires |col| == 8 && Listed(col, blockList) && |blockList| <= TwoTo32
    requires i < IdCount(col)
    ensures var b := col[HeaderOffset(col) + i];
      var id := LittleEndian(ColumnEncoding(col, blockList)[4 + 4 * i..8 + 4 * i]);
      (IsEmpty(b) ==> id == 0) && (!IsEmpty(b) ==> id < |blockList| && blockList[id] == b)
  {
    ColumnIdSpec(col, blockList, i);
    var z := HeaderOffset(col) + i;
    var b := col[z];
    var id := LevelId(blockList, b);
    assert ColumnEncoding(col, blockList)[4 + 4 * i..8 + 4 * i] == Dword(id);
    assert 0 <= id < TwoTo32 by {
      if !IsEmpty(b) {
        assert b in blockList;
      }
    }
    DwordOfSmall(id);
  }

  /** A column with one occupied level z below 7 encodes as the header
      z/z and no ids: the record itself is not written. */
  lemma {:induction false} SingleLevelColumn(col: seq<seq<Byte>>, blockList: seq<seq<Byte>>, z: nat)
    requires |col| == 8 && Listed(col, blockList)
    requires z < 7 && !IsEmpty(col[z])
    requires forall k :: 0 <= k < 8 && k != z ==> IsEmpty(col[k])
    ensures ColumnEncoding(col, blockList) == [z, z, 0, 0]
  {
    LeadTopSpec(col);
    assert Lead(col) == z;
    assert Top(col) == z;
    assert IdCount(col) == 0;
  }
}
