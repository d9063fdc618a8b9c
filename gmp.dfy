/** `create_gmp` in compress_gmp.py: the GBMP file written from a `DMAP`
    chunk and the companion chunks found by the reader, as a byte string. */
module Gmp {
  import opened Bytes
  import opened Container
  import opened Dmap

  /** The companions `create_gmp` copies, in the order it writes them;
      `UMAP`, `CMAP`, `MOBJ` and `THSR` are not copied. */
  const CompanionOrder: seq<Tag> := [ZONE, PSXM, ANIM, LGHT, EDIT, RGEN]

  /** `search_data` finding no payload for a tag `chunk_info` lists. */
  datatype GmpError = HeaderNotFound(tag: Tag)

  /** Signature and version 500 as a little-endian word. */
  function FileHeader(): (h: seq<Byte>)
    ensures |h| == HeaderSize && h[..4] == Signature
  {
    Signature + Word(500).value
  }

  /** A chunk as written: tag, size dword, payload. */
  function ChunkBytes(t: Tag, size: int, payload: seq<Byte>): (r: seq<Byte>)
    ensures |r| == 8 + |payload|
  {
    TagBytes(t) + Dword(size) + payload
  }

  /** The `DMAP` payload: base, column dword count, columns, record count,
      records. */
  function DmapBody(d: DmapInfo): seq<Byte>
  {
    d.base + Dword(d.columnDwords) + d.columnData + Dword(d.numBlocks) + d.blockInfo
  }

  function Then<E>(prefix: seq<Byte>, r: Result<seq<Byte>, E>): Result<seq<Byte>, E>
  {
    if r.Ok? then Ok(prefix + r.value) else r
  }

  /** The companion chunks for the tags `ts`: each tag `chunk_info` has an
      offset for is written with its recorded size and the first payload
      `search_data` finds for it; a tag with no payload stops the writer. */
  function Companions(info: map<Tag, Location>, data: seq<(Tag, seq<Byte>)>, ts: seq<Tag>): Result<seq<Byte>, GmpError>
    requires forall t :: t in ts ==> t in info
  {
    if |ts| == 0 then Ok([])
    else
      var t := ts[0];
      var rest := Companions(info, data, ts[1..]);
      if info[t].Absent? then rest
      else match SearchData(data, t)
        case None => Err(HeaderNotFound(t))
        case Some(p) => Then(ChunkBytes(t, info[t].size, p), rest)
  }

  /** The file `create_gmp` writes. */
  function GmpFile(dmap: DmapInfo, info: map<Tag, Location>, data: seq<(Tag, seq<Byte>)>): Result<seq<Byte>, GmpError>
    requires forall t :: t in CompanionOrder ==> t in info
  {
    Then(FileHeader() + ChunkBytes(DMAP, dmap.size, DmapBody(dmap)), Companions(info, data, CompanionOrder))
  }

  lemma AppendChunk(file: seq<Byte>, t: Tag, size: int, p: seq<Byte>)
    ensures file + TagBytes(t) + Dword(size) + p == file + ChunkBytes(t, size, p)
  {
    assert file + TagBytes(t) + Dword(size) + p == file + (TagBytes(t) + Dword(size) + p);
  }

  lemma ThenThen<E>(a: seq<Byte>, b: seq<Byte>, r: Result<seq<Byte>, E>)
    ensures Then(a, Then(b, r)) == Then(a + b, r)
  {
    if r.Ok? {
      assert a + (b + r.value) == (a + b) + r.value;
    }
  }

  /** `create_gmp`: header, the `DMAP` chunk, then the companions in
      `CompanionOrder`. */
  method CreateGmp(dmap: DmapInfo, info: map<Tag, Location>, data: seq<(Tag, seq<Byte>)>)
    returns (r: Result<seq<Byte>, GmpError>)
    requires forall t :: t in CompanionOrder ==> t in info
    ensures r == GmpFile(dmap, info, data)
  {
    var file := Signature;
    var version := Word(500);
    file := file + version.value;
    file := file + TagBytes(DMAP);
    file := file + Dword(dmap.size);
    file := file + dmap.base;
    file := file + Dword(dmap.columnDwords);
    file := file + dmap.columnData;
    file := file + Dword(dmap.numBlocks);
    file := file + dmap.blockInfo;
    assert file == FileHeader() + ChunkBytes(DMAP, dmap.size, DmapBody(dmap));
    for i := 0 to |CompanionOrder|
      invariant GmpFile(dmap, info, data) == Then(file, Companions(info, data, CompanionOrder[i..]))
    {
      var t := CompanionOrder[i];
      ghost var ts := CompanionOrder[i..];
      assert ts[0] == t && ts[1..] == CompanionOrder[i + 1..];
      assert info[t].Absent? ==> Companions(info, data, ts) == Companions(info, data, CompanionOrder[i + 1..]);
      if info[t].At? {
        var payload := SearchData(data, t);
        if payload.None? {
          return Err(HeaderNotFound(t));
        }
        ghost var cb := ChunkBytes(t, info[t].size, payload.value);
        assert Companions(info, data, ts) == Then(cb, Companions(info, data, CompanionOrder[i + 1..]));
        ThenThen(file, cb, Companions(info, data, CompanionOrder[i + 1..]));
        ghost var before := file;
        file := file + TagBytes(t);
        file := file + Dword(info[t].size);
        file := file + payload.value;
        AppendChunk(before, t, info[t].size, payload.value);
      }
    }
    assert file + [] == file;
    return Ok(file);
  }

  /** Chunks whose size fields are their payload lengths, one after the
      other. */
  function Serial(ps: seq<(Tag, seq<Byte>)>): seq<Byte>
  {
    if |ps| == 0 then [] else ChunkBytes(ps[0].0, |ps[0].1|, ps[0].1) + Serial(ps[1..])
  }

  /** What the reader records for `Serial(ps)` written at `pos`. */
  function Expected(pos: nat, ps: seq<(Tag, seq<Byte>)>): seq<Chunk>
    decreases |ps|
  {
    if |ps| == 0 then [] else [Chunk(ps[0].0, pos + 8, |ps[0].1|, ps[0].1)] + Expected(pos + 8 + |ps[0].1|, ps[1..])
  }

  lemma SerialCons(ps: seq<(Tag, seq<Byte>)>)
    requires |ps| > 0
    ensures Serial(ps) == ChunkBytes(ps[0].0, |ps[0].1|, ps[0].1) + Serial(ps[1..])
  {
  }

  lemma ExpectedCons(pos: nat, ps: seq<(Tag, seq<Byte>)>)
    requires |ps| > 0
    ensures Expected(pos, ps) == [Chunk(ps[0].0, pos + 8, |ps[0].1|, ps[0].1)] + Expected(pos + 8 + |ps[0].1|, ps[1..])
  {
  }

  /** The companions `create_gmp` writes, with their payloads. */
  function Present(info: map<Tag, Location>, data: seq<(Tag, seq<Byte>)>, ts: seq<Tag>): seq<(Tag, seq<Byte>)>
    requires forall t :: t in ts ==> t in info
  {
    if |ts| == 0 then []
    else
      var t := ts[0];
      var rest := Present(info, data, ts[1..]);
      if info[t].Absent? || SearchData(data, t).None? then rest else [(t, SearchData(data, t).value)] + rest
  }

  /** Each tag `chunk_info` lists has a payload whose length is the recorded
      size and fits the 32-bit size field. */
  predicate SizesAgree(info: map<Tag, Location>, data: seq<(Tag, seq<Byte>)>, ts: seq<Tag>)
    requires forall t :: t in ts ==> t in info
  {
    forall t :: t in ts && info[t].At? ==>
      SearchData(data, t).Some? && info[t].size == |SearchData(data, t).value| < TwoTo32
  }

  lemma {:induction false} CompanionsSerial(info: map<Tag, Location>, data: seq<(Tag, seq<Byte>)>, ts: seq<Tag>)
    requires forall t :: t in ts ==> t in info
    requires SizesAgree(info, data, ts)
    ensures Companions(info, data, ts) == Ok(Serial(Present(info, data, ts)))
    ensures forall i :: 0 <= i < |Present(info, data, ts)| ==> |Present(info, data, ts)[i].1| < TwoTo32
    decreases |ts|
  {
    if |ts| > 0 {
      var t := ts[0];
      assert forall u :: u in ts[1..] ==> u in ts;
      CompanionsSerial(info, data, ts[1..]);
      if info[t].At? {
        var p := SearchData(data, t).value;
        var ps := [(t, p)] + Present(info, data, ts[1..]);
        assert ps[1..] == Present(info, data, ts[1..]);
      }
    }
  }

  /** Past the end of the file the reader's remaining rounds read nothing
      and record nothing. */
  lemma {:induction false} TailSkips(file: seq<Byte>, pos: nat, cur: nat)
    requires pos >= |file|
    ensures Chunks(file, pos, cur) == Ok([])
    decreases |file| - cur
  {
    if cur < |file| {
      assert Read(file, pos, 4) == [];
      TagOfSpec([]);
      assert NextRound(file, pos, cur) == Skip(After(file, pos, 4), cur + 4);
      TailSkips(file, After(file, pos, 4), cur + 4);
    }
  }

  /** Where the parts of a serialised chunk at `pos` lie in the file. */
  lemma ChunkSplit(file: seq<Byte>, pos: nat, t: Tag, p: seq<Byte>, rest: seq<Byte>)
    requires pos <= |file| && file[pos..] == ChunkBytes(t, |p|, p) + rest && |p| < TwoTo32
    ensures ChunkLaidOut(file, pos, t, p) && file[pos + 8 + |p|..] == rest
  {
    var s, c := file[pos..], ChunkBytes(t, |p|, p);
    assert file[pos..pos + 8 + |p|] == s[..|c|] == c;
    assert file[pos + 8 + |p|..] == s[|c|..] == rest;
  }

  /** The tag, the size field and the payload of a chunk laid out at `pos`. */
  lemma ChunkFields(file: seq<Byte>, pos: nat, t: Tag, p: seq<Byte>)
    requires ChunkLaidOut(file, pos, t, p)
    ensures file[pos..pos + 4] == TagBytes(t) && file[pos + 4..pos + 8] == Dword(|p|)
    ensures file[pos + 8..pos + 8 + |p|] == p
  {
    var c, tb, d := file[pos..pos + 8 + |p|], TagBytes(t), Dword(|p|);
    assert c == tb + d + p;
    ThreeParts(tb, d, p);
    SliceOfSlice(file, pos, pos + 8 + |p|, 0, 4);
    SliceOfSlice(file, pos, pos + 8 + |p|, 4, 8);
    SliceOfSlice(file, pos, pos + 8 + |p|, 8, 8 + |p|);
    assert c[..4] == c[0..4] && c[8..] == c[8..8 + |p|];
  }

  /** One serialised chunk at `pos` is read back as written. */
  lemma TakeSerial(file: seq<Byte>, pos: nat, cur: nat, t: Tag, p: seq<Byte>)
    requires ChunkLaidOut(file, pos, t, p) && cur <= pos
    ensures NextRound(file, pos, cur) == Take(Chunk(t, pos + 8, |p|, p), pos + 8 + |p|, cur + 4 + |p|)
  {
    ChunkFields(file, pos, t, p);
    assert Read(file, pos, 4) == TagBytes(t) && After(file, pos, 4) == pos + 4;
    assert Read(file, pos + 4, 4) == Dword(|p|) && After(file, pos + 4, 4) == pos + 8;
    assert Read(file, pos + 8, |p|) == p && After(file, pos + 8, |p|) == pos + 8 + |p|;
    RoundOfReads(file, pos, cur, t, p);
  }

  /** The round at `pos` when the reads there give a tag, a size field
      holding the payload length, and the payload. */
  lemma RoundOfReads(file: seq<Byte>, pos: nat, cur: nat, t: Tag, p: seq<Byte>)
    requires cur < |file| && |p| < TwoTo32
    requires Read(file, pos, 4) == TagBytes(t) && After(file, pos, 4) == pos + 4
    requires Read(file, pos + 4, 4) == Dword(|p|) && After(file, pos + 4, 4) == pos + 8
    requires Read(file, pos + 8, |p|) == p && After(file, pos + 8, |p|) == pos + 8 + |p|
    ensures NextRound(file, pos, cur) == Take(Chunk(t, pos + 8, |p|, p), pos + 8 + |p|, cur + 4 + |p|)
  {
    TagOfTag(t);
    DwordOfSmall(|p|);
  }

  lemma ChunksTake(file: seq<Byte>, pos: nat, cur: nat, c: Chunk, pos': nat, cur': nat,
                   rest: Result<seq<Chunk>, ParseError>)
    requires NextRound(file, pos, cur) == Take(c, pos', cur') && Chunks(file, pos', cur') == rest
    ensures Chunks(file, pos, cur) == Prepend(c, rest)
  {
  }

  /** Where the chunks of `Serial(ps)` lie when it is written at `pos`:
      for each, its tag, its size field and its payload, one after the
      other, and then the end of the file. */
  ghost predicate LaidOut(file: seq<Byte>, pos: nat, ps: seq<(Tag, seq<Byte>)>)
    decreases |ps|
  {
    if |ps| == 0 then pos >= |file|
    else
      && ChunkLaidOut(file, pos, ps[0].0, ps[0].1)
      && LaidOut(file, pos + 8 + |ps[0].1|, ps[1..])
  }

  /** One chunk with tag `t` and payload `p` at `pos`. */
  ghost predicate ChunkLaidOut(file: seq<Byte>, pos: nat, t: Tag, p: seq<Byte>)
  {
    && |p| < TwoTo32 && pos + 8 + |p| <= |file|
    && file[pos..pos + 8 + |p|] == ChunkBytes(t, |p|, p)
  }

  lemma TailBounds(ps: seq<(Tag, seq<Byte>)>)
    requires |ps| > 0 && forall i :: 0 <= i < |ps| ==> |ps[i].1| < TwoTo32
    ensures forall i :: 0 <= i < |ps[1..]| ==> |ps[1..][i].1| < TwoTo32
  {
    assert forall i :: 0 <= i < |ps[1..]| ==> ps[1..][i] == ps[i + 1];
  }

  /** A run of serialised chunks written at `pos` is laid out chunk by
      chunk. */
  lemma {:induction false} SerialLaidOut(file: seq<Byte>, pos: nat, ps: seq<(Tag, seq<Byte>)>)
    requires pos <= |file| && file[pos..] == Serial(ps)
    requires forall i :: 0 <= i < |ps| ==> |ps[i].1| < TwoTo32
    ensures LaidOut(file, pos, ps)
    decreases |ps|, 1
  {
    if |ps| > 0 {
      SerialHeadLaidOut(file, pos, ps);
    }
  }

  lemma {:induction false} SerialHeadLaidOut(file: seq<Byte>, pos: nat, ps: seq<(Tag, seq<Byte>)>)
    requires pos <= |file| && file[pos..] == Serial(ps) && |ps| > 0
    requires forall i :: 0 <= i < |ps| ==> |ps[i].1| < TwoTo32
    ensures LaidOut(file, pos, ps)
    decreases |ps|, 0
  {
    SerialHeadSplit(file, pos, ps);
    TailBounds(ps);
    SerialLaidOut(file, pos + 8 + |ps[0].1|, ps[1..]);
    LaidOutCons(file, pos, ps);
  }

  lemma SerialHeadSplit(file: seq<Byte>, pos: nat, ps: seq<(Tag, seq<Byte>)>)
    requires pos <= |file| && file[pos..] == Serial(ps) && |ps| > 0 && |ps[0].1| < TwoTo32
    ensures ChunkLaidOut(file, pos, ps[0].0, ps[0].1)
    ensures pos + 8 + |ps[0].1| <= |file| && file[pos + 8 + |ps[0].1|..] == Serial(ps[1..])
  {
    SerialCons(ps);
    ChunkSplit(file, pos, ps[0].0, ps[0].1, Serial(ps[1..]));
  }

  lemma LaidOutCons(file: seq<Byte>, pos: nat, ps: seq<(Tag, seq<Byte>)>)
    requires |ps| > 0 && ChunkLaidOut(file, pos, ps[0].0, ps[0].1)
    requires LaidOut(file, pos + 8 + |ps[0].1|, ps[1..])
    ensures LaidOut(file, pos, ps)
  {
  }

  /** The reader, started at a laid-out run with its counter at or behind
      the position, records exactly the chunks of the run. */
  lemma {:induction false} LaidOutRecorded(file: seq<Byte>, pos: nat, cur: nat, ps: seq<(Tag, seq<Byte>)>)
    requires LaidOut(file, pos, ps) && cur <= pos
    ensures Chunks(file, pos, cur) == Ok(Expected(pos, ps))
    decreases |ps|
  {
    if |ps| == 0 {
      TailSkips(file, pos, cur);
      assert Expected(pos, ps) == [];
    } else {
      LaidOutRecorded(file, pos + 8 + |ps[0].1|, cur + 4 + |ps[0].1|, ps[1..]);
      ConsRecorded(file, pos, cur, ps);
    }
  }

  lemma ConsRecorded(file: seq<Byte>, pos: nat, cur: nat, ps: seq<(Tag, seq<Byte>)>)
    requires |ps| > 0 && ChunkLaidOut(file, pos, ps[0].0, ps[0].1) && cur <= pos
    requires Chunks(file, pos + 8 + |ps[0].1|, cur + 4 + |ps[0].1|) == Ok(Expected(pos + 8 + |ps[0].1|, ps[1..]))
    ensures Chunks(file, pos, cur) == Ok(Expected(pos, ps))
  {
    HeadRecorded(file, pos, cur, ps[0].0, ps[0].1, Expected(pos + 8 + |ps[0].1|, ps[1..]));
    ExpectedCons(pos, ps);
  }

  /** A chunk laid out at `pos`, followed by rounds that record `tail`,
      is recorded ahead of `tail`. */
  lemma HeadRecorded(file: seq<Byte>, pos: nat, cur: nat, t: Tag, p: seq<Byte>, tail: seq<Chunk>)
    requires ChunkLaidOut(file, pos, t, p) && cur <= pos
    requires Chunks(file, pos + 8 + |p|, cur + 4 + |p|) == Ok(tail)
    ensures Chunks(file, pos, cur) == Ok([Chunk(t, pos + 8, |p|, p)] + tail)
  {
    TakeSerial(file, pos, cur, t, p);
    RecordedStep(file, pos, cur, Chunk(t, pos + 8, |p|, p), pos + 8 + |p|, cur + 4 + |p|,
                 tail, [Chunk(t, pos + 8, |p|, p)] + tail);
  }

  /** A round that takes chunk `c`, followed by rounds that record `rest`,
      records `c` and then `rest`. */
  lemma RecordedStep(file: seq<Byte>, pos: nat, cur: nat, c: Chunk, pos': nat, cur': nat,
                     rest: seq<Chunk>, all: seq<Chunk>)
    requires NextRound(file, pos, cur) == Take(c, pos', cur')
    requires Chunks(file, pos', cur') == Ok(rest) && all == [c] + rest
    ensures Chunks(file, pos, cur) == Ok(all)
  {
    ChunksTake(file, pos, cur, c, pos', cur', Ok(rest));
  }

  /** The reader, started at the first of a run of serialised chunks with
      its counter at or behind the position, records exactly those chunks. */
  lemma ParseSerial(file: seq<Byte>, pos: nat, cur: nat, ps: seq<(Tag, seq<Byte>)>)
    requires pos <= |file| && file[pos..] == Serial(ps) && cur <= pos
    requires forall i :: 0 <= i < |ps| ==> |ps[i].1| < TwoTo32
    ensures Chunks(file, pos, cur) == Ok(Expected(pos, ps))
  {
    SerialLaidOut(file, pos, ps);
    LaidOutRecorded(file, pos, cur, ps);
  }

  /** Reading back a file `create_gmp` wrote, with sizes that agree with
      the payloads, gives the `DMAP` chunk right after the header and then
      the copied companions, in order, each with its payload. */
  lemma {:induction false} GmpRoundTrip(dmap: DmapInfo, info: map<Tag, Location>, data: seq<(Tag, seq<Byte>)>)
    requires forall t :: t in CompanionOrder ==> t in info
    requires SizesAgree(info, data, CompanionOrder)
    requires dmap.size == |DmapBody(dmap)| < TwoTo32
    ensures GmpFile(dmap, info, data).Ok?
    ensures ParseSpec(GmpFile(dmap, info, data).value)
         == Ok(Expected(HeaderSize, [(DMAP, DmapBody(dmap))] + Present(info, data, CompanionOrder)))
  {
    CompanionsSerial(info, data, CompanionOrder);
    ConsBounds(DMAP, DmapBody(dmap), Present(info, data, CompanionOrder));
    assert GmpFile(dmap, info, data).value
        == FileHeader() + Serial([(DMAP, DmapBody(dmap))] + Present(info, data, CompanionOrder)) by {
      SerialCons([(DMAP, DmapBody(dmap))] + Present(info, data, CompanionOrder));
      assert ([(DMAP, DmapBody(dmap))] + Present(info, data, CompanionOrder))[1..] == Present(info, data, CompanionOrder);
    }
    SerialFileParses(GmpFile(dmap, info, data).value, [(DMAP, DmapBody(dmap))] + Present(info, data, CompanionOrder));
  }

  lemma ConsBounds(t: Tag, p: seq<Byte>, ps: seq<(Tag, seq<Byte>)>)
    requires |p| < TwoTo32 && forall i :: 0 <= i < |ps| ==> |ps[i].1| < TwoTo32
    ensures forall i :: 0 <= i < |[(t, p)] + ps| ==> |([(t, p)] + ps)[i].1| < TwoTo32
  {
    assert forall i :: 1 <= i < |[(t, p)] + ps| ==> ([(t, p)] + ps)[i] == ps[i - 1];
  }

  /** A file of the header followed by serialised chunks is read back as
      those chunks. */
  lemma SerialFileParses(file: seq<Byte>, ps: seq<(Tag, seq<Byte>)>)
    requires file == FileHeader() + Serial(ps)
    requires forall i :: 0 <= i < |ps| ==> |ps[i].1| < TwoTo32
    ensures ParseSpec(file) == Ok(Expected(HeaderSize, ps))
  {
    assert file[..4] == Signature;
    assert Read(file, 0, 4) == Signature;
    assert file[HeaderSize..] == Serial(ps);
    ParseSerial(file, HeaderSize, HeaderSize, ps);
  }
}
