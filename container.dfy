/** The GBMP container of compress_gmp.py: `detect_headers_and_get_chunks`
    (the tagged-chunk reader), `search_data`, and the bookkeeping of
    `chunk_info`. The file is an in-memory byte string. */
module Container {
  import opened Bytes

  /** The chunk tags the reader recognises. */
  datatype Tag = UMAP | CMAP | DMAP | ZONE | MOBJ | PSXM | ANIM | LGHT | EDIT | THSR | RGEN

  /** The four ASCII letters of a tag. */
  function TagBytes(t: Tag): (r: seq<Byte>)
    ensures |r| == 4 && IsAscii(r)
  {
    match t
    case UMAP => [85, 77, 65, 80]
    case CMAP => [67, 77, 65, 80]
    case DMAP => [68, 77, 65, 80]
    case ZONE => [90, 79, 78, 69]
    case MOBJ => [77, 79, 66, 74]
    case PSXM => [80, 83, 88, 77]
    case ANIM => [65, 78, 73, 77]
    case LGHT => [76, 71, 72, 84]
    case EDIT => [69, 68, 73, 84]
    case THSR => [84, 72, 83, 82]
    case RGEN => [82, 71, 69, 78]
  }

  /** The file signature "GBMP". */
  const Signature: seq<Byte> := [71, 66, 77, 80]

  /** The header before the first chunk: signature and 2-byte version. */
  const HeaderSize: nat := 6

  lemma TagBytesInjective(s: Tag, t: Tag)
    requires TagBytes(s) == TagBytes(t)
    ensures s == t
  {
  }

  /** The tag spelled by four bytes, if any: the reader's membership test
      on the keys of `chunk_info`. */
  function TagOf(bs: seq<Byte>): Option<Tag>
  {
    if |bs| != 4 then None else TagOfBytes(bs[0], bs[1], bs[2], bs[3])
  }

  function TagOfBytes(a: Byte, b: Byte, c: Byte, d: Byte): Option<Tag>
  {
    if a == 85 && b == 77 && c == 65 && d == 80 then Some(UMAP)
    else if a == 67 && b == 77 && c == 65 && d == 80 then Some(CMAP)
    else if a == 68 && b == 77 && c == 65 && d == 80 then Some(DMAP)
    else if a == 90 && b == 79 && c == 78 && d == 69 then Some(ZONE)
    else if a == 77 && b == 79 && c == 66 && d == 74 then Some(MOBJ)
    else if a == 80 && b == 83 && c == 88 && d == 77 then Some(PSXM)
    else if a == 65 && b == 78 && c == 73 && d == 77 then Some(ANIM)
    else if a == 76 && b == 71 && c == 72 && d == 84 then Some(LGHT)
    else if a == 69 && b == 68 && c == 73 && d == 84 then Some(EDIT)
    else if a == 84 && b == 72 && c == 83 && d == 82 then Some(THSR)
    else if a == 82 && b == 71 && c == 69 && d == 78 then Some(RGEN)
    else None
  }

  /** `TagOf` recognises exactly the eleven tags. */
  lemma TagOfSpec(bs: seq<Byte>)
    ensures TagOf(bs).Some? ==> TagBytes(TagOf(bs).value) == bs
    ensures TagOf(bs).None? ==> forall t :: TagBytes(t) != bs
  {
  }

  /** Each tag is read back as itself. */
  lemma TagOfTag(t: Tag)
    ensures TagOf(TagBytes(t)) == Some(t)
  {
    TagOfSpec(TagBytes(t));
    var r := TagOf(TagBytes(t));
    if r.Some? {
      TagBytesInjective(r.value, t);
    }
  }

  /** `bytes.decode('ascii')` succeeds. */
  predicate IsAscii(bs: seq<Byte>)
  {
    forall i :: 0 <= i < |bs| ==> bs[i] < 128
  }

  /** `sys.exit` on a wrong signature, and the UnicodeDecodeError that a
      4-byte read holding a non-ASCII byte raises. */
  datatype ParseError = NotAGmpFile | NonAsciiTag(pos: nat)

  /** One recognised chunk: its tag, the payload offset and size recorded
      in `chunk_info`, and the payload appended to `data_array`. */
  datatype Chunk = Chunk(tag: Tag, offset: nat, size: nat, data: seq<Byte>)

  /** An entry of `chunk_info`: `[None, None]` or `[offset, size]`. */
  datatype Location = Absent | At(offset: nat, size: nat)

  /** What one round of the reader's loop does at file position `pos` with
      loop counter `cur`. The counter adds 4 for every tag and the payload
      size for a recognised chunk, but not the 4 bytes of the size field, so
      it trails the file position by 4 per chunk; the extra rounds this
      causes read nothing at the end of the file. */
  datatype Round = Stop | Fail(error: ParseError) | Skip(pos: nat, cur: nat) | Take(chunk: Chunk, pos: nat, cur: nat)

  function NextRound(file: seq<Byte>, pos: nat, cur: nat): (r: Round)
    ensures r.Stop? <==> cur >= |file|
    ensures r.Skip? ==> r.cur == cur + 4
    ensures r.Take? ==> r.cur == cur + 4 + r.chunk.size
    ensures r.Fail? <==> cur < |file| && !IsAscii(Read(file, pos, 4))
    ensures r.Fail? ==> r.error == NonAsciiTag(pos)
  {
    if cur >= |file| then Stop
    else
      var tag := Read(file, pos, 4);
      var pos1 := After(file, pos, 4);
      if !IsAscii(tag) then Fail(NonAsciiTag(pos))
      else match TagOf(tag)
        case None => Skip(pos1, cur + 4)
        case Some(t) =>
          var size := LittleEndian(Read(file, pos1, 4));
          var pos2 := After(file, pos1, 4);
          Take(Chunk(t, pos1 + 4, size, Read(file, pos2, size)), After(file, pos2, size), cur + 4 + size)
  }

  /** The chunks the loop records from file position `pos` and counter
      `cur` on, or the error that stops it. */
  function Chunks(file: seq<Byte>, pos: nat, cur: nat): Result<seq<Chunk>, ParseError>
    decreases |file| - cur
  {
    match NextRound(file, pos, cur)
    case Stop => Ok([])
    case Fail(e) => Err(e)
    case Skip(p, c) => Chunks(file, p, c)
    case Take(ch, p, c) => Prepend(ch, Chunks(file, p, c))
  }

  /** The chunks of a file whose first chunk is at `start`. */
  function ChunksFrom(file: seq<Byte>, start: nat): Result<seq<Chunk>, ParseError>
  {
    Chunks(file, start, start)
  }

  function Prepend(c: Chunk, r: Result<seq<Chunk>, ParseError>): Result<seq<Chunk>, ParseError>
  {
    if r.Ok? then Ok([c] + r.value) else r
  }

  /** The whole reader: the signature check, then the chunks after the
      6-byte header. */
  function ParseSpec(file: seq<Byte>): (r: Result<seq<Chunk>, ParseError>)
    ensures Read(file, 0, 4) != Signature ==> r.Err?
    ensures !IsAscii(Read(file, 0, 4)) ==> r == Err(NonAsciiTag(0))
    ensures IsAscii(Read(file, 0, 4)) && Read(file, 0, 4) != Signature ==> r == Err(NotAGmpFile)
  {
    var sig := Read(file, 0, 4);
    if !IsAscii(sig) then Err(NonAsciiTag(0))
    else if sig != Signature then Err(NotAGmpFile)
    else ChunksFrom(file, HeaderSize)
  }

  /** `chunk_info` as the reader creates it: every tag `[None, None]`. */
  const NoChunks: map<Tag, Location> := map[UMAP := Absent, CMAP := Absent, DMAP := Absent,
    ZONE := Absent, MOBJ := Absent, PSXM := Absent, ANIM := Absent, LGHT := Absent,
    EDIT := Absent, THSR := Absent, RGEN := Absent]

  lemma NoChunksTotal()
    ensures forall t :: t in NoChunks
  {
    forall t: Tag ensures t in NoChunks {
      match t
      case UMAP => case CMAP => case DMAP => case ZONE => case MOBJ => case PSXM =>
      case ANIM => case LGHT => case EDIT => case THSR => case RGEN =>
    }
  }

  lemma InfoStep(cs: seq<Chunk>, c: Chunk)
    ensures InfoOf(cs + [c]) == InfoOf(cs)[c.tag := At(c.offset, c.size)]
    ensures Payloads(cs + [c]) == Payloads(cs) + [(c.tag, c.data)]
  {
    assert (cs + [c])[..|cs|] == cs;
  }

  /** `chunk_info` after the chunks `cs`: every tag starts `Absent` and
      each chunk overwrites its tag's entry. */
  function InfoOf(cs: seq<Chunk>): (m: map<Tag, Location>)
    ensures forall t :: t in m
  {
    if |cs| == 0 then NoChunksTotal(); NoChunks
    else
      var c := cs[|cs| - 1];
      InfoOf(cs[..|cs| - 1])[c.tag := At(c.offset, c.size)]
  }

  /** `data_array`: (tag, payload) pairs in file order. */
  function Payloads(cs: seq<Chunk>): (ds: seq<(Tag, seq<Byte>)>)
    ensures |ds| == |cs|
    ensures forall i :: 0 <= i < |cs| ==> ds[i] == (cs[i].tag, cs[i].data)
  {
    seq(|cs|, i requires 0 <= i < |cs| => (cs[i].tag, cs[i].data))
  }

  datatype Parsed = Parsed(info: map<Tag, Location>, data: seq<(Tag, seq<Byte>)>)

  /** `detect_headers_and_get_chunks` over the bytes of a file. */
  method DetectHeadersAndGetChunks(file: seq<Byte>) returns (res: Result<Parsed, ParseError>)
    ensures ParseSpec(file).Err? ==> res == Err(ParseSpec(file).error)
    ensures ParseSpec(file).Ok? ==>
              res == Ok(Parsed(InfoOf(ParseSpec(file).value), Payloads(ParseSpec(file).value)))
  {
    var signature := Read(file, 0, 4);
    if !IsAscii(signature) {
      return Err(NonAsciiTag(0));
    }
    if signature != Signature {
      return Err(NotAGmpFile);
    }
    res := ReadChunks(file, HeaderSize);
  }

  /** The chunk loop of `detect_headers_and_get_chunks`, from the first
      chunk at `start`. */
  method ReadChunks(file: seq<Byte>, start: nat) returns (res: Result<Parsed, ParseError>)
    ensures ChunksFrom(file, start).Err? ==> res == Err(ChunksFrom(file, start).error)
    ensures ChunksFrom(file, start).Ok? ==>
              res == Ok(Parsed(InfoOf(ChunksFrom(file, start).value),
                               Payloads(ChunksFrom(file, start).value)))
  {
    var info: map<Tag, Location> := NoChunks;
    var data: seq<(Tag, seq<Byte>)> := [];
    ghost var found: seq<Chunk> := [];
    var pos: nat := start;
    var cur: nat := start;
    ghost var whole := ChunksFrom(file, start);
    assert PrependAll(found, Chunks(file, pos, cur)) == whole by {
      var r := Chunks(file, pos, cur);
      if r.Ok? { assert found + r.value == r.value; }
    }
    while cur < |file|
      invariant whole == PrependAll(found, Chunks(file, pos, cur))
      invariant info == InfoOf(found) && data == Payloads(found)
      decreases |file| - cur
    {
      var round := ReadRound(file, pos, cur);
      match round
      case Stop =>
        assert false;
      case Fail(e) =>
        return Err(e);
      case Skip(p, c) =>
        pos, cur := p, c;
      case Take(ch, p, c) =>
        PrependAllStep(found, ch, Chunks(file, p, c));
        InfoStep(found, ch);
        info := info[ch.tag := At(ch.offset, ch.size)];
        data := data + [(ch.tag, ch.data)];
        found := found + [ch];
        pos, cur := p, c;
    }
    assert found + [] == found;
    return Ok(Parsed(info, data));
  }

  /** One pass of the reader's loop body at position `pos`: the tag, and
      for a recognised one the size field and the payload. */
  method ReadRound(file: seq<Byte>, pos: nat, cur: nat) returns (r: Round)
    requires cur < |file|
    ensures r == NextRound(file, pos, cur)
  {
    var tag := Read(file, pos, 4);
    var pos1 := After(file, pos, 4);
    if !IsAscii(tag) {
      return Fail(NonAsciiTag(pos));
    }
    var recognised := TagOf(tag);
    if recognised.None? {
      return Skip(pos1, cur + 4);
    }
    var size := LittleEndian(Read(file, pos1, 4));
    var pos2 := After(file, pos1, 4);
    var payload := Read(file, pos2, size);
    r := Take(Chunk(recognised.value, pos1 + 4, size, payload), After(file, pos2, size), cur + 4 + size);
  }

  function PrependAll(cs: seq<Chunk>, r: Result<seq<Chunk>, ParseError>): Result<seq<Chunk>, ParseError>
  {
    if r.Ok? then Ok(cs + r.value) else r
  }

  lemma PrependAllStep(cs: seq<Chunk>, c: Chunk, r: Result<seq<Chunk>, ParseError>)
    ensures PrependAll(cs, Prepend(c, r)) == PrependAll(cs + [c], r)
  {
    if r.Ok? { assert cs + ([c] + r.value) == (cs + [c]) + r.value; }
  }

  /** What a recognised chunk records: its four tag bytes lie just before
      the size field, the payload offset is the tag position plus 8, the
      size is the little-endian u32 after the tag, and the payload is what
      the file holds there (cut short at the end of the file). */
  ghost predicate ChunkAt(file: seq<Byte>, c: Chunk)
  {
    && 8 <= c.offset <= |file| + 4
    && c.offset - 4 <= |file|
    && file[c.offset - 8..c.offset - 4] == TagBytes(c.tag)
    && c.size == LittleEndian(Read(file, c.offset - 4, 4))
    && c.data == Read(file, c.offset, c.size)
  }

  /** The chunk a round takes lies where `ChunkAt` says, 8 bytes or more
      after the round's position, and the next round starts after its
      payload (or at the end of the file). */
  lemma TakeAt(file: seq<Byte>, pos: nat, cur: nat)
    requires pos <= |file|
    requires NextRound(file, pos, cur).Take?
    ensures var r := NextRound(file, pos, cur);
      && ChunkAt(file, r.chunk) && r.chunk.offset == pos + 8
      && r.pos <= |file|
      && (r.pos == |file| || r.pos >= r.chunk.offset + r.chunk.size)
  {
    var r := NextRound(file, pos, cur);
    var tag := Read(file, pos, 4);
    TagOfSpec(tag);
    assert |tag| == 4;
    var size := r.chunk.size;
    var pos2 := After(file, pos + 4, 4);
    if pos2 != pos + 8 {
      assert pos2 == |file|;
      assert Read(file, pos2, size) == [] && Read(file, pos + 8, size) == [];
    }
  }

  /** Every chunk the reader reports is where `ChunkAt` says, at or after
      `pos + 8`, and each starts after the previous one's payload. */
  lemma {:induction false} ChunksAreInFile(file: seq<Byte>, pos: nat, cur: nat)
    requires pos <= |file|
    requires Chunks(file, pos, cur).Ok?
    ensures var cs := Chunks(file, pos, cur).value;
      && (forall i :: 0 <= i < |cs| ==> ChunkAt(file, cs[i]) && cs[i].offset >= pos + 8)
      && (forall i :: 0 < i < |cs| ==> cs[i].offset >= cs[i - 1].offset + cs[i - 1].size + 8)
    decreases |file| - cur
  {
    var r := NextRound(file, pos, cur);
    match r
    case Stop =>
    case Skip(p, c) =>
      assert p <= |file|;
      ChunksAreInFile(file, p, c);
    case Take(ch, p, c) =>
      TakeAt(file, pos, cur);
      ChunksAreInFile(file, p, c);
      var rest := Chunks(file, p, c).value;
      var cs := Chunks(file, pos, cur).value;
      assert cs == [ch] + rest;
      assert forall i :: 0 < i < |cs| ==> cs[i] == rest[i - 1];
  }

  /** The index of the last chunk with tag `t`, or -1. */
  function LastWith(cs: seq<Chunk>, t: Tag): (i: int)
    ensures -1 <= i < |cs|
    ensures i >= 0 ==> cs[i].tag == t
    ensures forall j :: i < j < |cs| ==> cs[j].tag != t
  {
    if |cs| == 0 then -1
    else if cs[|cs| - 1].tag == t then |cs| - 1
    else LastWith(cs[..|cs| - 1], t)
  }

  /** The index of the first chunk with tag `t`, or -1. */
  function FirstWith(cs: seq<Chunk>, t: Tag): (i: int)
    ensures -1 <= i < |cs|
    ensures i >= 0 ==> cs[i].tag == t
    ensures forall j :: 0 <= j < |cs| && (i < 0 || j < i) ==> cs[j].tag != t
  {
    if |cs| == 0 then -1
    else if cs[0].tag == t then 0
    else
      var i := FirstWith(cs[1..], t);
      assert forall j :: 1 <= j < |cs| ==> cs[j] == cs[1..][j - 1];
      if i < 0 then -1 else i + 1
  }

  /** `chunk_info` keeps the last chunk of each tag, and `Absent` for a tag
      no chunk has. */
  lemma {:induction false} InfoOfIsLast(cs: seq<Chunk>, t: Tag)
    ensures var i := LastWith(cs, t);
      InfoOf(cs)[t] == if i < 0 then Absent else At(cs[i].offset, cs[i].size)
    decreases |cs|
  {
    if |cs| > 0 {
      var n := |cs| - 1;
      var p := cs[..n];
      InfoOfIsLast(p, t);
      assert InfoOf(cs) == InfoOf(p)[cs[n].tag := At(cs[n].offset, cs[n].size)];
      if cs[n].tag != t {
        assert InfoOf(cs)[t] == InfoOf(p)[t];
        assert LastWith(cs, t) == LastWith(p, t);
        var i := LastWith(p, t);
        if i >= 0 { assert cs[i] == p[i]; }
      }
    }
  }

  /** `search_data`: the payload of the first pair with the tag; the source
      raises when there is none, which is `None` here. */
  function SearchData(data: seq<(Tag, seq<Byte>)>, t: Tag): (r: Option<seq<Byte>>)
    ensures r.None? <==> forall i :: 0 <= i < |data| ==> data[i].0 != t
    ensures r.Some? ==>
              exists i :: 0 <= i < |data| && data[i] == (t, r.value)
                && forall j :: 0 <= j < i ==> data[j].0 != t
  {
    if |data| == 0 then None
    else if data[0].0 == t then
      assert data[0] == (t, data[0].1);
      Some(data[0].1)
    else
      var r := SearchData(data[1..], t);
      assert forall i :: 1 <= i < |data| ==> data[1..][i - 1] == data[i];
      if r.Some? then
        var i :| 0 <= i < |data[1..]| && data[1..][i] == (t, r.value)
                && forall j :: 0 <= j < i ==> data[1..][j].0 != t;
        assert data[i + 1] == (t, r.value);
        r
      else r
  }

  /** `search_data` returns the payload of the first chunk of a tag. */
  lemma {:induction false} SearchDataIsFirst(cs: seq<Chunk>, t: Tag)
    ensures var i := FirstWith(cs, t);
      SearchData(Payloads(cs), t) == if i < 0 then None else Some(cs[i].data)
    decreases |cs|
  {
    var ds := Payloads(cs);
    var i := FirstWith(cs, t);
    if i < 0 {
      assert forall k :: 0 <= k < |ds| ==> ds[k].0 != t;
    } else {
      assert ds[i].0 == t;
      var r := SearchData(ds, t);
      var k :| 0 <= k < |ds| && ds[k] == (t, r.value) && forall j :: 0 <= j < k ==> ds[j].0 != t;
      assert k == i;
    }
  }

  /** For a tag present in the file, `chunk_info` and `search_data` agree
      only when the tag occurs once: the size recorded comes from its last
      chunk and the payload from its first. */
  lemma RepeatedTagDisagree(cs: seq<Chunk>, t: Tag)
    requires InfoOf(cs)[t].At?
    ensures 0 <= FirstWith(cs, t) <= LastWith(cs, t)
    ensures SearchData(Payloads(cs), t) == Some(cs[FirstWith(cs, t)].data)
    ensures InfoOf(cs)[t] == At(cs[LastWith(cs, t)].offset, cs[LastWith(cs, t)].size)
  {
    InfoOfIsLast(cs, t);
    SearchDataIsFirst(cs, t);
  }
}
