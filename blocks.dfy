/** Block (cell) records: `is_slope` and the PSX-to-PC slope lid fix-up of
    compress_gmp.py. A record is normally 12 bytes (four side words, the lid
    word at bytes 8-9, and a type/slope byte closing it); the functions
    follow Python's negative indexing and slicing for any non-empty one. */
module Blocks {
  import opened Bytes

  const RecordSize: nat := 12

  /** `EMPTY_BLOCK_DATA`: the all-zero record. */
  const EmptyRecord: seq<Byte> := [0, 0, 0, 0, 0, 0, 0, 0, 0, 0, 0, 0]

  /** Python's `s[i:j]` for 0 <= i <= j. */
  function Slice(s: seq<Byte>, i: nat, j: nat): (r: seq<Byte>)
    requires i <= j
    ensures j <= |s| ==> r == s[i..j]
  {
    if i >= |s| then [] else s[i..if j <= |s| then j else |s|]
  }

  /** The slope shape code: the closing byte without its 2 type bits. */
  function SlopeCode(b: seq<Byte>): (c: nat)
    requires |b| > 0
    ensures c < 64
  {
    b[|b| - 1] / 4
  }

  /** The 16-bit lid word, `int.from_bytes(block_data[8:10], 'little')`. */
  function Lid(b: seq<Byte>): nat
  {
    LittleEndian(Slice(b, 8, 10))
  }

  /** `is_slope`: the slope code is neither 0 nor above 60. */
  predicate IsSlope(b: seq<Byte>)
    requires |b| > 0
  {
    SlopeCode(b) != 0 && SlopeCode(b) <= 60
  }

  /** The records `fix_psx_slope` rewrites: a three-sided slope (codes
      49..52) whose lid tile index (the low 10 bits) is 384. */
  predicate NeedsSlopeFix(b: seq<Byte>)
    requires |b| > 0
  {
    49 <= SlopeCode(b) <= 52 && Lid(b) % 1024 == 384
  }

  /** `fix_psx_slope`: sets the ten tile bits of the lid of such a record
      (`lid | 1023`) and rebuilds it as `b[:8] + lid bytes + b[10:]`. */
  function FixPsxSlope(b: seq<Byte>): seq<Byte>
    requires |b| > 0
  {
    if NeedsSlopeFix(b) then
      var lid := Lid(b) / 1024 * 1024 + 1023;
      LidBytesInRange(b);
      Slice(b, 0, 8) + [lid % 256, lid / 256] + b[if |b| < 10 then |b| else 10..]
    else b
  }

  lemma LidBytesInRange(b: seq<Byte>)
    ensures Lid(b) < 65536
    ensures 0 <= (Lid(b) / 1024 * 1024 + 1023) / 256 < 256
  {
    var s := Slice(b, 8, 10);
    assert |s| <= 2;
    if |s| == 2 {
      assert LittleEndian(s[1..][1..]) == 0;
    } else if |s| == 1 {
      assert LittleEndian(s[1..]) == 0;
    }
  }

  /** A lid with tile index 384 needs both lid bytes: such a record has at
      least 10 bytes. */
  lemma FixNeedsFullLid(b: seq<Byte>)
    requires |b| > 0 && NeedsSlopeFix(b)
    ensures |b| >= 10
  {
    LidOfShort(b);
  }

  /** A record shorter than 10 bytes has at most one lid byte. */
  lemma LidOfShort(b: seq<Byte>)
    ensures |b| < 10 ==> Lid(b) < 256
  {
    var s := Slice(b, 8, 10);
    if |b| < 10 {
      assert |s| <= 1;
      if |s| == 1 { assert LittleEndian(s[1..]) == 0; }
    }
  }

  lemma LidOfFull(b: seq<Byte>)
    requires |b| >= 10
    ensures Lid(b) == b[8] as int + 256 * (b[9] as int)
  {
    var s := Slice(b, 8, 10);
    assert s == [b[8], b[9]];
    assert s[1..] == [b[9]];
    assert LittleEndian(s[1..][1..]) == 0;
    assert LittleEndian(s[1..]) == b[9] as int;
  }

  /** What `fix_psx_slope` does: a record that does not need the fix comes
      back unchanged; one that does keeps its length and every byte but the
      lid, and its lid gets tile index 1023 with the upper six bits (the
      filter, flat, flip and rotation fields) kept. */
  lemma {:induction false} FixPsxSlopeSpec(b: seq<Byte>)
    requires |b| > 0
    ensures |FixPsxSlope(b)| == |b|
    ensures !NeedsSlopeFix(b) ==> FixPsxSlope(b) == b
    ensures NeedsSlopeFix(b) ==>
              var r := FixPsxSlope(b);
              && |b| >= 10
              && r[..8] == b[..8] && r[10..] == b[10..]
              && Lid(r) % 1024 == 1023
              && Lid(r) / 1024 == Lid(b) / 1024
  {
    if NeedsSlopeFix(b) {
      FixNeedsFullLid(b);
      LidBytesInRange(b);
      var lid := Lid(b) / 1024 * 1024 + 1023;
      var r := FixPsxSlope(b);
      assert r == b[..8] + [lid % 256, lid / 256] + b[10..];
      assert r[8] == lid % 256 && r[9] == lid / 256;
      LidOfFull(r);
      assert Lid(r) == lid;
    }
  }

  /** A fixed record has tile index 1023, so a second fix changes nothing. */
  lemma {:induction false} FixPsxSlopeIdempotent(b: seq<Byte>)
    requires |b| > 0
    ensures FixPsxSlope(FixPsxSlope(b)) == FixPsxSlope(b)
  {
    FixPsxSlopeSpec(b);
    if NeedsSlopeFix(b) {
      var r := FixPsxSlope(b);
      assert !NeedsSlopeFix(r);
    }
  }

  /** Only slopes are fixed: a record outside the codes 49..52, and so every
      non-slope record, is left as it is. */
  lemma FixPsxSlopeOnlySlopes(b: seq<Byte>)
    requires |b| > 0
    requires !IsSlope(b) || SlopeCode(b) < 49 || SlopeCode(b) > 52
    ensures FixPsxSlope(b) == b
  {
  }
}
