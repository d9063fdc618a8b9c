/** Byte-level helpers shared by the whole converter: the little-endian
    integer writers of compress_gmp.py, their reader, Python's clamped
    file reads over an in-memory file, and concatenation of byte strings. */
module Bytes {

  type Byte = x: int | 0 <= x < 256

  const TwoTo32: int := 0x1_0000_0000

  /** Python's `int.from_bytes(bs, 'little')`: the first byte is the least
      significant one; the empty string reads as 0. For strings of at most
      one byte this is also what the default (big-endian) order gives. */
  function LittleEndian(bs: seq<Byte>): nat
  {
    if |bs| == 0 then 0 else bs[0] as int + 256 * LittleEndian(bs[1..])
  }

  /** `convert_int_to_dword`: the four low bytes of `n`, lowest first.
      Python's `>>` and `%` floor, which is what Dafny's `/` and `%` do for a
      positive divisor, so this is exact for negative `n` too. */
  function Dword(n: int): (r: seq<Byte>)
    ensures |r| == 4
  {
    [n % 256, (n / 256) % 256, (n / 65536) % 256, (n / 16777216) % 256]
  }

  /** `convert_int_to_word`: the high byte is `n // 256` without a
      reduction, so `bytes(...)` raises ValueError unless 0 <= n < 65536;
      that failure is `None` here. */
  function Word(n: int): (r: Option<seq<Byte>>)
    ensures r.Some? <==> 0 <= n < 65536
    ensures r.Some? ==> |r.value| == 2 && LittleEndian(r.value) == n
  {
    if 0 <= n / 256 < 256 then
      var r := [n % 256, n / 256];
      assert LittleEndian(r[1..]) == n / 256 by {
        assert LittleEndian(r[1..][1..]) == 0;
      }
      Some(r)
    else None
  }

  datatype Option<T> = None | Some(value: T)

  datatype Result<T, E> = Ok(value: T) | Err(error: E)

  lemma DivBy256Twice(n: int)
    ensures n / 256 / 256 == n / 65536
    ensures n / 65536 / 256 == n / 16777216
  {
  }

  lemma LittleEndianOfFour(bs: seq<Byte>)
    requires |bs| == 4
    ensures LittleEndian(bs) == bs[0] as int + 256 * (bs[1] as int) + 65536 * (bs[2] as int) + 16777216 * (bs[3] as int)
  {
    var t1 := bs[1..];
    var t2 := t1[1..];
    var t3 := t2[1..];
    assert LittleEndian(t3[1..]) == 0;
    assert LittleEndian(t3) == bs[3] as int;
    assert LittleEndian(t2) == bs[2] as int + 256 * (bs[3] as int);
    assert LittleEndian(t1) == bs[1] as int + 256 * LittleEndian(t2);
  }

  /** Reading back a written dword gives the integer modulo 2^32: the
      writer keeps exactly the low 32 bits. */
  lemma {:induction false} DwordRoundTrip(n: int)
    ensures LittleEndian(Dword(n)) == n % TwoTo32
  {
    LittleEndianOfFour(Dword(n));
    DivBy256Twice(n);
    var q1 := n / 256;
    var q2 := n / 65536;
    var q3 := n / 16777216;
    assert q2 == q1 / 256;
    assert q3 == q2 / 256;
    var s := n % 256 + 256 * (q1 % 256) + 65536 * (q2 % 256) + 16777216 * (q3 % 256);
    assert n == 256 * q1 + n % 256;
    assert q1 == 256 * q2 + q1 % 256;
    assert q2 == 256 * q3 + q2 % 256;
    assert q3 == 256 * (q3 / 256) + q3 % 256;
    assert n == TwoTo32 * (q3 / 256) + s;
    assert 0 <= s < TwoTo32;
  }

  /** A dword below 2^32 reads back as itself. */
  lemma DwordOfSmall(n: int)
    requires 0 <= n < TwoTo32
    ensures LittleEndian(Dword(n)) == n
  {
    DwordRoundTrip(n);
    assert n / TwoTo32 == 0;
    assert n % TwoTo32 == n;
  }

  /** Python's `file.seek(off); file.read(n)` on a file holding `file`: the
      bytes from `off`, at most `n` of them, none past the end. */
  function Read(file: seq<Byte>, off: nat, n: nat): (r: seq<Byte>)
    ensures |r| <= n
    ensures off + n <= |file| ==> r == file[off..off + n]
    ensures off >= |file| ==> r == []
  {
    if off >= |file| then [] else file[off..if off + n <= |file| then off + n else |file|]
  }

  /** The file position after that read. */
  function After(file: seq<Byte>, off: nat, n: nat): (p: nat)
    ensures off + n <= |file| ==> p == off + n
  {
    if off + n <= |file| then off + n else if off <= |file| then |file| else off
  }

  /** Byte strings joined in order, as repeated `+=` on `bytes` does. */
  function Concat(ss: seq<seq<Byte>>): seq<Byte>
  {
    if |ss| == 0 then [] else Concat(ss[..|ss| - 1]) + ss[|ss| - 1]
  }

  lemma {:induction false} ConcatAppend(ss: seq<seq<Byte>>, t: seq<seq<Byte>>)
    ensures Concat(ss + t) == Concat(ss) + Concat(t)
    decreases |t|
  {
    if |t| == 0 {
      assert ss + t == ss;
    } else {
      var init := t[..|t| - 1];
      var last := t[|t| - 1];
      assert (ss + t)[..|ss + t| - 1] == ss + init;
      assert (ss + t)[|ss + t| - 1] == last;
      ConcatAppend(ss, init);
      assert Concat(ss + t) == Concat(ss + init) + last;
      assert Concat(t) == Concat(init) + last;
    }
  }

  /** One more string joined onto a prefix. */
  lemma ConcatStep(ss: seq<seq<Byte>>, k: nat)
    requires k < |ss|
    ensures Concat(ss[..k + 1]) == Concat(ss[..k]) + ss[k]
  {
    assert ss[..k + 1][..k] == ss[..k];
  }

  lemma ConcatSingle(s: seq<Byte>)
    ensures Concat([s]) == s
  {
    assert [s][..0] == [];
  }

  /** Joining `n` strings of a common length `k` gives `k * n` bytes. */
  lemma {:induction false} ConcatLength(ss: seq<seq<Byte>>, k: nat)
    requires forall j :: 0 <= j < |ss| ==> |ss[j]| == k
    ensures |Concat(ss)| == k * |ss|
  {
    if |ss| > 0 {
      ConcatUniform(ss, k, 0);
    }
  }

  /** Joining strings of a common length `k` puts string `i` at `k * i`. */
  lemma {:induction false} ConcatUniform(ss: seq<seq<Byte>>, k: nat, i: nat)
    requires forall j :: 0 <= j < |ss| ==> |ss[j]| == k
    requires i < |ss|
    ensures |Concat(ss)| == k * |ss|
    ensures k * i + k <= k * |ss|
    ensures Concat(ss)[k * i..k * i + k] == ss[i]
    decreases |ss|
  {
    var n := |ss| - 1;
    var init := ss[..n];
    if i < n {
      ConcatUniform(init, k, i);
    } else if n > 0 {
      ConcatUniform(init, k, 0);
    }
    assert |Concat(init)| == k * n by {
      if n == 0 { } else { ConcatUniform(init, k, 0); }
    }
    assert Concat(ss) == Concat(init) + ss[n];
    MulBound(k, i, |ss|);
    if i < n {
      MulBound(k, i, n);
    }
  }

  lemma {:induction false} MulBound(k: nat, i: nat, n: nat)
    requires i < n
    ensures k * i + k <= k * n
    decreases n
  {
    assert k * n == k * (n - 1) + k;
    if i < n - 1 {
      MulBound(k, i, n - 1);
    }
  }

  /** The joined strings around string `k`. */
  lemma ConcatAround(cs: seq<seq<Byte>>, k: nat)
    requires k < |cs|
    ensures Concat(cs) == Concat(cs[..k]) + (cs[k] + Concat(cs[k + 1..]))
  {
    var before := cs[..k];
    var one := [cs[k]];
    var rest := cs[k + 1..];
    var tail := one + rest;
    assert cs == before + cs[k..];
    assert cs[k..] == tail;
    ConcatAppend(before, tail);
    ConcatAppend(one, rest);
    ConcatSingle(cs[k]);
    assert Concat(tail) == cs[k] + Concat(rest);
  }

  /** The three parts of a string joined from three. */
  lemma ThreeParts(a: seq<Byte>, b: seq<Byte>, c: seq<Byte>)
    ensures (a + b + c)[..|a|] == a && (a + b + c)[|a|..|a| + |b|] == b && (a + b + c)[|a| + |b|..] == c
  {
    var s := a + b + c;
    assert s[..|a| + |b|] == a + b;
    assert s[|a|..|a| + |b|] == (a + b)[|a|..];
  }

  /** A slice of a slice is a slice of the whole. */
  lemma SliceOfSlice(s: seq<Byte>, i: nat, j: nat, k: nat, l: nat)
    requires i <= j <= |s| && k <= l <= j - i
    ensures s[i..j][k..l] == s[i + k..i + l]
  {
    assert forall n :: 0 <= n < l - k ==> s[i..j][k..l][n] == s[i + k + n];
  }
}
