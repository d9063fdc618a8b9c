/** `get_filename`: the map name between the last backslash and the last
    dot of a path, with Python's `rfind` and slice semantics. */
module FileNames {

  /** `s.rfind(c)`: the last index holding `c`, or -1. */
  function RFind(s: string, c: char): (i: int)
    ensures -1 <= i < |s|
    ensures i >= 0 ==> s[i] == c
    ensures forall k :: i < k < |s| ==> s[k] != c
  {
    if |s| == 0 then -1
    else if s[|s| - 1] == c then |s| - 1
    else RFind(s[..|s| - 1], c)
  }

  /** Python's `s[i:j]`: a negative bound counts from the end, then both are
      clamped to the string, and an empty range gives "". */
  function PySlice(s: string, i: int, j: int): string
  {
    var lo := Clamp(if i < 0 then i + |s| else i, |s|);
    var hi := Clamp(if j < 0 then j + |s| else j, |s|);
    if lo < hi then s[lo..hi] else ""
  }

  function Clamp(k: int, n: nat): (r: nat)
    ensures r <= n
  {
    if k < 0 then 0 else if k > n then n else k
  }

  /** With a dot after the last backslash the name is exactly the
      characters between the two; with the last dot inside the directory
      part it is empty; without any dot, `s[i:-1]` drops the path's final
      character. */
  function GetFilename(path: string): (name: string)
    ensures var b := RFind(path, '\\'); var d := RFind(path, '.');
      && (d > b ==> name == path[b + 1..d])
      && (0 <= d < b ==> name == "")
      && (d == -1 && b + 1 < |path| - 1 ==> name == path[b + 1..|path| - 1])
      && (d == -1 && b + 1 >= |path| - 1 ==> name == "")
  {
    var b := RFind(path, '\\');
    var d := RFind(path, '.');
    assert d >= 0 && b >= 0 ==> d != b by {
      if d >= 0 && b >= 0 { assert path[d] != path[b]; }
    }
    NameSlice(path, b, d);
    PySlice(path, b + 1, d)
  }

  /** `s[b + 1:d]` for the two `rfind` results `b` and `d`, case by case. */
  lemma NameSlice(s: string, b: int, d: int)
    requires -1 <= b < |s| && -1 <= d < |s| && (d >= 0 && b >= 0 ==> d != b)
    ensures d > b ==> PySlice(s, b + 1, d) == s[b + 1..d]
    ensures 0 <= d < b ==> PySlice(s, b + 1, d) == ""
    ensures d == -1 && b + 1 < |s| - 1 ==> PySlice(s, b + 1, d) == s[b + 1..|s| - 1]
    ensures d == -1 && b + 1 >= |s| - 1 ==> PySlice(s, b + 1, d) == ""
  {
    var lo := Clamp(b + 1, |s|);
    assert lo == b + 1;
    if d >= 0 {
      assert Clamp(d, |s|) == d;
    } else {
      assert d + |s| == |s| - 1;
      if |s| > 0 {
        assert Clamp(d + |s|, |s|) == |s| - 1;
      }
    }
  }

  /** The name never contains a backslash. */
  lemma {:induction false} GetFilenameHasNoBackslash(path: string)
    ensures forall k :: 0 <= k < |GetFilename(path)| ==> GetFilename(path)[k] != '\\'
  {
    var b := RFind(path, '\\');
    var d := RFind(path, '.');
    var r := GetFilename(path);
    if r != "" {
      var lo := Clamp(b + 1, |path|);
      var hi := Clamp(if d < 0 then d + |path| else d, |path|);
      assert r == path[lo..hi];
      forall k | 0 <= k < |r| ensures r[k] != '\\' {
        assert r[k] == path[lo + k];
      }
    }
  }
}
