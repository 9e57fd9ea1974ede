/**
 The string operations the handlers lean on: `str.lower`, `str.endswith`,
 `str.rfind` and `os.path.splitext` on a name without directory separators.
 */
module Text {

  /** Lower-cases an ASCII capital letter; every other character is kept. */
  function LowerChar(ch: char): (r: char)
    ensures 'A' <= ch <= 'Z' ==> 'a' <= r <= 'z' && r as int - ch as int == 32
    ensures !('A' <= ch <= 'Z') ==> r == ch
  {
    if 'A' <= ch <= 'Z' then (ch as int + 32) as char else ch
  }

  /** `s.lower()` restricted to ASCII case folding. */
  function Lower(s: string): (r: string)
    ensures |r| == |s|
    ensures forall i :: 0 <= i < |s| ==> r[i] == LowerChar(s[i])
    ensures forall i :: 0 <= i < |r| ==> !('A' <= r[i] <= 'Z')
  {
    seq(|s|, i requires 0 <= i < |s| => LowerChar(s[i]))
  }

  /** Lower-casing twice is lower-casing once. */
  lemma LowerIdempotent(s: string)
    ensures Lower(Lower(s)) == Lower(s)
  {
  }

  /** `s.endswith(suffix)`. */
  predicate EndsWith(s: string, suffix: string) {
    |suffix| <= |s| && s[|s| - |suffix|..] == suffix
  }

  /** `s.startswith(prefix)`. */
  predicate StartsWith(s: string, prefix: string) {
    |prefix| <= |s| && s[..|prefix|] == prefix
  }

  /** `s.rfind(c)`: the last index holding `c`, or -1 when there is none. */
  function RFind(s: string, c: char): (r: int)
    ensures -1 <= r < |s|
    ensures r >= 0 ==> s[r] == c
    ensures forall j :: r < j < |s| ==> s[j] != c
    decreases |s|
  {
    if |s| == 0 then -1
    else if s[|s| - 1] == c then |s| - 1
    else
      var init := s[..|s| - 1];
      assert forall j :: 0 <= j < |init| ==> init[j] == s[j];
      RFind(init, c)
  }

  /**
   `os.path.splitext` on a name with no separator: the extension runs from
   the last dot to the end, unless every character before that dot is a dot
   too (a leading dot starts a hidden name, not an extension), in which case
   the extension is empty.
   */
  function SplitExt(p: string): (r: (string, string))
    ensures r.0 + r.1 == p
    ensures r.1 != [] ==> r.1[0] == '.' && '.' !in r.1[1..]
    ensures r.1 != [] <==> exists i, j :: 0 <= j < i < |p| && p[j] != '.' && p[i] == '.'
  {
    var d := RFind(p, '.');
    if d >= 0 && exists j :: 0 <= j < d && p[j] != '.' then
      assert p[..d] + p[d..] == p;
      assert forall k :: 0 <= k < |p[d..]| - 1 ==> p[d..][1..][k] == p[d + 1 + k];
      (p[..d], p[d..])
    else
      (p, [])
  }

  /**
   Appending a dot and a dot-free extension to a name that has a non-dot
   character splits back into the name and that extension.
   */
  lemma SplitExtAppend(root: string, ext: string)
    requires exists j :: 0 <= j < |root| && root[j] != '.'
    requires '.' !in ext
    ensures SplitExt(root + "." + ext) == (root, "." + ext)
  {
    var p := root + "." + ext;
    var j :| 0 <= j < |root| && root[j] != '.';
    assert p[j] != '.';
    var d := RFind(p, '.');
    assert d >= |root| by {
      assert p[|root|] == '.';
    }
    assert forall k :: |root| < k < |p| ==> p[k] == ext[k - |root| - 1];
    assert p[..d] == root && p[d..] == "." + ext;
  }
}
