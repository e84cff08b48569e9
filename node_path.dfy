/** The two JavaScript library functions the catalog filter relies on:
    Node's `path.extname` for a bare file name and `String.prototype.toLowerCase`
    on the ASCII letters. */
module NodePath {

  /** Index of the last occurrence of `c` in `s`, or -1 when `c` does not occur. */
  function LastIndexOf(s: string, c: char): (r: int)
    ensures -1 <= r < |s|
    ensures r == -1 <==> c !in s
    ensures r >= 0 ==> s[r] == c && c !in s[r + 1..]
  {
    if s == [] then -1
    else if s[|s| - 1] == c then |s| - 1
    else
      var r := LastIndexOf(s[..|s| - 1], c);
      assert s == s[..|s| - 1] + [s[|s| - 1]];
      assert r >= 0 ==> s[r + 1..] == s[..|s| - 1][r + 1..] + [s[|s| - 1]];
      r
  }

  /** Node's `path.extname` for a name without path separators: the text from
      the last `.` to the end, or "" when there is no `.`, when the last `.` is
      the first character (a hidden file such as ".bashrc"), or when the name
      is exactly "..". */
  function ExtName(name: string): (r: string)
    ensures r != "" ==> 0 < |name| - |r| && r == name[|name| - |r|..] && r[0] == '.' && '.' !in r[1..]
    ensures r == "" <==> '.' !in name || name == ".." || (name[0] == '.' && '.' !in name[1..])
  {
    var dot := LastIndexOf(name, '.');
    assert dot > 0 ==> name[dot] == name[1..][dot - 1];
    if dot <= 0 || name == ".." then "" else name[dot..]
  }

  /** `toLowerCase` on one character: the ASCII capitals map to their small
      letters, every other character is kept. */
  function LowerChar(c: char): (r: char)
    ensures r == '.' <==> c == '.'
    ensures 'A' <= c <= 'Z' ==> r as int == c as int + 32
    ensures !('A' <= c <= 'Z') ==> r == c
  {
    if 'A' <= c <= 'Z' then (c as int + 32) as char else c
  }

  /** `String.prototype.toLowerCase`, character by character. */
  function ToLower(s: string): (r: string)
    ensures |r| == |s|
    ensures forall i | 0 <= i < |s| :: r[i] == LowerChar(s[i])
  {
    if s == [] then [] else [LowerChar(s[0])] + ToLower(s[1..])
  }

  /** Lower-casing moves no dot, so the last dot of a name is found at the
      same index before and after lower-casing. */
  lemma {:induction false} LastDotOfLower(s: string)
    ensures LastIndexOf(ToLower(s), '.') == LastIndexOf(s, '.')
  {
    if s != [] {
      var t := ToLower(s);
      assert t[..|t| - 1] == ToLower(s[..|s| - 1]);
      LastDotOfLower(s[..|s| - 1]);
    }
  }

  /** `extname` commutes with `toLowerCase`: the extension of the lower-cased
      name is the lower-cased extension. */
  lemma ExtNameOfLower(s: string)
    ensures ExtName(ToLower(s)) == ToLower(ExtName(s))
  {
    LastDotOfLower(s);
    var dot := LastIndexOf(s, '.');
    if s == ".." {
      assert ToLower(s) == "..";
    } else if dot > 0 {
      assert ToLower(s)[dot..] == ToLower(s[dot..]);
    }
  }
}
