/** String operations shared by the text transforms. */
module Text {

  /** Replaces every occurrence of `pattern`, scanning left to right without overlaps. */
  function ReplaceAll(s: string, pattern: string, replacement: string): string
    requires pattern != ""
    decreases |s|
  {
    if s == "" then ""
    else if pattern <= s then replacement + ReplaceAll(s[|pattern|..], pattern, replacement)
    else [s[0]] + ReplaceAll(s[1..], pattern, replacement)
  }

  /** The least index at which `pattern` occurs in s, or |s| when it does not. */
  function Find(s: string, pattern: string): (i: nat)
    requires pattern != ""
    ensures i <= |s|
    ensures i < |s| ==> pattern <= s[i..]
    ensures forall j :: 0 <= j < i ==> !(pattern <= s[j..])
    decreases |s|
  {
    if s == "" || pattern <= s then 0
    else
      var i := Find(s[1..], pattern);
      assert forall j :: 0 < j <= |s| ==> s[j..] == s[1..][j - 1..];
      1 + i
  }

  /** The greatest index of c in s, or |s| when it does not occur. */
  function FindLast(s: string, c: char): (i: nat)
    ensures i <= |s|
    ensures i < |s| ==> s[i] == c
    ensures forall j :: 0 <= j < |s| && s[j] == c ==> j <= i < |s|
    decreases |s|
  {
    if s == "" then 0
    else if s[|s| - 1] == c then |s| - 1
    else
      var i := FindLast(s[..|s| - 1], c);
      if i == |s| - 1 then |s| else i
  }
}
