/** Stripping, as Python's `str.strip()` does it, and occurrences of one string in another. */
module Text {
  /** What `str.strip()` removes. */
  predicate Whitespace(c: char) {
    || '\t' <= c <= '\r'
    || '\U{1C}' <= c <= ' '
    || c == '\U{85}' || c == '\U{A0}' || c == '\U{1680}'
    || '\U{2000}' <= c <= '\U{200A}'
    || c == '\U{2028}' || c == '\U{2029}' || c == '\U{202F}' || c == '\U{205F}' || c == '\U{3000}'
  }

  function StripLeft(s: string): (r: string)
    ensures r == "" || !Whitespace(r[0])
    ensures s != "" && !Whitespace(s[0]) ==> r == s
    ensures s != "" && !Whitespace(s[|s| - 1]) ==> r != "" && r[|r| - 1] == s[|s| - 1]
  {
    if s != "" && Whitespace(s[0]) then StripLeft(s[1..]) else s
  }

  function StripRight(s: string): (r: string)
    ensures r == "" || !Whitespace(r[|r| - 1])
    ensures r <= s
    ensures s != "" && !Whitespace(s[|s| - 1]) ==> r == s
  {
    if s != "" && Whitespace(s[|s| - 1]) then StripRight(s[..|s| - 1]) else s
  }

  function Strip(s: string): string { StripRight(StripLeft(s)) }

  predicate OccursAt(s: string, t: string, i: nat) { i + |t| <= |s| && s[i..i + |t|] == t }

  ghost predicate Contains(x: string, s: string) {
    exists i: nat :: OccursAt(x, s, i)
  }

  predicate Blank(s: string) { forall i :: 0 <= i < |s| ==> Whitespace(s[i]) }

  lemma {:induction false} StripLeftMeans(s: string) returns (left: string)
    ensures s == left + StripLeft(s) && Blank(left)
  {
    if s != "" && Whitespace(s[0]) {
      var rest := StripLeftMeans(s[1..]);
      left := [s[0]] + rest;
      assert s == [s[0]] + s[1..];
    } else {
      left := "";
    }
  }

  lemma {:induction false} StripRightMeans(s: string)
    ensures |StripRight(s)| <= |s| && s == StripRight(s) + s[|StripRight(s)|..]
    ensures Blank(s[|StripRight(s)|..])
  {
    if s != "" && Whitespace(s[|s| - 1]) {
      var n := |s| - 1;
      StripRightMeans(s[..n]);
      assert s[|StripRight(s)|..] == s[..n][|StripRight(s)|..] + [s[n]];
    }
  }

  /** Stripping takes whitespace off both ends, and all of it. */
  lemma StripMeans(s: string) returns (left: string, right: string)
    ensures s == left + Strip(s) + right && Blank(left) && Blank(right)
    ensures Strip(s) != "" ==> !Whitespace(Strip(s)[0]) && !Whitespace(Strip(s)[|Strip(s)| - 1])
  {
    var t := StripLeft(s);
    left := StripLeftMeans(s);
    StripRightMeans(t);
    right := t[|Strip(s)|..];
    if Strip(s) != "" { assert Strip(s)[0] == t[0]; }
  }
}
