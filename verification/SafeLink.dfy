/** Notification links: strip, validate against the safe-path rule, reject `..` segments, then
    truncate to the column width. */
module SafeLink {
  import opened Options
  import opened Text

  const LINK_MAX: nat := 512
  const ELLIPSIS: char := '\U{2026}'

  /** A character the link pattern allows after the leading slash. */
  predicate Allowed(c: char) {
    !('\0' <= c <= '\U{1F}') && c != '\U{7F}' && c != '\\' && c != '?' && c != '#'
  }

  /** The link pattern, matched against the whole string: a slash, not followed by a slash or a
      backslash, then allowed characters only. */
  predicate SafePath(s: string) {
    && s != "" && s[0] == '/'
    && (|s| > 1 ==> s[1] != '/' && s[1] != '\\')
    && forall i :: 1 <= i < |s| ==> Allowed(s[i])
  }

  /** `split("/")`. */
  function Segments(s: string): (r: seq<string>)
    ensures |r| > 0
  {
    if s == "" then [""]
    else
      var rest := Segments(s[1..]);
      if s[0] == '/' then [""] + rest else [[s[0]] + rest[0]] + rest[1..]
  }

  predicate HasDotDot(s: string) { ".." in Segments(s) }

  function ValidateLink(link: Option<string>): Option<string> {
    if link.None? then None
    else
      var candidate := Strip(link.value);
      if candidate == "" || !SafePath(candidate) then None
      else if HasDotDot(candidate) then None
      else Some(candidate)
  }

  function Truncate(value: string, maxLen: nat): string
    requires maxLen > 0
  {
    if |value| <= maxLen then value else value[..maxLen - 1] + [ELLIPSIS]
  }

  function SafeLinkOf(link: Option<string>): Option<string> {
    match ValidateLink(link)
    case None => None
    case Some(cleaned) => Some(Truncate(cleaned, LINK_MAX))
  }

  // ----- `..` segments by position -----

  predicate SegmentStart(s: string, i: nat) { i == 0 || (i <= |s| && s[i - 1] == '/') }

  predicate DotDotAt(s: string, i: nat) {
    && i + 2 <= |s| && SegmentStart(s, i)
    && s[i] == '.' && s[i + 1] == '.' && (i + 2 == |s| || s[i + 2] == '/')
  }

  lemma {:induction false} FirstSegment(s: string)
    ensures Segments(s)[0] <= s && '/' !in Segments(s)[0]
    ensures |Segments(s)[0]| == |s| || s[|Segments(s)[0]|] == '/'
  {
    if s != "" {
      FirstSegment(s[1..]);
      assert s == [s[0]] + s[1..];
    }
  }

  lemma DotDotShifts(s: string, i: nat)
    requires s != "" && i > 0
    ensures DotDotAt(s, i) <==> if i == 1 then s[0] == '/' && DotDotAt(s[1..], 0) else DotDotAt(s[1..], i - 1)
  {
  }

  ghost predicate LaterDotDot(s: string) { exists i: nat :: i > 0 && DotDotAt(s, i) }

  lemma LaterDotDotShifts(s: string)
    requires s != ""
    ensures LaterDotDot(s) <==> (s[0] == '/' && DotDotAt(s[1..], 0)) || LaterDotDot(s[1..])
  {
    if i: nat :| i > 0 && DotDotAt(s, i) { DotDotShifts(s, i); }
    if i: nat :| i > 0 && DotDotAt(s[1..], i) { DotDotShifts(s, i + 1); }
    DotDotShifts(s, 1);
  }

  /** The first segment aside, the `..` segments are those that start after a slash. */
  lemma {:induction false} LaterDotDots(s: string)
    ensures ".." in Segments(s)[1..] <==> LaterDotDot(s)
  {
    if s != "" {
      LaterDotDots(s[1..]);
      LaterDotDotShifts(s);
      FirstDotDot(s[1..]);
      var rest := Segments(s[1..]);
      assert rest == [rest[0]] + rest[1..];
      assert Segments(s)[1..] == if s[0] == '/' then rest else rest[1..];
    }
  }

  lemma FirstDotDot(s: string)
    ensures Segments(s)[0] == ".." <==> DotDotAt(s, 0)
  {
    FirstSegment(s);
    var first := Segments(s)[0];
    assert first == s[..|first|];
    if DotDotAt(s, 0) { assert first == s[..2] == ".."; }
  }

  lemma DotDotByPosition(s: string)
    ensures HasDotDot(s) <==> exists i: nat :: DotDotAt(s, i)
  {
    FirstDotDot(s);
    LaterDotDots(s);
    var segments := Segments(s);
    assert segments == [segments[0]] + segments[1..];
    if i: nat :| DotDotAt(s, i) { assert i == 0 || LaterDotDot(s); }
  }

  // ----- Truncation keeps what validation established -----

  lemma TruncatedStaysSafe(s: string, maxLen: nat)
    requires SafePath(s) && !HasDotDot(s) && !Whitespace(s[|s| - 1]) && maxLen >= 2
    ensures
      var t := Truncate(s, maxLen);
      SafePath(t) && !HasDotDot(t) && Strip(t) == t && |t| <= maxLen
  {
    var t := Truncate(s, maxLen);
    DotDotByPosition(s);
    DotDotByPosition(t);
    forall i: nat ensures !DotDotAt(t, i) {
      if DotDotAt(t, i) { assert DotDotAt(s, i); }
    }
    assert !Whitespace(t[0]) && !Whitespace(t[|t| - 1]);
  }

  /** Every link that is kept is at most 512 characters, is a safe path without `..` segments,
      and comes back unchanged when it is checked again; idempotence follows. */
  lemma SafeLinkIsStable(link: Option<string>)
    ensures
      var r := SafeLinkOf(link);
      && (r.Some? ==> |r.value| <= 512 && SafePath(r.value) && !HasDotDot(r.value) && ValidateLink(r) == r)
      && SafeLinkOf(r) == r
  {
    var cleaned := ValidateLink(link);
    if cleaned.Some? {
      TruncatedStaysSafe(cleaned.value, LINK_MAX);
    }
  }

  /** Validation rejects exactly the texts whose stripped form is no safe path or climbs. */
  lemma RejectedIff(link: string)
    ensures SafeLinkOf(Some(link)).None? <==>
      !SafePath(Strip(link)) || exists i: nat :: DotDotAt(Strip(link), i)
  {
    DotDotByPosition(Strip(link));
  }

  /** The character rule spelt out: no control character, no backslash, no query and no fragment. */
  predicate Plain(c: char) { c >= ' ' && c != '\U{7F}' && c != '\\' && c != '?' && c != '#' }

  ghost predicate Climbs(s: string) { exists i: nat :: DotDotAt(s, i) }

  /** A text is kept if and only if, stripped, it starts with exactly one slash that no backslash
      follows, holds plain characters only, and no segment is two dots; what is kept is the stripped
      text, cut to 511 characters and an ellipsis when it is longer than 512. */
  lemma KeptLinkIff(link: string)
    ensures
      var s := Strip(link);
      SafeLinkOf(Some(link)) ==
        if && s != "" && s[0] == '/' && (|s| > 1 ==> s[1] != '/')
           && (forall i :: 0 <= i < |s| ==> Plain(s[i]))
           && !Climbs(s)
        then Some(if |s| <= 512 then s else s[..511] + "\U{2026}")
        else None
    ensures SafeLinkOf(None) == None
  {
    var s := Strip(link);
    DotDotByPosition(s);
    forall c ensures Allowed(c) <==> Plain(c) { assert c >= '\0'; }
    if s != "" && s[0] == '/' && (forall i :: 1 <= i < |s| ==> Plain(s[i])) {
      assert forall i :: 0 <= i < |s| ==> Plain(s[i]);
    }
  }
}
