/** Clamping a text to a byte budget: encode, cut, decode with errors ignored.
    UTF-8 as in section 3 of RFC 3629. */
module Utf8Clamp {
  type Byte = b: int | 0 <= b < 256

  const OBLIGATION_TEXT_CAP_BYTES: nat := 65536

  function EncodeChar(c: char): (r: seq<Byte>)
    ensures 1 <= |r| <= 4
  {
    var v := c as int;
    // The groups of six bits, from the right.
    var v1 := v / 64;
    var v2 := v1 / 64;
    if v < 0x80 then [v]
    else if v < 0x800 then [0xC0 + v1, 0x80 + v % 64]
    else if v < 0x10000 then [0xE0 + v2, 0x80 + v1 % 64, 0x80 + v % 64]
    else [0xF0 + v2 / 64, 0x80 + v2 % 64, 0x80 + v1 % 64, 0x80 + v % 64]
  }

  function Encode(s: string): seq<Byte> {
    if s == "" then [] else EncodeChar(s[0]) + Encode(s[1..])
  }

  predicate Cont(b: Byte) { 0x80 <= b < 0xC0 }

  /** How many bytes a well-formed sequence at the front of `b` takes; 0 if there is none. */
  function WellFormedLength(b: seq<Byte>): (n: nat)
    ensures n <= |b| && n <= 4
  {
    if b == [] then 0
    else if b[0] < 0x80 then 1
    else if 0xC2 <= b[0] < 0xE0 then (if |b| >= 2 && Cont(b[1]) then 2 else 0)
    else if 0xE0 <= b[0] < 0xF0 then
      (if |b| >= 3 && Cont(b[1]) && Cont(b[2]) &&
          (b[0] == 0xE0 ==> 0xA0 <= b[1]) && (b[0] == 0xED ==> b[1] < 0xA0)
       then 3 else 0)
    else if 0xF0 <= b[0] < 0xF5 then
      (if |b| >= 4 && Cont(b[1]) && Cont(b[2]) && Cont(b[3]) &&
          (b[0] == 0xF0 ==> 0x90 <= b[1]) && (b[0] == 0xF4 ==> b[1] < 0x90)
       then 4 else 0)
    else 0
  }

  function Value(b: seq<Byte>): (v: int)
    requires WellFormedLength(b) > 0
    ensures 0 <= v < 0xD800 || 0xE000 <= v < 0x11_0000
  {
    var n := WellFormedLength(b);
    var lead: int := b[0];
    if n == 1 then lead
    else
      var b1: int := b[1];
      if n == 2 then (lead - 0xC0) * 64 + (b1 - 0x80)
      else
        var b2: int := b[2];
        if n == 3 then ((lead - 0xE0) * 64 + (b1 - 0x80)) * 64 + (b2 - 0x80)
        else
          var b3: int := b[3];
          (((lead - 0xF0) * 64 + (b1 - 0x80)) * 64 + (b2 - 0x80)) * 64 + (b3 - 0x80)
  }

  /** `bytes.decode("utf-8", errors="ignore")`: bytes that start no well-formed sequence are
      dropped one by one. */
  function DecodeIgnore(b: seq<Byte>): string
    decreases |b|
  {
    if b == [] then ""
    else
      var n := WellFormedLength(b);
      if n == 0 then DecodeIgnore(b[1..])
      else [Value(b) as char] + DecodeIgnore(b[n..])
  }

  function Clamp(text: string, cap: nat): (string, bool) {
    var encoded := Encode(text);
    if |encoded| <= cap then (text, false) else (DecodeIgnore(encoded[..cap]), true)
  }

  function ClampObligationText(text: string): (string, bool) { Clamp(text, OBLIGATION_TEXT_CAP_BYTES) }

  lemma EncodeCharWellFormed(c: char, rest: seq<Byte>)
    ensures WellFormedLength(EncodeChar(c) + rest) == |EncodeChar(c)|
    ensures Value(EncodeChar(c) + rest) == c as int
  {
    var v := c as int;
    var e := EncodeChar(c);
    var b := e + rest;
    assert forall i :: 0 <= i < |e| ==> b[i] == e[i];
  }

  lemma DecodeOne(c: char, rest: seq<Byte>)
    ensures DecodeIgnore(EncodeChar(c) + rest) == [c] + DecodeIgnore(rest)
  {
    EncodeCharWellFormed(c, rest);
    assert (EncodeChar(c) + rest)[|EncodeChar(c)|..] == rest;
  }

  lemma PartialVanishes(c: char, n: nat)
    requires n < |EncodeChar(c)|
    ensures DecodeIgnore(EncodeChar(c)[..n]) == ""
  {
    var b := EncodeChar(c)[..n];
    if n > 0 {
      assert DecodeIgnore(b) == DecodeIgnore(b[1..]);
      if n > 1 {
        assert DecodeIgnore(b[1..]) == DecodeIgnore(b[1..][1..]);
        if n > 2 { assert DecodeIgnore(b[1..][1..]) == DecodeIgnore(b[1..][1..][1..]); }
      }
    }
  }

  lemma {:induction false} RoundTrip(s: string)
    ensures DecodeIgnore(Encode(s)) == s
  {
    if s != "" {
      DecodeOne(s[0], Encode(s[1..]));
      RoundTrip(s[1..]);
    }
  }

  /** `k` is the largest number of characters whose encoding fits. */
  ghost predicate LongestFit(s: string, cap: nat, k: nat) {
    k <= |s| && |Encode(s[..k])| <= cap && (k == |s| || cap < |Encode(s[..k + 1])|)
  }

  lemma {:induction false} CutKeepsLongestFit(s: string, cap: nat) returns (k: nat)
    requires cap < |Encode(s)|
    ensures k < |s| && LongestFit(s, cap, k) && DecodeIgnore(Encode(s)[..cap]) == s[..k]
    decreases |s|
  {
    var head := EncodeChar(s[0]);
    if cap < |head| {
      k := 0;
      assert Encode(s)[..cap] == head[..cap];
      PartialVanishes(s[0], cap);
      assert s[..1][1..] == "";
    } else {
      var k' := CutKeepsLongestFit(s[1..], cap - |head|);
      k := k' + 1;
      assert Encode(s) == head + Encode(s[1..]);
      assert Encode(s)[..cap] == head + Encode(s[1..])[..cap - |head|];
      DecodeOne(s[0], Encode(s[1..])[..cap - |head|]);
      assert s[..k][1..] == s[1..][..k'] && s[..k + 1][1..] == s[1..][..k' + 1];
      assert s[..k] == [s[0]] + s[1..][..k'];
    }
  }

  lemma {:induction false} PrefixesGrow(s: string, i: nat, k: nat)
    requires i <= k <= |s|
    ensures |Encode(s[..i])| <= |Encode(s[..k])|
    decreases |s|
  {
    if i > 0 {
      assert s[..i][1..] == s[1..][..i - 1] && s[..k][1..] == s[1..][..k - 1];
      PrefixesGrow(s[1..], i - 1, k - 1);
    }
  }

  /** For every text and budget the result is the longest prefix, in whole characters, whose
      encoding fits, and the flag is set exactly when something was dropped. */
  lemma ClampIsLongestPrefix(text: string, cap: nat)
    ensures
      var (r, truncated) := Clamp(text, cap);
      && r <= text
      && |Encode(r)| <= cap
      && (forall k :: 0 <= k <= |text| && |Encode(text[..k])| <= cap ==> k <= |r|)
      && (truncated <==> r != text)
  {
    var r := Clamp(text, cap).0;
    if cap < |Encode(text)| {
      var k := CutKeepsLongestFit(text, cap);
      assert r == text[..k];
      forall i | 0 <= i <= |text| && |Encode(text[..i])| <= cap ensures i <= k {
        if i > k { PrefixesGrow(text, k + 1, i); }
      }
    }
    assert text[..|text|] == text;
  }

  /** At the cap of obligation texts: what is shown never takes more than 64 KiB, texts that fit
      come back whole, and of the others as many whole characters as fit. */
  lemma ObligationTextFits(text: string)
    ensures
      var (r, truncated) := ClampObligationText(text);
      && r <= text && |Encode(r)| <= 64 * 1024
      && (truncated <==> |Encode(text)| > 64 * 1024)
      && (truncated ==> |r| < |text| && |Encode(text[..|r| + 1])| > 64 * 1024)
  {
    ClampIsLongestPrefix(text, OBLIGATION_TEXT_CAP_BYTES);
    assert text[..|text|] == text;
  }

  /** The lengths of section 3 of RFC 3629, and its first bytes. */
  lemma EncodedForm(c: char)
    ensures
      var v, e := c as int, EncodeChar(c);
      if v <= 0x7F then e == [v]
      else if v <= 0x7FF then |e| == 2 && 0xC2 <= e[0] <= 0xDF
      else if v <= 0xFFFF then |e| == 3 && 0xE0 <= e[0] <= 0xEF
      else |e| == 4 && 0xF0 <= e[0] <= 0xF4
    ensures forall i :: 1 <= i < |EncodeChar(c)| ==> 0x80 <= EncodeChar(c)[i] <= 0xBF
    ensures |EncodeChar(c)| == 3 ==>
      var e := EncodeChar(c);
      c as int == (e[0] as int - 0xE0) * 4096 + (e[1] as int - 0x80) * 64 + (e[2] as int - 0x80)
    ensures |EncodeChar(c)| == 2 ==>
      c as int == (EncodeChar(c)[0] as int - 0xC0) * 64 + (EncodeChar(c)[1] as int - 0x80)
    ensures |EncodeChar(c)| == 4 ==>
      var e := EncodeChar(c);
      c as int == (e[0] as int - 0xF0) * 262144 + (e[1] as int - 0x80) * 4096 + (e[2] as int - 0x80) * 64 +
                  (e[3] as int - 0x80)
  {
  }
}
