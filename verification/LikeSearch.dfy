/** Escaping user input for LIKE, against a LIKE matcher (section 8.5 of ISO/IEC 9075-2) with
    backslash as the escape character. */
module LikeSearch {
  import opened Text

  predicate IsMeta(c: char) { c == '\\' || c == '%' || c == '_' }

  /** `core.sql_safety.escape_like`: one pass, a backslash before every metacharacter. */
  function EscapeLike(s: string): string {
    if s == "" then "" else (if IsMeta(s[0]) then ['\\', s[0]] else [s[0]]) + EscapeLike(s[1..])
  }

  /** `str.replace` for a one-character pattern. */
  function Replace(s: string, c: char, sub: string): string {
    if s == "" then "" else (if s[0] == c then sub else [s[0]]) + Replace(s[1..], c, sub)
  }

  /** The audit search escapes with three chained replacements. */
  function AuditEscape(s: string): string {
    Replace(Replace(Replace(s, '\\', "\\\\"), '%', "\\%"), '_', "\\_")
  }

  /** A pattern that ends in a bare escape character matches nothing. */
  predicate Like(x: string, p: string)
    decreases |x| + |p|
  {
    if p == "" then x == ""
    else if p[0] == '%' then Like(x, p[1..]) || (x != "" && Like(x[1..], p))
    else if p[0] == '_' then x != "" && Like(x[1..], p[1..])
    else if p[0] == '\\' then |p| >= 2 && x != "" && x[0] == p[1] && Like(x[1..], p[2..])
    else x != "" && x[0] == p[0] && Like(x[1..], p[1..])
  }

  // ----- Escaped searches -----

  lemma LikeEscaped(x: string, c: char, q: string)
    ensures Like(x, ['\\', c] + q) <==> x != "" && x[0] == c && Like(x[1..], q)
  {
    assert (['\\', c] + q)[2..] == q;
  }

  lemma LikeLiteral(x: string, c: char, q: string)
    requires !IsMeta(c)
    ensures Like(x, [c] + q) <==> x != "" && x[0] == c && Like(x[1..], q)
  {
    assert ([c] + q)[1..] == q;
  }

  /** One escaped character at the front of a pattern stands for itself. */
  lemma EscapedHead(x: string, s: string, q: string)
    requires s != ""
    ensures Like(x, EscapeLike(s) + q) <==> x != "" && x[0] == s[0] && Like(x[1..], EscapeLike(s[1..]) + q)
  {
    var rest := EscapeLike(s[1..]) + q;
    if IsMeta(s[0]) {
      assert EscapeLike(s) + q == ['\\', s[0]] + rest;
      LikeEscaped(x, s[0], rest);
    } else {
      assert EscapeLike(s) + q == [s[0]] + rest;
      LikeLiteral(x, s[0], rest);
    }
  }

  lemma {:induction false} EscapedIsLiteral(x: string, s: string, q: string)
    ensures Like(x, EscapeLike(s) + q) <==> |s| <= |x| && x[..|s|] == s && Like(x[|s|..], q)
    decreases |s|
  {
    if s == "" {
      assert EscapeLike(s) + q == q && x[0..] == x;
    } else {
      EscapedHead(x, s, q);
      if x != "" {
        EscapedIsLiteral(x[1..], s[1..], q);
        if |s| <= |x| {
          assert x[1..][|s[1..]|..] == x[|s|..];
          assert x[..|s|] == [x[0]] + x[1..][..|s[1..]|];
          assert s == [s[0]] + s[1..];
        }
      }
    }
  }

  lemma {:induction false} PercentSkips(x: string, q: string)
    ensures Like(x, "%" + q) <==> exists i :: 0 <= i <= |x| && Like(x[i..], q)
    decreases |x|
  {
    var p := "%" + q;
    assert p[1..] == q && x[0..] == x;
    if x != "" {
      PercentSkips(x[1..], q);
      if i :| 0 <= i <= |x[1..]| && Like(x[1..][i..], q) {
        assert x[1..][i..] == x[i + 1..];
      }
      if i :| 0 <= i <= |x| && Like(x[i..], q) {
        if i > 0 { assert x[1..][i - 1..] == x[i..]; }
      }
    }
  }

  lemma {:induction false} PercentMatchesAll(x: string)
    ensures Like(x, "%")
  {
    if x != "" { PercentMatchesAll(x[1..]); }
  }

  /** For every search text and every value: the escaped pattern matches exactly the values
      that contain the text. */
  lemma EscapedSearchIsSubstring(x: string, s: string)
    ensures Like(x, "%" + EscapeLike(s) + "%") <==> Contains(x, s)
  {
    var q := EscapeLike(s) + "%";
    assert "%" + EscapeLike(s) + "%" == "%" + q;
    PercentSkips(x, q);
    forall i | 0 <= i <= |x| ensures Like(x[i..], q) <==> OccursAt(x, s, i) {
      EscapedIsLiteral(x[i..], s, "%");
      if i + |s| <= |x| {
        assert x[i..][..|s|] == x[i..i + |s|];
        PercentMatchesAll(x[i..][|s|..]);
      }
    }
  }

  function Fold(f: char -> char, s: string): (r: string)
    ensures |r| == |s|
  {
    if s == "" then "" else [f(s[0])] + Fold(f, s[1..])
  }

  /** Case folding keeps the metacharacters and makes no new ones. */
  ghost predicate KeepsMeta(f: char -> char) {
    forall c :: (IsMeta(c) ==> f(c) == c) && (IsMeta(f(c)) ==> IsMeta(c))
  }

  lemma {:induction false} FoldConcat(f: char -> char, a: string, b: string)
    ensures Fold(f, a + b) == Fold(f, a) + Fold(f, b)
  {
    if a == "" {
      assert a + b == b;
    } else {
      assert (a + b)[1..] == a[1..] + b;
      FoldConcat(f, a[1..], b);
    }
  }

  lemma {:induction false} FoldEscape(f: char -> char, s: string)
    requires KeepsMeta(f)
    ensures Fold(f, EscapeLike(s)) == EscapeLike(Fold(f, s))
  {
    if s != "" {
      FoldEscape(f, s[1..]);
      var head := if IsMeta(s[0]) then ['\\', s[0]] else [s[0]];
      FoldConcat(f, head, EscapeLike(s[1..]));
      assert Fold(f, s)[0] == f(s[0]) && Fold(f, s)[1..] == Fold(f, s[1..]);
      assert IsMeta('\\');
      assert Fold(f, head) == if IsMeta(f(s[0])) then ['\\', f(s[0])] else [f(s[0])] by {
        if IsMeta(s[0]) { assert head[1..] == [s[0]] && head[1..][1..] == ""; }
      }
    }
  }

  /** ILIKE folds value and pattern before matching. */
  lemma EscapedIlikeIsFoldedSubstring(f: char -> char, x: string, s: string)
    requires KeepsMeta(f)
    ensures Like(Fold(f, x), Fold(f, "%" + EscapeLike(s) + "%")) <==> Contains(Fold(f, x), Fold(f, s))
  {
    FoldPattern(f, EscapeLike(s));
    FoldEscape(f, s);
    EscapedSearchIsSubstring(Fold(f, x), Fold(f, s));
  }

  // ----- Three replacements against one pass -----

  lemma {:induction false} ReplaceConcat(a: string, b: string, c: char, sub: string)
    ensures Replace(a + b, c, sub) == Replace(a, c, sub) + Replace(b, c, sub)
  {
    if a == "" {
      assert a + b == b;
    } else {
      assert (a + b)[1..] == a[1..] + b;
      ReplaceConcat(a[1..], b, c, sub);
      var head := if a[0] == c then sub else [a[0]];
      var left, right := Replace(a[1..], c, sub), Replace(b, c, sub);
      assert head + (left + right) == head + left + right;
    }
  }

  lemma ReplaceOne(x: char, c: char, sub: string)
    ensures Replace([x], c, sub) == if x == c then sub else [x]
  {
  }

  lemma ReplaceTwo(x: char, y: char, c: char, sub: string)
    ensures Replace([x, y], c, sub) == (if x == c then sub else [x]) + (if y == c then sub else [y])
  {
    ReplaceConcat([x], [y], c, sub);
    assert [x] + [y] == [x, y];
    ReplaceOne(x, c, sub);
    ReplaceOne(y, c, sub);
  }

  lemma AuditEscapeOne(c: char)
    ensures AuditEscape([c]) == EscapeLike([c])
  {
    ReplaceOne(c, '\\', "\\\\");
    ReplaceOne(c, '%', "\\%");
    ReplaceOne(c, '_', "\\_");
    ReplaceTwo('\\', '\\', '%', "\\%");
    ReplaceTwo('\\', '\\', '_', "\\_");
    ReplaceTwo('\\', '%', '_', "\\_");
    assert EscapeLike([c]) == if IsMeta(c) then ['\\', c] else [c];
  }

  /** The backslash is replaced first, so no escape is escaped again. */
  lemma {:induction false} AuditEscapeIsEscapeLike(s: string)
    ensures AuditEscape(s) == EscapeLike(s)
  {
    if s != "" {
      var head, rest := s[..1], s[1..];
      assert s == head + rest;
      ReplaceConcat(head, rest, '\\', "\\\\");
      ReplaceConcat(Replace(head, '\\', "\\\\"), Replace(rest, '\\', "\\\\"), '%', "\\%");
      var head', rest' := Replace(head, '\\', "\\\\"), Replace(rest, '\\', "\\\\");
      ReplaceConcat(Replace(head', '%', "\\%"), Replace(rest', '%', "\\%"), '_', "\\_");
      assert AuditEscape(s) == AuditEscape(head) + AuditEscape(rest);
      AuditEscapeOne(s[0]);
      AuditEscapeIsEscapeLike(rest);
      assert EscapeLike(s) == EscapeLike([s[0]]) + EscapeLike(rest);
    }
  }

  // ----- Searches that do not escape -----

  predicate NoMeta(s: string) { forall i :: 0 <= i < |s| ==> !IsMeta(s[i]) }

  lemma {:induction false} NothingToEscape(s: string)
    requires NoMeta(s)
    ensures EscapeLike(s) == s
  {
    if s != "" { NothingToEscape(s[1..]); }
  }

  /** A shortest value matched by the pattern `s` followed by `%`; `wild` stands for each `_`. */
  function Shortest(s: string, wild: char): string
    decreases |s|
  {
    if s == "" then ""
    else if s[0] == '%' then Shortest(s[1..], wild)
    else if s[0] == '_' then [wild] + Shortest(s[1..], wild)
    else if s[0] != '\\' then [s[0]] + Shortest(s[1..], wild)
    else if |s| == 1 then "%"
    else [s[1]] + Shortest(s[2..], wild)
  }

  lemma {:induction false} ShortestMatches(s: string, wild: char)
    ensures Like(Shortest(s, wild), s + "%")
    decreases |s|
  {
    var p := s + "%";
    if s == "" {
      PercentMatchesAll("");
    } else if s[0] == '\\' {
      if |s| == 1 {
        assert p[1] == '%' && p[2..] == "";
      } else {
        ShortestMatches(s[2..], wild);
        assert p[2..] == s[2..] + "%";
      }
    } else {
      ShortestMatches(s[1..], wild);
      assert p[1..] == s[1..] + "%";
    }
  }

  lemma {:induction false} ShortestDiffers(s: string, wild: char)
    requires !IsMeta(wild)
    ensures |Shortest(s, wild)| <= |s|
    ensures !NoMeta(s) ==> Shortest(s, wild) != s
    decreases |s|
  {
    if s != "" {
      if s[0] == '\\' && |s| > 1 {
        ShortestDiffers(s[2..], wild);
      } else {
        ShortestDiffers(s[1..], wild);
        if Shortest(s, wild) == s { assert Shortest(s, wild)[1..] == s[1..]; }
      }
    }
  }

  lemma {:induction false} FoldAt(f: char -> char, s: string, i: nat)
    requires i < |s|
    ensures Fold(f, s)[i] == f(s[i])
  {
    if i > 0 { FoldAt(f, s[1..], i - 1); }
  }

  lemma FoldKeepsNoMeta(f: char -> char, s: string)
    requires KeepsMeta(f)
    ensures NoMeta(Fold(f, s)) <==> NoMeta(s)
  {
    forall i | 0 <= i < |s| ensures IsMeta(Fold(f, s)[i]) <==> IsMeta(s[i]) { FoldAt(f, s, i); }
  }

  lemma {:induction false} FoldShortest(f: char -> char, s: string, wild: char)
    requires KeepsMeta(f)
    ensures Fold(f, Shortest(s, wild)) == Shortest(Fold(f, s), f(wild))
    decreases |s|
  {
    if s != "" {
      var t := Fold(f, s);
      assert IsMeta(s[0]) ==> t[0] == s[0];
      assert t[1..] == Fold(f, s[1..]);
      if s[0] == '\\' && |s| > 1 {
        FoldShortest(f, s[2..], wild);
        assert t[2..] == Fold(f, s[1..])[1..] == Fold(f, s[2..]);
      } else {
        FoldShortest(f, s[1..], wild);
        assert IsMeta('%');
      }
    }
  }

  /** A value that a pattern with metacharacters matches although it does not contain them. */
  lemma MatchedElsewhere(s: string, wild: char)
    requires !NoMeta(s) && !IsMeta(wild)
    ensures Like(Shortest(s, wild), "%" + s + "%") && !Contains(Shortest(s, wild), s)
  {
    var x := Shortest(s, wild);
    ShortestMatches(s, wild);
    ShortestDiffers(s, wild);
    PercentSkips(x, s + "%");
    assert x[0..] == x && "%" + s + "%" == "%" + (s + "%");
    forall i: nat ensures !OccursAt(x, s, i) {
      if i + |s| <= |x| { assert i == 0 && x[i..i + |s|] == x; }
    }
  }

  lemma FoldPattern(f: char -> char, s: string)
    requires KeepsMeta(f)
    ensures Fold(f, "%" + s + "%") == "%" + Fold(f, s) + "%"
  {
    assert IsMeta('%');
    assert Fold(f, "%") == "%";
    FoldConcat(f, "%" + s, "%");
    FoldConcat(f, "%", s);
  }

  ghost predicate FindsExactly(f: char -> char, s: string) {
    forall x :: Like(Fold(f, x), Fold(f, "%" + s + "%")) <==> Contains(Fold(f, x), Fold(f, s))
  }

  /** A search that strips the text and puts it between two `%` unescaped finds, under any case
      folding, exactly the values containing the stripped text, for all values, if and only if
      that text holds no metacharacter. */
  lemma UnescapedSearchIsSubstringIff(f: char -> char, text: string)
    requires KeepsMeta(f)
    ensures FindsExactly(f, Strip(text)) <==> NoMeta(Strip(text))
  {
    var s := Strip(text);
    FoldKeepsNoMeta(f, s);
    FoldPattern(f, s);
    if NoMeta(s) {
      NothingToEscape(Fold(f, s));
      forall x ensures Like(Fold(f, x), Fold(f, "%" + s + "%")) <==> Contains(Fold(f, x), Fold(f, s)) {
        EscapedSearchIsSubstring(Fold(f, x), Fold(f, s));
      }
    } else {
      assert !IsMeta('a') && !IsMeta(f('a'));
      FoldShortest(f, s, 'a');
      MatchedElsewhere(Fold(f, s), f('a'));
      var x := Shortest(s, 'a');
      assert !(Like(Fold(f, x), Fold(f, "%" + s + "%")) <==> Contains(Fold(f, x), Fold(f, s)));
    }
  }
}
