/**
 The name filter: three chained replacements escape the caller's text, and the resulting pattern is
 matched case-insensitively. Its meaning is "contains this literal text".
 */
module LikeEscape {
  /** `s.replace(c, r)` for a one-character c: every occurrence, left to right. */
  function Replace(s: string, c: char, r: string): string {
    if s == [] then [] else (if s[0] == c then r else [s[0]]) + Replace(s[1..], c, r)
  }

  /** The filter's three replacements, in its order: backslash, percent, underscore. */
  function Escape(s: string): string {
    Replace(Replace(Replace(s, '\\', "\\\\"), '%', "\\%"), '_', "\\_")
  }

  function Pattern(s: string): string {
    "%" + Escape(s) + "%"
  }

  /**
   LIKE with escape character backslash (PostgreSQL manual, section 9.7.1): percent stands for any
   run of characters, underscore for any one, a backslash makes the next character literal. A
   pattern that ends in a lone backslash matches nothing here (the database raises an error).
   */
  predicate Like(pattern: string, text: string)
    decreases |pattern| + |text|
  {
    if pattern == [] then text == []
    else if pattern[0] == '%' then Like(pattern[1..], text) || (text != [] && Like(pattern, text[1..]))
    else if pattern[0] == '_' then text != [] && Like(pattern[1..], text[1..])
    else if pattern[0] == '\\' then
      |pattern| >= 2 && text != [] && text[0] == pattern[1] && Like(pattern[2..], text[1..])
    else text != [] && text[0] == pattern[0] && Like(pattern[1..], text[1..])
  }

  predicate Special(c: char) {
    c == '\\' || c == '%' || c == '_'
  }

  /** A case folding that leaves the three special characters alone and maps nothing else to them. */
  ghost predicate Folding(fold: char -> char) {
    forall c :: if Special(c) then fold(c) == c else !Special(fold(c))
  }

  function Fold(fold: char -> char, s: string): string {
    if s == [] then [] else [fold(s[0])] + Fold(fold, s[1..])
  }

  /** ILIKE folds the pattern and the text, then matches. */
  predicate ILike(fold: char -> char, pattern: string, text: string) {
    Like(Fold(fold, pattern), Fold(fold, text))
  }

  // ------------------------------------------------------------------ three passes are one

  /** The reference: put a backslash before each special character, in one pass. */
  function EscapeOnce(s: string): string {
    if s == [] then []
    else (if Special(s[0]) then ['\\', s[0]] else [s[0]]) + EscapeOnce(s[1..])
  }

  lemma {:induction false} ReplaceConcat(a: string, b: string, c: char, r: string)
    ensures Replace(a + b, c, r) == Replace(a, c, r) + Replace(b, c, r)
  {
    if a == [] {
      assert a + b == b;
    } else {
      var whole, head := a + b, if a[0] == c then r else [a[0]];
      assert whole[0] == a[0] && whole[1..] == a[1..] + b;
      ReplaceConcat(a[1..], b, c, r);
      assert head + (Replace(a[1..], c, r) + Replace(b, c, r)) == head + Replace(a[1..], c, r) + Replace(b, c, r);
    }
  }

  lemma {:induction false} ReplaceTwo(x: char, y: char, c: char, r: string)
    ensures Replace([x], c, r) == if x == c then r else [x]
    ensures Replace([x, y], c, r) == (if x == c then r else [x]) + (if y == c then r else [y])
  {
    assert [x, y][1..] == [y] && [x][1..] == [] && [y][1..] == [];
    assert Replace([y], c, r) == if y == c then r else [y];
  }

  lemma {:induction false} EscapeOneCharacter(x: char)
    ensures Escape([x]) == if Special(x) then ['\\', x] else [x]
  {
    ReplaceTwo(x, x, '\\', "\\\\");
    ReplaceTwo(x, x, '%', "\\%");
    ReplaceTwo(x, x, '_', "\\_");
    ReplaceTwo('\\', '\\', '%', "\\%");
    ReplaceTwo('\\', '\\', '_', "\\_");
    ReplaceTwo('\\', '%', '_', "\\_");
  }

  /** The chained replacements, backslash first, are the one-pass escape. */
  lemma {:induction false} EscapeIsOnePass(s: string)
    ensures Escape(s) == EscapeOnce(s)
  {
    if s != [] {
      var first, rest := [s[0]], s[1..];
      assert s == first + rest;
      EscapeIsOnePass(rest);
      EscapeOneCharacter(s[0]);
      var r1, r2, r3 := "\\\\", "\\%", "\\_";
      ReplaceConcat(first, rest, '\\', r1);
      ReplaceConcat(Replace(first, '\\', r1), Replace(rest, '\\', r1), '%', r2);
      ReplaceConcat(Replace(Replace(first, '\\', r1), '%', r2), Replace(Replace(rest, '\\', r1), '%', r2), '_', r3);
    }
  }

  // ------------------------------------------------------------------ what the pattern matches

  lemma {:induction false} FoldConcat(fold: char -> char, a: string, b: string)
    ensures Fold(fold, a + b) == Fold(fold, a) + Fold(fold, b)
  {
    if a == [] {
      assert a + b == b;
    } else {
      var whole, head := a + b, [fold(a[0])];
      assert whole[0] == a[0] && whole[1..] == a[1..] + b;
      FoldConcat(fold, a[1..], b);
      assert head + (Fold(fold, a[1..]) + Fold(fold, b)) == head + Fold(fold, a[1..]) + Fold(fold, b);
    }
  }

  /** Folding commutes with escaping. */
  lemma {:induction false} FoldEscape(fold: char -> char, s: string)
    requires Folding(fold)
    ensures Fold(fold, EscapeOnce(s)) == EscapeOnce(Fold(fold, s))
  {
    if s != [] {
      var head := if Special(s[0]) then ['\\', s[0]] else [s[0]];
      FoldConcat(fold, head, EscapeOnce(s[1..]));
      FoldEscape(fold, s[1..]);
      assert Fold(fold, head) == if Special(s[0]) then ['\\', s[0]] else [fold(s[0])] by {
        assert Special('\\');
        if Special(s[0]) {
          assert head[1..] == [s[0]] && [s[0]][1..] == [];
          assert Fold(fold, [s[0]]) == [s[0]];
        }
      }
      var folded := Fold(fold, s);
      assert folded[0] == fold(s[0]) && folded[1..] == Fold(fold, s[1..]);
    }
  }

  predicate IsPrefixOf(s: string, t: string) {
    |s| <= |t| && t[..|s|] == s
  }

  lemma {:induction false} PrefixStep(s: string, t: string)
    requires s != [] && t != []
    ensures IsPrefixOf(s, t) <==> s[0] == t[0] && IsPrefixOf(s[1..], t[1..])
  {
    if |s| <= |t| {
      var p, q := t[..|s|], t[1..][..|s| - 1];
      if p == s {
        forall k | 0 <= k < |q| ensures q[k] == s[1..][k] {
          assert q[k] == p[k + 1] && s[1..][k] == s[k + 1];
        }
        assert p[0] == s[0];
      }
      if t[0] == s[0] && q == s[1..] {
        forall k | 0 <= k < |s| ensures p[k] == s[k] {
          if k > 0 {
            assert p[k] == q[k - 1] && s[k] == s[1..][k - 1];
          }
        }
      }
    }
  }

  /** An escaped text in a pattern matches exactly itself. */
  lemma {:induction false} EscapedMatchesItself(s: string, rest: string, t: string)
    ensures Like(EscapeOnce(s) + rest, t) <==> IsPrefixOf(s, t) && Like(rest, t[|s|..])
  {
    var pattern := EscapeOnce(s) + rest;
    if s == [] {
      assert pattern == rest && t[0..] == t;
    } else {
      if t != [] {
        EscapedMatchesItself(s[1..], rest, t[1..]);
        assert pattern[if Special(s[0]) then 2 else 1..] == EscapeOnce(s[1..]) + rest;
        PrefixStep(s, t);
        if |s| <= |t| {
          assert t[1..][|s| - 1..] == t[|s|..];
        }
      }
    }
  }

  /** Without its backslash an underscore is a wildcard. */
  lemma {:induction false} UnderscoreMatchesOne(t: string)
    ensures Like("_", t) <==> |t| == 1
  {
    assert "_"[1..] == [];
    if t != [] {
      assert Like("_", t) <==> t[1..] == [];
    }
  }

  lemma {:induction false} PercentMatchesAll(t: string)
    ensures Like("%", t)
  {
    assert "%"[1..] == [];
    if t != [] {
      PercentMatchesAll(t[1..]);
    }
  }

  ghost predicate Contains(t: string, s: string) {
    exists i :: 0 <= i <= |t| && IsPrefixOf(s, t[i..])
  }

  /** A leading percent searches every position. */
  lemma {:induction false} PercentSearches(s: string, t: string)
    ensures Like("%" + EscapeOnce(s) + "%", t) <==> Contains(t, s)
  {
    var pattern := "%" + EscapeOnce(s) + "%";
    assert pattern[1..] == EscapeOnce(s) + "%";
    EscapedMatchesItself(s, "%", t);
    if IsPrefixOf(s, t) {
      PercentMatchesAll(t[|s|..]);
      assert t[0..] == t;
    }
    if t != [] {
      PercentSearches(s, t[1..]);
      if i :| 0 <= i <= |t[1..]| && IsPrefixOf(s, t[1..][i..]) {
        assert t[1..][i..] == t[i + 1..];
      }
      if i :| 0 < i <= |t| && IsPrefixOf(s, t[i..]) {
        assert t[1..][i - 1..] == t[i..];
      }
    }
    if IsPrefixOf(s, t[0..]) {
      assert t[0..] == t;
    }
  }

  /** Folding goes character by character. */
  lemma {:induction false} FoldIsPointwise(fold: char -> char, s: string)
    ensures |Fold(fold, s)| == |s| && forall i :: 0 <= i < |s| ==> Fold(fold, s)[i] == fold(s[i])
  {
    if s != [] {
      FoldIsPointwise(fold, s[1..]);
    }
  }

  /** From position i on, the text reads like s up to case. */
  ghost predicate ReadsAt(fold: char -> char, t: string, i: int, s: string) {
    0 <= i <= |t| - |s| && forall j :: 0 <= j < |s| ==> fold(t[i + j]) == fold(s[j])
  }

  lemma {:induction false} FoldedPrefixReads(fold: char -> char, t: string, i: nat, s: string)
    requires i <= |t|
    ensures |Fold(fold, t)| == |t| && (IsPrefixOf(Fold(fold, s), Fold(fold, t)[i..]) <==> ReadsAt(fold, t, i, s))
  {
    FoldIsPointwise(fold, s);
    FoldIsPointwise(fold, t);
    var p, rest := Fold(fold, s), Fold(fold, t)[i..];
    if ReadsAt(fold, t, i, s) {
      forall j | 0 <= j < |s| ensures rest[j] == p[j] {
        assert fold(t[i + j]) == fold(s[j]);
      }
      assert rest[..|p|] == p;
    }
    if IsPrefixOf(p, rest) {
      forall j | 0 <= j < |s| ensures fold(t[i + j]) == fold(s[j]) {
        assert rest[..|p|][j] == p[j];
      }
    }
  }

  /** In the caller's terms: some stretch of the name equals the given text, character by character up to case. */
  lemma {:induction false} FilterFindsText(fold: char -> char, s: string, t: string)
    requires Folding(fold)
    ensures ILike(fold, Pattern(s), t) <==> exists i :: ReadsAt(fold, t, i, s)
  {
    FilterMeansContains(fold, s, t);
    FoldIsPointwise(fold, t);
    forall i | 0 <= i <= |t|
      ensures IsPrefixOf(Fold(fold, s), Fold(fold, t)[i..]) <==> ReadsAt(fold, t, i, s)
    {
      FoldedPrefixReads(fold, t, i, s);
    }
    if i :| 0 <= i <= |t| && IsPrefixOf(Fold(fold, s), Fold(fold, t)[i..]) {
      assert ReadsAt(fold, t, i, s);
    }
    if i :| ReadsAt(fold, t, i, s) {
      assert IsPrefixOf(Fold(fold, s), Fold(fold, t)[i..]);
    }
  }

  /** The filter keeps exactly the names that contain the given text, up to case; no input acts as a wildcard. */
  lemma {:induction false} FilterMeansContains(fold: char -> char, s: string, t: string)
    requires Folding(fold)
    ensures ILike(fold, Pattern(s), t) <==> Contains(Fold(fold, t), Fold(fold, s))
  {
    EscapeIsOnePass(s);
    FoldEscape(fold, s);
    FoldConcat(fold, "%" + EscapeOnce(s), "%");
    FoldConcat(fold, "%", EscapeOnce(s));
    assert Special('%') && "%"[1..] == [];
    assert Fold(fold, "%") == "%";
    PercentSearches(Fold(fold, s), Fold(fold, t));
  }
}
