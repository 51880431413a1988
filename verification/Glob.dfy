/**
  Target patterns: the matchers of crates/mabi-chaos/src/registry.rs and
  runtime.rs, and the wildcard semantics they stand for.
 */
module Glob {

  predicate StartsWith(text: string, part: string) {
    |part| <= |text| && text[..|part|] == part
  }

  predicate EndsWith(text: string, part: string) {
    |part| <= |text| && text[|text| - |part|..] == part
  }

  predicate Contains(text: string, part: string) {
    exists i :: 0 <= i <= |text| && StartsWith(text[i..], part)
  }

  predicate HasStar(pattern: string) {
    '*' in pattern
  }

  /** `glob_match` of the registry. */
  predicate GlobMatch(pattern: string, text: string) {
    if pattern == "*" then true
    else if StartsWith(pattern, "*") && EndsWith(pattern, "*") then Contains(text, pattern[1..|pattern| - 1])
    else if StartsWith(pattern, "*") then EndsWith(text, pattern[1..])
    else if EndsWith(pattern, "*") then StartsWith(text, pattern[..|pattern| - 1])
    else pattern == text
  }

  datatype Stripped = Stripped(rest: string) | Absent

  function StripPrefix(s: string): Stripped {
    if s != "" && s[0] == '*' then Stripped(s[1..]) else Absent
  }

  function StripSuffix(s: string): Stripped {
    if s != "" && s[|s| - 1] == '*' then Stripped(s[..|s| - 1]) else Absent
  }

  /** `glob_match` of the runtime, which strips where the registry slices. */
  predicate RuntimeGlobMatch(pattern: string, text: string) {
    if pattern == "*" then true
    else if StartsWith(pattern, "*") && EndsWith(pattern, "*") then Contains(text, pattern[1..|pattern| - 1])
    else
      match StripPrefix(pattern)
      case Stripped(rest) => EndsWith(text, rest)
      case Absent =>
        match StripSuffix(pattern)
        case Stripped(rest) => StartsWith(text, rest)
        case Absent => pattern == text
  }

  lemma MatchersAgree(pattern: string, text: string)
    ensures GlobMatch(pattern, text) <==> RuntimeGlobMatch(pattern, text)
  {
    assert StartsWith(pattern, "*") <==> pattern != "" && pattern[0] == '*';
    assert EndsWith(pattern, "*") <==> pattern != "" && pattern[|pattern| - 1] == '*';
  }

  // ---------------------------------------------------------------------------
  // Wildcards
  // ---------------------------------------------------------------------------

  /** A star stands for any characters, everything else for itself. */
  predicate Wild(pattern: string, text: string)
    decreases |pattern| + |text|
  {
    if pattern == "" then text == ""
    else if pattern[0] == '*' then Wild(pattern[1..], text) || (text != "" && Wild(pattern, text[1..]))
    else text != "" && text[0] == pattern[0] && Wild(pattern[1..], text[1..])
  }

  predicate InnerStarFree(pattern: string) {
    forall i :: 0 < i < |pattern| - 1 ==> pattern[i] != '*'
  }

  lemma {:induction false} WildLiteral(literal: string, text: string)
    requires !HasStar(literal)
    ensures Wild(literal, text) <==> literal == text
  {
    if literal != "" && text != "" {
      WildLiteral(literal[1..], text[1..]);
      assert literal == [literal[0]] + literal[1..] && text == [text[0]] + text[1..];
    }
  }

  lemma {:induction false} WildAnything(text: string)
    ensures Wild("*", text)
  {
    if text == "" {
      assert "*"[1..] == "";
    } else {
      WildAnything(text[1..]);
    }
  }

  lemma {:induction false} WildPrefix(literal: string, text: string)
    requires !HasStar(literal)
    ensures Wild(literal + "*", text) <==> StartsWith(text, literal)
  {
    var pattern := literal + "*";
    if literal == "" {
      assert pattern == "*";
      WildAnything(text);
    } else if text != "" {
      assert pattern[1..] == literal[1..] + "*";
      WildPrefix(literal[1..], text[1..]);
      if text[0] == literal[0] && |literal| <= |text| {
        assert text[..|literal|] == [text[0]] + text[1..][..|literal| - 1];
        assert literal == [literal[0]] + literal[1..];
      }
    }
  }

  /** A leading star tries every suffix of the text. */
  lemma {:induction false} WildSuffixes(pattern: string, text: string)
    ensures Wild("*" + pattern, text) <==> exists i :: 0 <= i <= |text| && Wild(pattern, text[i..])
  {
    assert ("*" + pattern)[1..] == pattern;
    assert text[0..] == text;
    if text != "" {
      WildSuffixes(pattern, text[1..]);
      var rest := text[1..];
      assert forall i :: 0 <= i <= |rest| ==> rest[i..] == text[i + 1..];
      if j :| 0 <= j <= |rest| && Wild(pattern, rest[j..]) {
        assert Wild(pattern, text[j + 1..]);
      }
      if i :| 0 <= i <= |text| && Wild(pattern, text[i..]) {
        assert i > 0 ==> rest[i - 1..] == text[i..];
      }
    }
  }

  lemma WildSuffix(literal: string, text: string)
    requires !HasStar(literal)
    ensures Wild("*" + literal, text) <==> EndsWith(text, literal)
  {
    WildSuffixes(literal, text);
    forall i | 0 <= i <= |text|
      ensures Wild(literal, text[i..]) <==> literal == text[i..]
    {
      WildLiteral(literal, text[i..]);
    }
    if EndsWith(text, literal) {
      assert Wild(literal, text[|text| - |literal|..]);
    }
  }

  lemma WildMiddle(literal: string, text: string)
    requires !HasStar(literal)
    ensures Wild("*" + (literal + "*"), text) <==> Contains(text, literal)
  {
    WildSuffixes(literal + "*", text);
    forall i | 0 <= i <= |text|
      ensures Wild(literal + "*", text[i..]) <==> StartsWith(text[i..], literal)
    {
      WildPrefix(literal, text[i..]);
    }
  }

  lemma GlobIsWild(pattern: string, text: string)
    requires InnerStarFree(pattern)
    ensures GlobMatch(pattern, text) <==> Wild(pattern, text)
  {
    var n := |pattern|;
    if pattern == "*" {
      WildAnything(text);
    } else if StartsWith(pattern, "*") && EndsWith(pattern, "*") {
      var literal := pattern[1..n - 1];
      assert pattern == "*" + (literal + "*");
      WildMiddle(literal, text);
    } else if StartsWith(pattern, "*") {
      assert pattern == "*" + pattern[1..];
      assert !HasStar(pattern[1..]) by {
        assert pattern[n - 1] != '*';
      }
      WildSuffix(pattern[1..], text);
    } else if EndsWith(pattern, "*") {
      assert pattern == pattern[..n - 1] + "*";
      assert !HasStar(pattern[..n - 1]) by {
        assert pattern[0] != '*';
      }
      WildPrefix(pattern[..n - 1], text);
    } else {
      assert !HasStar(pattern) by {
        assert n > 0 ==> pattern[0] != '*' && pattern[n - 1] != '*';
      }
      WildLiteral(pattern, text);
    }
  }

  // ---------------------------------------------------------------------------
  // Where the matchers and the wildcards part
  // ---------------------------------------------------------------------------

  function WithoutStars(pattern: string): (s: string)
    ensures !HasStar(s)
  {
    if pattern == "" then ""
    else if pattern[0] == '*' then WithoutStars(pattern[1..])
    else [pattern[0]] + WithoutStars(pattern[1..])
  }

  lemma {:induction false} WildMatchesBare(pattern: string)
    ensures Wild(pattern, WithoutStars(pattern))
  {
    if pattern != "" {
      WildMatchesBare(pattern[1..]);
      if pattern[0] != '*' {
        assert WithoutStars(pattern)[1..] == WithoutStars(pattern[1..]);
      }
    }
  }

  /** A text without stars has no part with one. */
  lemma PartsOfBare(text: string, part: string)
    requires !HasStar(text)
    ensures StartsWith(text, part) || EndsWith(text, part) || Contains(text, part) ==> !HasStar(part)
  {
    forall k | 0 <= k < |part| && (StartsWith(text, part) || EndsWith(text, part))
      ensures part[k] in text
    {
      assert StartsWith(text, part) ==> part[k] == text[k];
      assert EndsWith(text, part) ==> part[k] == text[|text| - |part| + k];
    }
    forall i, k | 0 <= i <= |text| && StartsWith(text[i..], part) && 0 <= k < |part|
      ensures part[k] in text
    {
      assert part[k] == text[i + k];
    }
  }

  /** A star in the interior is in every part the matcher compares. */
  lemma InnerStarShows(pattern: string)
    requires !InnerStarFree(pattern)
    ensures var n := |pattern|;
      n > 2 && HasStar(pattern) && HasStar(pattern[1..n - 1]) && HasStar(pattern[1..]) && HasStar(pattern[..n - 1])
  {
    var n := |pattern|;
    var k :| 0 < k < n - 1 && pattern[k] == '*';
    assert pattern[1..n - 1][k - 1] == pattern[1..][k - 1] == pattern[..n - 1][k] == '*';
  }

  lemma GlobMissesBare(pattern: string, text: string)
    requires !InnerStarFree(pattern) && !HasStar(text)
    ensures !GlobMatch(pattern, text)
  {
    var n := |pattern|;
    InnerStarShows(pattern);
    PartsOfBare(text, pattern[1..n - 1]);
    PartsOfBare(text, pattern[1..]);
    PartsOfBare(text, pattern[..n - 1]);
  }

  /** The matcher has wildcard semantics for exactly the patterns without a star in the interior. */
  lemma GlobIsWildIff(pattern: string)
    ensures (forall text :: GlobMatch(pattern, text) <==> Wild(pattern, text)) <==> InnerStarFree(pattern)
  {
    if InnerStarFree(pattern) {
      forall text
        ensures GlobMatch(pattern, text) <==> Wild(pattern, text)
      {
        GlobIsWild(pattern, text);
      }
    } else {
      WildMatchesBare(pattern);
      GlobMissesBare(pattern, WithoutStars(pattern));
    }
  }

  // ---------------------------------------------------------------------------
  // What the matcher does with any pattern
  // ---------------------------------------------------------------------------

  /** The pattern without its star at the front and its star at the back. */
  function Core(pattern: string): string {
    if pattern == "*" then ""
    else
      var front := if pattern != "" && pattern[0] == '*' then pattern[1..] else pattern;
      if front != "" && front[|front| - 1] == '*' then front[..|front| - 1] else front
  }

  /** The core stands in the text with something in front of it only under a leading star, behind it only under a trailing one. */
  ghost predicate Framed(pattern: string, text: string) {
    exists before: string, behind: string ::
      && text == before + Core(pattern) + behind
      && (before == "" || (pattern != "" && pattern[0] == '*'))
      && (behind == "" || (pattern != "" && pattern[|pattern| - 1] == '*'))
  }

  lemma FramedBy(pattern: string, text: string, before: string, behind: string)
    requires text == before + Core(pattern) + behind
    requires before == "" || (pattern != "" && pattern[0] == '*')
    requires behind == "" || (pattern != "" && pattern[|pattern| - 1] == '*')
    ensures Framed(pattern, text)
  {
  }

  lemma ContainsIs(text: string, part: string)
    ensures Contains(text, part) <==> exists before: string, behind: string :: text == before + part + behind
  {
    if i :| 0 <= i <= |text| && StartsWith(text[i..], part) {
      assert text == text[..i] + part + text[i + |part|..];
    }
    if before: string, behind: string :| text == before + part + behind {
      assert text[|before|..][..|part|] == part;
      assert StartsWith(text[|before|..], part);
    }
  }

  /** Which branch the matcher takes, and what it compares there. */
  lemma Branches(pattern: string)
    ensures StartsWith(pattern, "*") <==> pattern != "" && pattern[0] == '*'
    ensures EndsWith(pattern, "*") <==> pattern != "" && pattern[|pattern| - 1] == '*'
    ensures StartsWith(pattern, "*") || EndsWith(pattern, "*") ==> HasStar(pattern)
    ensures pattern != "*" ==>
      var n := |pattern|;
      Core(pattern) ==
        if StartsWith(pattern, "*") && EndsWith(pattern, "*") then pattern[1..n - 1]
        else if StartsWith(pattern, "*") then pattern[1..]
        else if EndsWith(pattern, "*") then pattern[..n - 1]
        else pattern
  {
  }

  lemma FramedMatches(pattern: string, text: string, before: string, behind: string)
    requires text == before + Core(pattern) + behind
    requires before == "" || StartsWith(pattern, "*")
    requires behind == "" || EndsWith(pattern, "*")
    ensures GlobMatch(pattern, text)
  {
    var core := Core(pattern);
    Branches(pattern);
    ContainsIs(text, core);
    if behind == "" {
      assert text == before + core && text[|before|..] == core;
    }
    if before == "" {
      assert text == core + behind && text[..|core|] == core;
    }
  }

  lemma MatchIsFramed(pattern: string, text: string)
    requires GlobMatch(pattern, text)
    ensures Framed(pattern, text)
  {
    var core := Core(pattern);
    Branches(pattern);
    if pattern == "*" {
      assert text == text + core + "";
      FramedBy(pattern, text, text, "");
    } else if StartsWith(pattern, "*") && EndsWith(pattern, "*") {
      ContainsIs(text, core);
      var before: string, behind: string :| text == before + core + behind;
      FramedBy(pattern, text, before, behind);
    } else if StartsWith(pattern, "*") {
      assert text == text[..|text| - |core|] + core + "";
      FramedBy(pattern, text, text[..|text| - |core|], "");
    } else if EndsWith(pattern, "*") {
      assert text == "" + core + text[|core|..];
      FramedBy(pattern, text, "", text[|core|..]);
    } else {
      assert text == "" + core + "";
      FramedBy(pattern, text, "", "");
    }
  }

  /** On every pattern and text: only a star at an end is a wildcard, a star inside is itself. */
  lemma GlobIsFramed(pattern: string, text: string)
    ensures GlobMatch(pattern, text) <==> Framed(pattern, text)
  {
    if GlobMatch(pattern, text) {
      MatchIsFramed(pattern, text);
    } else if Framed(pattern, text) {
      var before: string, behind: string :|
        && text == before + Core(pattern) + behind
        && (before == "" || (pattern != "" && pattern[0] == '*'))
        && (behind == "" || (pattern != "" && pattern[|pattern| - 1] == '*'));
      Branches(pattern);
      FramedMatches(pattern, text, before, behind);
    }
  }
}
