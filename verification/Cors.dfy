/**
 Browser-origin matching (backend/src/lib/cors.ts): a wildcard entry is turned into the text of a
 regular expression by two replacements, and that expression is matched against the origin.
 */
module Cors {
  import opened Text

  // ---------- From entry to expression ----------

  predicate IsSpecial(c: char) {
    c in ".*+?^${}()|[]\\"
  }

  /** `replace(/[.*+?^${}()|[\]\\]/g, "\\$&")`. */
  function Escape(p: string): string {
    if p == "" then "" else (if IsSpecial(p[0]) then ['\\', p[0]] else [p[0]]) + Escape(p[1..])
  }

  const LABEL_TEXT := "[^.]*"

  // `replace(/\\\*/g, "[^.]*")`, left to right.
  function ReplaceStars(s: string): string {
    if |s| >= 2 && s[0] == '\\' && s[1] == '*' then LABEL_TEXT + ReplaceStars(s[2..])
    else if s == "" then ""
    else [s[0]] + ReplaceStars(s[1..])
  }

  /** What `patternToRegExp` puts between `^` and `$`. */
  function PatternText(entry: string): string {
    ReplaceStars(Escape(entry))
  }

  /** The part of the expression language that such texts use; `Operator` is any other syntax character. */
  datatype Token = Literal(c: char) | LabelText | Operator(c: char)

  /** The characters that mean something else than themselves unless they are escaped. */
  predicate IsSyntax(c: char) {
    || c == '^' || c == '$' || c == '\\' || c == '.' || c == '*' || c == '+' || c == '?' || c == '|'
    || c == '(' || c == ')' || c == '[' || c == ']' || c == '{' || c == '}'
  }

  function ReadExpression(text: string): seq<Token> {
    if text == "" then []
    else if text[0] == '\\' && |text| >= 2 then [Literal(text[1])] + ReadExpression(text[2..])
    else if "[^.]*" <= text then [LabelText] + ReadExpression(text[5..])
    else [if IsSyntax(text[0]) then Operator(text[0]) else Literal(text[0])] + ReadExpression(text[1..])
  }

  /**
   `[^.]*` takes any number of characters that are not dots, the rest must match what follows. Operators do
   not occur in the expressions of entries, which is proved below; they are left without a meaning.
   */
  predicate Matches(tokens: seq<Token>, s: string)
    decreases |tokens| + |s|
  {
    if tokens == [] then s == ""
    else
      match tokens[0]
      case Literal(c) => s != "" && s[0] == c && Matches(tokens[1..], s[1..])
      case Operator(_) => false
      case LabelText => Matches(tokens[1..], s) || (s != "" && s[0] != '.' && Matches(tokens, s[1..]))
  }

  predicate Allows(entry: string, origin: string) {
    if '*' in entry then Matches(ReadExpression(PatternText(entry)), origin) else entry == origin
  }

  method IsAllowedOrigin(origin: string, allowed: seq<string>) returns (ok: bool)
    ensures ok <==> exists i :: 0 <= i < |allowed| && Allows(allowed[i], origin)
  {
    for i := 0 to |allowed|
      invariant forall j :: 0 <= j < i ==> !Allows(allowed[j], origin)
    {
      if Allows(allowed[i], origin) { return true; }
    }
    ok := false;
  }

  // ---------- The text means the pattern ----------

  function TokensOf(p: string): seq<Token> {
    if p == "" then [] else [if p[0] == '*' then LabelText else Literal(p[0])] + TokensOf(p[1..])
  }

  function TokenText(c: char): string {
    if c == '*' then LABEL_TEXT else if IsSpecial(c) then ['\\', c] else [c]
  }

  function TextOf(p: string): string {
    if p == "" then "" else TokenText(p[0]) + TextOf(p[1..])
  }

  lemma EscapeHead(p: string)
    ensures Escape(p) == "" <==> p == ""
    ensures p != "" ==> Escape(p)[0] != '*'
  {}

  /** The second replacement finds exactly the stars the first one escaped. */
  lemma {:induction false} PatternTextIsTokenwise(p: string)
    ensures PatternText(p) == TextOf(p)
    decreases |p|
  {
    if p != "" {
      var c, rest := p[0], Escape(p[1..]);
      PatternTextIsTokenwise(p[1..]);
      EscapeHead(p[1..]);
      if c == '*' {
        assert Escape(p)[2..] == rest;
      } else if IsSpecial(c) {
        assert Escape(p)[1..] == [c] + rest;
        assert ([c] + rest)[1..] == rest;
        assert ReplaceStars([c] + rest) == [c] + ReplaceStars(rest);
        assert ReplaceStars(Escape(p)) == ['\\'] + ([c] + ReplaceStars(rest));
      } else {
        assert Escape(p)[1..] == rest;
      }
    }
  }

  lemma {:induction false} TextReadsBack(p: string)
    ensures ReadExpression(TextOf(p)) == TokensOf(p)
    decreases |p|
  {
    if p != "" {
      var c, rest := p[0], TextOf(p[1..]);
      TextReadsBack(p[1..]);
      if c == '*' {
        assert TextOf(p)[|LABEL_TEXT|..] == rest;
      } else if IsSpecial(c) {
        assert TextOf(p)[2..] == rest;
      } else {
        assert TextOf(p)[1..] == rest;
        assert TextOf(p)[0] == c != LABEL_TEXT[0];
      }
    }
  }

  /** The two textual replacements yield the intended expression, whatever the entry contains. */
  lemma ExpressionOfEntry(entry: string)
    ensures ReadExpression(PatternText(entry)) == TokensOf(entry)
  {
    PatternTextIsTokenwise(entry);
    TextReadsBack(entry);
  }

  // ---------- Label by label ----------

  predicate MatchesPattern(p: string, s: string) { Matches(TokensOf(p), s) }

  lemma MatchStep(p: string, s: string)
    requires p != ""
    ensures MatchesPattern(p, s) <==>
            if p[0] == '*' then MatchesPattern(p[1..], s) || (s != "" && s[0] != '.' && MatchesPattern(p, s[1..]))
            else s != "" && s[0] == p[0] && MatchesPattern(p[1..], s[1..])
  {}

  predicate PairwiseMatch(ps: seq<string>, ss: seq<string>) {
    if ps == [] || ss == [] then ps == [] && ss == []
    else MatchesPattern(ps[0], ss[0]) && PairwiseMatch(ps[1..], ss[1..])
  }

  /** A pattern matches a text exactly when their dot-separated labels match one by one. */
  lemma {:induction false} MatchesLabelwise(p: string, s: string)
    ensures MatchesPattern(p, s) <==> PairwiseMatch(SplitOn(p, '.'), SplitOn(s, '.'))
    decreases |p| + |s|
  {
    var ps, ss := SplitOn(p, '.'), SplitOn(s, '.');
    if p == "" {
      EmptyPattern(ss[0]);
    } else {
      MatchStep(p, s);
      if p[0] == '.' {
        if s != "" && s[0] == '.' {
          MatchesLabelwise(p[1..], s[1..]);
          assert ps[1..] == SplitOn(p[1..], '.') && ss[1..] == SplitOn(s[1..], '.');
        }
        EmptyPattern(ss[0]);
      } else {
        var rest := SplitOn(p[1..], '.');
        assert ps[0] == [p[0]] + rest[0] && ps[1..] == rest[1..];
        assert ps[0][1..] == rest[0];
        MatchStep(ps[0], ss[0]);
        if p[0] == '*' { MatchesLabelwise(p[1..], s); }
        if s != "" && s[0] != '.' {
          var tail := SplitOn(s[1..], '.');
          assert ss[0] == [s[0]] + tail[0] && ss[1..] == tail[1..] && ss[0][1..] == tail[0];
          MatchesLabelwise(if p[0] == '*' then p else p[1..], s[1..]);
        }
      }
    }
  }

  lemma EmptyPattern(s: string)
    ensures MatchesPattern("", s) <==> s == ""
  {}

  lemma {:induction false} PairwiseIsPointwise(ps: seq<string>, ss: seq<string>)
    ensures PairwiseMatch(ps, ss) <==> |ps| == |ss| && forall i :: 0 <= i < |ps| ==> MatchesPattern(ps[i], ss[i])
    decreases |ps|
  {
    if ps != [] && ss != [] {
      PairwiseIsPointwise(ps[1..], ss[1..]);
      assert ps == [ps[0]] + ps[1..] && ss == [ss[0]] + ss[1..];
    }
  }

  // ---------- Stars as texts ----------

  function Stars(p: string): nat {
    if p == "" then 0 else (if p[0] == '*' then 1 else 0) + Stars(p[1..])
  }

  /** The pattern with its stars replaced by the given texts, in order. */
  function Fill(p: string, texts: seq<string>): string
    requires |texts| == Stars(p)
  {
    if p == "" then ""
    else if p[0] == '*' then texts[0] + Fill(p[1..], texts[1..])
    else [p[0]] + Fill(p[1..], texts)
  }

  predicate DotFree(texts: seq<string>) { forall i :: 0 <= i < |texts| ==> Without(texts[i], '.') }

  ghost predicate Filled(p: string, s: string) {
    exists texts: seq<string> :: |texts| == Stars(p) && DotFree(texts) && Fill(p, texts) == s
  }

  lemma {:induction false} MatchGivesTexts(p: string, s: string) returns (texts: seq<string>)
    requires MatchesPattern(p, s)
    ensures |texts| == Stars(p) && DotFree(texts) && Fill(p, texts) == s
    decreases |p| + |s|
  {
    if p == "" {
      texts := [];
    } else {
      MatchStep(p, s);
      if p[0] != '*' {
        texts := MatchGivesTexts(p[1..], s[1..]);
      } else if MatchesPattern(p[1..], s) {
        var rest := MatchGivesTexts(p[1..], s);
        texts := [""] + rest;
        assert texts[1..] == rest;
      } else {
        var rest := MatchGivesTexts(p, s[1..]);
        texts := rest[0 := [s[0]] + rest[0]];
        assert texts[1..] == rest[1..];
        assert Without(rest[0], '.');
        assert s == [s[0]] + (rest[0] + Fill(p[1..], rest[1..]));
      }
    }
  }

  lemma {:induction false} TextsGiveMatch(p: string, texts: seq<string>)
    requires |texts| == Stars(p) && DotFree(texts)
    ensures MatchesPattern(p, Fill(p, texts))
    decreases |p|, if texts == [] then 0 else |texts[0]|
  {
    if p != "" {
      MatchStep(p, Fill(p, texts));
      if p[0] != '*' {
        TextsGiveMatch(p[1..], texts);
        assert Fill(p, texts)[1..] == Fill(p[1..], texts);
      } else if texts[0] == "" {
        TextsGiveMatch(p[1..], texts[1..]);
        assert Fill(p, texts) == Fill(p[1..], texts[1..]);
      } else {
        Shortened(p, texts);
        TextsGiveMatch(p, texts[0 := texts[0][1..]]);
      }
    }
  }

  /** Taking the first character off the first text takes it off the filled pattern. */
  lemma Shortened(p: string, texts: seq<string>)
    requires p != "" && p[0] == '*' && |texts| == Stars(p) && DotFree(texts) && texts[0] != ""
    ensures DotFree(texts[0 := texts[0][1..]]) && texts[0][0] != '.'
    ensures Fill(p, texts) == [texts[0][0]] + Fill(p, texts[0 := texts[0][1..]])
  {
    var shorter, rest := texts[0 := texts[0][1..]], Fill(p[1..], texts[1..]);
    FirstTextShortened(texts);
    assert shorter[1..] == texts[1..];
    Peel(texts[0], rest);
  }

  lemma FirstTextShortened(texts: seq<string>)
    requires texts != [] && texts[0] != "" && DotFree(texts)
    ensures DotFree(texts[0 := texts[0][1..]]) && texts[0][0] != '.'
  {
    assert Without(texts[0], '.');
    assert Without(texts[0][1..], '.');
  }

  lemma Peel(t: string, rest: string)
    requires t != ""
    ensures t + rest == [t[0]] + (t[1..] + rest)
  {}

  /** The expression matches exactly the texts obtained by putting dot-free texts for the stars. */
  lemma MatchesMeansFilled(p: string, s: string)
    ensures MatchesPattern(p, s) <==> Filled(p, s)
  {
    if MatchesPattern(p, s) {
      var texts := MatchGivesTexts(p, s);
    }
    if texts: seq<string> :| |texts| == Stars(p) && DotFree(texts) && Fill(p, texts) == s {
      TextsGiveMatch(p, texts);
    }
  }

  /**
   An entry allows exactly its own text with dot-free texts put for its stars; an entry without stars
   therefore exactly itself.
   */
  lemma AllowsItsFillings(entry: string, origin: string)
    ensures Allows(entry, origin) <==> Filled(entry, origin)
    ensures '*' !in entry ==> (Filled(entry, origin) <==> origin == entry)
  {
    ExpressionOfEntry(entry);
    MatchesMeansFilled(entry, origin);
    if '*' !in entry {
      NothingToFill(entry);
      assert Fill(entry, []) == entry && DotFree([]);
    }
  }

  lemma {:induction false} NothingToFill(p: string)
    requires '*' !in p
    ensures Stars(p) == 0 && Fill(p, []) == p
    decreases |p|
  {
    if p != "" {
      NothingToFill(p[1..]);
    }
  }

  /**
   A wildcard entry allows an origin exactly when both have the same number of dot-separated labels
   and every label of the origin is its own label of the entry with texts put for the stars.
   */
  lemma WildcardsMatchLabelByLabel(entry: string, origin: string)
    requires '*' in entry
    ensures var ps, ss := SplitOn(entry, '.'), SplitOn(origin, '.');
            Allows(entry, origin) <==> |ps| == |ss| && forall i :: 0 <= i < |ps| ==> Filled(ps[i], ss[i])
  {
    var ps, ss := SplitOn(entry, '.'), SplitOn(origin, '.');
    ExpressionOfEntry(entry);
    MatchesLabelwise(entry, origin);
    PairwiseIsPointwise(ps, ss);
    forall i | 0 <= i < |ps| && i < |ss| { MatchesMeansFilled(ps[i], ss[i]); }
  }

  /** No wildcard, however many there are, can add a label to the host. */
  lemma NoEntryAddsALabel(origin: string, allowed: seq<string>, i: nat)
    requires i < |allowed| && Allows(allowed[i], origin)
    ensures |SplitOn(origin, '.')| == |SplitOn(allowed[i], '.')|
  {
    if '*' in allowed[i] {
      WildcardsMatchLabelByLabel(allowed[i], origin);
    }
  }

  /** The entry with its stars deleted. */
  function WithoutStars(p: string): string {
    if p == "" then "" else (if p[0] == '*' then "" else [p[0]]) + WithoutStars(p[1..])
  }

  lemma {:induction false} EmptyTexts(p: string) returns (texts: seq<string>)
    ensures |texts| == Stars(p) && DotFree(texts) && Fill(p, texts) == WithoutStars(p)
    decreases |p|
  {
    if p == "" {
      texts := [];
    } else {
      var rest := EmptyTexts(p[1..]);
      texts := if p[0] == '*' then [""] + rest else rest;
      assert p[0] == '*' ==> texts[1..] == rest;
    }
  }

  /** A star need not stand for a label, nor for anything: the entry without its stars is always allowed. */
  lemma StarsMayVanish(entry: string)
    requires '*' in entry
    ensures Allows(entry, WithoutStars(entry))
  {
    var texts := EmptyTexts(entry);
    TextsGiveMatch(entry, texts);
    ExpressionOfEntry(entry);
  }
}
