/** How the fields of a payout form are normalised before anything is checked (shared/src/payouts/index.ts:400-412). */
module Normalization {
  import opened Text

  /** The parts of the Unicode tables the program consults beyond ASCII. */
  datatype Unicode = Unicode(isLetter: char -> bool, isMark: char -> bool, upper: char -> string)

  datatype Transform = UpperCompact | DigitsOnly | TrimSpaces

  predicate IsAscii(c: char) { c as int < 128 }

  function UpperOf(u: Unicode, c: char): string {
    if IsLower(c) then [(c as int - 32) as char] else if IsAscii(c) then [c] else u.upper(c)
  }

  /** `toUpperCase`. */
  function ToUpper(u: Unicode, s: string): string {
    if s == "" then "" else UpperOf(u, s[0]) + ToUpper(u, s[1..])
  }

  predicate IsHandleChar(c: char) { !IsSpace(c) && c != '-' }

  function SkipSpaces(s: string): (r: string)
    ensures |r| <= |s| && r == s[|s| - |r|..]
    ensures r == "" || !IsSpace(r[0])
    ensures forall i :: 0 <= i < |s| - |r| ==> IsSpace(s[i])
  {
    if s != "" && IsSpace(s[0]) then
      var r := SkipSpaces(s[1..]);
      assert s[1..][|s| - 1 - |r|..] == s[|s| - |r|..];
      assert forall i :: 1 <= i < |s| - |r| ==> s[i] == s[1..][i - 1];
      r
    else s
  }

  /** `replace(/\s+/g, " ")`. */
  function Collapse(s: string): string
    decreases |s|
  {
    if s == "" then ""
    else if IsSpace(s[0]) then " " + Collapse(SkipSpaces(s[1..]))
    else [s[0]] + Collapse(s[1..])
  }

  function Normalize(u: Unicode, value: string, transform: Transform): string {
    match transform
    case UpperCompact => ToUpper(u, Keep(value, IsHandleChar))
    case DigitsOnly => Keep(value, IsDigit)
    case TrimSpaces => Collapse(Trim(value))
  }

  lemma {:induction false} UpperIsStable(u: Unicode, s: string)
    requires Alnum(s)
    ensures ToUpper(u, s) == s
    decreases |s|
  {
    if s != "" {
      UpperIsStable(u, s[1..]);
    }
  }

  /** Every space is a single blank between two other characters. */
  predicate Tidy(s: string) {
    forall i :: 0 <= i < |s| && IsSpace(s[i]) ==> s[i] == ' ' && i + 1 < |s| && !IsSpace(s[i + 1])
  }

  lemma TidyBefore(c: char, s: string)
    requires Tidy(s) && (IsSpace(c) ==> c == ' ' && s != "" && !IsSpace(s[0]))
    ensures Tidy([c] + s)
  {
    var t := [c] + s;
    forall i | 0 <= i < |t| && IsSpace(t[i]) ensures t[i] == ' ' && i + 1 < |t| && !IsSpace(t[i + 1]) {
      assert i > 0 ==> t[i] == s[i - 1];
    }
  }

  lemma {:induction false} CollapseTidies(s: string)
    requires s == "" || !IsSpace(s[|s| - 1])
    ensures Tidy(Collapse(s))
    ensures s != "" && !IsSpace(s[0]) ==> Collapse(s) != "" && Collapse(s)[0] == s[0]
    decreases |s|
  {
    if s != "" {
      if IsSpace(s[0]) {
        var rest := SkipSpaces(s[1..]);
        CollapseTidies(rest);
        TidyBefore(' ', Collapse(rest));
      } else {
        CollapseTidies(s[1..]);
        TidyBefore(s[0], Collapse(s[1..]));
      }
    }
  }

  lemma {:induction false} TidyIsStable(s: string)
    requires Tidy(s)
    ensures Collapse(s) == s
    decreases |s|
  {
    if s != "" {
      if IsSpace(s[0]) {
        assert SkipSpaces(s[1..]) == s[1..];
      }
      TidyIsStable(s[1..]);
    }
  }

  /**
   A name or UPI id is normalised to a tidy text: no space at either end, single blanks in between; and
   normalising that again changes nothing.
   */
  lemma TrimmedIsStable(u: Unicode, value: string)
    ensures var text := Normalize(u, value, TrimSpaces);
            && Tidy(text) && (text != "" ==> !IsSpace(text[0]) && !IsSpace(text[|text| - 1]))
            && Normalize(u, text, TrimSpaces) == text
  {
    var t := Trim(value);
    var c := Collapse(t);
    CollapseTidies(t);
    assert c != "" ==> !IsSpace(c[|c| - 1]);
    CollapseStarts(t);
    assert Trim(c) == c;
    TidyIsStable(c);
  }

  lemma CollapseStarts(s: string)
    requires s == "" || !IsSpace(s[0])
    ensures Collapse(s) == "" <==> s == ""
    ensures s != "" ==> Collapse(s)[0] == s[0]
  {}

  /** The characters of a text that are not space, in order. */
  function Visible(s: string): string {
    if s == "" then "" else (if IsSpace(s[0]) then "" else [s[0]]) + Visible(s[1..])
  }

  lemma {:induction false} VisibleAfterSpaces(s: string, rest: string)
    requires |rest| <= |s| && rest == s[|s| - |rest|..]
    requires forall i :: 0 <= i < |s| - |rest| ==> IsSpace(s[i])
    ensures Visible(s) == Visible(rest)
    decreases |s|
  {
    if |rest| == |s| {
      assert rest == s;
    } else {
      assert s[1..][|s| - 1 - |rest|..] == rest;
      VisibleAfterSpaces(s[1..], rest);
    }
  }

  lemma {:induction false} VisibleBeforeSpaces(s: string, rest: string)
    requires |rest| <= |s| && rest == s[..|rest|]
    requires forall i :: |rest| <= i < |s| ==> IsSpace(s[i])
    ensures Visible(s) == Visible(rest)
    decreases |s|
  {
    if rest == "" {
      VisibleAfterSpaces(s, "");
    } else {
      VisibleBeforeSpaces(s[1..], rest[1..]);
    }
  }

  lemma {:induction false} CollapseKeepsText(s: string)
    ensures Visible(Collapse(s)) == Visible(s)
    decreases |s|
  {
    if s != "" {
      if IsSpace(s[0]) {
        var rest := SkipSpaces(s[1..]);
        CollapseKeepsText(rest);
        VisibleAfterSpaces(s[1..], rest);
        assert (" " + Collapse(rest))[1..] == Collapse(rest);
      } else {
        CollapseKeepsText(s[1..]);
        assert ([s[0]] + Collapse(s[1..]))[1..] == Collapse(s[1..]);
      }
    }
  }

  /** Trimming and collapsing loses, adds and reorders no visible character. */
  lemma TrimmingKeepsText(u: Unicode, value: string)
    ensures Visible(Normalize(u, value, TrimSpaces)) == Visible(value)
  {
    CollapseKeepsText(Trim(value));
    TrimKeepsText(value);
  }

  lemma TrimKeepsText(value: string)
    ensures Visible(Trim(value)) == Visible(value)
  {
    var front := TrimStart(value);
    var t := TrimEnd(front);
    assert Visible(value) == Visible(front) by { VisibleAfterSpaces(value, front); }
    assert Visible(front) == Visible(t) by { VisibleBeforeSpaces(front, t); }
  }

  // ---------- Compact text, piece by piece ----------

  lemma {:induction false} ToUpperAppend(u: Unicode, a: string, b: string)
    ensures ToUpper(u, a + b) == ToUpper(u, a) + ToUpper(u, b)
    decreases |a|
  {
    if a == "" {
      assert a + b == b;
    } else {
      ToUpperAppend(u, a[1..], b);
      assert (a + b)[1..] == a[1..] + b;
      Regroup(UpperOf(u, a[0]), ToUpper(u, a[1..]), ToUpper(u, b));
    }
  }

  lemma {:induction false} HandleCharsAppend(a: string, b: string)
    ensures Keep(a + b, IsHandleChar) == Keep(a, IsHandleChar) + Keep(b, IsHandleChar)
    decreases |a|
  {
    if a == "" {
      assert a + b == b;
    } else {
      var head := if IsHandleChar(a[0]) then [a[0]] else "";
      HandleCharsAppend(a[1..], b);
      assert (a + b)[1..] == a[1..] + b && (a + b)[0] == a[0];
      Regroup(head, Keep(a[1..], IsHandleChar), Keep(b, IsHandleChar));
    }
  }

  function Compact(u: Unicode, value: string): string { Normalize(u, value, UpperCompact) }

  lemma CompactAppend(u: Unicode, a: string, b: string)
    ensures Compact(u, a + b) == Compact(u, a) + Compact(u, b)
  {
    HandleCharsAppend(a, b);
    ToUpperAppend(u, Keep(a, IsHandleChar), Keep(b, IsHandleChar));
  }

  /** A digit or an unaccented letter, which compact text keeps as one character in upper case. */
  predicate IsPlain(c: char) { IsDigit(c) || IsUpper(c) || IsLower(c) }

  function Upper(c: char): char
    requires IsPlain(c)
  {
    if IsLower(c) then (c as int - 32) as char else c
  }

  /** What one plain character of the raw text becomes, and where. */
  lemma CompactAround(u: Unicode, a: string, c: char, e: string)
    requires IsPlain(c)
    ensures Compact(u, a + [c] + e) == Compact(u, a) + [Upper(c)] + Compact(u, e)
  {
    CompactAppend(u, a + [c], e);
    CompactAppend(u, a, [c]);
    CompactOne(u, c);
  }

  lemma CompactOne(u: Unicode, c: char)
    requires IsPlain(c)
    ensures Compact(u, [c]) == [Upper(c)]
  {
    assert Keep([c], IsHandleChar) == [c];
    assert [c][1..] == "";
    assert ToUpper(u, [c]) == UpperOf(u, c) + ToUpper(u, "");
  }

  /** A separator, which people put into codes for reading, leaves no trace in compact text. */
  lemma SeparatorsVanish(u: Unicode, a: string, c: char, e: string)
    requires IsSpace(c) || c == '-'
    ensures Compact(u, a + [c] + e) == Compact(u, a + e)
  {
    CompactAppend(u, a + [c], e);
    CompactAppend(u, a, [c]);
    CompactAppend(u, a, e);
    assert Keep([c], IsHandleChar) == "" by { assert [c][1..] == ""; }
    assert Compact(u, a) + "" == Compact(u, a);
  }

  /** A number keeps its digits, in order, and nothing else. */
  lemma {:induction false} DigitsAreKept(u: Unicode, a: string, c: char, e: string)
    ensures Normalize(u, a + [c] + e, DigitsOnly)
            == Normalize(u, a, DigitsOnly) + (if '0' <= c <= '9' then [c] else "") + Normalize(u, e, DigitsOnly)
    decreases |a|
  {
    var s := a + [c] + e;
    if a == "" {
      assert s[1..] == e;
    } else {
      DigitsAreKept(u, a[1..], c, e);
      assert s[1..] == a[1..] + [c] + e && s[0] == a[0];
    }
  }
}
