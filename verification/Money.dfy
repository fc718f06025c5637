/**
 Minor-unit conversion by string surgery (app/src/lib/money.ts:17-39), against the numbers the
 strings denote. `decimals` is the ledger scale of the currency, two or seven in the program.
 */
module Money {
  import opened Wrappers
  import opened Text

  datatype Major = Major(whole: string, fraction: string)

  predicate Digits(s: string) { s != "" && AllDigits(s) }

  /** `^(\d+)(?:\.(\d+))?$` with its two groups. */
  function ParseMajor(s: string): (r: Option<Major>)
    ensures r.Some? ==> Digits(r.value.whole) && AllDigits(r.value.fraction)
  {
    var parts := SplitOn(s, '.');
    if |parts| == 1 && Digits(parts[0]) then Some(Major(parts[0], ""))
    else if |parts| == 2 && Digits(parts[0]) && Digits(parts[1]) then Some(Major(parts[0], parts[1]))
    else None
  }

  function PadEnd(s: string, length: nat, c: char): string {
    if |s| < length then s + Repeat(c, length - |s|) else s
  }

  function PadStart(s: string, length: nat, c: char): string {
    if |s| < length then Repeat(c, length - |s|) + s else s
  }

  /** `replace(/^0+(?=\d)/, "")`. */
  function StripZeros(s: string): string {
    if |s| >= 2 && s[0] == '0' && IsDigit(s[1]) then StripZeros(s[1..]) else s
  }

  function ToMinorUnits(major: string, decimals: nat): Option<string> {
    match ParseMajor(Trim(major))
    case None => None
    case Some(m) =>
      if |m.fraction| > decimals then None
      else
        var normalized := StripZeros(m.whole + PadEnd(m.fraction, decimals, '0'));
        Some(if normalized == "" then "0" else normalized)
  }

  /** The text `fromMinorUnits` hands to `Number`. */
  function DecimalText(minor: string, decimals: nat): string {
    var padded := PadStart(minor, decimals + 1, '0');
    var whole := padded[..|padded| - decimals];
    var fraction := if decimals > 0 then padded[|padded| - decimals..] else "";
    whole + (if fraction != "" then "." + fraction else "")
  }

  // ---------- What the strings denote ----------

  /** No superfluous zeros: the one way to write a number in digits. */
  predicate Canonical(s: string) {
    Digits(s) && (|s| > 1 ==> s[0] != '0')
  }

  lemma {:induction false} CanonicalIsUnique(a: string, b: string)
    requires Canonical(a) && Canonical(b) && Val(a) == Val(b)
    ensures a == b
    decreases |a|
  {
    var m, n := |a| - 1, |b| - 1;
    if m > 0 { CanonicalIsPositive(a[..m]); }
    if n > 0 { CanonicalIsPositive(b[..n]); }
    assert a[..0] == "" == b[..0];
    assert DigitVal(a[m]) == DigitVal(b[n]) && Val(a[..m]) == Val(b[..n]);
    if m > 0 && n > 0 {
      CanonicalIsUnique(a[..m], b[..n]);
    }
    assert a == a[..m] + [a[m]] && b == b[..n] + [b[n]];
  }

  lemma {:induction false} CanonicalIsPositive(s: string)
    requires Digits(s) && s[0] != '0'
    ensures Val(s) > 0
    decreases |s|
  {
    var n := |s| - 1;
    if n > 0 {
      CanonicalIsPositive(s[..n]);
    }
  }

  lemma {:induction false} StripKeepsValue(s: string)
    requires Digits(s)
    ensures Canonical(StripZeros(s)) && Val(StripZeros(s)) == Val(s)
    decreases |s|
  {
    if |s| >= 2 && s[0] == '0' {
      StripKeepsValue(s[1..]);
      ValAppend("0", s[1..]);
      assert s == "0" + s[1..];
      assert ("0")[..0] == "";
      ShiftZero(|s| - 1);
    }
  }

  lemma {:induction false} ShiftZero(k: nat)
    ensures Shift(0, k) == 0
  {
    if k > 0 { ShiftZero(k - 1); }
  }

  lemma {:induction false} ZerosAreZero(n: nat)
    ensures AllDigits(Repeat('0', n)) && Val(Repeat('0', n)) == 0
  {
    if n > 0 {
      ZerosAreZero(n - 1);
      ValAppend("0", Repeat('0', n - 1));
      assert ("0")[..0] == "";
      assert Repeat('0', n) == "0" + Repeat('0', n - 1);
      ShiftZero(n - 1);
    }
  }

  lemma PadEndShifts(s: string, length: nat)
    requires AllDigits(s) && |s| <= length
    ensures AllDigits(PadEnd(s, length, '0')) && |PadEnd(s, length, '0')| == length
    ensures Val(PadEnd(s, length, '0')) == Shift(Val(s), length - |s|)
  {
    ZerosAreZero(length - |s|);
    ValAppend(s, Repeat('0', length - |s|));
  }

  /**
   A result is the canonical digit string of exactly the entered value times ten to the decimals:
   scaled by the entered fraction digits, both sides are whole numbers and equal.
   */
  lemma MinorUnitsAreExact(major: string, decimals: nat)
    requires ToMinorUnits(major, decimals).Some?
    ensures var m := ParseMajor(Trim(major)).value;
            var minor := ToMinorUnits(major, decimals).value;
            && Canonical(minor)
            && AllDigits(m.whole + m.fraction)
            && Shift(Val(minor), |m.fraction|) == Shift(Val(m.whole + m.fraction), decimals)
  {
    var m := ParseMajor(Trim(major)).value;
    PadEndShifts(m.fraction, decimals);
    StripKeepsValue(m.whole + PadEnd(m.fraction, decimals, '0'));
    JoinedDigitsAreExact(m.whole, m.fraction, decimals);
  }

  lemma JoinedDigitsAreExact(whole: string, fraction: string, decimals: nat)
    requires AllDigits(whole) && AllDigits(fraction) && |fraction| <= decimals
    ensures AllDigits(whole + fraction) && AllDigits(whole + PadEnd(fraction, decimals, '0'))
    ensures Shift(Val(whole + PadEnd(fraction, decimals, '0')), |fraction|) == Shift(Val(whole + fraction), decimals)
  {
    PadEndShifts(fraction, decimals);
    ValAppend(whole, PadEnd(fraction, decimals, '0'));
    ValAppend(whole, fraction);
    ShiftedSum(Val(whole), Val(fraction), |fraction|, decimals - |fraction|);
  }

  lemma ShiftedSum(w: int, f: int, n: nat, k: nat)
    ensures Shift(Shift(w, n + k) + Shift(f, k), n) == Shift(Shift(w, n) + f, n + k)
  {
    ShiftShift(w, n, k);
    ShiftSum(Shift(w, n), f, k);
    ShiftShift(Shift(w, n) + f, k, n);
  }

  /** An amount as people write it: digits, perhaps followed by a point and at most `decimals` digits. */
  ghost predicate Amount(s: string, whole: string, fraction: string, decimals: nat) {
    && Digits(whole) && AllDigits(fraction) && |fraction| <= decimals
    && s == if fraction == "" then whole else whole + ['.'] + fraction
  }

  /** An entry converts exactly when, apart from surrounding space, it is such an amount. */
  lemma RefusedExactlyWhen(major: string, decimals: nat)
    ensures ToMinorUnits(major, decimals).None? <==>
            !exists whole, fraction :: Amount(Trim(major), whole, fraction, decimals)
  {
    var s := Trim(major);
    if ParseMajor(s).Some? {
      var m := ParseMajor(s).value;
      PartsSpellOut(s);
      assert Amount(s, m.whole, m.fraction, |m.fraction|);
      assert |m.fraction| <= decimals ==> Amount(s, m.whole, m.fraction, decimals);
    }
    forall whole, fraction | Amount(s, whole, fraction, decimals) ensures ToMinorUnits(major, decimals).Some? {
      AmountParses(s, whole, fraction, decimals);
    }
  }

  lemma PartsSpellOut(s: string)
    requires ParseMajor(s).Some?
    ensures var m := ParseMajor(s).value; s == if m.fraction == "" then m.whole else m.whole + ['.'] + m.fraction
  {
    JoinSplit(s, '.');
    var parts := SplitOn(s, '.');
    if |parts| == 2 {
      assert parts[1..] == [parts[1]];
    }
  }

  lemma AmountParses(s: string, whole: string, fraction: string, decimals: nat)
    requires Amount(s, whole, fraction, decimals)
    ensures ParseMajor(s) == Some(Major(whole, fraction))
  {
    if fraction == "" {
      SplitSingle(whole, '.');
    } else {
      SplitFirst(whole, '.', fraction);
      SplitSingle(fraction, '.');
      TwoPartsParse(s, whole, fraction);
    }
  }

  /** Amounts of equal value convert to the same string, however they were typed. */
  lemma EqualAmountsAgree(a: string, b: string, decimals: nat, m: Major, n: Major)
    requires ToMinorUnits(a, decimals).Some? && ToMinorUnits(b, decimals).Some?
    requires ParseMajor(Trim(a)) == Some(m) && ParseMajor(Trim(b)) == Some(n)
    requires EqualValue(m, n)
    ensures ToMinorUnits(a, decimals) == ToMinorUnits(b, decimals)
  {
    var x, y := ToMinorUnits(a, decimals).value, ToMinorUnits(b, decimals).value;
    var v, w := Val(m.whole + m.fraction), Val(n.whole + n.fraction);
    var across := Shift(v, |n.fraction|);
    var k, t := |m.fraction| + |n.fraction|, Shift(across, decimals);
    MinorUnitsAreExact(a, decimals);
    MinorUnitsAreExact(b, decimals);
    Chain(x, v, Shift(v, decimals), across, |m.fraction|, |n.fraction|, decimals, k, t);
    Chain(y, w, Shift(w, decimals), across, |n.fraction|, |m.fraction|, decimals, k, t);
    ShiftedAlike(x, y, k, t);
  }

  lemma ShiftedAlike(x: string, y: string, k: nat, t: int)
    requires Moved(x, k, t) && Moved(y, k, t)
    ensures x == y
  {
    ShiftInjective(Val(x), Val(y), k);
    CanonicalIsUnique(x, y);
  }

  /** `s` is canonical, and its value times ten to the `k` is `t`. */
  ghost predicate Moved(s: string, k: nat, t: int) {
    Canonical(s) && Shift(Val(s), k) == t
  }

  /** `m` and `n` denote the same number: cross-scaled by their fraction digits, they are equal. */
  ghost predicate EqualValue(m: Major, n: Major) {
    && AllDigits(m.whole + m.fraction) && AllDigits(n.whole + n.fraction)
    && Shift(Val(m.whole + m.fraction), |n.fraction|) == Shift(Val(n.whole + n.fraction), |m.fraction|)
  }

  lemma Chain(x: string, v: int, scaled: int, across: int, i: nat, j: nat, decimals: nat, k: nat, t: int)
    requires Moved(x, i, scaled) && Shift(v, decimals) == scaled && Shift(v, j) == across
    requires k == i + j && t == Shift(across, decimals)
    ensures Moved(x, k, t)
  {
    ShiftShift(Val(x), i, j);
    ShiftShift(v, decimals, j);
    ShiftShift(v, j, decimals);
    assert Shift(scaled, j) == Shift(v, decimals + j);
  }

  lemma {:induction false} ShiftInjective(x: int, y: int, k: nat)
    requires Shift(x, k) == Shift(y, k)
    ensures x == y
  {
    if k > 0 { ShiftInjective(x, y, k - 1); }
  }

  // ---------- Round trip ----------

  lemma {:induction false} StripPadding(n: nat, s: string)
    requires Canonical(s)
    ensures StripZeros(Repeat('0', n) + s) == s
    decreases n
  {
    if n > 0 {
      StripPadding(n - 1, s);
      assert (Repeat('0', n) + s)[1..] == Repeat('0', n - 1) + s;
      assert n > 1 ==> Repeat('0', n)[1] == '0';
    } else {
      assert Repeat('0', 0) + s == s;
    }
  }

  lemma WholeParses(whole: string)
    requires Digits(whole)
    ensures ParseMajor(Trim(whole)) == Some(Major(whole, ""))
  {
    assert Trim(whole) == whole;
    SplitSingle(whole, '.');
  }

  lemma PointParses(whole: string, fraction: string)
    requires Digits(whole) && Digits(fraction)
    ensures ParseMajor(Trim(whole + ['.'] + fraction)) == Some(Major(whole, fraction))
  {
    var text := whole + ['.'] + fraction;
    EndsWithDigits(whole, fraction);
    PlainTextIsTrimmed(text);
    SplitFirst(whole, '.', fraction);
    SplitSingle(fraction, '.');
    TwoPartsParse(text, whole, fraction);
  }

  lemma EndsWithDigits(whole: string, fraction: string)
    requires Digits(whole) && Digits(fraction)
    ensures var text := whole + ['.'] + fraction;
            text != "" && !IsSpace(text[0]) && !IsSpace(text[|text| - 1])
  {
    var text := whole + ['.'] + fraction;
    assert text[0] == whole[0] && text[|text| - 1] == fraction[|fraction| - 1];
  }

  lemma PlainTextIsTrimmed(text: string)
    requires text != "" && !IsSpace(text[0]) && !IsSpace(text[|text| - 1])
    ensures Trim(text) == text
  {}

  lemma TwoPartsParse(text: string, whole: string, fraction: string)
    requires Digits(whole) && Digits(fraction) && SplitOn(text, '.') == [whole] + [fraction]
    ensures ParseMajor(text) == Some(Major(whole, fraction))
  {}

  lemma PadStartStrips(minor: string, length: nat)
    requires Canonical(minor)
    ensures Digits(PadStart(minor, length, '0')) && |PadStart(minor, length, '0')| >= length
    ensures StripZeros(PadStart(minor, length, '0')) == minor
  {
    if |minor| < length {
      ZerosAreZero(length - |minor|);
      StripPadding(length - |minor|, minor);
    } else {
      StripPadding(0, minor);
      assert Repeat('0', 0) + minor == minor;
    }
  }

  /** Parsing the decimal text of a canonical minor-unit string gives the string back. */
  lemma DecimalTextRoundTrips(minor: string, decimals: nat)
    requires Canonical(minor)
    ensures ToMinorUnits(DecimalText(minor, decimals), decimals) == Some(minor)
  {
    var padded := PadStart(minor, decimals + 1, '0');
    PadStartStrips(minor, decimals + 1);
    var whole, fraction := padded[..|padded| - decimals], padded[|padded| - decimals..];
    assert whole + fraction == padded;
    if decimals > 0 {
      assert DecimalText(minor, decimals) == whole + ['.'] + fraction;
      PointParses(whole, fraction);
    } else {
      assert DecimalText(minor, decimals) == whole;
      WholeParses(whole);
      assert whole + "" == padded;
    }
  }
}
