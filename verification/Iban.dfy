/**
 IBAN acceptance (shared/src/payouts/index.ts:416-453): published length per country and the
 MOD 97-10 check of ISO/IEC 7064, computed digit by digit.
 */
module Iban {
  import opened Arithmetic
  import opened Wrappers
  import opened Text
  import opened Normalization

  /** The published lengths. */
  const COUNTRY_LENGTHS: seq<(string, nat)> := [
    ("AD", 24), ("AT", 20), ("BE", 16), ("BG", 22), ("CH", 21), ("CY", 28), ("CZ", 24), ("DE", 22), ("DK", 18),
    ("EE", 20), ("ES", 24), ("FI", 18), ("FR", 27), ("GB", 22), ("GR", 27), ("HR", 21), ("HU", 28), ("IE", 22),
    ("IS", 26), ("IT", 27), ("LI", 21), ("LT", 20), ("LU", 20), ("LV", 21), ("MC", 27), ("MT", 31), ("NL", 18),
    ("NO", 15), ("PL", 28), ("PT", 25), ("RO", 24), ("SE", 24), ("SI", 19), ("SK", 24), ("SM", 27)]

  /** The entry of `country` from position `i` on. */
  function LengthFrom(i: nat, country: string): Option<nat>
    decreases |COUNTRY_LENGTHS| - i
  {
    if i >= |COUNTRY_LENGTHS| then None
    else if COUNTRY_LENGTHS[i].0 == country then Some(COUNTRY_LENGTHS[i].1)
    else LengthFrom(i + 1, country)
  }

  /** IBANs of `country` are `length` characters long; an unknown country has none. */
  predicate Published(country: string, length: nat) {
    LengthFrom(0, country) == Some(length)
  }

  const LONGEST: nat := 34

  /** `^[A-Z]{2}\d{2}[A-Z0-9]{11,30}$` */
  predicate IbanShape(s: string) {
    && 15 <= |s| <= LONGEST
    && IsUpper(s[0]) && IsUpper(s[1]) && IsDigit(s[2]) && IsDigit(s[3])
    && forall i :: 4 <= i < |s| ==> IsUpperAlnum(s[i])
  }

  predicate PublishedLength(s: string)
    requires IbanShape(s)
  {
    Published(s[..2], |s|)
  }

  /** A digit stands for itself, a letter for the two digits of 10 (`A`) to 35 (`Z`). */
  function Mapped(c: char): (m: string)
    requires IsUpperAlnum(c)
    ensures AllDigits(m) && 1 <= |m| <= 2
  {
    if IsUpper(c) then
      var v := c as int - 55;
      [DigitChar(v / 10), DigitChar(v % 10)]
    else [c]
  }

  function CharValue(c: char): nat
    requires IsUpperAlnum(c)
  {
    if IsUpper(c) then c as int - 55 else DigitVal(c)
  }

  function Expand(s: string): (e: string)
    requires Alnum(s)
    ensures AllDigits(e) && |s| <= |e| <= 2 * |s|
  {
    if s == "" then "" else Expand(s[..|s| - 1]) + Mapped(s[|s| - 1])
  }

  function Rotate(s: string): string
    requires |s| >= 4
  {
    s[4..] + s[..4]
  }

  lemma ShapeIsAlnum(s: string)
    requires IbanShape(s)
    ensures Alnum(s) && Alnum(Rotate(s))
  {}

  /** The whole number the check is about: letters expanded, first four characters moved to the end. */
  function IbanNumber(s: string): nat
    requires IbanShape(s)
  {
    ShapeIsAlnum(s);
    Val(Expand(Rotate(s)))
  }

  /** What the check accepts, on a normalised string. */
  predicate Accepts(s: string) {
    IbanShape(s) && PublishedLength(s) && IbanNumber(s) % 97 == 1
  }

  predicate ValidIban(u: Unicode, value: string) { Accepts(Normalize(u, value, UpperCompact)) }

  /** The program's check. */
  method IsValidIban(u: Unicode, value: string) returns (valid: bool)
    ensures valid == ValidIban(u, value)
  {
    var iban := Normalize(u, value, UpperCompact);
    if !IbanShape(iban) || !PublishedLength(iban) {
      return false;
    }
    ShapeIsAlnum(iban);
    var remainder := Remainder97(iban[4..] + iban[..4]);
    valid := remainder == 1;
  }

  /** The digit-by-digit loop: it only ever holds a number below 97. */
  method Remainder97(rearranged: string) returns (remainder: nat)
    requires Alnum(rearranged)
    ensures remainder == Val(Expand(rearranged)) % 97
  {
    remainder := 0;
    ghost var number: nat := 0;
    for i := 0 to |rearranged|
      invariant number == Value(rearranged[..i]) && remainder == number % 97
    {
      var mapped := Mapped(rearranged[i]);
      ghost var before := number;
      for j := 0 to |mapped|
        invariant number == Shift(before, j) + Val(mapped[..j]) && remainder == number % 97
      {
        HornerStep(before, mapped, j);
        ModCongruent(number, remainder, DigitVal(mapped[j]));
        number := number * 10 + DigitVal(mapped[j]);
        remainder := (remainder * 10 + DigitVal(mapped[j])) % 97;
      }
      MappedValue(rearranged[i]);
      assert mapped[..|mapped|] == mapped;
      assert rearranged[..i + 1][..i] == rearranged[..i];
    }
    assert rearranged[..|rearranged|] == rearranged;
    ValueOfExpansion(rearranged);
  }

  lemma HornerStep(n: nat, digits: string, j: nat)
    requires AllDigits(digits) && j < |digits|
    ensures Shift(n, j + 1) + Val(digits[..j + 1]) == (Shift(n, j) + Val(digits[..j])) * 10 + DigitVal(digits[j])
  {
    assert digits[..j + 1][..j] == digits[..j];
  }

  lemma ModCongruent(x: int, r: int, d: int)
    requires r == x % 97
    ensures (r * 10 + d) % 97 == (x * 10 + d) % 97
  {}

  // ---------- Position values ----------

  /** The expanded number without building the expansion: a character shifts by its own width. */
  function Value(s: string): nat
    requires Alnum(s)
  {
    if s == "" then 0
    else
      var before, last := Value(s[..|s| - 1]), s[|s| - 1];
      (if IsUpper(last) then 100 * before else 10 * before) + CharValue(last)
  }

  function Width(s: string): (w: nat)
    requires Alnum(s)
    ensures w <= 2 * |s|
  {
    if s == "" then 0 else Width(s[..|s| - 1]) + |Mapped(s[|s| - 1])|
  }

  lemma MappedValue(c: char)
    requires IsUpperAlnum(c)
    ensures Val(Mapped(c)) == CharValue(c)
  {
    var m := Mapped(c);
    assert m[..0] == "";
    if IsUpper(c) {
      assert m[..1][..0] == "";
      assert Val(m[..1]) == DigitVal(m[0]);
    }
  }

  /** `A` is read as 10, each further letter as one more, up to 35 for `Z`; a digit is read as itself. */
  lemma LettersCountOn(c: char)
    requires IsUpperAlnum(c)
    ensures Mapped('A') == "10" && Mapped('Z') == "35"
    ensures IsUpper(c) && c != 'Z' ==>
              IsUpperAlnum((c as int + 1) as char) && Val(Mapped((c as int + 1) as char)) == Val(Mapped(c)) + 1
    ensures IsDigit(c) ==> Mapped(c) == [c]
  {
    MappedValue(c);
    if IsUpper(c) && c != 'Z' { MappedValue((c as int + 1) as char); }
  }

  lemma {:induction false} ValueOfExpansion(s: string)
    requires Alnum(s)
    ensures Value(s) == Val(Expand(s))
    decreases |s|
  {
    if s != "" {
      var n := |s| - 1;
      ValueOfExpansion(s[..n]);
      ValAppend(Expand(s[..n]), Mapped(s[n]));
      MappedValue(s[n]);
      ShiftByWidth(Value(s[..n]), s[n]);
    }
  }

  lemma ShiftByWidth(x: int, c: char)
    requires IsUpperAlnum(c)
    ensures Shift(x, |Mapped(c)|) == if IsUpper(c) then 100 * x else 10 * x
  {
    assert Shift(x, 1) == 10 * Shift(x, 0);
  }

  /** What stands before `b` counts with ten to the expanded width of `b`. */
  lemma {:induction false} ValueAppend(a: string, b: string)
    requires Alnum(a) && Alnum(b)
    ensures Alnum(a + b) && Value(a + b) == Shift(Value(a), Width(b)) + Value(b)
    decreases |b|
  {
    if b == "" {
      assert a + b == a;
    } else {
      var n := |b| - 1;
      var v, w := Value(a), Width(b[..n]);
      ValueAppend(a, b[..n]);
      assert (a + b)[..|a + b| - 1] == a + b[..n];
      ShiftShift(v, w, |Mapped(b[n])|);
      ShiftByWidth(Shift(v, w), b[n]);
      assert Value(a + b) == (if IsUpper(b[n]) then 100 else 10) * (Shift(v, w) + Value(b[..n])) + CharValue(b[n]);
    }
  }

  // ---------- Ten modulo 97 ----------

  lemma CancelTen(z: int)
    requires 10 * z % 97 == 0
    ensures z % 97 == 0
  {
    var q := 10 * z / 97;
    assert z == 97 * (68 * q - 7 * z);
  }

  lemma {:induction false} CancelShift(z: int, k: nat)
    requires Shift(z, k) % 97 == 0
    ensures z % 97 == 0
  {
    if k > 0 {
      CancelTen(Shift(z, k - 1));
      CancelShift(z, k - 1);
    }
  }

  lemma ModProduct(x: nat, y: nat)
    ensures x * y % 97 == (x % 97) * (y % 97) % 97
  {
    var a, b, r, t := x / 97, y / 97, x % 97, y % 97;
    assert x * y == 97 * (a * y + r * b) + r * t by {
      Distribute(a, 97, r, y);
      assert r * y == r * (97 * b) + r * t;
    }
    ModOfMultiple(a * y + r * b, r * t);
  }

  /** The residues of 10^0 to 10^9. */
  function Unit(b: nat): nat {
    if b == 0 then 1 else if b == 1 then 10 else if b == 2 then 3 else if b == 3 then 30 else if b == 4 then 9
    else if b == 5 then 90 else if b == 6 then 27 else if b == 7 then 76 else if b == 8 then 81 else 34
  }

  /** The residues of 10^0, 10^10 to 10^90. */
  function Decade(a: nat): nat {
    if a == 0 then 1 else if a == 1 then 49 else if a == 2 then 73 else if a == 3 then 85 else if a == 4 then 91
    else if a == 5 then 94 else if a == 6 then 47 else if a == 7 then 72 else if a == 8 then 36 else 18
  }

  lemma {:induction false} UnitResidue(b: nat)
    requires b < 10
    ensures Shift(1, b) % 97 == Unit(b)
  {
    if b > 0 {
      UnitResidue(b - 1);
      ModCongruent(Shift(1, b - 1), Unit(b - 1), 0);
    }
  }

  lemma {:induction false} DecadeResidue(a: nat)
    requires a < 10
    ensures Shift(1, 10 * a) % 97 == Decade(a)
  {
    if a > 0 {
      DecadeResidue(a - 1);
      TenShift(Shift(1, 10 * (a - 1)), Decade(a - 1));
      ShiftShift(1, 10 * (a - 1), 10);
    }
  }

  /** 10^10 is 49 modulo 97. */
  lemma TenShift(x: int, r: int)
    requires x % 97 == r
    ensures Shift(x, 10) % 97 == 49 * r % 97
  {
    HundredShift(x, 0);
    HundredShift(x, 2);
    HundredShift(x, 4);
    HundredShift(x, 6);
    HundredShift(x, 8);
    ModOfMultiple(103092783 * x, 49 * x);
    ModOfMultiple(49 * (x / 97), 49 * r);
  }

  lemma HundredShift(x: int, k: nat)
    ensures Shift(x, k + 2) == 100 * Shift(x, k)
  {
    assert Shift(x, k + 1) == 10 * Shift(x, k);
  }

  lemma ModOfMultiple(q: int, r: int)
    ensures (97 * q + r) % 97 == r % 97
  {}

  lemma {:induction false} ShiftPositive(k: nat)
    ensures Shift(1, k) > 0
  {
    if k > 0 { ShiftPositive(k - 1); }
  }

  lemma ResiduesAvoidOne(a: nat, b: nat)
    requires a < 10 && b < 10 && 1 <= 10 * a + b < 96
    ensures Decade(a) * Unit(b) % 97 != 1
  {}

  /** Ten has order 96 modulo 97: no smaller positive power of it is one. */
  lemma OrderOfTen(m: nat)
    requires 1 <= m < 96
    ensures Shift(1, m) % 97 != 1
  {
    var a, b := m / 10, m % 10;
    DecadeResidue(a);
    UnitResidue(b);
    ShiftShift(1, b, 10 * a);
    ShiftScales(Shift(1, b), 10 * a);
    ShiftPositive(b);
    ShiftPositive(10 * a);
    ModProduct(Shift(1, b), Shift(1, 10 * a));
    ResiduesAvoidOne(a, b);
  }

  // ---------- What a piece of the text contributes ----------

  /** `s` stands for the number `value` in `width` digits. */
  ghost predicate Worth(s: string, value: int, width: nat) {
    Alnum(s) && Value(s) == value && Width(s) == width
  }

  lemma ValueOfLast(a: string, c: char)
    requires Alnum(a) && IsUpperAlnum(c)
    ensures Alnum(a + [c]) && Value(a + [c]) == Shift(Value(a), |Mapped(c)|) + CharValue(c)
    ensures Width(a + [c]) == Width(a) + |Mapped(c)|
  {
    assert (a + [c])[..|a|] == a;
    ShiftByWidth(Value(a), c);
  }

  lemma DigitLast(a: string, c: char, s: string, v: int, k: nat)
    requires Worth(a, v, k) && IsDigit(c) && s == a + [c]
    ensures Worth(s, v * 10 + DigitVal(c), k + 1)
  {
    ValueOfLast(a, c);
    ShiftByWidth(v, c);
  }

  lemma WorthOfChar(c: char)
    requires IsUpperAlnum(c)
    ensures Worth([c], CharValue(c), |Mapped(c)|)
  {
    assert [c][..0] == "";
    ValueOfLast("", c);
    assert "" + [c] == [c];
    ShiftByWidth(0, c);
  }

  lemma {:induction false} WidthAppend(s: string, t: string)
    requires Alnum(s) && Alnum(t)
    ensures Alnum(s + t) && Width(s + t) == Width(s) + Width(t)
    decreases |t|
  {
    if t == "" {
      assert s + t == s;
    } else {
      WidthAppend(s, t[..|t| - 1]);
      assert (s + t)[..|s + t| - 1] == s + t[..|t| - 1];
    }
  }

  lemma WorthAppend(s: string, t: string, x: int, k: nat, y: int, m: nat)
    requires Worth(s, x, k) && Worth(t, y, m)
    ensures Worth(s + t, Shift(x, m) + y, k + m)
  {
    ValueAppend(s, t);
    WidthAppend(s, t);
  }

  function Multiple97(q: int): int { 97 * q }

  ghost predicate Congruent(x: int, y: int) { exists q :: x - y == Multiple97(q) }

  lemma CongruentTest(x: int, y: int)
    ensures Congruent(x, y) <==> (x - y) % 97 == 0
    ensures Congruent(x, y) <==> x % 97 == y % 97
  {
    assert (x - y) % 97 == 0 ==> x - y == Multiple97((x - y) / 97);
  }

  lemma {:induction false} ShiftKeepsMultiple(z: int, k: nat)
    requires z % 97 == 0
    ensures Shift(z, k) % 97 == 0
  {
    if k > 0 {
      ShiftKeepsMultiple(z, k - 1);
      TenTimesMultiple(Shift(z, k - 1));
    }
  }

  lemma TenTimesMultiple(z: int)
    requires z % 97 == 0
    ensures 10 * z % 97 == 0
  {}

  /** Common digits on both sides neither hide nor make a difference modulo 97. */
  lemma EmbeddedNumbers(head: int, x: int, y: int, t: nat, tail: int)
    ensures Congruent(Shift(head + x, t) + tail, Shift(head + y, t) + tail) <==> Congruent(x, y)
  {
    ShiftSum(head + y, x - y, t);
    CongruentTest(x, y);
    CongruentTest(Shift(head + x, t) + tail, Shift(head + y, t) + tail);
    if (x - y) % 97 == 0 { ShiftKeepsMultiple(x - y, t); }
    if Shift(x - y, t) % 97 == 0 { CancelShift(x - y, t); }
  }

  lemma WorthOfThree(a: string, x: string, e: string, s: string, v: int, k: nat, p: int, n: nat, w: int, m: nat)
    requires Worth(a, v, k) && Worth(x, p, n) && Worth(e, w, m) && s == a + x + e
    ensures Worth(s, Shift(Shift(v, n) + p, m) + w, k + n + m)
  {
    WorthAppend(a, x, v, k, p, n);
    WorthAppend(a + x, e, Shift(v, n) + p, k + n, w, m);
  }

  /** Whether two texts that differ in one piece of the same width are congruent, that piece alone decides. */
  lemma PieceDecidesValue(a: string, x: string, y: string, e: string, s: string, t: string, p: int, q: int, n: nat)
    requires Alnum(a) && Alnum(e) && Worth(x, p, n) && Worth(y, q, n) && s == a + x + e && t == a + y + e
    ensures Alnum(s) && Alnum(t) && (Congruent(Value(s), Value(t)) <==> Congruent(p, q))
  {
    var v, k, w, m := Value(a), Width(a), Value(e), Width(e);
    var f, g := Shift(Shift(v, n) + p, m) + w, Shift(Shift(v, n) + q, m) + w;
    assert Worth(s, f, k + n + m) by { WorthOfThree(a, x, e, s, v, k, p, n, w, m); }
    assert Worth(t, g, k + n + m) by { WorthOfThree(a, y, e, t, v, k, q, n, w, m); }
    assert Congruent(f, g) <==> Congruent(p, q) by { EmbeddedNumbers(Shift(v, n), p, q, m, w); }
  }

  /** The value of `c b d`, where `b` is worth `w` in `m` digits and `d` is `u` digits wide. */
  ghost function PieceValue(c: int, w: int, m: nat, d: int, u: nat): int {
    Shift(Shift(c, m) + w, u) + d
  }

  lemma PieceWorth(c: char, b: string, d: char, x: string, w: int, m: nat)
    requires IsUpperAlnum(c) && IsUpperAlnum(d) && Worth(b, w, m) && x == [c] + b + [d]
    ensures Worth(x, PieceValue(CharValue(c), w, m, CharValue(d), |Mapped(d)|), |Mapped(c)| + m + |Mapped(d)|)
  {
    WorthOfChar(c);
    WorthOfChar(d);
    WorthOfThree([c], b, [d], x, CharValue(c), |Mapped(c)|, w, m, CharValue(d), |Mapped(d)|);
  }

  // ---------- Exchanged characters of one kind ----------

  predicate SameKind(c: char, d: char) {
    (IsDigit(c) && IsDigit(d)) || (IsUpper(c) && IsUpper(d))
  }

  lemma SameWidth(c: char, d: char)
    requires SameKind(c, d) && c != d
    ensures |Mapped(c)| == |Mapped(d)| && CharValue(c) != CharValue(d) && -25 <= CharValue(c) - CharValue(d) <= 25
  {}

  lemma SmallDifference(x: int, y: int)
    requires x != y && -97 < x - y < 97
    ensures !Congruent(x, y)
  {
    CongruentTest(x, y);
  }

  /** Two exchanged characters of one kind change the piece between them, however long it is. */
  lemma SwappedPiece(c: char, b: string, d: char, x: string, y: string, w: int, m: nat, u: nat)
    requires SameKind(c, d) && c != d && Worth(b, w, m) && |b| <= LONGEST && u == |Mapped(c)|
    requires x == [c] + b + [d] && y == [d] + b + [c]
    ensures Worth(x, PieceValue(CharValue(c), w, m, CharValue(d), u), u + m + u)
    ensures Worth(y, PieceValue(CharValue(d), w, m, CharValue(c), u), u + m + u)
    ensures !Congruent(PieceValue(CharValue(c), w, m, CharValue(d), u), PieceValue(CharValue(d), w, m, CharValue(c), u))
  {
    SameWidth(c, d);
    PieceWorth(c, b, d, x, w, m);
    PieceWorth(d, b, c, y, w, m);
    assert m + u < 96 by { assert m <= 2 * |b|; }
    SwapResidues(CharValue(c), CharValue(d), w, m, u);
  }

  lemma SwapResidues(x: int, y: int, w: int, m: nat, u: nat)
    requires x != y && -25 <= x - y <= 25 && 1 <= m + u < 96
    ensures !Congruent(PieceValue(x, w, m, y, u), PieceValue(y, w, m, x, u))
  {
    var delta := x - y;
    ShiftSum(y, delta, m);
    ShiftSum(Shift(y, m) + w, Shift(delta, m), u);
    ShiftShift(delta, m, u);
    CongruentTest(PieceValue(x, w, m, y, u), PieceValue(y, w, m, x, u));
    DifferenceShift(delta, m + u);
  }

  lemma DifferenceShift(delta: int, m: nat)
    requires delta != 0 && -25 <= delta <= 25 && 1 <= m < 96
    ensures (Shift(delta, m) - delta) % 97 != 0
  {
    ShiftScales(delta, m);
    MinusOne(Shift(1, m), delta);
    OrderOfTen(m);
    if (Shift(delta, m) - delta) % 97 == 0 {
      CancelDifference(delta, Shift(1, m) - 1);
      OneMore(Shift(1, m));
    }
  }

  lemma MinusOne(p: int, delta: int)
    ensures (p - 1) * delta == delta * p - delta
  {}

  lemma OneMore(p: int)
    requires (p - 1) % 97 == 0
    ensures p % 97 == 1
  {}

  /** The inverses modulo 97 of 1 to 25, the differences two digits or two letters can have. */
  const INVERSES: seq<nat> := [
    0, 1, 49, 65, 73, 39, 81, 14, 85, 54, 68, 53, 89, 15, 7, 13, 91, 40, 27, 46, 34, 37, 75, 38, 93, 66]

  lemma InverseWorks(k: nat)
    requires 1 <= k <= 25
    ensures k * INVERSES[k] == 97 * (k * INVERSES[k] / 97) + 1
  {
    if k <= 13 { FirstInverses(k); } else { LastInverses(k); }
  }

  lemma FirstInverses(k: nat)
    requires 1 <= k <= 13
    ensures k * INVERSES[k] % 97 == 1
  {
    if k <= 6 {
      assert k == 1 || k == 2 || k == 3 || k == 4 || k == 5 || k == 6;
    } else {
      assert k == 7 || k == 8 || k == 9 || k == 10 || k == 11 || k == 12 || k == 13;
    }
  }

  lemma LastInverses(k: nat)
    requires 14 <= k <= 25
    ensures k * INVERSES[k] % 97 == 1
  {
    if k <= 19 {
      assert k == 14 || k == 15 || k == 16 || k == 17 || k == 18 || k == 19;
    } else {
      assert k == 20 || k == 21 || k == 22 || k == 23 || k == 24 || k == 25;
    }
  }

  /** The difference of two characters of one kind is invertible modulo 97. */
  lemma CancelDifference(delta: int, x: int)
    requires delta != 0 && -25 <= delta <= 25 && x * delta % 97 == 0
    ensures x % 97 == 0
  {
    var k := if delta > 0 then delta else -delta;
    assert x * k % 97 == 0 by {
      if delta < 0 {
        Negated(x, delta);
      }
    }
    InverseWorks(k);
    CancelFactor(x, k, INVERSES[k], k * INVERSES[k] / 97);
  }

  lemma Negated(x: int, delta: int)
    requires x * delta % 97 == 0
    ensures x * -delta % 97 == 0
  {
    assert x * -delta == -(x * delta);
  }

  /** `inverse` is the inverse of `k`, so a multiple of `k` divisible by 97 was already divisible. */
  lemma CancelFactor(x: int, k: int, inverse: int, q: int)
    requires k * inverse == 97 * q + 1 && x * k % 97 == 0
    ensures x % 97 == 0
  {
    var t := x * k / 97;
    assert x * k == 97 * t;
    MulAssoc(x, k, inverse);
    MulAssoc(97, t, inverse);
    Distribute(97, q, 1, x);
    assert x * (k * inverse) == x + 97 * (q * x);
    assert x == 97 * (t * inverse - q * x);
  }

  // ---------- The detection theorems ----------

  /** Where position `i` of an IBAN of length `n` stands after the rotation. */
  function Rotated(i: nat, n: nat): nat
    requires i < n && 4 <= n
  {
    if i < 4 then n - 4 + i else i - 4
  }

  lemma NumberIsValue(s: string)
    requires IbanShape(s)
    ensures Alnum(Rotate(s)) && IbanNumber(s) == Value(Rotate(s))
  {
    ShapeIsAlnum(s);
    ValueOfExpansion(Rotate(s));
  }

  lemma NotBothAccepted(s: string, t: string)
    requires IbanShape(s) && IbanShape(t) ==>
               Alnum(Rotate(s)) && Alnum(Rotate(t)) && !Congruent(Value(Rotate(s)), Value(Rotate(t)))
    ensures !(Accepts(s) && Accepts(t))
  {
    if IbanShape(s) && IbanShape(t) {
      NumberIsValue(s);
      NumberIsValue(t);
      CongruentTest(IbanNumber(s), IbanNumber(t));
    }
  }

  /**
   One digit replaced by another digit, or one letter by another letter, anywhere in the IBAN: the
   original and the altered string are never both accepted.
   */
  lemma SubstitutionDetected(s: string, i: nat, c: char)
    requires i < |s| && SameKind(s[i], c) && s[i] != c
    ensures !(Accepts(s) && Accepts(s[i := c]))
  {
    if IbanShape(s) {
      ShapeIsAlnum(s);
      ReplaceInRotation(Rotate(s), Rotate(s[i := c]), Rotated(i, |s|), c);
    }
    NotBothAccepted(s, s[i := c]);
  }

  lemma ReplaceInRotation(r: string, r': string, p: nat, c: char)
    requires p < |r| && Alnum(r) && r' == r[p := c]
    requires SameKind(r[p], c) && r[p] != c
    ensures Alnum(r') && !Congruent(Value(r), Value(r'))
  {
    var a, e := r[..p], r[p + 1..];
    assert r == a + [r[p]] + e && r' == a + [c] + e;
    WorthOfChar(r[p]);
    WorthOfChar(c);
    SameWidth(r[p], c);
    PieceDecidesValue(a, [r[p]], [c], e, r, r', CharValue(r[p]), CharValue(c), |Mapped(c)|);
    SmallDifference(CharValue(r[p]), CharValue(c));
  }

  /**
   Any two distinct digits, or any two distinct letters, exchanged at any two positions, adjacent or
   not: the original and the altered string are never both accepted.
   */
  lemma TranspositionDetected(s: string, i: nat, j: nat)
    requires i < |s| && j < |s| && SameKind(s[i], s[j]) && s[i] != s[j]
    ensures !(Accepts(s) && Accepts(s[i := s[j]][j := s[i]]))
  {
    var t := s[i := s[j]][j := s[i]];
    if IbanShape(s) {
      ShapeIsAlnum(s);
      var p, q := Rotated(i, |s|), Rotated(j, |s|);
      if p < q {
        SwapInRotation(Rotate(s), Rotate(t), p, q);
      } else {
        SwapInRotation(Rotate(s), Rotate(t), q, p);
      }
    }
    NotBothAccepted(s, t);
  }

  lemma SwapInRotation(r: string, r': string, p: nat, q: nat)
    requires p < q < |r| <= LONGEST && Alnum(r) && r' == r[p := r[q]][q := r[p]]
    requires SameKind(r[p], r[q]) && r[p] != r[q]
    ensures Alnum(r') && !Congruent(Value(r), Value(r'))
  {
    var a, b, e := r[..p], r[p + 1..q], r[q + 1..];
    SwapSplits(r, r', p, q);
    PiecesApart(a, r[p], b, r[q], e, r, r', [r[p]] + b + [r[q]], [r[q]] + b + [r[p]]);
  }

  lemma SwapSplits(r: string, r': string, p: nat, q: nat)
    requires p < q < |r| && r' == r[p := r[q]][q := r[p]]
    ensures r == r[..p] + ([r[p]] + r[p + 1..q] + [r[q]]) + r[q + 1..]
    ensures r' == r[..p] + ([r[q]] + r[p + 1..q] + [r[p]]) + r[q + 1..]
  {}

  lemma PiecesApart(a: string, c: char, b: string, d: char, e: string, r: string, r': string, x: string, y: string)
    requires Alnum(a) && Alnum(b) && Alnum(e) && |b| <= LONGEST && SameKind(c, d) && c != d
    requires x == [c] + b + [d] && y == [d] + b + [c] && r == a + x + e && r' == a + y + e
    ensures Alnum(r) && Alnum(r') && !Congruent(Value(r), Value(r'))
  {
    var w, m, u := Value(b), Width(b), |Mapped(c)|;
    var p, q := PieceValue(CharValue(c), w, m, CharValue(d), u), PieceValue(CharValue(d), w, m, CharValue(c), u);
    assert Worth(x, p, u + m + u) && Worth(y, q, u + m + u) && !Congruent(p, q) by {
      SwappedPiece(c, b, d, x, y, w, m, u);
    }
    PieceDecidesValue(a, x, y, e, r, r', p, q, u + m + u);
  }

  /** Two digits, or two letters up to case. */
  predicate Confusable(c: char, d: char) {
    (IsDigit(c) && IsDigit(d)) || ((IsUpper(c) || IsLower(c)) && (IsUpper(d) || IsLower(d)))
  }

  /**
   As typed, with any spacing and case: one digit replaced by another digit, or one letter by a letter
   that differs by more than case. The original and the altered text are never both accepted.
   */
  lemma TypedSubstitutionDetected(u: Unicode, value: string, i: nat, c: char)
    requires i < |value| && Confusable(value[i], c) && Upper(value[i]) != Upper(c)
    ensures !(ValidIban(u, value) && ValidIban(u, value[i := c]))
  {
    var a, x, e := value[..i], value[i], value[i + 1..];
    assert value == a + [x] + e && value[i := c] == a + [c] + e;
    CompactAround(u, a, x, e);
    CompactAround(u, a, c, e);
    PartsSubstitutionDetected(Compact(u, a), Upper(x), Upper(c), Compact(u, e));
  }

  lemma PartsSubstitutionDetected(a: string, x: char, c: char, e: string)
    requires SameKind(x, c) && x != c
    ensures !(Accepts(a + [x] + e) && Accepts(a + [c] + e))
  {
    var s := a + [x] + e;
    assert s[|a|] == x && s[|a| := c] == a + [c] + e;
    SubstitutionDetected(s, |a|, c);
  }

  /**
   As typed: any two distinct digits, or any two letters that differ by more than case, exchanged are
   never both accepted.
   */
  lemma TypedTranspositionDetected(u: Unicode, value: string, i: nat, j: nat)
    requires i < |value| && j < |value| && Confusable(value[i], value[j]) && Upper(value[i]) != Upper(value[j])
    ensures !(ValidIban(u, value) && ValidIban(u, value[i := value[j]][j := value[i]]))
  {
    if i < j {
      TypedSwapDetected(u, value, i, j);
    } else {
      TypedSwapDetected(u, value, j, i);
      assert value[i := value[j]][j := value[i]] == value[j := value[i]][i := value[j]];
    }
  }

  lemma TypedSwapDetected(u: Unicode, value: string, i: nat, j: nat)
    requires i < j < |value| && Confusable(value[i], value[j]) && Upper(value[i]) != Upper(value[j])
    ensures !(ValidIban(u, value) && ValidIban(u, value[i := value[j]][j := value[i]]))
  {
    var a, x, b, y, e := value[..i], value[i], value[i + 1..j], value[j], value[j + 1..];
    FiveParts(value, i, j);
    SwapOfParts(u, a, x, b, y, e, value, value[i := y][j := x]);
  }

  /** A text around two of its characters, as it is and with the two exchanged. */
  lemma FiveParts(s: string, i: nat, j: nat)
    requires i < j < |s|
    ensures s == s[..i] + [s[i]] + (s[i + 1..j] + [s[j]] + s[j + 1..])
    ensures s[i := s[j]][j := s[i]] == s[..i] + [s[j]] + (s[i + 1..j] + [s[i]] + s[j + 1..])
  {}

  lemma SwapOfParts(u: Unicode, a: string, x: char, b: string, y: char, e: string, s: string, t: string)
    requires Confusable(x, y) && Upper(x) != Upper(y)
    requires s == a + [x] + (b + [y] + e) && t == a + [y] + (b + [x] + e)
    ensures !(ValidIban(u, s) && ValidIban(u, t))
  {
    CompactTwice(u, a, x, b, y, e);
    CompactTwice(u, a, y, b, x, e);
    PartsSwapDetected(Compact(u, a), Upper(x), Compact(u, b), Upper(y), Compact(u, e));
  }

  lemma PartsSwapDetected(a: string, x: char, b: string, y: char, e: string)
    requires SameKind(x, y) && x != y
    ensures !(Accepts(a + [x] + (b + [y] + e)) && Accepts(a + [y] + (b + [x] + e)))
  {
    var s, t, p, q := a + [x] + (b + [y] + e), a + [y] + (b + [x] + e), |a|, |a| + 1 + |b|;
    assert s[p] == x && s[q] == y && s[p := s[q]][q := s[p]] == t by { SwappedText(a, x, b, y, e); }
    TranspositionDetected(s, p, q);
  }

  lemma CompactTwice(u: Unicode, a: string, x: char, b: string, y: char, e: string)
    requires IsPlain(x) && IsPlain(y)
    ensures Compact(u, a + [x] + (b + [y] + e))
            == Compact(u, a) + [Upper(x)] + (Compact(u, b) + [Upper(y)] + Compact(u, e))
  {
    CompactAround(u, a, x, b + [y] + e);
    CompactAround(u, b, y, e);
  }

  lemma SwappedText(a: string, x: char, b: string, y: char, e: string)
    ensures var s, p, q := a + [x] + (b + [y] + e), |a|, |a| + 1 + |b|;
            s[p] == x && s[q] == y && s[p := y][q := x] == a + [y] + (b + [x] + e)
  {}

  // ---------- A letter exchanged with a digit ----------

  /**
   In the account part, a piece replaced by another of the same length and width: the pieces alone decide.
   Congruent ones are accepted alike, others never both.
   */
  lemma PieceDecides(head: string, x: string, y: string, tail: string, s: string, t: string, p: int, q: int, n: nat)
    requires |head| >= 4 && |x| == |y| && Worth(x, p, n) && Worth(y, q, n)
    requires s == head + x + tail && t == head + y + tail
    ensures if Congruent(p, q) then Accepts(s) <==> Accepts(t) else !(Accepts(s) && Accepts(t))
  {
    if IbanShape(s) { PieceKeepsShape(head, x, y, tail); }
    if IbanShape(t) { PieceKeepsShape(head, y, x, tail); }
    if IbanShape(s) && IbanShape(t) {
      assert s[..2] == t[..2];
      NumbersOfPieces(head, x, y, tail, s, t, p, q, n);
      SameOrApart(s, t);
    }
  }

  lemma SameOrApart(s: string, t: string)
    requires IbanShape(s) && IbanShape(t) && |s| == |t| && s[..2] == t[..2]
    ensures if Congruent(IbanNumber(s), IbanNumber(t)) then Accepts(s) <==> Accepts(t) else !(Accepts(s) && Accepts(t))
  {
    CongruentTest(IbanNumber(s), IbanNumber(t));
  }

  lemma PieceKeepsShape(head: string, x: string, y: string, tail: string)
    requires |head| >= 4 && |x| == |y| && Alnum(y) && IbanShape(head + x + tail)
    ensures IbanShape(head + y + tail)
  {
    var s, t := head + x + tail, head + y + tail;
    forall i | 4 <= i < |t| ensures IsUpperAlnum(t[i]) {
      assert t[i] == if |head| <= i < |head| + |y| then y[i - |head|] else s[i];
    }
  }

  lemma NumbersOfPieces(head: string, x: string, y: string, tail: string, s: string, t: string, p: int, q: int, n: nat)
    requires |head| >= 4 && Worth(x, p, n) && Worth(y, q, n)
    requires s == head + x + tail && t == head + y + tail && IbanShape(s) && IbanShape(t)
    ensures Congruent(IbanNumber(s), IbanNumber(t)) <==> Congruent(p, q)
  {
    var a, e := head[4..], tail + head[..4];
    var r, r' := a + x + e, a + y + e;
    assert IbanNumber(s) == Value(r) && Alnum(a) && Alnum(e) by { PieceRotated(head, x, tail, s, r); }
    assert IbanNumber(t) == Value(r') by { PieceRotated(head, y, tail, t, r'); }
    PieceDecidesValue(a, x, y, e, r, r', p, q, n);
  }

  lemma PieceRotated(head: string, x: string, tail: string, s: string, r: string)
    requires |head| >= 4 && s == head + x + tail && IbanShape(s) && r == head[4..] + x + (tail + head[..4])
    ensures Alnum(r) && IbanNumber(s) == Value(r) && Alnum(head[4..]) && Alnum(tail + head[..4])
  {
    NumberIsValue(s);
    assert Rotate(s) == r;
    AlnumParts(head[4..], x, tail + head[..4], r);
  }

  lemma AlnumParts(a: string, p: string, e: string, whole: string)
    requires Alnum(whole) && whole == a + p + e
    ensures Alnum(a) && Alnum(e)
  {
    assert forall i :: 0 <= i < |a| ==> a[i] == whole[i];
    assert forall i :: 0 <= i < |e| ==> e[i] == whole[|a + p| + i];
  }

  /**
   How far exchanging a letter worth `v` and a digit `d` moves the number, when what lies between them is
   worth `w` in `m` digits.
   */
  function Imbalance(v: int, d: int, w: int, m: nat): int {
    Shift(v, m + 1) - v - (Shift(d, m + 2) - d) - 90 * w
  }

  lemma ImbalanceOfPieces(v: int, d: int, w: int, m: nat)
    ensures PieceValue(v, w, m, d, 1) - PieceValue(d, w, m, v, 2) == Imbalance(v, d, w, m)
  {
    ShiftSum(Shift(v, m), w, 1);
    ShiftSum(Shift(d, m), w, 2);
    ShiftShift(v, m, 1);
    ShiftShift(d, m, 2);
    TwoDigitShift(w);
    assert Shift(w, 1) == 10 * w;
  }

  /**
   The exact condition for a letter and a digit exchanged anywhere in the account part, `between` lying
   between them: accepted alike when the exchange does not move the number modulo 97, never both otherwise.
   */
  lemma MixedSwapExactlyWhen(head: string, c: char, between: string, d: char, tail: string)
    requires |head| >= 4 && IsUpper(c) && IsDigit(d) && Alnum(between)
    ensures var s, t := head + ([c] + between + [d]) + tail, head + ([d] + between + [c]) + tail;
            if Imbalance(CharValue(c), DigitVal(d), Value(between), Width(between)) % 97 == 0
            then Accepts(s) <==> Accepts(t)
            else !(Accepts(s) && Accepts(t))
  {
    var forth, back := [c] + between + [d], [d] + between + [c];
    MixedPiecesDecide(head, c, between, d, tail, forth, back, head + forth + tail, head + back + tail,
                      Value(between), Width(between));
  }

  lemma MixedPiecesDecide(head: string, c: char, between: string, d: char, tail: string,
                          forth: string, back: string, s: string, t: string, w: int, m: nat)
    requires |head| >= 4 && IsUpper(c) && IsDigit(d) && Worth(between, w, m)
    requires forth == [c] + between + [d] && back == [d] + between + [c]
    requires s == head + forth + tail && t == head + back + tail
    ensures if Imbalance(CharValue(c), DigitVal(d), w, m) % 97 == 0
            then Accepts(s) <==> Accepts(t)
            else !(Accepts(s) && Accepts(t))
  {
    var v, x := CharValue(c), DigitVal(d);
    var p, q := PieceValue(v, w, m, x, 1), PieceValue(x, w, m, v, 2);
    assert Worth(forth, p, m + 3) by { PieceWorth(c, between, d, forth, w, m); }
    assert Worth(back, q, m + 3) by { PieceWorth(d, between, c, back, w, m); }
    assert Congruent(p, q) <==> Imbalance(v, x, w, m) % 97 == 0 by {
      ImbalanceOfPieces(v, x, w, m);
      CongruentTest(p, q);
    }
    PieceDecides(head, forth, back, tail, s, t, p, q, m + 3);
  }

  /**
   Side by side it is eleven that decides: the texts are accepted alike when the letter is worth eleven
   times the digit, that is for `B1`, `M2` and `X3`, and never both for any other letter and digit.
   */
  lemma AdjacentMixedSwapExactlyWhen(head: string, c: char, d: char, tail: string)
    requires |head| >= 4 && IsUpper(c) && IsDigit(d)
    ensures CharValue(c) == 11 * DigitVal(d) <==> [c, d] == "B1" || [c, d] == "M2" || [c, d] == "X3"
    ensures if CharValue(c) == 11 * DigitVal(d)
            then Accepts(head + [c, d] + tail) <==> Accepts(head + [d, c] + tail)
            else !(Accepts(head + [c, d] + tail) && Accepts(head + [d, c] + tail))
  {
    MixedSwapExactlyWhen(head, c, "", d, tail);
    assert [c] + "" + [d] == [c, d] && [d] + "" + [c] == [d, c];
    EasyImbalance(CharValue(c), DigitVal(d));
    ElevenTimes(c, d);
  }

  lemma ElevenTimes(c: char, d: char)
    requires IsUpper(c) && IsDigit(d)
    ensures CharValue(c) == 11 * DigitVal(d) <==> [c, d] == "B1" || [c, d] == "M2" || [c, d] == "X3"
  {
    assert [c, d] == "B1" <==> c == 'B' && d == '1';
    assert [c, d] == "M2" <==> c == 'M' && d == '2';
    assert [c, d] == "X3" <==> c == 'X' && d == '3';
  }

  lemma EasyImbalance(v: int, d: int)
    requires 10 <= v <= 35 && 0 <= d <= 9
    ensures Imbalance(v, d, 0, 0) % 97 == 0 <==> v == 11 * d
  {
    TwoDigitShift(d);
    assert Shift(v, 1) == 10 * v;
    NineTimes(v - 11 * d);
  }

  lemma NineTimes(z: int)
    requires -97 < z < 97
    ensures 9 * z % 97 == 0 <==> z == 0
  {
    if 9 * z % 97 == 0 { CancelDifference(9, z); }
  }

  /** Exchanged across the first four characters, a letter and a digit never leave an acceptable shape. */
  lemma MixedSwapOutsideAccount(s: string, i: nat, j: nat)
    requires i < |s| && j < |s| && IsUpper(s[i]) && IsDigit(s[j]) && (i < 4 || j < 4)
    ensures !(Accepts(s) && Accepts(s[i := s[j]][j := s[i]]))
  {
    var t := s[i := s[j]][j := s[i]];
    assert t[i] == s[j] && t[j] == s[i];
  }

  // ---------- Check digits ----------

  function Pair(n: nat): string
    requires n < 100
  {
    [DigitChar(n / 10), DigitChar(n % 10)]
  }

  lemma PairCounts(n: nat)
    requires n < 100
    ensures Alnum(Pair(n)) && Value(Pair(n)) == n && Width(Pair(n)) == 2
  {
    var p := Pair(n);
    assert "" + [p[0]] == [p[0]] && [p[0]] + [p[1]] == p;
    DigitLast("", p[0], [p[0]], 0, 0);
    DigitLast([p[0]], p[1], p, DigitVal(p[0]), 1);
  }

  /** The two check characters count as the plain number they spell. */
  lemma CheckPairValue(country: string, n: nat, account: string)
    requires n < 100 && |country| == 2 && Alnum(country) && Alnum(account)
    requires IbanShape(country + Pair(n) + account)
    ensures Alnum(account + country)
    ensures IbanNumber(country + Pair(n) + account) == 100 * Value(account + country) + n
  {
    var s, body := country + Pair(n) + account, account + country;
    NumberIsValue(s);
    assert Rotate(s) == body + Pair(n);
    PairCounts(n);
    ValueAppend(body, Pair(n));
    HundredShift(Value(body), 0);
  }

  /** The check pair the standard prescribes for a country and account part. */
  function CheckPair(country: string, account: string): nat
    requires Alnum(account + country)
  {
    98 - 100 * Value(account + country) % 97
  }

  /**
   For every country and every account part of the published length there is exactly one accepted
   check pair from 02 to 98.
   */
  lemma ExactlyOneCheckPair(country: string, account: string, n: nat)
    requires Published(country, |account| + 4) && Alnum(account)
    requires 2 <= n <= 98
    ensures |country| == 2 && Alnum(account + country)
    ensures Accepts(country + Pair(n) + account) <==> n == CheckPair(country, account)
    ensures 2 <= CheckPair(country, account) <= 98
  {
    CountriesAreLetters(country, |account| + 4);
    var s := country + Pair(n) + account;
    assert s[..2] == country;
    assert IbanShape(s);
    CheckPairValue(country, n, account);
    PairResidue(100 * Value(account + country), n);
  }

  lemma PairResidue(x: int, n: int)
    requires 2 <= n <= 98
    ensures (x + n) % 97 == 1 <==> n == 98 - x % 97
  {}

  predicate IsCountry(entry: (string, nat)) {
    |entry.0| == 2 && IsUpper(entry.0[0]) && IsUpper(entry.0[1]) && 15 <= entry.1 <= 31
  }

  lemma ListedCountries(i: nat)
    requires i < |COUNTRY_LENGTHS|
    ensures IsCountry(COUNTRY_LENGTHS[i])
  {}

  lemma {:induction false} LookupFindsCountry(i: nat, country: string)
    requires LengthFrom(i, country).Some?
    ensures IsCountry((country, LengthFrom(i, country).value))
    decreases |COUNTRY_LENGTHS| - i
  {
    if COUNTRY_LENGTHS[i].0 == country {
      ListedCountries(i);
    } else {
      LookupFindsCountry(i + 1, country);
    }
  }

  lemma CountriesAreLetters(country: string, length: nat)
    requires Published(country, length)
    ensures |country| == 2 && IsUpper(country[0]) && IsUpper(country[1]) && 15 <= length <= 31
  {
    LookupFindsCountry(0, country);
  }

  /** All accepted pairs from 00 to 99: the prescribed one, and its twin 97 away where there is one. */
  lemma AcceptedPairs(country: string, account: string, n: nat)
    requires Published(country, |account| + 4) && Alnum(account) && n < 100
    ensures |country| == 2 && Alnum(account + country)
    ensures var c := CheckPair(country, account);
            Accepts(country + Pair(n) + account)
            <==> n == c || (c == 2 && n == 99) || (c == 97 && n == 0) || (c == 98 && n == 1)
  {
    CountriesAreLetters(country, |account| + 4);
    var s := country + Pair(n) + account;
    assert s[..2] == country;
    CheckPairValue(country, n, account);
    AnyPairResidue(100 * Value(account + country), n);
  }

  lemma AnyPairResidue(x: int, n: int)
    requires 0 <= n < 100
    ensures var c := 98 - x % 97;
            (x + n) % 97 == 1 <==> n == c || (c == 2 && n == 99) || (c == 97 && n == 0) || (c == 98 && n == 1)
  {}

  /** The program also accepts the pair 97 above or below, which the standard's range excludes. */
  lemma PairsRepeatAfter97(country: string, account: string, n: nat)
    requires Published(country, |account| + 4) && Alnum(account)
    requires n <= 2
    ensures |country| == 2
    ensures Accepts(country + Pair(n) + account) <==> Accepts(country + Pair(n + 97) + account)
  {
    AcceptedPairs(country, account, n);
    AcceptedPairs(country, account, n + 97);
  }

  /** A second pair is accepted for exactly those accounts whose prescribed pair is 02, 97 or 98. */
  lemma SecondPairExactlyWhen(country: string, account: string)
    requires Published(country, |account| + 4) && Alnum(account)
    ensures |country| == 2 && Alnum(account + country)
    ensures var c := CheckPair(country, account);
            (exists n: nat :: n < 100 && n != c && Accepts(country + Pair(n) + account))
            <==> c == 2 || c == 97 || c == 98
  {
    CountriesAreLetters(country, |account| + 4);
    var c := CheckPair(country, account);
    if c == 2 || c == 97 || c == 98 {
      AcceptedPairs(country, account, if c == 2 then 99 else c - 97);
    }
    forall n: nat | n < 100 && n != c && Accepts(country + Pair(n) + account) ensures c == 2 || c == 97 || c == 98 {
      AcceptedPairs(country, account, n);
    }
  }

  /** It happens: AD02 0000 0000 0000 0000 0085 and AD99 0000 0000 0000 0000 0085 both pass. */
  lemma TwoPairsAccepted()
    ensures Accepts("AD" + Pair(2) + "00000000000000000085") && Accepts("AD" + Pair(99) + "00000000000000000085")
  {
    var account := "00000000000000000085";
    assert Published("AD", 24);
    assert Worth(account, 85, 20) by {
      LeadingZeros(account, 18);
      assert account[..19] == account[..18] + ['8'] && account == account[..19] + ['5'];
      DigitLast(account[..18], '8', account[..19], 0, 18);
      DigitLast(account[..19], '5', account, 8, 19);
    }
    ValueOfLast(account, 'A');
    ValueOfLast(account + ['A'], 'D');
    assert account + ['A'] + ['D'] == account + "AD";
    TwoDigitShift(85);
    TwoDigitShift(8510);
    assert CheckPair("AD", account) == 2;
    AcceptedPairs("AD", account, 2);
    AcceptedPairs("AD", account, 99);
  }

  lemma TwoDigitShift(x: int)
    ensures Shift(x, 2) == 100 * x
  {
    HundredShift(x, 0);
  }

  lemma {:induction false} LeadingZeros(s: string, n: nat)
    requires n <= |s| && forall i :: 0 <= i < n ==> s[i] == '0'
    ensures Worth(s[..n], 0, n)
  {
    if n > 0 {
      LeadingZeros(s, n - 1);
      assert s[..n] == s[..n - 1] + ['0'];
      DigitLast(s[..n - 1], '0', s[..n], 0, n - 1);
    }
  }
}
