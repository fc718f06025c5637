/**
 What a payout handle has to look like, rail by rail, in the terms of the schemes themselves: lengths,
 characters and check sums. The validation of `Payouts` accepts exactly these handles, and reports of
 every other field why it is none.
 */
module PayoutForms {
  import opened Wrappers
  import opened Text
  import opened Normalization
  import opened Iban
  import opened Payouts
  import opened PayoutTheorems

  // ---------- Forms ----------

  predicate Figure(c: char) { '0' <= c <= '9' }
  predicate Capital(c: char) { 'A' <= c <= 'Z' }
  predicate Latin(c: char) { 'A' <= c <= 'Z' || 'a' <= c <= 'z' }

  predicate Figures(s: string, min: nat, max: nat) {
    min <= |s| <= max && forall i :: 0 <= i < |s| ==> Figure(s[i])
  }

  /** A letter, then letters, marks, spaces, dots, apostrophes and hyphens; 2 to 140 in all. */
  predicate HolderForm(u: Unicode, s: string) {
    && 2 <= |s| <= 140 && u.isLetter(s[0])
    && forall i :: 1 <= i < |s| ==>
         u.isLetter(s[i]) || u.isMark(s[i]) || s[i] == ' ' || s[i] == '.' || s[i] == '\'' || s[i] == '-'
  }

  predicate UpiName(s: string) {
    && 2 <= |s| <= 64 && (Latin(s[0]) || Figure(s[0]))
    && forall i :: 1 <= i < |s| ==> Latin(s[i]) || Figure(s[i]) || s[i] == '.' || s[i] == '_' || s[i] == '-'
  }

  predicate UpiProvider(s: string) {
    && 2 <= |s| <= 64 && Latin(s[0])
    && forall i :: 1 <= i < |s| ==> Latin(s[i]) || Figure(s[i]) || s[i] == '.' || s[i] == '-'
  }

  /** A name and a provider with an at sign between them. */
  ghost predicate UpiForm(s: string) {
    exists at :: 0 <= at < |s| && s[at] == '@' && UpiName(s[..at]) && UpiProvider(s[at + 1..])
  }

  /** Four bank letters, a zero, six characters for the branch. */
  predicate IfscForm(s: string) {
    && |s| == 11 && Capital(s[0]) && Capital(s[1]) && Capital(s[2]) && Capital(s[3]) && s[4] == '0'
    && forall i :: 5 <= i < 11 ==> Capital(s[i]) || Figure(s[i])
  }

  predicate IbanForm(s: string) {
    && 15 <= |s| <= 34 && Capital(s[0]) && Capital(s[1]) && Figure(s[2]) && Figure(s[3])
    && forall i :: 4 <= i < |s| ==> Capital(s[i]) || Figure(s[i])
  }

  function D(s: string, i: nat): int
    requires i < |s| && Figure(s[i])
  {
    s[i] as int - '0' as int
  }

  /**
   An IBAN of a euro-area country, as long as that country's are, whose check digits together with the
   account and the country behind them leave one modulo 97.
   */
  predicate EuroIban(s: string) {
    && IbanForm(s) && s[..2] in SEPA_EUR_COUNTRIES && Published(s[..2], |s|)
    && Alnum(s[4..] + s[..2]) && (100 * Value(s[4..] + s[..2]) + 10 * D(s, 2) + D(s, 3)) % 97 == 1
  }

  /** A Federal Reserve district from 00 to 12 or 21 to 32, and a sum with the weights 3, 7, 1 divisible by ten. */
  predicate AbaForm(s: string) {
    && Figures(s, 9, 9)
    && (10 * D(s, 0) + D(s, 1) <= 12 || 21 <= 10 * D(s, 0) + D(s, 1) <= 32)
    && (3 * (D(s, 0) + D(s, 3) + D(s, 6)) + 7 * (D(s, 1) + D(s, 4) + D(s, 7)) + D(s, 2) + D(s, 5) + D(s, 8)) % 10 == 0
  }

  /** Bank code and account, weighted 3, 7, 3 over and over, together with the last digit divisible by ten. */
  predicate NubanForm(a: string, b: string) {
    && Figures(a, 10, 10) && Figures(b, 3, 3)
    && (3 * (D(b, 0) + D(b, 2) + D(a, 0) + D(a, 2) + D(a, 3) + D(a, 5) + D(a, 6) + D(a, 8))
        + 7 * (D(b, 1) + D(a, 1) + D(a, 4) + D(a, 7)) + D(a, 9)) % 10 == 0
  }

  // ---------- Rails ----------

  predicate Named(rail: Rail, text: string) {
    match rail
    case Upi => text == "upi"
    case Imps => text == "imps"
    case Neft => text == "neft"
    case SepaInstant => text == "sepa_instant"
    case SepaCredit => text == "sepa_credit"
    case Ach => text == "ach"
    case Wire => text == "wire"
    case Nip => text == "nip"
  }

  function FieldsOf(rail: Rail): set<FieldName> {
    match rail
    case Upi => {UpiId, AccountHolder}
    case Imps => {AccountNumber, Ifsc, AccountHolder}
    case Neft => {AccountNumber, Ifsc, AccountHolder}
    case SepaInstant => {IbanField, AccountHolder}
    case SepaCredit => {IbanField, AccountHolder}
    case Ach => {AccountNumber, RoutingNumber, AccountHolder}
    case Wire => {AccountNumber, RoutingNumber, AccountHolder}
    case Nip => {AccountNumber, BankCode, AccountHolder}
  }

  function AccountDigits(rail: Rail): (nat, nat) {
    match rail
    case Ach => (4, 17)
    case Wire => (4, 17)
    case Nip => (10, 10)
    case _ => (9, 18)
  }

  /** The form of one field. */
  ghost predicate FieldForm(u: Unicode, rail: Rail, name: FieldName, s: string) {
    match name
    case AccountHolder => HolderForm(u, s)
    case UpiId => UpiForm(s)
    case Ifsc => IfscForm(s)
    case IbanField => IbanForm(s)
    case AccountNumber => Figures(s, AccountDigits(rail).0, AccountDigits(rail).1)
    case RoutingNumber => Figures(s, 9, 9)
    case BankCode => Figures(s, 3, 3)
  }

  /** The longest entry a field takes, in UTF-16 units. */
  function Limit(rail: Rail, name: FieldName): nat {
    match name
    case AccountHolder => 140
    case UpiId => 100
    case Ifsc => 11
    case IbanField => 34
    case AccountNumber => AccountDigits(rail).1
    case RoutingNumber => 9
    case BankCode => 3
  }

  /** What the fields of a rail have to satisfy beyond their form. */
  ghost predicate SchemeForm(rail: Rail, fields: map<FieldName, string>) {
    match rail
    case SepaInstant => IbanField in fields && EuroIban(fields[IbanField])
    case SepaCredit => IbanField in fields && EuroIban(fields[IbanField])
    case Ach => RoutingNumber in fields && AbaForm(fields[RoutingNumber])
    case Wire => RoutingNumber in fields && AbaForm(fields[RoutingNumber])
    case Nip => AccountNumber in fields && BankCode in fields && NubanForm(fields[AccountNumber], fields[BankCode])
    case _ => true
  }

  /** How a field is normalised: names and UPI ids are tidied, codes compacted, numbers stripped to digits. */
  function Normal(u: Unicode, name: FieldName, raw: map<FieldName, string>): string {
    var text := if name in raw then raw[name] else "";
    match name
    case AccountHolder => Normalize(u, text, TrimSpaces)
    case UpiId => Normalize(u, text, TrimSpaces)
    case Ifsc => Normalize(u, text, UpperCompact)
    case IbanField => Normalize(u, text, UpperCompact)
    case _ => Normalize(u, text, DigitsOnly)
  }

  predicate IsAstral(c: char) { c as int >= 0x10000 }

  /** The length of a text in UTF-16 units. */
  function Units(s: string): nat { |s| + |Keep(s, IsAstral)| }

  // ---------- Shapes are forms ----------

  lemma {:induction false} UnitsAreUtf16(s: string)
    ensures Units(s) == Utf16Length(s)
    decreases |s|
  {
    if s != "" {
      UnitsAreUtf16(s[1..]);
    }
  }

  lemma UpiShapeExactly(s: string)
    ensures UpiShape(s) <==> UpiForm(s)
  {
    if UpiShape(s) {
      var parts := SplitOn(s, '@');
      JoinSplit(s, '@');
      assert parts[1..] == [parts[1]];
      UpiParts(s, |parts[0]|, parts[0], parts[1]);
    }
    if at :| 0 <= at < |s| && s[at] == '@' && UpiName(s[..at]) && UpiProvider(s[at + 1..]) {
      UpiParts(s, at, s[..at], s[at + 1..]);
    }
  }

  /** A text with one at sign and its two parts. */
  lemma UpiParts(s: string, at: nat, name: string, provider: string)
    requires at == |name| && s == name + ['@'] + provider && Without(name, '@') && Without(provider, '@')
    ensures s[at] == '@' && s[..at] == name && s[at + 1..] == provider
    ensures SplitOn(s, '@') == [name, provider]
    ensures UpiShape(s) <==> UpiName(name) && UpiProvider(provider)
  {
    SplitFirst(name, '@', provider);
    SplitSingle(provider, '@');
  }

  lemma IfscShapeExactly(s: string)
    ensures IfscShape(s) <==> IfscForm(s)
  {}

  /** The fields a rail lists. */
  lemma Listed(rail: Rail, f: FieldSpec)
    requires f in SpecOf(rail).fields
    ensures match rail
            case Upi => f == UPI_FIELD || f == HOLDER_FIELD
            case Imps => f == INDIAN_ACCOUNT_FIELD || f == IFSC_FIELD || f == HOLDER_FIELD
            case Neft => f == INDIAN_ACCOUNT_FIELD || f == IFSC_FIELD || f == HOLDER_FIELD
            case SepaInstant => f == IBAN_FIELD || f == HOLDER_FIELD
            case SepaCredit => f == IBAN_FIELD || f == HOLDER_FIELD
            case Ach => f == US_ACCOUNT_FIELD || f == ABA_FIELD || f == HOLDER_FIELD
            case Wire => f == US_ACCOUNT_FIELD || f == ABA_FIELD || f == HOLDER_FIELD
            case Nip => f == NUBAN_FIELD || f == NG_BANK_CODE_FIELD || f == HOLDER_FIELD
  {}

  /** A field spec describes the field of its name: its form, its limit and its normalisation. */
  ghost predicate Describes(u: Unicode, rail: Rail, f: FieldSpec) {
    && f.maxLength == Limit(rail, f.name)
    && (forall s :: Matches(u, f.pattern, s) <==> FieldForm(u, rail, f.name, s))
    && forall raw :: FieldValue(u, f, raw) == Normal(u, f.name, raw)
  }

  lemma TextFields(u: Unicode, rail: Rail)
    ensures Describes(u, rail, HOLDER_FIELD) && Describes(u, rail, UPI_FIELD)
  {
    forall s ensures Matches(u, UPI_FIELD.pattern, s) <==> FieldForm(u, rail, UpiId, s) { UpiShapeExactly(s); }
  }

  lemma CodeFields(u: Unicode, rail: Rail)
    ensures Describes(u, rail, IFSC_FIELD) && Describes(u, rail, IBAN_FIELD)
  {
    forall s ensures Matches(u, IFSC_FIELD.pattern, s) <==> FieldForm(u, rail, Ifsc, s) { IfscShapeExactly(s); }
  }

  lemma NumberField(u: Unicode, rail: Rail, f: FieldSpec)
    requires f.transform == DigitsOnly && f.maxLength == Limit(rail, f.name)
    requires f.name == RoutingNumber ==> f.pattern == DigitsPattern(9, 9)
    requires f.name == BankCode ==> f.pattern == DigitsPattern(3, 3)
    requires f.name == AccountNumber ==> f.pattern == DigitsPattern(AccountDigits(rail).0, AccountDigits(rail).1)
    requires f.name == RoutingNumber || f.name == BankCode || f.name == AccountNumber
    ensures Describes(u, rail, f)
  {}

  lemma CatalogueDescribes(u: Unicode, rail: Rail, f: FieldSpec)
    requires f in SpecOf(rail).fields
    ensures Describes(u, rail, f)
  {
    Listed(rail, f);
    if f == HOLDER_FIELD || f == UPI_FIELD {
      TextFields(u, rail);
    } else if f == IFSC_FIELD || f == IBAN_FIELD {
      CodeFields(u, rail);
    } else {
      NumberField(u, rail, f);
    }
  }

  lemma NamesOfTwo(a: FieldSpec, b: FieldSpec)
    ensures Names([a, b]) == {a.name, b.name}
  {
    var specs := [a, b];
    assert specs[0].name == a.name && specs[1].name == b.name;
  }

  lemma NamesOfThree(a: FieldSpec, b: FieldSpec, c: FieldSpec)
    ensures Names([a, b, c]) == {a.name, b.name, c.name}
  {
    var specs := [a, b, c];
    assert specs[0].name == a.name && specs[1].name == b.name && specs[2].name == c.name;
  }

  lemma CatalogueNames(rail: Rail)
    ensures Names(SpecOf(rail).fields) == FieldsOf(rail)
  {
    match rail
    case Upi => NamesOfTwo(UPI_FIELD, HOLDER_FIELD);
    case Imps => NamesOfThree(INDIAN_ACCOUNT_FIELD, IFSC_FIELD, HOLDER_FIELD);
    case Neft => NamesOfThree(INDIAN_ACCOUNT_FIELD, IFSC_FIELD, HOLDER_FIELD);
    case SepaInstant => NamesOfTwo(IBAN_FIELD, HOLDER_FIELD);
    case SepaCredit => NamesOfTwo(IBAN_FIELD, HOLDER_FIELD);
    case Ach => NamesOfThree(US_ACCOUNT_FIELD, ABA_FIELD, HOLDER_FIELD);
    case Wire => NamesOfThree(US_ACCOUNT_FIELD, ABA_FIELD, HOLDER_FIELD);
    case Nip => NamesOfThree(NUBAN_FIELD, NG_BANK_CODE_FIELD, HOLDER_FIELD);
  }

  /** The shape check of a field passes exactly for texts of its form within its limit. */
  lemma FieldPassesExactlyWhen(u: Unicode, rail: Rail, f: FieldSpec, s: string)
    requires f in SpecOf(rail).fields
    ensures FieldProblem(u, f, s).None? <==> Units(s) <= Limit(rail, f.name) && FieldForm(u, rail, f.name, s)
  {
    CatalogueDescribes(u, rail, f);
    UnitsAreUtf16(s);
    if FieldForm(u, rail, f.name, s) { FormsAreNotEmpty(u, rail, f.name, s); }
  }

  lemma FormsAreNotEmpty(u: Unicode, rail: Rail, name: FieldName, s: string)
    requires FieldForm(u, rail, name, s)
    ensures s != ""
  {}

  lemma {:induction false} FirstNamed(rails: seq<Rail>, text: string, rail: Rail)
    requires rail in rails && RailText(rail) == text
    ensures FindRailFrom(rails, text).Some?
    decreases |rails|
  {
    if RailText(rails[0]) != text {
      FirstNamed(rails[1..], text, rail);
    }
  }

  lemma {:induction false} FoundIsNamed(rails: seq<Rail>, text: string)
    ensures FindRailFrom(rails, text).Some? ==> RailText(FindRailFrom(rails, text).value) == text
    decreases |rails|
  {
    if rails != [] {
      FoundIsNamed(rails[1..], text);
    }
  }

  /** The rail of a text is the one with that name. */
  lemma FoundExactlyWhen(text: string, rail: Rail)
    ensures FindPayoutRail(text) == Some(rail) <==> Named(rail, text)
  {
    FoundIsNamed(ALL_RAILS, text);
    if Named(rail, text) {
      EveryRailIsListed(rail);
      FirstNamed(ALL_RAILS, text, rail);
    }
  }

  lemma EveryRailIsListed(rail: Rail)
    ensures rail in ALL_RAILS
  {
    var i := match rail
      case Upi => 0
      case Imps => 1
      case Neft => 2
      case SepaInstant => 3
      case SepaCredit => 4
      case Ach => 5
      case Wire => 6
      case Nip => 7;
    assert ALL_RAILS[i] == rail;
  }

  // ---------- Schemes ----------

  /** Three weights and three digits taken off a sum. */
  lemma WeightedThree(weights: seq<nat>, s: string, r: nat)
    requires 3 <= |weights| <= |s| && AllDigits(s) && weights[0] == 3 && weights[1] == 7 && weights[2] == r
    ensures WeightedSum(weights, s) == 3 * D(s, 0) + 7 * D(s, 1) + r * D(s, 2) + WeightedSum(weights[3..], s[3..])
  {
    var w, t := weights[1..][1..], s[1..][1..];
    assert WeightedSum(weights, s) == 3 * DigitVal(s[0]) + WeightedSum(weights[1..], s[1..]);
    assert WeightedSum(weights[1..], s[1..]) == 7 * DigitVal(s[1]) + WeightedSum(w, t);
    assert WeightedSum(w, t) == r * DigitVal(s[2]) + WeightedSum(w[1..], t[1..]);
    assert w[1..] == weights[3..] && t[1..] == s[3..];
  }

  lemma AbaSum(s: string)
    requires Figures(s, 9, 9)
    ensures AllDigits(s)
    ensures WeightedSum(ABA_WEIGHTS, s)
            == 3 * (D(s, 0) + D(s, 3) + D(s, 6)) + 7 * (D(s, 1) + D(s, 4) + D(s, 7)) + D(s, 2) + D(s, 5) + D(s, 8)
  {
    WeightedThree(ABA_WEIGHTS, s, 1);
    WeightedThree(ABA_WEIGHTS[3..], s[3..], 1);
    assert ABA_WEIGHTS[3..][3..] == ABA_WEIGHTS[6..] && s[3..][3..] == s[6..];
    WeightedThree(ABA_WEIGHTS[6..], s[6..], 1);
    assert ABA_WEIGHTS[6..][3..] == [];
  }

  /** The routing check is the published one. */
  lemma AbaExactlyWhen(s: string)
    requires Figures(s, 9, 9)
    ensures ValidAbaRouting(s) <==> AbaForm(s)
  {
    AbaSum(s);
    assert Keep(s, IsDigit) == s;
  }

  lemma NubanSum(a: string, b: string, s: string)
    requires Figures(a, 10, 10) && Figures(b, 3, 3) && s == b + a[..9]
    ensures AllDigits(s) && |s| == 12
    ensures WeightedSum(NUBAN_WEIGHTS, s)
            == 3 * (D(b, 0) + D(b, 2) + D(a, 0) + D(a, 2) + D(a, 3) + D(a, 5) + D(a, 6) + D(a, 8))
               + 7 * (D(b, 1) + D(a, 1) + D(a, 4) + D(a, 7))
  {
    NubanWeights(s);
    assert forall i :: 0 <= i < 12 ==> s[i] == if i < 3 then b[i] else a[i - 3];
  }

  lemma NubanWeights(s: string)
    requires Figures(s, 12, 12)
    ensures AllDigits(s)
    ensures WeightedSum(NUBAN_WEIGHTS, s)
            == 3 * (D(s, 0) + D(s, 2) + D(s, 3) + D(s, 5) + D(s, 6) + D(s, 8) + D(s, 9) + D(s, 11))
               + 7 * (D(s, 1) + D(s, 4) + D(s, 7) + D(s, 10))
  {
    WeightedThree(NUBAN_WEIGHTS, s, 3);
    WeightedThree(NUBAN_WEIGHTS[3..], s[3..], 3);
    assert NUBAN_WEIGHTS[3..][3..] == NUBAN_WEIGHTS[6..] && s[3..][3..] == s[6..];
    WeightedThree(NUBAN_WEIGHTS[6..], s[6..], 3);
    assert NUBAN_WEIGHTS[6..][3..] == NUBAN_WEIGHTS[9..] && s[6..][3..] == s[9..];
    WeightedThree(NUBAN_WEIGHTS[9..], s[9..], 3);
    assert NUBAN_WEIGHTS[9..][3..] == [];
  }

  /** The NUBAN check is the published one. */
  lemma NubanExactlyWhen(a: string, b: string)
    requires Figures(a, 10, 10) && Figures(b, 3, 3)
    ensures ValidNuban(a, b) <==> NubanForm(a, b)
  {
    NubanSum(a, b, b + a[..9]);
    assert Keep(a, IsDigit) == a && Keep(b, IsDigit) == b;
    ClosingDigit(WeightedSum(NUBAN_WEIGHTS, b + a[..9]), D(a, 9));
  }

  lemma ClosingDigit(sum: nat, d: int)
    requires 0 <= d <= 9
    ensures CheckDigit(sum) == d <==> (sum + d) % 10 == 0
  {}

  /** The IBAN of a euro-area payout: the published length, and check digits that fit account and country. */
  lemma EuroIbanExactlyWhen(s: string)
    requires IbanForm(s)
    ensures Accepts(s) && s[..2] in SEPA_EUR_COUNTRIES <==> EuroIban(s)
  {
    var n := 10 * DigitVal(s[2]) + DigitVal(s[3]);
    NumberOfParts(s, s[..2], s[4..], n);
  }

  lemma NumberOfParts(s: string, country: string, account: string, n: nat)
    requires IbanForm(s) && country == s[..2] && account == s[4..] && n == 10 * D(s, 2) + D(s, 3)
    ensures IbanShape(s) && Alnum(account + country) && IbanNumber(s) == 100 * Value(account + country) + n
  {
    assert s == country + Pair(n) + account;
    CheckPairValue(country, n, account);
  }

  /** Fields of a rail, each in its form. */
  ghost predicate Formed(u: Unicode, rail: Rail, fields: map<FieldName, string>) {
    fields.Keys == FieldsOf(rail) && forall name :: name in fields ==> FieldForm(u, rail, name, fields[name])
  }

  /** Every field is the normalised entry. */
  ghost predicate Entered(u: Unicode, raw: map<FieldName, string>, fields: map<FieldName, string>) {
    forall name :: name in fields ==> fields[name] == Normal(u, name, raw)
  }

  /** Fields in form, with nothing said about how they were entered. */
  ghost predicate PartlyFormed(u: Unicode, rail: Rail, good: map<FieldName, string>) {
    && good.Keys <= FieldsOf(rail)
    && (forall name :: name in good ==> FieldForm(u, rail, name, good[name]))
    && (UpiId in good ==> ValidUpiId(u, good[UpiId]))
  }

  /** The field whose scheme check can fail for a field in form. */
  function Checked(rail: Rail): FieldName {
    match rail
    case SepaInstant => IbanField
    case SepaCredit => IbanField
    case Ach => RoutingNumber
    case Wire => RoutingNumber
    case Nip => AccountNumber
    case _ => AccountHolder
  }

  /** The scheme check of a field, in the terms of the scheme. */
  ghost predicate JudgedField(u: Unicode, rail: Rail, fields: map<FieldName, string>, name: FieldName)
    requires name in fields
  {
    var s := fields[name];
    match name
    case UpiId => ValidUpiId(u, s)
    case Ifsc => ValidIfsc(u, s)
    case IbanField =>
      (ValidIban(u, s) <==> Accepts(s)) && (SepaEurIban(u, s) <==> EuroIban(s)) && (EuroIban(s) ==> Accepts(s))
    case RoutingNumber => ValidAbaRouting(s) <==> AbaForm(s)
    case AccountNumber =>
      rail == Nip && BankCode in fields ==> (ValidNuban(s, fields[BankCode]) <==> NubanForm(s, fields[BankCode]))
    case _ => true
  }

  lemma FormIsJudged(u: Unicode, rail: Rail, fields: map<FieldName, string>, name: FieldName)
    requires PartlyFormed(u, rail, fields) && name in fields
    ensures JudgedField(u, rail, fields, name)
  {
    match name
    case Ifsc => IfscPasses(u, fields[Ifsc]);
    case IbanField => IbanPasses(u, fields[IbanField]);
    case RoutingNumber => AbaExactlyWhen(fields[RoutingNumber]);
    case AccountNumber =>
      if rail == Nip && BankCode in fields { NubanExactlyWhen(fields[AccountNumber], fields[BankCode]); }
    case _ =>
  }

  lemma RailOf(rail: Rail)
    ensures SpecOf(rail).rail == rail && (SpecOf(rail).currency == EUR <==> rail == SepaInstant || rail == SepaCredit)
  {}

  /** Why a field in form is reported by its scheme; `good` holds the fields in form. */
  ghost predicate SchemeReason(rail: Rail, good: map<FieldName, string>, name: FieldName, problem: Problem) {
    && name in good
    && match problem {
         case IbanCheckFailed => name == IbanField && !Accepts(good[name])
         case IbanOutsideSepa => name == IbanField && Accepts(good[name]) && !EuroIban(good[name])
         case AbaCheckFailed => name == RoutingNumber && !AbaForm(good[name])
         case NubanCheckFailed =>
           name == AccountNumber && rail == Nip && BankCode in good && !NubanForm(good[name], good[BankCode])
         case _ => false
       }
  }

  lemma IbanProblemIs(u: Unicode, spec: RailSpec, good: map<FieldName, string>, s: string, problem: Problem)
    requires spec.currency == EUR && IbanField in good && good[IbanField] == s
    requires (ValidIban(u, s) <==> Accepts(s)) && (SepaEurIban(u, s) <==> EuroIban(s)) && (EuroIban(s) ==> Accepts(s))
    ensures SchemeProblem(u, spec, good, IbanField) == Some(problem) <==>
            || (problem == IbanCheckFailed && !Accepts(s))
            || (problem == IbanOutsideSepa && Accepts(s) && !EuroIban(s))
  {}

  lemma NumberProblemIs(u: Unicode, rail: Rail, spec: RailSpec, good: map<FieldName, string>, name: FieldName,
                        problem: Problem)
    requires spec.rail == rail && (name == RoutingNumber || name == AccountNumber)
    requires name in good ==> JudgedField(u, rail, good, name)
    ensures SchemeProblem(u, spec, good, name) == Some(problem) <==> SchemeReason(rail, good, name, problem)
  {}

  lemma SchemeProblemIs(u: Unicode, rail: Rail, spec: RailSpec, good: map<FieldName, string>, name: FieldName,
                        problem: Problem)
    requires spec.rail == rail && (spec.currency == EUR <==> rail == SepaInstant || rail == SepaCredit)
    requires good.Keys <= FieldsOf(rail) && (name in good ==> JudgedField(u, rail, good, name))
    ensures SchemeProblem(u, spec, good, name) == Some(problem) <==> SchemeReason(rail, good, name, problem)
  {
    if name == IbanField {
      if name in good { IbanProblemIs(u, spec, good, good[name], problem); }
    } else if name == RoutingNumber || name == AccountNumber {
      NumberProblemIs(u, rail, spec, good, name, problem);
    }
  }

  /** No scheme check fails on the fields of a rail exactly when the handle satisfies its scheme. */
  lemma SchemesPassExactlyWhen(u: Unicode, rail: Rail, fields: map<FieldName, string>)
    requires PartlyFormed(u, rail, fields) && fields.Keys == FieldsOf(rail)
    ensures (forall name :: SchemeProblem(u, SpecOf(rail), fields, name).None?) <==> SchemeForm(rail, fields)
  {
    var spec := SpecOf(rail);
    RailOf(rail);
    forall name, problem
      ensures SchemeProblem(u, spec, fields, name) == Some(problem) <==> SchemeReason(rail, fields, name, problem)
    {
      if name in fields { FormIsJudged(u, rail, fields, name); }
      SchemeProblemIs(u, rail, spec, fields, name, problem);
    }
    NoReasonExactlyWhen(rail, fields);
    if name :| SchemeProblem(u, spec, fields, name).Some? {
      assert SchemeReason(rail, fields, name, SchemeProblem(u, spec, fields, name).value);
    }
  }

  lemma NoReasonExactlyWhen(rail: Rail, fields: map<FieldName, string>)
    requires fields.Keys == FieldsOf(rail)
    ensures (forall name, problem :: !SchemeReason(rail, fields, name, problem)) <==> SchemeForm(rail, fields)
  {
    if !SchemeForm(rail, fields) {
      match rail
      case SepaInstant => NotEuro(rail, fields);
      case SepaCredit => NotEuro(rail, fields);
      case Ach => assert SchemeReason(rail, fields, RoutingNumber, AbaCheckFailed);
      case Wire => assert SchemeReason(rail, fields, RoutingNumber, AbaCheckFailed);
      case Nip => assert SchemeReason(rail, fields, AccountNumber, NubanCheckFailed);
    } else if name, problem :| SchemeReason(rail, fields, name, problem) {
      EuroIsAccepted(fields);
    }
  }

  lemma NotEuro(rail: Rail, fields: map<FieldName, string>)
    requires IbanField in fields && !EuroIban(fields[IbanField])
    ensures exists problem :: SchemeReason(rail, fields, IbanField, problem)
  {
    if Accepts(fields[IbanField]) {
      assert SchemeReason(rail, fields, IbanField, IbanOutsideSepa);
    } else {
      assert SchemeReason(rail, fields, IbanField, IbanCheckFailed);
    }
  }

  lemma EuroIsAccepted(fields: map<FieldName, string>)
    ensures IbanField in fields && EuroIban(fields[IbanField]) ==> Accepts(fields[IbanField])
  {
    if IbanField in fields && EuroIban(fields[IbanField]) { EuroIbanExactlyWhen(fields[IbanField]); }
  }

  lemma UpiPasses(u: Unicode, text: string, value: string)
    requires value == Collapse(Trim(text)) && UpiForm(value)
    ensures ValidUpiId(u, value)
  {
    TrimmedIsStable(u, text);
    UpiShapeExactly(value);
  }

  lemma GoodUpiPasses(u: Unicode, raw: map<FieldName, string>, value: string)
    requires value == Normal(u, UpiId, raw) && UpiForm(value)
    ensures ValidUpiId(u, value)
  {
    UpiPasses(u, if UpiId in raw then raw[UpiId] else "", value);
  }

  lemma IfscPasses(u: Unicode, value: string)
    requires IfscForm(value)
    ensures ValidIfsc(u, value)
  {
    IfscShapeExactly(value);
    CompactIsStable(u, value);
  }

  lemma IbanPasses(u: Unicode, value: string)
    requires IbanForm(value)
    ensures ValidIban(u, value) <==> Accepts(value)
    ensures SepaEurIban(u, value) <==> EuroIban(value)
    ensures EuroIban(value) ==> Accepts(value)
  {
    CompactIsStable(u, value);
    EuroIbanExactlyWhen(value);
  }

  // ---------- What is accepted ----------

  /** A field of an accepted destination: the normalised entry, within its limit and in its form. */
  ghost predicate WellEntered(u: Unicode, rail: Rail, raw: map<FieldName, string>, fields: map<FieldName, string>,
                              name: FieldName)
  {
    && name in fields && fields[name] == Normal(u, name, raw)
    && Units(fields[name]) <= Limit(rail, name) && FieldForm(u, rail, name, fields[name])
  }

  /**
   Which destinations are accepted, and as what: the rail is named, and its fields, normalised, each have
   their form within their limit and together satisfy their scheme. Nothing else is, and nothing like this
   is refused.
   */
  lemma AcceptedFormsExactly(u: Unicode, input: Input, rail: Rail, fields: map<FieldName, string>)
    ensures Validate(u, input) == Accepted(rail, fields) <==>
            && Named(rail, input.rail)
            && fields.Keys == FieldsOf(rail)
            && (forall name :: name in fields ==> WellEntered(u, rail, input.fields, fields, name))
            && SchemeForm(rail, fields)
  {
    AcceptedExactlyWhen(u, input, rail, fields);
    FoundExactlyWhen(input.rail, rail);
    ShapesAcceptExactly(u, rail, input.fields, fields);
    if Formed(u, rail, fields) && Entered(u, input.fields, fields) {
      if UpiId in fields { GoodUpiPasses(u, input.fields, fields[UpiId]); }
      SchemesPassExactlyWhen(u, rail, fields);
    }
  }

  predicate HasDigits(fields: map<FieldName, string>, name: FieldName, min: nat, max: nat) {
    name in fields && AllDigits(fields[name]) && min <= |fields[name]| <= max
  }

  /** No accepted destination is one the scheme would refuse: each rail's handle is complete and checks out. */
  lemma AcceptedHandlesAreSound(u: Unicode, input: Input, rail: Rail, fields: map<FieldName, string>)
    requires Validate(u, input) == Accepted(rail, fields)
    ensures AccountHolder in fields && 2 <= |fields[AccountHolder]| <= 140
    ensures var holder := fields[AccountHolder];
            u.isLetter(holder[0]) && forall i :: 1 <= i < |holder| ==>
              u.isLetter(holder[i]) || u.isMark(holder[i]) || holder[i] in {' ', '.', '\'', '-'}
    ensures rail == Upi ==> UpiId in fields && UpiShape(fields[UpiId])
    ensures rail == Imps || rail == Neft ==>
              Ifsc in fields && IfscShape(fields[Ifsc])
              && HasDigits(fields, AccountNumber, 9, 18)
    ensures rail == SepaInstant || rail == SepaCredit ==>
              IbanField in fields && Accepts(fields[IbanField]) && fields[IbanField][..2] in SEPA_EUR_COUNTRIES
    ensures rail == Ach || rail == Wire ==>
              HasDigits(fields, RoutingNumber, 9, 9) && ValidAbaRouting(fields[RoutingNumber])
              && HasDigits(fields, AccountNumber, 4, 17)
    ensures rail == Nip ==>
              HasDigits(fields, AccountNumber, 10, 10) && HasDigits(fields, BankCode, 3, 3)
              && ValidNuban(fields[AccountNumber], fields[BankCode])
  {
    AcceptedFormsExactly(u, input, rail, fields);
    FormsAreSound(u, rail, fields);
  }

  lemma FormsAreSound(u: Unicode, rail: Rail, fields: map<FieldName, string>)
    requires Formed(u, rail, fields) && SchemeForm(rail, fields)
    ensures HolderForm(u, fields[AccountHolder])
    ensures rail == Upi ==> UpiShape(fields[UpiId])
    ensures rail == Imps || rail == Neft ==> IfscShape(fields[Ifsc]) && HasDigits(fields, AccountNumber, 9, 18)
    ensures rail == SepaInstant || rail == SepaCredit ==>
              Accepts(fields[IbanField]) && fields[IbanField][..2] in SEPA_EUR_COUNTRIES
    ensures rail == Ach || rail == Wire ==>
              HasDigits(fields, RoutingNumber, 9, 9) && ValidAbaRouting(fields[RoutingNumber])
              && HasDigits(fields, AccountNumber, 4, 17)
    ensures rail == Nip ==>
              HasDigits(fields, AccountNumber, 10, 10) && HasDigits(fields, BankCode, 3, 3)
              && ValidNuban(fields[AccountNumber], fields[BankCode])
  {
    match rail
    case Upi => UpiShapeExactly(fields[UpiId]);
    case Imps => IfscShapeExactly(fields[Ifsc]);
    case Neft => IfscShapeExactly(fields[Ifsc]);
    case SepaInstant => EuroIbanExactlyWhen(fields[IbanField]);
    case SepaCredit => EuroIbanExactlyWhen(fields[IbanField]);
    case Ach => AbaExactlyWhen(fields[RoutingNumber]);
    case Wire => AbaExactlyWhen(fields[RoutingNumber]);
    case Nip => NubanExactlyWhen(fields[AccountNumber], fields[BankCode]);
  }

  lemma FieldAcceptedIs(u: Unicode, rail: Rail, f: FieldSpec, raw: map<FieldName, string>,
                        fields: map<FieldName, string>)
    requires f in SpecOf(rail).fields
    ensures FieldAccepted(u, f, raw, fields) <==> WellEntered(u, rail, raw, fields, f.name)
  {
    assert FieldValue(u, f, raw) == Normal(u, f.name, raw) by { CatalogueDescribes(u, rail, f); }
    FieldPassesExactlyWhen(u, rail, f, FieldValue(u, f, raw));
  }

  lemma ShapesAcceptExactly(u: Unicode, rail: Rail, raw: map<FieldName, string>, fields: map<FieldName, string>)
    ensures AllAccepted(u, SpecOf(rail).fields, raw, fields) <==>
            && fields.Keys == FieldsOf(rail)
            && forall name :: name in fields ==> WellEntered(u, rail, raw, fields, name)
  {
    CatalogueNames(rail);
    FieldsAreWellEntered(u, rail, SpecOf(rail).fields, raw, fields);
  }

  lemma FieldsAreWellEntered(u: Unicode, rail: Rail, specs: seq<FieldSpec>, raw: map<FieldName, string>,
                             fields: map<FieldName, string>)
    requires specs == SpecOf(rail).fields && Names(specs) == FieldsOf(rail)
    ensures fields.Keys == FieldsOf(rail) ==>
              ((forall f :: f in specs ==> FieldAccepted(u, f, raw, fields)) <==>
               (forall name :: name in fields ==> WellEntered(u, rail, raw, fields, name)))
  {
    if fields.Keys == FieldsOf(rail) {
      if forall f :: f in specs ==> FieldAccepted(u, f, raw, fields) {
        forall name | name in fields ensures WellEntered(u, rail, raw, fields, name) {
          var i :| 0 <= i < |specs| && specs[i].name == name;
          FieldAcceptedIs(u, rail, specs[i], raw, fields);
        }
      }
      if forall name :: name in fields ==> WellEntered(u, rail, raw, fields, name) {
        forall f | f in specs ensures FieldAccepted(u, f, raw, fields) {
          NameOf(specs, f);
          FieldAcceptedIs(u, rail, f, raw, fields);
        }
      }
    }
  }

  lemma NameOf(specs: seq<FieldSpec>, f: FieldSpec)
    requires f in specs
    ensures f.name in Names(specs)
  {
    var i :| 0 <= i < |specs| && specs[i] == f;
    assert specs[i].name == f.name;
  }

  /** A text that names no rail is refused as such, and only such a text. */
  lemma UnsupportedExactlyWhen(u: Unicode, input: Input)
    ensures (forall rail :: !Named(rail, input.rail)) ==>
              Validate(u, input) == Rejected([Issue(AccountNumber, UnsupportedRail)])
    ensures (exists rail :: Named(rail, input.rail)) ==> FindPayoutRail(input.rail).Some?
  {
    if FindPayoutRail(input.rail).Some? {
      FoundExactlyWhen(input.rail, FindPayoutRail(input.rail).value);
    }
    if rail :| Named(rail, input.rail) {
      FoundExactlyWhen(input.rail, rail);
    }
  }

  // ---------- Why an entry is refused ----------

  /** The entry of a field, normalised, passes its shape check. */
  ghost predicate Fits(u: Unicode, rail: Rail, name: FieldName, s: string) {
    Units(s) <= Limit(rail, name) && FieldForm(u, rail, name, s)
  }

  /** Why a field of a rail is reported for its shape. */
  ghost predicate ShapeReason(u: Unicode, rail: Rail, name: FieldName, s: string, problem: Problem) {
    match problem
    case Required => s == ""
    case TooLong(limit) => s != "" && limit == Limit(rail, name) && Units(s) > limit
    case BadFormat => s != "" && Units(s) <= Limit(rail, name) && !FieldForm(u, rail, name, s)
    case _ => false
  }

  /** `good` holds the normalised entries of exactly the fields that are in form. */
  ghost predicate InForm(u: Unicode, rail: Rail, raw: map<FieldName, string>, good: map<FieldName, string>) {
    && (forall name :: name in good <==> name in FieldsOf(rail) && Fits(u, rail, name, Normal(u, name, raw)))
    && forall name :: name in good ==> good[name] == Normal(u, name, raw)
  }

  lemma ShapeProblemIs(u: Unicode, rail: Rail, f: FieldSpec, s: string, problem: Problem)
    requires f in SpecOf(rail).fields
    ensures FieldProblem(u, f, s) == Some(problem) <==> ShapeReason(u, rail, f.name, s, problem)
  {
    CatalogueDescribes(u, rail, f);
    UnitsAreUtf16(s);
  }

  /** Some field of the list has this problem. */
  ghost predicate HasProblem(u: Unicode, specs: seq<FieldSpec>, raw: map<FieldName, string>, issue: Issue) {
    exists f :: f in specs && HasIssue(u, f, raw, issue)
  }

  ghost predicate HasIssue(u: Unicode, f: FieldSpec, raw: map<FieldName, string>, issue: Issue) {
    f.name == issue.field && FieldProblem(u, f, FieldValue(u, f, raw)) == Some(issue.problem)
  }

  lemma {:induction false} ShapeIssueIs(u: Unicode, specs: seq<FieldSpec>, raw: map<FieldName, string>, issue: Issue)
    ensures issue in ShapeIssues(u, specs, raw) <==> HasProblem(u, specs, raw, issue)
    decreases |specs|
  {
    if specs != [] {
      var n := |specs| - 1;
      ShapeIssueIs(u, specs[..n], raw, issue);
      OneMoreProblem(u, specs[..n], specs[n], specs, raw, issue);
      LastIssue(u, specs, raw, issue);
    }
  }

  lemma OneMoreProblem(u: Unicode, front: seq<FieldSpec>, last: FieldSpec, specs: seq<FieldSpec>,
                       raw: map<FieldName, string>, issue: Issue)
    requires specs == front + [last]
    ensures HasProblem(u, specs, raw, issue) <==> HasProblem(u, front, raw, issue) || HasIssue(u, last, raw, issue)
  {
    if f :| f in front && HasIssue(u, f, raw, issue) {
      assert f in specs;
    }
    assert last in specs;
  }

  lemma LastIssue(u: Unicode, specs: seq<FieldSpec>, raw: map<FieldName, string>, issue: Issue)
    requires specs != []
    ensures var n := |specs| - 1;
            issue in ShapeIssues(u, specs, raw) <==>
            issue in ShapeIssues(u, specs[..n], raw) || HasIssue(u, specs[n], raw, issue)
  {
    var f := specs[|specs| - 1];
    assert issue in Only(f.name, FieldProblem(u, f, FieldValue(u, f, raw))) <==> HasIssue(u, f, raw, issue);
  }

  lemma SchemeIssueIs(u: Unicode, spec: RailSpec, fields: map<FieldName, string>, issue: Issue)
    ensures issue in SchemeIssues(u, spec, fields) <==>
            SchemeProblem(u, spec, fields, issue.field) == Some(issue.problem)
  {
    var a, b, c := SchemeIssue(u, spec, fields, Ifsc), SchemeIssue(u, spec, fields, UpiId),
      SchemeIssue(u, spec, fields, IbanField);
    var d, e := SchemeIssue(u, spec, fields, RoutingNumber), SchemeIssue(u, spec, fields, AccountNumber);
    InFive(a, b, c, d, e, issue);
  }

  lemma InFive(a: seq<Issue>, b: seq<Issue>, c: seq<Issue>, d: seq<Issue>, e: seq<Issue>, x: Issue)
    ensures x in a + b + c + d + e <==> x in a || x in b || x in c || x in d || x in e
  {}

  /** The fields that pass their shape check, as the loop leaves them. */
  lemma {:induction false} ShapedIs(u: Unicode, specs: seq<FieldSpec>, raw: map<FieldName, string>, f: FieldSpec)
    requires DistinctNames(specs) && f in specs
    ensures f.name in Shaped(u, specs, raw) <==> FieldProblem(u, f, FieldValue(u, f, raw)).None?
    ensures f.name in Shaped(u, specs, raw) ==> Shaped(u, specs, raw)[f.name] == FieldValue(u, f, raw)
    decreases |specs|
  {
    var front, last := specs[..|specs| - 1], specs[|specs| - 1];
    assert specs == front + [last];
    if f in front {
      ShapedIs(u, front, raw, f);
      OtherName(specs, f);
    } else {
      ShapeReports(u, front, raw);
      NameNotBefore(specs);
    }
  }

  lemma NameNotBefore(specs: seq<FieldSpec>)
    requires specs != [] && DistinctNames(specs)
    ensures DistinctNames(specs[..|specs| - 1]) && specs[|specs| - 1].name !in Names(specs[..|specs| - 1])
  {}

  lemma GoodFieldsAreInForm(u: Unicode, rail: Rail, raw: map<FieldName, string>)
    ensures InForm(u, rail, raw, Shaped(u, SpecOf(rail).fields, raw))
  {
    var specs := SpecOf(rail).fields;
    var good := Shaped(u, specs, raw);
    CatalogIsWellFormed(rail);
    CatalogueNames(rail);
    ShapeReports(u, specs, raw);
    forall name | name in FieldsOf(rail)
      ensures name in good <==> Fits(u, rail, name, Normal(u, name, raw))
      ensures name in good ==> good[name] == Normal(u, name, raw)
    {
      var i :| 0 <= i < |specs| && specs[i].name == name;
      GoodField(u, rail, raw, specs[i]);
    }
  }

  lemma GoodField(u: Unicode, rail: Rail, raw: map<FieldName, string>, f: FieldSpec)
    requires f in SpecOf(rail).fields
    ensures var good := Shaped(u, SpecOf(rail).fields, raw);
            && (f.name in good <==> Fits(u, rail, f.name, Normal(u, f.name, raw)))
            && (f.name in good ==> good[f.name] == Normal(u, f.name, raw))
  {
    CatalogIsWellFormed(rail);
    ShapedIs(u, SpecOf(rail).fields, raw, f);
    assert FieldValue(u, f, raw) == Normal(u, f.name, raw) by { CatalogueDescribes(u, rail, f); }
    FieldPassesExactlyWhen(u, rail, f, FieldValue(u, f, raw));
  }

  /**
   On refusal of a known rail the report lists exactly the problems there are: of every field of the rail
   whether it is missing, too long for its limit or not of its form, and of every field in form which
   check of its scheme it fails.
   */
  lemma ReportSaysWhy(u: Unicode, input: Input, rail: Rail, good: map<FieldName, string>, issue: Issue)
    requires Named(rail, input.rail) && Validate(u, input).Rejected?
    requires good == Shaped(u, SpecOf(rail).fields, input.fields)
    ensures InForm(u, rail, input.fields, good)
    ensures issue in Validate(u, input).issues <==>
            || (issue.field in FieldsOf(rail)
                && ShapeReason(u, rail, issue.field, Normal(u, issue.field, input.fields), issue.problem))
            || SchemeReason(rail, good, issue.field, issue.problem)
  {
    FoundExactlyWhen(input.rail, rail);
    GoodFieldsAreInForm(u, rail, input.fields);
    ShapePart(u, rail, input.fields, issue);
    if UpiId in good { GoodUpiPasses(u, input.fields, good[UpiId]); }
    SchemePart(u, rail, good, issue);
  }

  lemma ShapePart(u: Unicode, rail: Rail, raw: map<FieldName, string>, issue: Issue)
    ensures issue in ShapeIssues(u, SpecOf(rail).fields, raw) <==>
            && issue.field in FieldsOf(rail)
            && ShapeReason(u, rail, issue.field, Normal(u, issue.field, raw), issue.problem)
  {
    var specs := SpecOf(rail).fields;
    ShapeIssueIs(u, specs, raw, issue);
    CatalogueNames(rail);
    forall f | f in specs && f.name == issue.field
      ensures HasIssue(u, f, raw, issue)
              <==> ShapeReason(u, rail, issue.field, Normal(u, issue.field, raw), issue.problem)
    {
      CatalogueDescribes(u, rail, f);
      ShapeProblemIs(u, rail, f, FieldValue(u, f, raw), issue.problem);
    }
    if issue.field in FieldsOf(rail) {
      var i :| 0 <= i < |specs| && specs[i].name == issue.field;
      assert specs[i] in specs;
    }
  }

  lemma SchemePart(u: Unicode, rail: Rail, good: map<FieldName, string>, issue: Issue)
    requires PartlyFormed(u, rail, good)
    ensures issue in SchemeIssues(u, SpecOf(rail), good) <==> SchemeReason(rail, good, issue.field, issue.problem)
  {
    RailOf(rail);
    SchemeIssueIs(u, SpecOf(rail), good, issue);
    if issue.field in good { FormIsJudged(u, rail, good, issue.field); }
    SchemeProblemIs(u, rail, SpecOf(rail), good, issue.field, issue.problem);
  }
}
