/**
 Payout destinations (shared/src/payouts/index.ts): the rails and their fields, and the validation of
 a beneficiary handle.
 */
module Payouts {
  import opened Wrappers
  import opened Text
  import opened Normalization
  import opened Iban

  // ---------- Rails ----------

  datatype FieldName = UpiId | AccountHolder | AccountNumber | Ifsc | IbanField | RoutingNumber | BankCode

  datatype Pattern = HolderPattern | UpiPattern | IfscPattern | IbanPattern | DigitsPattern(min: nat, max: nat)

  datatype FieldSpec = FieldSpec(name: FieldName, transform: Transform, maxLength: nat, pattern: Pattern)

  datatype Currency = INR | EUR | USD | NGN

  datatype Rail = Upi | Imps | Neft | SepaInstant | SepaCredit | Ach | Wire | Nip

  datatype RailSpec = RailSpec(rail: Rail, currency: Currency, fields: seq<FieldSpec>)

  const HOLDER_FIELD := FieldSpec(AccountHolder, TrimSpaces, 140, HolderPattern)
  const UPI_FIELD := FieldSpec(UpiId, TrimSpaces, 100, UpiPattern)
  const IFSC_FIELD := FieldSpec(Ifsc, UpperCompact, 11, IfscPattern)
  const INDIAN_ACCOUNT_FIELD := FieldSpec(AccountNumber, DigitsOnly, 18, DigitsPattern(9, 18))
  const IBAN_FIELD := FieldSpec(IbanField, UpperCompact, 34, IbanPattern)
  const ABA_FIELD := FieldSpec(RoutingNumber, DigitsOnly, 9, DigitsPattern(9, 9))
  const US_ACCOUNT_FIELD := FieldSpec(AccountNumber, DigitsOnly, 17, DigitsPattern(4, 17))
  const NUBAN_FIELD := FieldSpec(AccountNumber, DigitsOnly, 10, DigitsPattern(10, 10))
  const NG_BANK_CODE_FIELD := FieldSpec(BankCode, DigitsOnly, 3, DigitsPattern(3, 3))

  function SpecOf(rail: Rail): RailSpec {
    match rail
    case Upi => RailSpec(rail, INR, [UPI_FIELD, HOLDER_FIELD])
    case Imps => RailSpec(rail, INR, [INDIAN_ACCOUNT_FIELD, IFSC_FIELD, HOLDER_FIELD])
    case Neft => RailSpec(rail, INR, [INDIAN_ACCOUNT_FIELD, IFSC_FIELD, HOLDER_FIELD])
    case SepaInstant => RailSpec(rail, EUR, [IBAN_FIELD, HOLDER_FIELD])
    case SepaCredit => RailSpec(rail, EUR, [IBAN_FIELD, HOLDER_FIELD])
    case Ach => RailSpec(rail, USD, [US_ACCOUNT_FIELD, ABA_FIELD, HOLDER_FIELD])
    case Wire => RailSpec(rail, USD, [US_ACCOUNT_FIELD, ABA_FIELD, HOLDER_FIELD])
    case Nip => RailSpec(rail, NGN, [NUBAN_FIELD, NG_BANK_CODE_FIELD, HOLDER_FIELD])
  }

  function RailText(rail: Rail): string {
    match rail
    case Upi => "upi"
    case Imps => "imps"
    case Neft => "neft"
    case SepaInstant => "sepa_instant"
    case SepaCredit => "sepa_credit"
    case Ach => "ach"
    case Wire => "wire"
    case Nip => "nip"
  }

  const ALL_RAILS: seq<Rail> := [Upi, Imps, Neft, SepaInstant, SepaCredit, Ach, Wire, Nip]

  function FindRailFrom(rails: seq<Rail>, text: string): Option<Rail> {
    if rails == [] then None
    else if RailText(rails[0]) == text then Some(rails[0])
    else FindRailFrom(rails[1..], text)
  }

  function FindPayoutRail(text: string): Option<Rail> { FindRailFrom(ALL_RAILS, text) }

  // ---------- Shape checks ----------

  predicate IsAsciiLetter(c: char) { IsUpper(c) || IsLower(c) }

  predicate IsHolderChar(u: Unicode, c: char) {
    u.isLetter(c) || u.isMark(c) || c == ' ' || c == '.' || c == '\'' || c == '-'
  }

  predicate UpiShape(s: string) {
    var parts := SplitOn(s, '@');
    && |parts| == 2
    && 2 <= |parts[0]| <= 64 && 2 <= |parts[1]| <= 64
    && (IsAsciiLetter(parts[0][0]) || IsDigit(parts[0][0]))
    && (forall i :: 1 <= i < |parts[0]| ==>
          || IsAsciiLetter(parts[0][i]) || IsDigit(parts[0][i])
          || parts[0][i] == '.' || parts[0][i] == '_' || parts[0][i] == '-')
    && IsAsciiLetter(parts[1][0])
    && (forall i :: 1 <= i < |parts[1]| ==>
          IsAsciiLetter(parts[1][i]) || IsDigit(parts[1][i]) || parts[1][i] == '.' || parts[1][i] == '-')
  }

  predicate IfscShape(s: string) {
    && |s| == 11
    && (forall i :: 0 <= i < 4 ==> IsUpper(s[i]))
    && s[4] == '0'
    && forall i :: 5 <= i < 11 ==> IsUpperAlnum(s[i])
  }

  predicate Matches(u: Unicode, p: Pattern, s: string) {
    match p
    case HolderPattern =>
      2 <= |s| <= 140 && u.isLetter(s[0]) && forall i :: 1 <= i < |s| ==> IsHolderChar(u, s[i])
    case UpiPattern => UpiShape(s)
    case IfscPattern => IfscShape(s)
    case IbanPattern => IbanShape(s)
    case DigitsPattern(min, max) => min <= |s| <= max && AllDigits(s)
  }

  /** `value.length` counts UTF-16 code units. */
  function Utf16Length(s: string): nat {
    if s == "" then 0 else (if s[0] as int > 0xFFFF then 2 else 1) + Utf16Length(s[1..])
  }

  // ---------- Scheme checks ----------

  const SEPA_EUR_COUNTRIES: set<string> := {
    "AT", "BE", "CY", "DE", "EE", "ES", "FI", "FR", "GR", "HR", "IE", "IT",
    "LT", "LU", "LV", "MT", "NL", "PT", "SI", "SK", "AD", "MC", "SM" }

  function WeightedSum(weights: seq<nat>, digits: string): nat
    requires |weights| <= |digits| && AllDigits(digits)
  {
    if weights == [] then 0 else weights[0] * DigitVal(digits[0]) + WeightedSum(weights[1..], digits[1..])
  }

  const ABA_WEIGHTS: seq<nat> := [3, 7, 1, 3, 7, 1, 3, 7, 1]
  const NUBAN_WEIGHTS: seq<nat> := [3, 7, 3, 3, 7, 3, 3, 7, 3, 3, 7, 3]

  predicate SepaEurIban(u: Unicode, value: string) {
    ValidIban(u, value) && Normalize(u, value, UpperCompact)[..2] in SEPA_EUR_COUNTRIES
  }

  predicate ValidAbaRouting(value: string) {
    var digits := Keep(value, IsDigit);
    && |digits| == 9
    && (var prefix := 10 * DigitVal(digits[0]) + DigitVal(digits[1]);
        !(12 < prefix < 21) && prefix <= 32)
    && WeightedSum(ABA_WEIGHTS, digits) % 10 == 0
  }

  /** The digit that closes a weighted sum to a multiple of ten. */
  function CheckDigit(sum: nat): nat { (10 - sum % 10) % 10 }

  predicate ValidNuban(accountNumber: string, bankCode: string) {
    var account, bank := Keep(accountNumber, IsDigit), Keep(bankCode, IsDigit);
    && |account| == 10 && |bank| == 3
    && CheckDigit(WeightedSum(NUBAN_WEIGHTS, bank + account[..9])) == DigitVal(account[9])
  }

  predicate ValidUpiId(u: Unicode, value: string) { UpiShape(Normalize(u, value, TrimSpaces)) }

  predicate ValidIfsc(u: Unicode, value: string) { IfscShape(Normalize(u, value, UpperCompact)) }

  // ---------- Validation ----------

  /** The kinds of message the form shows. */
  datatype Problem =
    | Required
    | TooLong(limit: nat)
    | BadFormat
    | BadIfsc
    | BadUpiId
    | IbanCheckFailed
    | IbanOutsideSepa
    | AbaCheckFailed
    | NubanCheckFailed
    | UnsupportedRail

  datatype Issue = Issue(field: FieldName, problem: Problem)

  datatype Input = Input(rail: string, fields: map<FieldName, string>)

  datatype Validation =
    | Accepted(rail: Rail, fields: map<FieldName, string>)
    | Rejected(issues: seq<Issue>)

  function RawValue(fields: map<FieldName, string>, name: FieldName): string {
    if name in fields then fields[name] else ""
  }

  function FieldValue(u: Unicode, f: FieldSpec, fields: map<FieldName, string>): string {
    Normalize(u, RawValue(fields, f.name), f.transform)
  }

  /** The shape check of one field. */
  function FieldProblem(u: Unicode, f: FieldSpec, value: string): Option<Problem> {
    if value == "" then Some(Required)
    else if Utf16Length(value) > f.maxLength then Some(TooLong(f.maxLength))
    else if !Matches(u, f.pattern, value) then Some(BadFormat)
    else None
  }

  /** The scheme check of field `name`, given every field that passed its shape check. */
  function SchemeProblem(u: Unicode, spec: RailSpec, fields: map<FieldName, string>, name: FieldName): Option<Problem> {
    if name !in fields then None
    else
      var value := fields[name];
      match name
      case Ifsc => if ValidIfsc(u, value) then None else Some(BadIfsc)
      case UpiId => if ValidUpiId(u, value) then None else Some(BadUpiId)
      case IbanField =>
        if !ValidIban(u, value) then Some(IbanCheckFailed)
        else if spec.currency == EUR && !SepaEurIban(u, value) then Some(IbanOutsideSepa)
        else None
      case RoutingNumber => if ValidAbaRouting(value) then None else Some(AbaCheckFailed)
      case AccountNumber =>
        if spec.rail == Nip && BankCode in fields && !ValidNuban(value, fields[BankCode]) then Some(NubanCheckFailed)
        else None
      case _ => None
  }

  function ShapeIssues(u: Unicode, specs: seq<FieldSpec>, fields: map<FieldName, string>): seq<Issue> {
    if specs == [] then []
    else
      var f := specs[|specs| - 1];
      ShapeIssues(u, specs[..|specs| - 1], fields) + Only(f.name, FieldProblem(u, f, FieldValue(u, f, fields)))
  }

  function Shaped(u: Unicode, specs: seq<FieldSpec>, fields: map<FieldName, string>): map<FieldName, string> {
    if specs == [] then map[]
    else
      var f := specs[|specs| - 1];
      var before := Shaped(u, specs[..|specs| - 1], fields);
      if FieldProblem(u, f, FieldValue(u, f, fields)).Some? then before else before[f.name := FieldValue(u, f, fields)]
  }

  /** The issues of one check: none or one. */
  function Only(name: FieldName, problem: Option<Problem>): seq<Issue> {
    if problem.Some? then [Issue(name, problem.value)] else []
  }

  function SchemeIssue(u: Unicode, spec: RailSpec, fields: map<FieldName, string>, name: FieldName): seq<Issue> {
    Only(name, SchemeProblem(u, spec, fields, name))
  }

  function SchemeIssues(u: Unicode, spec: RailSpec, fields: map<FieldName, string>): seq<Issue> {
    SchemeIssue(u, spec, fields, Ifsc) + SchemeIssue(u, spec, fields, UpiId) + SchemeIssue(u, spec, fields, IbanField)
    + SchemeIssue(u, spec, fields, RoutingNumber) + SchemeIssue(u, spec, fields, AccountNumber)
  }

  function Validate(u: Unicode, input: Input): Validation {
    match FindPayoutRail(input.rail)
    case None => Rejected([Issue(AccountNumber, UnsupportedRail)])
    case Some(rail) =>
      var spec := SpecOf(rail);
      var fields := Shaped(u, spec.fields, input.fields);
      var issues := ShapeIssues(u, spec.fields, input.fields) + SchemeIssues(u, spec, fields);
      if issues != [] then Rejected(issues) else Accepted(rail, fields)
  }

  /** The program's validation, filling `issues` and `fields` as it goes. */
  method ValidatePayoutDestination(u: Unicode, input: Input) returns (r: Validation)
    ensures r == Validate(u, input)
  {
    var found := FindPayoutRail(input.rail);
    if found.None? {
      return Rejected([Issue(AccountNumber, UnsupportedRail)]);
    }
    var spec := SpecOf(found.value);
    var issues, fields := CheckShapes(u, spec.fields, input.fields);
    issues := CheckSchemes(u, spec, fields, issues);
    if |issues| > 0 {
      return Rejected(issues);
    }
    r := Accepted(found.value, fields);
  }

  lemma OneMoreField(u: Unicode, specs: seq<FieldSpec>, raw: map<FieldName, string>, i: nat)
    requires i < |specs|
    ensures var value := FieldValue(u, specs[i], raw);
            var problem := FieldProblem(u, specs[i], value);
            && ShapeIssues(u, specs[..i + 1], raw) == ShapeIssues(u, specs[..i], raw) + Only(specs[i].name, problem)
            && Shaped(u, specs[..i + 1], raw)
               == if problem.Some? then Shaped(u, specs[..i], raw)
                  else Shaped(u, specs[..i], raw)[specs[i].name := value]
  {
    assert specs[..i + 1][..i] == specs[..i];
  }

  method CheckShapes(u: Unicode, specs: seq<FieldSpec>, raw: map<FieldName, string>)
    returns (issues: seq<Issue>, fields: map<FieldName, string>)
    ensures issues == ShapeIssues(u, specs, raw)
    ensures fields == Shaped(u, specs, raw)
  {
    issues, fields := [], map[];
    for i := 0 to |specs|
      invariant issues == ShapeIssues(u, specs[..i], raw)
      invariant fields == Shaped(u, specs[..i], raw)
    {
      var field := specs[i];
      var value := Normalize(u, RawValue(raw, field.name), field.transform);
      OneMoreField(u, specs, raw, i);
      if value == "" {
        issues := issues + [Issue(field.name, Required)];
      } else if Utf16Length(value) > field.maxLength {
        issues := issues + [Issue(field.name, TooLong(field.maxLength))];
      } else if !Matches(u, field.pattern, value) {
        issues := issues + [Issue(field.name, BadFormat)];
      } else {
        fields := fields[field.name := value];
      }
    }
    assert specs[..|specs|] == specs;
  }

  /** The scheme checks, in the program's order, on the fields that passed their shape check. */
  method CheckSchemes(u: Unicode, spec: RailSpec, fields: map<FieldName, string>, before: seq<Issue>)
    returns (issues: seq<Issue>)
    ensures issues == before + SchemeIssues(u, spec, fields)
  {
    var ifsc := CheckIfsc(u, spec, fields);
    var upi := CheckUpi(u, spec, fields);
    var iban := CheckIban(u, spec, fields);
    var routing := CheckRouting(u, spec, fields);
    var nuban := CheckNuban(u, spec, fields);
    issues := before + (ifsc + upi + iban + routing + nuban);
  }

  method CheckIfsc(u: Unicode, spec: RailSpec, fields: map<FieldName, string>) returns (issues: seq<Issue>)
    ensures issues == SchemeIssue(u, spec, fields, Ifsc)
  {
    issues := if Ifsc in fields && !ValidIfsc(u, fields[Ifsc]) then [Issue(Ifsc, BadIfsc)] else [];
  }

  method CheckUpi(u: Unicode, spec: RailSpec, fields: map<FieldName, string>) returns (issues: seq<Issue>)
    ensures issues == SchemeIssue(u, spec, fields, UpiId)
  {
    issues := if UpiId in fields && !ValidUpiId(u, fields[UpiId]) then [Issue(UpiId, BadUpiId)] else [];
  }

  method CheckIban(u: Unicode, spec: RailSpec, fields: map<FieldName, string>) returns (issues: seq<Issue>)
    ensures issues == SchemeIssue(u, spec, fields, IbanField)
  {
    if IbanField !in fields { return []; }
    var valid := IsValidIban(u, fields[IbanField]);
    if !valid {
      return [Issue(IbanField, IbanCheckFailed)];
    }
    if spec.currency == EUR && !SepaEurIban(u, fields[IbanField]) {
      return [Issue(IbanField, IbanOutsideSepa)];
    }
    issues := [];
  }

  method CheckRouting(u: Unicode, spec: RailSpec, fields: map<FieldName, string>) returns (issues: seq<Issue>)
    ensures issues == SchemeIssue(u, spec, fields, RoutingNumber)
  {
    issues := if RoutingNumber in fields && !ValidAbaRouting(fields[RoutingNumber])
      then [Issue(RoutingNumber, AbaCheckFailed)] else [];
  }

  method CheckNuban(u: Unicode, spec: RailSpec, fields: map<FieldName, string>) returns (issues: seq<Issue>)
    ensures issues == SchemeIssue(u, spec, fields, AccountNumber)
  {
    issues := if spec.rail == Nip && AccountNumber in fields && BankCode in fields
                 && !ValidNuban(fields[AccountNumber], fields[BankCode])
      then [Issue(AccountNumber, NubanCheckFailed)] else [];
  }
}
