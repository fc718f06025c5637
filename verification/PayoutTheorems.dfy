/**
 What the validation of payout destinations guarantees: it is a fixpoint, it reports every bad field
 exactly once, its checksums catch single errors, and the fingerprint text is faithful.
 */
module PayoutTheorems {
  import opened Wrappers
  import opened Text
  import opened Normalization
  import opened Iban
  import opened Payouts

  ghost function Names(specs: seq<FieldSpec>): set<FieldName> {
    set i | 0 <= i < |specs| :: specs[i].name
  }

  predicate DistinctNames(specs: seq<FieldSpec>) {
    forall i, j :: 0 <= i < j < |specs| ==> specs[i].name != specs[j].name
  }

  /** An upper-casing field admits only letters and digits, so normalising it again changes nothing. */
  predicate StableField(f: FieldSpec) {
    f.transform == UpperCompact ==> f.pattern == IfscPattern || f.pattern == IbanPattern
  }

  lemma CatalogIsWellFormed(rail: Rail)
    ensures DistinctNames(SpecOf(rail).fields)
    ensures forall f :: f in SpecOf(rail).fields ==> StableField(f)
    ensures SpecOf(rail).rail == rail
  {}

  // ---------- What acceptance means ----------

  /** Field `f` of the input passes its shape check, and `fields` holds its normalised value. */
  ghost predicate FieldAccepted(u: Unicode, f: FieldSpec, raw: map<FieldName, string>, fields: map<FieldName, string>) {
    && FieldProblem(u, f, FieldValue(u, f, raw)).None?
    && f.name in fields && fields[f.name] == FieldValue(u, f, raw)
  }

  ghost predicate AllAccepted(u: Unicode, specs: seq<FieldSpec>, raw: map<FieldName, string>,
                              fields: map<FieldName, string>)
  {
    fields.Keys == Names(specs) && forall f :: f in specs ==> FieldAccepted(u, f, raw, fields)
  }

  lemma {:induction false} NoIssuesMeansAccepted(u: Unicode, specs: seq<FieldSpec>, raw: map<FieldName, string>)
    requires DistinctNames(specs) && ShapeIssues(u, specs, raw) == []
    ensures AllAccepted(u, specs, raw, Shaped(u, specs, raw))
    decreases |specs|
  {
    if specs != [] {
      var front := specs[..|specs| - 1];
      LastFieldPasses(u, specs, raw);
      NoIssuesMeansAccepted(u, front, raw);
      OneMoreAccepted(u, specs, raw, Shaped(u, front, raw));
    }
  }

  lemma LastFieldPasses(u: Unicode, specs: seq<FieldSpec>, raw: map<FieldName, string>)
    requires specs != [] && ShapeIssues(u, specs, raw) == []
    ensures var n := |specs| - 1;
            && ShapeIssues(u, specs[..n], raw) == [] && (DistinctNames(specs) ==> DistinctNames(specs[..n]))
            && FieldProblem(u, specs[n], FieldValue(u, specs[n], raw)).None?
            && Shaped(u, specs, raw) == Shaped(u, specs[..n], raw)[specs[n].name := FieldValue(u, specs[n], raw)]
  {}

  lemma OneMoreAccepted(u: Unicode, specs: seq<FieldSpec>, raw: map<FieldName, string>, before: map<FieldName, string>)
    requires specs != [] && DistinctNames(specs) && AllAccepted(u, specs[..|specs| - 1], raw, before)
    requires FieldProblem(u, specs[|specs| - 1], FieldValue(u, specs[|specs| - 1], raw)).None?
    ensures var f := specs[|specs| - 1];
            AllAccepted(u, specs, raw, before[f.name := FieldValue(u, f, raw)])
  {
    var front, last := specs[..|specs| - 1], specs[|specs| - 1];
    var value := FieldValue(u, last, raw);
    NamesOfPrefix(specs);
    forall f | f in specs ensures FieldAccepted(u, f, raw, before[last.name := value]) {
      if f in front {
        OtherName(specs, f);
        AcceptedStays(u, f, raw, before, last.name, value);
      } else {
        assert specs == front + [last];
      }
    }
  }

  lemma OtherName(specs: seq<FieldSpec>, f: FieldSpec)
    requires specs != [] && DistinctNames(specs) && f in specs[..|specs| - 1]
    ensures f.name != specs[|specs| - 1].name
  {}

  lemma AcceptedStays(u: Unicode, f: FieldSpec, raw: map<FieldName, string>, before: map<FieldName, string>,
                      name: FieldName, value: string)
    requires FieldAccepted(u, f, raw, before) && f.name != name
    ensures FieldAccepted(u, f, raw, before[name := value])
  {}

  lemma {:induction false} AcceptedMeansNoIssues(u: Unicode, specs: seq<FieldSpec>, raw: map<FieldName, string>,
                                                 fields: map<FieldName, string>)
    requires forall f :: f in specs ==> FieldAccepted(u, f, raw, fields)
    ensures ShapeIssues(u, specs, raw) == []
    decreases |specs|
  {
    if specs != [] {
      var n := |specs| - 1;
      AcceptedMeansNoIssues(u, specs[..n], raw, fields);
      assert FieldAccepted(u, specs[n], raw, fields);
    }
  }

  lemma AcceptedIsUnique(u: Unicode, specs: seq<FieldSpec>, raw: map<FieldName, string>,
                         fields: map<FieldName, string>, others: map<FieldName, string>)
    requires AllAccepted(u, specs, raw, fields) && AllAccepted(u, specs, raw, others)
    ensures fields == others
  {
    forall name | name in fields ensures fields[name] == others[name] {
      var i :| 0 <= i < |specs| && specs[i].name == name;
      assert FieldAccepted(u, specs[i], raw, fields) && FieldAccepted(u, specs[i], raw, others);
    }
  }

  lemma NamesOfPrefix(specs: seq<FieldSpec>)
    requires specs != []
    ensures Names(specs) == Names(specs[..|specs| - 1]) + {specs[|specs| - 1].name}
  {
    var n := |specs| - 1;
    forall x ensures x in Names(specs) <==> x in Names(specs[..n]) + {specs[n].name} {
      if x in Names(specs) {
        var i :| 0 <= i < |specs| && specs[i].name == x;
        assert i < n ==> specs[..n][i].name == x;
      }
      if x in Names(specs[..n]) {
        var i :| 0 <= i < n && specs[..n][i].name == x;
        assert specs[i].name == x;
      }
    }
  }

  /**
   A destination is accepted, with normalised fields `fields`, exactly when the rail is known, each
   field of the rail passes its shape check, and no accepted field fails its scheme check.
   */
  lemma AcceptedExactlyWhen(u: Unicode, input: Input, rail: Rail, fields: map<FieldName, string>)
    ensures Validate(u, input) == Accepted(rail, fields) <==>
            && FindPayoutRail(input.rail) == Some(rail)
            && AllAccepted(u, SpecOf(rail).fields, input.fields, fields)
            && forall name :: SchemeProblem(u, SpecOf(rail), fields, name).None?
  {
    var spec := SpecOf(rail);
    ShapesPassExactlyWhen(u, rail, input.fields, fields);
    if FindPayoutRail(input.rail) == Some(rail) && fields == Shaped(u, spec.fields, input.fields) {
      NoSchemeIssues(u, spec, fields);
    }
  }

  /** The shape pass finds nothing and yields `fields` exactly when every field passes with its value there. */
  lemma ShapesPassExactlyWhen(u: Unicode, rail: Rail, raw: map<FieldName, string>, fields: map<FieldName, string>)
    ensures ShapeIssues(u, SpecOf(rail).fields, raw) == [] && fields == Shaped(u, SpecOf(rail).fields, raw)
            <==> AllAccepted(u, SpecOf(rail).fields, raw, fields)
  {
    var specs := SpecOf(rail).fields;
    assert DistinctNames(specs) by { CatalogIsWellFormed(rail); }
    if ShapeIssues(u, specs, raw) == [] {
      NoIssuesMeansAccepted(u, specs, raw);
    }
    if AllAccepted(u, specs, raw, fields) {
      AcceptedMeansNoIssues(u, specs, raw, fields);
      NoIssuesMeansAccepted(u, specs, raw);
      AcceptedIsUnique(u, specs, raw, fields, Shaped(u, specs, raw));
    }
  }

  lemma NoSchemeIssues(u: Unicode, spec: RailSpec, fields: map<FieldName, string>)
    ensures SchemeIssues(u, spec, fields) == [] <==> forall name :: SchemeProblem(u, spec, fields, name).None?
  {
    if SchemeIssues(u, spec, fields) == [] {
      assert SchemeIssue(u, spec, fields, Ifsc) == [] && SchemeIssue(u, spec, fields, UpiId) == []
        && SchemeIssue(u, spec, fields, IbanField) == [] && SchemeIssue(u, spec, fields, RoutingNumber) == []
        && SchemeIssue(u, spec, fields, AccountNumber) == [];
      forall name ensures SchemeProblem(u, spec, fields, name).None? {
        match name
        case _ =>
      }
    }
  }

  // ---------- Fixpoint ----------

  lemma NormalizedIsStable(u: Unicode, f: FieldSpec, raw: string)
    requires StableField(f) && FieldProblem(u, f, Normalize(u, raw, f.transform)).None?
    ensures Normalize(u, Normalize(u, raw, f.transform), f.transform) == Normalize(u, raw, f.transform)
  {
    match f.transform
    case UpperCompact => CompactIsStable(u, Normalize(u, raw, UpperCompact));
    case DigitsOnly =>
    case TrimSpaces => TrimmedIsStable(u, raw);
  }

  lemma CompactIsStable(u: Unicode, value: string)
    requires IfscShape(value) || IbanShape(value)
    ensures Normalize(u, value, UpperCompact) == value
  {
    assert Alnum(value);
    assert Keep(value, IsHandleChar) == value;
    UpperIsStable(u, value);
  }

  /** Validating the returned fields again accepts them, unchanged. */
  lemma ValidationIsAFixpoint(u: Unicode, input: Input)
    requires Validate(u, input).Accepted?
    ensures Validate(u, Input(input.rail, Validate(u, input).fields)) == Validate(u, input)
  {
    var v := Validate(u, input);
    AcceptedExactlyWhen(u, input, v.rail, v.fields);
    CatalogIsWellFormed(v.rail);
    forall f | f in SpecOf(v.rail).fields ensures FieldAccepted(u, f, v.fields, v.fields) {
      assert FieldAccepted(u, f, input.fields, v.fields);
      NormalizedIsStable(u, f, RawValue(input.fields, f.name));
    }
    AcceptedExactlyWhen(u, Input(input.rail, v.fields), v.rail, v.fields);
  }

  // ---------- Issues ----------

  ghost function Reported(issues: seq<Issue>): set<FieldName> {
    set i | 0 <= i < |issues| :: issues[i].field
  }

  predicate EachOnce(issues: seq<Issue>) {
    forall i, j :: 0 <= i < j < |issues| ==> issues[i].field != issues[j].field
  }

  lemma EachOnceAppend(a: seq<Issue>, b: seq<Issue>)
    requires EachOnce(a) && EachOnce(b) && Reported(a) !! Reported(b)
    ensures EachOnce(a + b) && Reported(a + b) == Reported(a) + Reported(b)
  {
    var c := a + b;
    forall i | 0 <= i < |c| ensures c[i].field in (if i < |a| then Reported(a) else Reported(b)) {
      if i < |a| { assert c[i] == a[i]; } else { assert c[i] == b[i - |a|]; }
    }
    forall x ensures x in Reported(c) <==> x in Reported(a) + Reported(b) {
      ReportedAppend(a, b, x);
    }
  }

  lemma ReportedAppend(a: seq<Issue>, b: seq<Issue>, x: FieldName)
    ensures x in Reported(a + b) <==> x in Reported(a) || x in Reported(b)
  {
    var c := a + b;
    if x in Reported(c) {
      var i :| 0 <= i < |c| && c[i].field == x;
      assert if i < |a| then a[i].field == x else b[i - |a|].field == x;
    }
    if x in Reported(a) {
      var i :| 0 <= i < |a| && a[i].field == x;
      assert c[i].field == x;
    }
    if x in Reported(b) {
      var i :| 0 <= i < |b| && b[i].field == x;
      assert c[|a| + i].field == x;
    }
  }

  /** The shape pass reports exactly the fields it does not accept, each once. */
  lemma {:induction false} ShapeReports(u: Unicode, specs: seq<FieldSpec>, raw: map<FieldName, string>)
    requires DistinctNames(specs)
    ensures EachOnce(ShapeIssues(u, specs, raw))
    ensures Reported(ShapeIssues(u, specs, raw)) == Names(specs) - Shaped(u, specs, raw).Keys
    ensures Shaped(u, specs, raw).Keys <= Names(specs)
    decreases |specs|
  {
    if specs != [] {
      var n := |specs| - 1;
      var f := specs[n];
      ShapeReports(u, specs[..n], raw);
      NamesOfPrefix(specs);
      assert f.name !in Names(specs[..n]);
      var problem := FieldProblem(u, f, FieldValue(u, f, raw));
      OnlyReports(f.name, problem);
      EachOnceAppend(ShapeIssues(u, specs[..n], raw), Only(f.name, problem));
    }
  }

  lemma OnlyReports(name: FieldName, problem: Option<Problem>)
    ensures EachOnce(Only(name, problem))
    ensures Reported(Only(name, problem)) == if problem.Some? then {name} else {}
  {
    if problem.Some? {
      assert Only(name, problem)[0].field == name;
    }
  }

  /** The issues of a list of checks, in its order. */
  function Folded(names: seq<FieldName>, problem: FieldName -> Option<Problem>): seq<Issue> {
    if names == [] then [] else Only(names[0], problem(names[0])) + Folded(names[1..], problem)
  }

  /** Checks of distinct fields report each failing one exactly once. */
  lemma {:induction false} FoldedReports(names: seq<FieldName>, problem: FieldName -> Option<Problem>)
    requires forall i, j :: 0 <= i < j < |names| ==> names[i] != names[j]
    ensures EachOnce(Folded(names, problem))
    ensures Reported(Folded(names, problem)) == set i | 0 <= i < |names| && problem(names[i]).Some? :: names[i]
    decreases |names|
  {
    if names != [] {
      var first, rest := names[0], names[1..];
      FoldedReports(rest, problem);
      OnlyReports(first, problem(first));
      assert forall i :: 0 <= i < |rest| ==> rest[i] == names[i + 1];
      EachOnceAppend(Only(first, problem(first)), Folded(rest, problem));
      forall name ensures name in Reported(Folded(names, problem)) <==>
                            exists i :: 0 <= i < |names| && problem(names[i]).Some? && names[i] == name {
        ReportedAppend(Only(first, problem(first)), Folded(rest, problem), name);
      }
    }
  }

  const SCHEME_ORDER: seq<FieldName> := [Ifsc, UpiId, IbanField, RoutingNumber, AccountNumber]

  lemma SchemeIssuesAreFolded(u: Unicode, spec: RailSpec, fields: map<FieldName, string>)
    ensures SchemeIssues(u, spec, fields) == Folded(SCHEME_ORDER, name => SchemeProblem(u, spec, fields, name))
  {
    var problem := name => SchemeProblem(u, spec, fields, name);
    FiveFolded(Ifsc, UpiId, IbanField, RoutingNumber, AccountNumber, problem);
  }

  lemma FiveFolded(a: FieldName, b: FieldName, c: FieldName, d: FieldName, e: FieldName,
                   problem: FieldName -> Option<Problem>)
    ensures Folded([a, b, c, d, e], problem)
            == Only(a, problem(a)) + Only(b, problem(b)) + Only(c, problem(c)) + Only(d, problem(d))
               + Only(e, problem(e))
  {
    var de, cde, bcde := [d, e], [c, d, e], [b, c, d, e];
    FoldedPair(d, e, problem);
    FoldedHead(c, de, problem);
    FoldedHead(b, cde, problem);
    FoldedHead(a, bcde, problem);
    assert [c] + de == cde && [b] + cde == bcde && [a] + bcde == [a, b, c, d, e];
    RegroupIssues(Only(a, problem(a)), Only(b, problem(b)), Only(c, problem(c)), Only(d, problem(d)),
                  Only(e, problem(e)));
  }

  lemma FoldedPair(d: FieldName, e: FieldName, problem: FieldName -> Option<Problem>)
    ensures Folded([d, e], problem) == Only(d, problem(d)) + Only(e, problem(e))
  {
    FoldedHead(d, [e], problem);
    FoldedHead(e, [], problem);
    assert [d] + [e] == [d, e] && [e] + [] == [e];
  }

  lemma FoldedHead(a: FieldName, rest: seq<FieldName>, problem: FieldName -> Option<Problem>)
    ensures Folded([a] + rest, problem) == Only(a, problem(a)) + Folded(rest, problem)
  {
    assert ([a] + rest)[1..] == rest;
  }

  lemma RegroupIssues(a: seq<Issue>, b: seq<Issue>, c: seq<Issue>, d: seq<Issue>, e: seq<Issue>)
    ensures a + (b + (c + (d + e))) == a + b + c + d + e
  {}

  /** The scheme pass reports exactly the accepted fields that fail their scheme check, each once. */
  lemma SchemeReports(u: Unicode, spec: RailSpec, fields: map<FieldName, string>)
    ensures EachOnce(SchemeIssues(u, spec, fields))
    ensures forall name ::
              name in Reported(SchemeIssues(u, spec, fields)) <==> SchemeProblem(u, spec, fields, name).Some?
  {
    var problem := name => SchemeProblem(u, spec, fields, name);
    SchemeIssuesAreFolded(u, spec, fields);
    FoldedReports(SCHEME_ORDER, problem);
    forall name | SchemeProblem(u, spec, fields, name).Some?
      ensures exists i :: 0 <= i < |SCHEME_ORDER| && SCHEME_ORDER[i] == name
    {
      CheckedFields(u, spec, fields, name);
    }
  }

  /** Only the five listed fields have a scheme check. */
  lemma CheckedFields(u: Unicode, spec: RailSpec, fields: map<FieldName, string>, name: FieldName)
    requires SchemeProblem(u, spec, fields, name).Some?
    ensures exists i :: 0 <= i < |SCHEME_ORDER| && SCHEME_ORDER[i] == name
  {
    var i := match name
      case Ifsc => 0
      case UpiId => 1
      case IbanField => 2
      case RoutingNumber => 3
      case _ => 4;
    assert SCHEME_ORDER[i] == name;
  }

  /**
   On rejection of a known rail every field is reported at most once, and the reported fields are
   exactly those that fail their shape check or, having passed it, their scheme check.
   */
  lemma RejectionReportsEachBadFieldOnce(u: Unicode, input: Input)
    requires Validate(u, input).Rejected?
    ensures EachOnce(Validate(u, input).issues)
    ensures FindPayoutRail(input.rail).Some? ==>
              var spec := SpecOf(FindPayoutRail(input.rail).value);
              var good := Shaped(u, spec.fields, input.fields);
              forall name :: name in Reported(Validate(u, input).issues) <==>
                (name in Names(spec.fields) && name !in good) || SchemeProblem(u, spec, good, name).Some?
  {
    if FindPayoutRail(input.rail).Some? {
      var rail := FindPayoutRail(input.rail).value;
      var spec := SpecOf(rail);
      var good := Shaped(u, spec.fields, input.fields);
      CatalogIsWellFormed(rail);
      ShapeReports(u, spec.fields, input.fields);
      SchemeReports(u, spec, good);
      EachOnceAppend(ShapeIssues(u, spec.fields, input.fields), SchemeIssues(u, spec, good));
    }
  }

  // ---------- Weighted checksums ----------

  lemma {:induction false} WeightedSumChange(weights: seq<nat>, s: string, i: nat, c: char)
    requires |weights| <= |s| && AllDigits(s) && i < |weights| && IsDigit(c)
    ensures AllDigits(s[i := c])
    ensures WeightedSum(weights, s[i := c]) - WeightedSum(weights, s)
            == weights[i] * DigitVal(c) - weights[i] * DigitVal(s[i])
    decreases |weights|
  {
    var t := s[i := c];
    if i == 0 {
      assert t[1..] == s[1..];
    } else {
      WeightedSumChange(weights[1..], s[1..], i - 1, c);
      assert t[1..] == s[1..][i - 1 := c];
    }
  }

  /** A routing number with one digit replaced is never accepted along with the original. */
  lemma AbaSubstitutionDetected(s: string, i: nat, c: char)
    requires |s| == 9 && AllDigits(s) && i < 9 && IsDigit(c) && c != s[i]
    ensures !(ValidAbaRouting(s) && ValidAbaRouting(s[i := c]))
  {
    var t := s[i := c];
    assert Keep(s, IsDigit) == s && Keep(t, IsDigit) == t;
    WeightedSumChange(ABA_WEIGHTS, s, i, c);
    WeightIsCoprime(ABA_WEIGHTS[i], DigitVal(c), DigitVal(s[i]),
                    WeightedSum(ABA_WEIGHTS, s), WeightedSum(ABA_WEIGHTS, t));
  }

  /** The weights 1, 3 and 7 are coprime to ten, so a changed digit changes the sum modulo ten. */
  lemma WeightIsCoprime(w: nat, c: nat, d: nat, x: int, y: int)
    requires (w == 1 || w == 3 || w == 7) && c <= 9 && d <= 9 && c != d && y - x == w * c - w * d
    ensures x % 10 != y % 10
  {
    ScaledDigit(w, c - d);
    assert y - x == w * (c - d);
  }

  lemma ScaledDigit(w: nat, e: int)
    requires (w == 1 || w == 3 || w == 7) && e != 0 && -9 <= e <= 9
    ensures w * e % 10 != 0
  {}

  /** For every bank code and serial exactly one check digit completes a valid NUBAN. */
  lemma NubanCheckDigitIsUnique(bank: string, serial: string, c: char)
    requires |bank| == 3 && AllDigits(bank) && |serial| == 9 && AllDigits(serial) && IsDigit(c)
    ensures ValidNuban(serial + [c], bank) <==> DigitVal(c) == CheckDigit(WeightedSum(NUBAN_WEIGHTS, bank + serial))
  {
    var account := serial + [c];
    assert Keep(account, IsDigit) == account;
    assert Keep(bank, IsDigit) == bank;
    assert account[..9] == serial && account[9] == c;
  }

  /** And a replaced serial or bank digit is always caught by it. */
  lemma NubanSubstitutionDetected(bank: string, serial: string, c: char, i: nat, d: char)
    requires |bank| == 3 && AllDigits(bank) && |serial| == 9 && AllDigits(serial) && IsDigit(c)
    requires i < 12 && IsDigit(d) && (bank + serial)[i] != d
    requires ValidNuban(serial + [c], bank)
    ensures var altered := (bank + serial)[i := d];
            !ValidNuban(altered[3..] + [c], altered[..3])
  {
    var body := bank + serial;
    var altered := body[i := d];
    WeightedSumChange(NUBAN_WEIGHTS, body, i, d);
    NubanCheckDigitIsUnique(bank, serial, c);
    NubanCheckDigitIsUnique(altered[..3], altered[3..], c);
    assert altered[..3] + altered[3..] == altered;
    WeightIsCoprime(NUBAN_WEIGHTS[i], DigitVal(d), DigitVal(body[i]),
                    WeightedSum(NUBAN_WEIGHTS, body), WeightedSum(NUBAN_WEIGHTS, altered));
    SameCheckDigit(WeightedSum(NUBAN_WEIGHTS, body), WeightedSum(NUBAN_WEIGHTS, altered));
  }

  lemma SameCheckDigit(x: nat, y: nat)
    requires x % 10 != y % 10
    ensures CheckDigit(x) != CheckDigit(y)
  {}
}
