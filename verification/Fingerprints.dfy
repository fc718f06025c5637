/**
 The text a payout fingerprint is computed over (shared/src/payouts/index.ts:704-714), and why equal
 texts mean equal destinations.
 */
module Fingerprints {
  import opened Text
  import opened Normalization
  import opened Payouts
  import opened PayoutTheorems

  function FieldText(name: FieldName): string {
    match name
    case UpiId => "upiId"
    case AccountHolder => "accountHolder"
    case AccountNumber => "accountNumber"
    case Ifsc => "ifsc"
    case IbanField => "iban"
    case RoutingNumber => "routingNumber"
    case BankCode => "bankCode"
  }

  /** The field names as `sort` orders them. */
  const ALPHABETICAL: seq<FieldName> := [AccountHolder, AccountNumber, BankCode, IbanField, Ifsc, RoutingNumber, UpiId]

  lemma AlphabeticalIsSorted(i: nat)
    requires i < |ALPHABETICAL| - 1
    ensures Precedes(FieldText(ALPHABETICAL[i]), FieldText(ALPHABETICAL[i + 1]))
  {
    var common := if i == 0 then 7 else if i == 3 then 1 else 0;
    assert PrecedesAt(FieldText(ALPHABETICAL[i]), FieldText(ALPHABETICAL[i + 1]), common);
  }

  lemma EveryField(name: FieldName)
    ensures name in ALPHABETICAL
  {
    match name
    case AccountHolder => assert ALPHABETICAL[0] == name;
    case AccountNumber => assert ALPHABETICAL[1] == name;
    case BankCode => assert ALPHABETICAL[2] == name;
    case IbanField => assert ALPHABETICAL[3] == name;
    case Ifsc => assert ALPHABETICAL[4] == name;
    case RoutingNumber => assert ALPHABETICAL[5] == name;
    case UpiId => assert ALPHABETICAL[6] == name;
  }

  function Part(name: FieldName, value: string): string {
    FieldText(name) + "=" + value
  }

  function Parts(names: seq<FieldName>, fields: map<FieldName, string>): seq<string> {
    if names == [] then []
    else
      (if names[0] in fields && names[0] != AccountHolder then [Part(names[0], fields[names[0]])] else [])
      + Parts(names[1..], fields)
  }

  function PayoutFingerprintSource(rail: Rail, fields: map<FieldName, string>): string {
    RailText(rail) + "|" + Join(Parts(ALPHABETICAL, fields), '&')
  }

  // ---------- Faithfulness ----------

  /** No value but the holder's contains the separator. */
  predicate Separable(fields: map<FieldName, string>) {
    forall name :: name in fields && name != AccountHolder ==> Without(fields[name], '&')
  }

  lemma FieldTextsAreDistinct(a: FieldName, b: FieldName)
    ensures FieldText(a) == FieldText(b) ==> a == b
  {}

  lemma FieldTextIsPlain(a: FieldName)
    ensures Without(FieldText(a), '=') && Without(FieldText(a), '&')
  {}

  lemma RailTextsAreDistinct(r: Rail, s: Rail)
    ensures RailText(r) == RailText(s) ==> r == s
  {}

  lemma RailTextIsPlain(r: Rail)
    ensures Without(RailText(r), '|')
  {}

  lemma PartDetermines(a: FieldName, v: string, b: FieldName, w: string)
    requires Part(a, v) == Part(b, w)
    ensures a == b && v == w
  {
    FieldTextsAreDistinct(a, b);
    FieldTextIsPlain(a);
    FieldTextIsPlain(b);
    SplitFirst(FieldText(a), '=', v);
    SplitFirst(FieldText(b), '=', w);
    assert FieldText(a) == SplitOn(Part(a, v), '=')[0] == FieldText(b);
    assert v == Part(a, v)[|FieldText(a)| + 1..];
    assert w == Part(b, w)[|FieldText(b)| + 1..];
  }

  lemma {:induction false} PartsComeFromFields(names: seq<FieldName>, fields: map<FieldName, string>, i: nat)
    requires i < |Parts(names, fields)|
    ensures exists name :: name in names && name in fields && name != AccountHolder
              && Parts(names, fields)[i] == Part(name, fields[name])
    decreases |names|
  {
    var first := names[0];
    if first in fields && first != AccountHolder {
      if i == 0 {
        assert first in names;
      } else {
        PartsComeFromFields(names[1..], fields, i - 1);
      }
    } else {
      PartsComeFromFields(names[1..], fields, i);
    }
  }

  lemma {:induction false} PartsDetermineFields(names: seq<FieldName>, f: map<FieldName, string>,
                                                g: map<FieldName, string>)
    requires forall i, j :: 0 <= i < j < |names| ==> names[i] != names[j]
    requires Parts(names, f) == Parts(names, g)
    ensures forall name :: name in names && name != AccountHolder ==>
              (name in f <==> name in g) && (name in f ==> f[name] == g[name])
    decreases |names|
  {
    if names != [] {
      var first, rest := names[0], names[1..];
      PartsOfFirst(names, f);
      PartsOfFirst(names, g);
      if Kept(first, f) && Kept(first, g) {
        PartDetermines(first, f[first], first, g[first]);
      } else if Kept(first, f) {
        NotLater(first, rest, f[first], g);
      } else if Kept(first, g) {
        NotLater(first, rest, g[first], f);
      }
      PartsDetermineFields(rest, f, g);
    }
  }

  predicate Kept(name: FieldName, fields: map<FieldName, string>) {
    name in fields && name != AccountHolder
  }

  lemma PartsOfFirst(names: seq<FieldName>, fields: map<FieldName, string>)
    requires names != []
    ensures if Kept(names[0], fields)
            then Parts(names, fields) != [] && Parts(names, fields)[0] == Part(names[0], fields[names[0]])
                 && Parts(names, fields)[1..] == Parts(names[1..], fields)
            else Parts(names, fields) == Parts(names[1..], fields)
  {}

  lemma NotLater(name: FieldName, rest: seq<FieldName>, value: string, fields: map<FieldName, string>)
    requires name !in rest
    ensures Parts(rest, fields) == [] || Parts(rest, fields)[0] != Part(name, value)
  {
    if Parts(rest, fields) != [] {
      PartsComeFromFields(rest, fields, 0);
      var other :| other in rest && other in fields && Parts(rest, fields)[0] == Part(other, fields[other]);
      if Part(other, fields[other]) == Part(name, value) {
        PartDetermines(other, fields[other], name, value);
      }
    }
  }

  lemma PartsAreSeparable(fields: map<FieldName, string>)
    requires Separable(fields)
    ensures forall i :: 0 <= i < |Parts(ALPHABETICAL, fields)| ==>
              Without(Parts(ALPHABETICAL, fields)[i], '&') && Parts(ALPHABETICAL, fields)[i] != ""
  {
    forall i | 0 <= i < |Parts(ALPHABETICAL, fields)|
      ensures Without(Parts(ALPHABETICAL, fields)[i], '&') && Parts(ALPHABETICAL, fields)[i] != ""
    {
      PartsComeFromFields(ALPHABETICAL, fields, i);
      var name :| name in fields && name != AccountHolder && Parts(ALPHABETICAL, fields)[i] == Part(name, fields[name]);
      PartIsPlain(name, fields[name]);
    }
  }

  lemma PartIsPlain(name: FieldName, value: string)
    requires Without(value, '&')
    ensures Without(Part(name, value), '&') && Part(name, value) != ""
  {
    FieldTextIsPlain(name);
  }

  /** The fingerprint texts of two destinations are equal exactly when rail and fields are, the holder's name aside. */
  lemma FingerprintIsFaithful(r: Rail, f: map<FieldName, string>, s: Rail, g: map<FieldName, string>)
    requires Separable(f) && Separable(g)
    ensures PayoutFingerprintSource(r, f) == PayoutFingerprintSource(s, g)
            <==> r == s && f - {AccountHolder} == g - {AccountHolder}
  {
    if PayoutFingerprintSource(r, f) == PayoutFingerprintSource(s, g) {
      EqualTextsAgree(r, f, s, g);
    }
    if f - {AccountHolder} == g - {AccountHolder} {
      HolderDoesNotMatter(ALPHABETICAL, f, g);
    }
  }

  lemma {:induction false} HolderDoesNotMatter(names: seq<FieldName>, f: map<FieldName, string>,
                                               g: map<FieldName, string>)
    requires f - {AccountHolder} == g - {AccountHolder}
    ensures Parts(names, f) == Parts(names, g)
    decreases |names|
  {
    if names != [] {
      HolderDoesNotMatter(names[1..], f, g);
      var name := names[0];
      assert name != AccountHolder ==>
          (name in f <==> name in f - {AccountHolder}) && (name in g <==> name in g - {AccountHolder});
      assert name != AccountHolder && name in f ==> f[name] == (f - {AccountHolder})[name];
      assert name != AccountHolder && name in g ==> g[name] == (g - {AccountHolder})[name];
    }
  }

  lemma EqualTextsAgree(r: Rail, f: map<FieldName, string>, s: Rail, g: map<FieldName, string>)
    requires Separable(f) && Separable(g)
    requires PayoutFingerprintSource(r, f) == PayoutFingerprintSource(s, g)
    ensures r == s && f - {AccountHolder} == g - {AccountHolder}
  {
    var a, b := Join(Parts(ALPHABETICAL, f), '&'), Join(Parts(ALPHABETICAL, g), '&');
    RailTextsAreDistinct(r, s);
    RailTextIsPlain(r);
    RailTextIsPlain(s);
    SplitFirst(RailText(r), '|', a);
    SplitFirst(RailText(s), '|', b);
    assert RailText(r) == SplitOn(PayoutFingerprintSource(r, f), '|')[0] == RailText(s);
    assert a == PayoutFingerprintSource(r, f)[|RailText(r)| + 1..];
    assert b == PayoutFingerprintSource(s, g)[|RailText(s)| + 1..];
    JoinDetermines(f, g);
    PartsDetermineFields(ALPHABETICAL, f, g);
    forall name ensures name in ALPHABETICAL { EveryField(name); }
    assert f - {AccountHolder} == g - {AccountHolder};
  }

  lemma JoinDetermines(f: map<FieldName, string>, g: map<FieldName, string>)
    requires Separable(f) && Separable(g)
    requires Join(Parts(ALPHABETICAL, f), '&') == Join(Parts(ALPHABETICAL, g), '&')
    ensures Parts(ALPHABETICAL, f) == Parts(ALPHABETICAL, g)
  {
    var p, q := Parts(ALPHABETICAL, f), Parts(ALPHABETICAL, g);
    PartsAreSeparable(f);
    PartsAreSeparable(g);
    if p != [] && q != [] {
      SplitJoin(p, '&');
      SplitJoin(q, '&');
    }
    assert p != [] ==> Join(p, '&') != "";
    assert q != [] ==> Join(q, '&') != "";
  }

  // ---------- Accepted destinations ----------

  lemma {:induction false} WithoutFromParts(s: string, c: char, x: char)
    requires c != x && forall i :: 0 <= i < |SplitOn(s, c)| ==> Without(SplitOn(s, c)[i], x)
    ensures Without(s, x)
    decreases |s|
  {
    if s != "" {
      var rest := SplitOn(s[1..], c);
      forall i | 0 <= i < |rest| ensures Without(rest[i], x) {
        if s[0] == c {
          assert SplitOn(s, c)[i + 1] == rest[i];
        } else if i == 0 {
          assert SplitOn(s, c)[0] == [s[0]] + rest[0];
          forall j | 0 <= j < |rest[0]| ensures rest[0][j] != x {
            assert SplitOn(s, c)[0][j + 1] == rest[0][j];
          }
        } else {
          assert SplitOn(s, c)[i] == rest[i];
        }
      }
      WithoutFromParts(s[1..], c, x);
      if s[0] != c {
        assert SplitOn(s, c)[0][0] == s[0];
      }
    }
  }

  lemma MatchedIsSeparable(u: Unicode, p: Pattern, s: string)
    requires p != HolderPattern && Matches(u, p, s)
    ensures Without(s, '&')
  {
    if p == UpiPattern {
      WithoutFromParts(s, '@', '&');
    }
  }

  lemma AcceptedMatches(u: Unicode, f: FieldSpec, raw: map<FieldName, string>, fields: map<FieldName, string>)
    requires FieldAccepted(u, f, raw, fields)
    ensures Matches(u, f.pattern, fields[f.name])
  {}

  lemma FieldIsSeparable(u: Unicode, f: FieldSpec, raw: map<FieldName, string>, fields: map<FieldName, string>)
    requires FieldAccepted(u, f, raw, fields) && f.pattern != HolderPattern
    ensures Without(fields[f.name], '&')
  {
    AcceptedMatches(u, f, raw, fields);
    MatchedIsSeparable(u, f.pattern, fields[f.name]);
  }

  lemma OnlyTheHolderIsFree(rail: Rail)
    ensures forall f :: f in SpecOf(rail).fields && f.name != AccountHolder ==> f.pattern != HolderPattern
  {}

  lemma AcceptedIsSeparable(u: Unicode, input: Input, rail: Rail, fields: map<FieldName, string>)
    requires Validate(u, input) == Accepted(rail, fields)
    ensures Separable(fields)
  {
    AcceptedExactlyWhen(u, input, rail, fields);
    HandlesAreSeparable(u, rail, input.fields, fields);
  }

  lemma HandlesAreSeparable(u: Unicode, rail: Rail, raw: map<FieldName, string>, fields: map<FieldName, string>)
    requires AllAccepted(u, SpecOf(rail).fields, raw, fields)
    ensures Separable(fields)
  {
    var specs := SpecOf(rail).fields;
    OnlyTheHolderIsFree(rail);
    forall name | name in fields && name != AccountHolder ensures Without(fields[name], '&') {
      var i :| 0 <= i < |specs| && specs[i].name == name;
      FieldIsSeparable(u, specs[i], raw, fields);
    }
  }

  /** Two accepted destinations have the same fingerprint text exactly when they have the same rail and handle. */
  lemma AcceptedFingerprintsIdentify(u: Unicode, a: Input, r: Rail, f: map<FieldName, string>,
                                     b: Input, s: Rail, g: map<FieldName, string>)
    requires Validate(u, a) == Accepted(r, f) && Validate(u, b) == Accepted(s, g)
    ensures PayoutFingerprintSource(r, f) == PayoutFingerprintSource(s, g)
            <==> r == s && f - {AccountHolder} == g - {AccountHolder}
  {
    AcceptedIsSeparable(u, a, r, f);
    AcceptedIsSeparable(u, b, s, g);
    FingerprintIsFaithful(r, f, s, g);
  }

  /** Without validation the text is ambiguous: a value may contain the separator. */
  lemma UnvalidatedFingerprintsCollide(account: string, bank: string)
    ensures PayoutFingerprintSource(Nip, map[AccountNumber := account + "&bankCode=" + bank])
            == PayoutFingerprintSource(Nip, map[AccountNumber := account, BankCode := bank])
  {
    var f, g := map[AccountNumber := account + "&bankCode=" + bank], map[AccountNumber := account, BankCode := bank];
    PartsFromAccount(f);
    PartsFromAccount(g);
    assert "&bankCode=" == ['&'] + (FieldText(BankCode) + "=");
    Reassociate(FieldText(AccountNumber) + "=", account, ['&'], FieldText(BankCode) + "=", bank);
  }

  lemma Reassociate(a: string, b: string, c: string, d: string, e: string)
    ensures a + (b + (c + d) + e) == a + b + c + (d + e)
  {}

  /** The parts of a destination that has no fields but an account number and perhaps a bank code. */
  lemma PartsFromAccount(fields: map<FieldName, string>)
    requires AccountNumber in fields && fields.Keys <= {AccountNumber, BankCode}
    ensures Join(Parts(ALPHABETICAL, fields), '&') ==
            if BankCode in fields
            then Part(AccountNumber, fields[AccountNumber]) + ['&'] + Part(BankCode, fields[BankCode])
            else Part(AccountNumber, fields[AccountNumber])
  {
    var tail := [IbanField, Ifsc, RoutingNumber, UpiId];
    NoParts(tail, fields);
    assert ALPHABETICAL[1..] == [AccountNumber, BankCode] + tail;
    assert ([AccountNumber, BankCode] + tail)[1..] == [BankCode] + tail;
    assert ([BankCode] + tail)[1..] == tail;
    PartsOfFirst(ALPHABETICAL, fields);
    PartsOfFirst([AccountNumber, BankCode] + tail, fields);
    PartsOfFirst([BankCode] + tail, fields);
  }

  lemma {:induction false} NoParts(names: seq<FieldName>, fields: map<FieldName, string>)
    requires forall name :: name in names ==> name !in fields
    ensures Parts(names, fields) == []
    decreases |names|
  {
    if names != [] {
      NoParts(names[1..], fields);
    }
  }
}
