/**
 The two country tables of the IBAN check (shared/src/payouts/index.ts:416-428) against each other and
 read the other way round: by length, and by who is not in the euro area.
 */
module IbanCountries {
  import opened Wrappers
  import opened Iban
  import opened Payouts

  /** The countries whose IBANs have this many characters. */
  function OfLength(length: nat): set<string> {
    match length
    case 15 => {"NO"}
    case 16 => {"BE"}
    case 18 => {"DK", "FI", "NL"}
    case 19 => {"SI"}
    case 20 => {"AT", "EE", "LT", "LU"}
    case 21 => {"CH", "HR", "LI", "LV"}
    case 22 => {"BG", "DE", "GB", "IE"}
    case 24 => {"AD", "CZ", "ES", "RO", "SE", "SK"}
    case 25 => {"PT"}
    case 26 => {"IS"}
    case 27 => {"FR", "GR", "IT", "MC", "SM"}
    case 28 => {"CY", "HU", "PL"}
    case 31 => {"MT"}
    case _ => {}
  }

  /** The IBAN countries that a SEPA payout in euro cannot go to. */
  const OUTSIDE_EURO: set<string> := {"BG", "CH", "CZ", "DK", "GB", "HU", "IS", "LI", "NO", "PL", "RO", "SE"}

  /** Two letters as one number, which orders the table. */
  function Code(country: string): int
    requires |country| == 2
  {
    256 * country[0] as int + country[1] as int
  }

  lemma EntriesAscend(i: nat)
    requires i < |COUNTRY_LENGTHS|
    ensures |COUNTRY_LENGTHS[i].0| == 2
    ensures i > 0 ==> |COUNTRY_LENGTHS[i - 1].0| == 2 && Code(COUNTRY_LENGTHS[i - 1].0) < Code(COUNTRY_LENGTHS[i].0)
  {}

  lemma EntryFits(i: nat)
    requires i < |COUNTRY_LENGTHS|
    ensures COUNTRY_LENGTHS[i].0 in OfLength(COUNTRY_LENGTHS[i].1)
  {}

  lemma {:induction false} EntriesDiffer(i: nat, j: nat)
    requires i < j < |COUNTRY_LENGTHS|
    ensures |COUNTRY_LENGTHS[i].0| == 2 && |COUNTRY_LENGTHS[j].0| == 2
    ensures Code(COUNTRY_LENGTHS[i].0) < Code(COUNTRY_LENGTHS[j].0)
    decreases j
  {
    EntriesAscend(j);
    if i < j - 1 { EntriesDiffer(i, j - 1); }
  }

  lemma {:induction false} SearchReaches(i: nat, j: nat)
    requires i <= j < |COUNTRY_LENGTHS|
    ensures LengthFrom(i, COUNTRY_LENGTHS[j].0) == Some(COUNTRY_LENGTHS[j].1)
    decreases j - i
  {
    if i < j {
      EntriesDiffer(i, j);
      SearchReaches(i + 1, j);
    }
  }

  lemma {:induction false} SearchFinds(i: nat, country: string) returns (j: nat)
    requires LengthFrom(i, country).Some?
    ensures j < |COUNTRY_LENGTHS| && COUNTRY_LENGTHS[j].0 == country
    ensures LengthFrom(i, country) == Some(COUNTRY_LENGTHS[j].1)
    decreases |COUNTRY_LENGTHS| - i
  {
    if COUNTRY_LENGTHS[i].0 == country {
      j := i;
    } else {
      j := SearchFinds(i + 1, country);
    }
  }

  lemma EntryIs(i: nat, country: string, length: nat)
    requires i < |COUNTRY_LENGTHS| && COUNTRY_LENGTHS[i] == (country, length)
    ensures Published(country, length)
  {
    SearchReaches(0, i);
  }

  lemma ListedIsPublished(country: string, length: nat)
    requires country in OfLength(length)
    ensures Published(country, length)
  {
    match length
    case 15 => EntryIs(27, country, 15);
    case 16 => EntryIs(2, country, 16);
    case 18 =>
      if country == "DK" { EntryIs(8, country, 18); }
      else if country == "FI" { EntryIs(11, country, 18); }
      else { EntryIs(26, country, 18); }
    case 19 => EntryIs(32, country, 19);
    case 20 =>
      if country == "AT" { EntryIs(1, country, 20); }
      else if country == "EE" { EntryIs(9, country, 20); }
      else if country == "LT" { EntryIs(21, country, 20); }
      else { EntryIs(22, country, 20); }
    case 21 =>
      if country == "CH" { EntryIs(4, country, 21); }
      else if country == "HR" { EntryIs(15, country, 21); }
      else if country == "LI" { EntryIs(20, country, 21); }
      else { EntryIs(23, country, 21); }
    case 22 =>
      if country == "BG" { EntryIs(3, country, 22); }
      else if country == "DE" { EntryIs(7, country, 22); }
      else if country == "GB" { EntryIs(13, country, 22); }
      else { EntryIs(17, country, 22); }
    case 24 =>
      if country == "AD" { EntryIs(0, country, 24); }
      else if country == "CZ" { EntryIs(6, country, 24); }
      else if country == "ES" { EntryIs(10, country, 24); }
      else if country == "RO" { EntryIs(30, country, 24); }
      else if country == "SE" { EntryIs(31, country, 24); }
      else { EntryIs(33, country, 24); }
    case 25 => EntryIs(29, country, 25);
    case 26 => EntryIs(18, country, 26);
    case 27 =>
      if country == "FR" { EntryIs(12, country, 27); }
      else if country == "GR" { EntryIs(14, country, 27); }
      else if country == "IT" { EntryIs(19, country, 27); }
      else if country == "MC" { EntryIs(24, country, 27); }
      else { EntryIs(34, country, 27); }
    case 28 =>
      if country == "CY" { EntryIs(5, country, 28); }
      else if country == "HU" { EntryIs(16, country, 28); }
      else { EntryIs(28, country, 28); }
    case 31 => EntryIs(25, country, 31);
    case _ =>
  }

  /** Which countries have IBANs of which length. */
  lemma PublishedExactlyWhen(country: string, length: nat)
    ensures Published(country, length) <==> country in OfLength(length)
  {
    if Published(country, length) {
      var i := SearchFinds(0, country);
      EntryFits(i);
    }
    if country in OfLength(length) {
      ListedIsPublished(country, length);
    }
  }

  predicate EuroUnlessOutside(country: string) { country in SEPA_EUR_COUNTRIES <==> country !in OUTSIDE_EURO }

  lemma EntryIsEuro(i: nat)
    requires i < |COUNTRY_LENGTHS|
    ensures EuroUnlessOutside(COUNTRY_LENGTHS[i].0)
  {
    if i < 12 { FirstAreEuro(i); } else if i < 24 { NextAreEuro(i); } else { LastAreEuro(i); }
  }

  lemma FirstAreEuro(i: nat)
    requires i < 12
    ensures EuroUnlessOutside(COUNTRY_LENGTHS[i].0)
  {}

  lemma NextAreEuro(i: nat)
    requires 12 <= i < 24
    ensures EuroUnlessOutside(COUNTRY_LENGTHS[i].0)
  {}

  lemma LastAreEuro(i: nat)
    requires 24 <= i < |COUNTRY_LENGTHS|
    ensures EuroUnlessOutside(COUNTRY_LENGTHS[i].0)
  {}

  lemma EuroHasLength(country: string) returns (length: nat)
    requires country in SEPA_EUR_COUNTRIES
    ensures country in OfLength(length)
  {
    length :=
      if country in OfLength(16) then 16 else if country in OfLength(18) then 18 else if country in OfLength(19) then 19
      else if country in OfLength(20) then 20 else if country in OfLength(21) then 21
      else if country in OfLength(22) then 22 else if country in OfLength(24) then 24
      else if country in OfLength(25) then 25 else if country in OfLength(27) then 27
      else if country in OfLength(28) then 28 else 31;
  }

  /** The euro area is made up of the countries with IBANs other than the twelve outside it. */
  lemma EuroExactlyWhen(country: string)
    ensures country in SEPA_EUR_COUNTRIES <==>
            country !in OUTSIDE_EURO && exists length :: Published(country, length)
  {
    if country in SEPA_EUR_COUNTRIES {
      var length := EuroHasLength(country);
      ListedIsPublished(country, length);
      assert Published(country, length);
    }
    if length :| Published(country, length) {
      var i := SearchFinds(0, country);
      EntryIsEuro(i);
    }
  }
}
