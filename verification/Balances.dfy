/**
 Addresses and i128 amounts as the contracts know them, and finite ledgers: maps from accounts to
 amounts, and the sum of all their entries. Both contracts keep their units in such a map, so
 conservation is proved here once.
 */
module Balances {

  type Address = string

  const I128_MAX: int := 0x7FFF_FFFF_FFFF_FFFF_FFFF_FFFF_FFFF_FFFF
  const I128_MIN: int := -I128_MAX - 1

  type I128 = x: int | I128_MIN <= x <= I128_MAX

  predicate Fits(x: int) { I128_MIN <= x <= I128_MAX }

  /** The entry of `k`, zero when there is none (the contracts' `get(..).unwrap_or(0)`). */
  function Get<K>(m: map<K, int>, k: K): int {
    if k in m then m[k] else 0
  }

  ghost function Total<K>(m: map<K, int>): int {
    if m == map[] then 0 else var k :| k in m; m[k] + Total(m - {k})
  }

  ghost predicate NonNegative<K>(m: map<K, int>) {
    forall k :: k in m ==> 0 <= m[k]
  }

  /** Move `units` inside a ledger; the second read follows the first write, so `from == to` is a no-op. */
  function Moved<K>(m: map<K, int>, from: K, to: K, units: int): map<K, int> {
    var debited := m[from := Get(m, from) - units];
    debited[to := Get(debited, to) + units]
  }

  /** The choice of first entry in `Total` does not matter. */
  lemma {:induction false} TotalSplit<K>(m: map<K, int>, k: K)
    requires k in m
    ensures Total(m) == m[k] + Total(m - {k})
    decreases |m|
  {
    var first :| first in m && Total(m) == m[first] + Total(m - {first});
    if first != k {
      TotalSplit(m - {first}, k);
      TotalSplit(m - {k}, first);
      assert m - {first} - {k} == m - {k} - {first};
    }
  }

  lemma TotalUpdate<K>(m: map<K, int>, k: K, v: int)
    ensures Total(m[k := v]) == Total(m) - Get(m, k) + v
  {
    TotalSplit(m[k := v], k);
    if k in m {
      TotalSplit(m, k);
      assert m[k := v] - {k} == m - {k};
    } else {
      assert m[k := v] - {k} == m;
    }
  }

  lemma MovedKeepsTotal<K>(m: map<K, int>, from: K, to: K, units: int)
    ensures Total(Moved(m, from, to, units)) == Total(m)
  {
    var debited := m[from := Get(m, from) - units];
    TotalUpdate(m, from, Get(m, from) - units);
    TotalUpdate(debited, to, Get(debited, to) + units);
  }

  /** In a non-negative ledger no account, and no pair of accounts, exceeds the total. */
  lemma {:induction false} EntriesBelowTotal<K>(m: map<K, int>, a: K, b: K)
    requires NonNegative(m)
    ensures 0 <= Get(m, a) <= Total(m)
    ensures a != b ==> Get(m, a) + Get(m, b) <= Total(m)
    decreases |m|
  {
    if m != map[] {
      var k :| k in m;
      TotalSplit(m, k);
      EntriesBelowTotal(m - {k}, a, b);
    }
  }
}
