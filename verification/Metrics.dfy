/**
 The metrics registry (backend/src/lib/metrics.ts): cumulative histograms and the escaping of label
 values in the Prometheus text exposition format.
 */
module Metrics {
  import opened Text
  import opened SeriesKeys

  // ---------- Label values ----------

  /** `value.replace(/c/g, by)` for a single character. */
  function ReplaceChar(s: string, c: char, with: string): string {
    if s == "" then "" else (if s[0] == c then with else [s[0]]) + ReplaceChar(s[1..], c, with)
  }

  /** The three passes: backslash, line feed, double quote. */
  function EscapeLabelValue(value: string): string {
    ReplaceChar(ReplaceChar(ReplaceChar(value, '\\', "\\\\"), '\n', "\\n"), '"', "\\\"")
  }

  function EscapeChar(c: char): string {
    if c == '\\' then "\\\\" else if c == '\n' then "\\n" else if c == '"' then "\\\"" else [c]
  }

  /** Each character replaced once, in one pass. */
  function EscapeOnce(s: string): string {
    if s == "" then "" else EscapeChar(s[0]) + EscapeOnce(s[1..])
  }

  /** What a reader of the exposition format does. */
  function Unescape(s: string): string {
    if s == "" then ""
    else if s[0] == '\\' && |s| >= 2 then [if s[1] == 'n' then '\n' else s[1]] + Unescape(s[2..])
    else [s[0]] + Unescape(s[1..])
  }

  lemma {:induction false} ReplaceAppend(a: string, b: string, c: char, with: string)
    ensures ReplaceChar(a + b, c, with) == ReplaceChar(a, c, with) + ReplaceChar(b, c, with)
    decreases |a|
  {
    if a == "" {
      assert a + b == b;
    } else {
      var head := if a[0] == c then with else [a[0]];
      ReplaceAppend(a[1..], b, c, with);
      assert (a + b)[1..] == a[1..] + b;
      Regroup(head, ReplaceChar(a[1..], c, with), ReplaceChar(b, c, with));
    }
  }

  lemma ReplaceOne(x: char, c: char, with: string)
    ensures ReplaceChar([x], c, with) == if x == c then with else [x]
  {
    assert [x][1..] == "";
  }

  lemma ReplaceTwo(x: char, y: char, c: char, with: string)
    ensures ReplaceChar([x, y], c, with) == (if x == c then with else [x]) + (if y == c then with else [y])
  {
    ReplaceOne(x, c, with);
    ReplaceOne(y, c, with);
    ReplaceAppend([x], [y], c, with);
  }

  /** No pass disturbs what an earlier one wrote: the three passes are one. */
  lemma {:induction false} ThreePassesAreOne(s: string)
    ensures EscapeLabelValue(s) == EscapeOnce(s)
    decreases |s|
  {
    if s != "" {
      var x := s[0];
      ThreePassesAreOne(s[1..]);
      EscapeOneChar(x);
      var a := ReplaceChar([x], '\\', "\\\\");
      var b := ReplaceChar(a, '\n', "\\n");
      var a', b' := ReplaceChar(s[1..], '\\', "\\\\"), ReplaceChar(ReplaceChar(s[1..], '\\', "\\\\"), '\n', "\\n");
      assert s == [x] + s[1..];
      ReplaceAppend([x], s[1..], '\\', "\\\\");
      ReplaceAppend(a, a', '\n', "\\n");
      ReplaceAppend(b, b', '"', "\\\"");
    }
  }

  lemma EscapeOneChar(x: char)
    ensures EscapeLabelValue([x]) == EscapeChar(x)
  {
    ReplaceOne(x, '\\', "\\\\");
    if x == '\\' {
      ReplaceTwo('\\', '\\', '\n', "\\n");
      ReplaceTwo('\\', '\\', '"', "\\\"");
    } else {
      ReplaceOne(x, '\n', "\\n");
      if x == '\n' {
        ReplaceTwo('\\', 'n', '"', "\\\"");
      } else {
        ReplaceOne(x, '"', "\\\"");
      }
    }
  }

  /** Reading an escaped value gives the value back, so different values never look alike. */
  lemma {:induction false} EscapingIsReversible(s: string)
    ensures Unescape(EscapeOnce(s)) == s
    decreases |s|
  {
    if s != "" {
      EscapingIsReversible(s[1..]);
      UnescapeHead(s[0], EscapeOnce(s[1..]));
    }
  }

  lemma UnescapeHead(c: char, rest: string)
    ensures Unescape(EscapeChar(c) + rest) == [c] + Unescape(rest)
  {
    var text := EscapeChar(c) + rest;
    assert text[|EscapeChar(c)|..] == rest;
  }

  /** Reading a quoted value up to its closing quote: the value, and what follows the quote. */
  function ReadQuoted(text: string): (string, string) {
    if text == "" || text[0] == '"' then ("", if text == "" then "" else text[1..])
    else if text[0] == '\\' && |text| >= 2 then
      var (v, rest) := ReadQuoted(text[2..]);
      ([if text[1] == 'n' then '\n' else text[1]] + v, rest)
    else
      var (v, rest) := ReadQuoted(text[1..]);
      ([text[0]] + v, rest)
  }

  /** An escaped value cannot end its own quotation: a reader gets back the value and all that follows. */
  lemma {:induction false} QuotedValueReadsBack(value: string, rest: string)
    ensures ReadQuoted(EscapeOnce(value) + ['"'] + rest) == (value, rest)
    decreases |value|
  {
    if value == "" {
      assert EscapeOnce(value) + ['"'] + rest == ['"'] + rest;
    } else {
      QuotedValueReadsBack(value[1..], rest);
      var tail := EscapeOnce(value[1..]) + ['"'] + rest;
      assert EscapeOnce(value) + ['"'] + rest == EscapeChar(value[0]) + tail;
      ReadEscaped(value[0], tail);
      assert value == [value[0]] + value[1..];
    }
  }

  lemma ReadEscaped(c: char, tail: string)
    ensures ReadQuoted(EscapeChar(c) + tail) == ([c] + ReadQuoted(tail).0, ReadQuoted(tail).1)
  {
    var text := EscapeChar(c) + tail;
    assert text[|EscapeChar(c)|..] == tail;
  }

  /** And it stays on its line: no line feed is left. */
  lemma {:induction false} EscapedIsOneLine(value: string)
    ensures Without(EscapeLabelValue(value), '\n')
    decreases |value|
  {
    ThreePassesAreOne(value);
    if value != "" {
      EscapedIsOneLine(value[1..]);
      ThreePassesAreOne(value[1..]);
    }
  }

  // ---------- Counters ----------

  function SumFor(log: seq<(string, int)>, key: string): int {
    if log == [] then 0
    else SumFor(log[..|log| - 1], key) + (if log[|log| - 1].0 == key then log[|log| - 1].1 else 0)
  }

  class Counter {
    var values: map<string, int>
    /** Every increment so far, under its series key. */
    ghost var log: seq<(string, int)>

    ghost predicate Valid()
      reads this
    {
      && (forall k :: k in values ==> values[k] == SumFor(log, k))
      && (forall k :: k !in values ==> SumFor(log, k) == 0)
    }

    constructor ()
      ensures Valid() && log == []
    {
      values, log := map[], [];
    }

    method Inc(labels: Labels, amount: int)
      requires Valid()
      modifies this
      ensures Valid() && log == old(log) + [(LabelKey(labels), amount)]
    {
      var key := LabelKey(labels);
      values := values[key := (if key in values then values[key] else 0) + amount];
      log := log + [(key, amount)];
    }
  }

  // ---------- Histograms ----------

  datatype Entry = Entry(labels: Labels, counts: seq<nat>, sum: real, count: nat)

  /** How many of the observations lie at or below `bound`. */
  function AtMost(observed: seq<real>, bound: real): nat {
    if observed == [] then 0
    else AtMost(observed[..|observed| - 1], bound) + (if observed[|observed| - 1] <= bound then 1 else 0)
  }

  function SumOf(observed: seq<real>): real {
    if observed == [] then 0.0 else SumOf(observed[..|observed| - 1]) + observed[|observed| - 1]
  }

  ghost predicate Represents(e: Entry, buckets: seq<real>, observed: seq<real>) {
    && |e.counts| == |buckets|
    && (forall i :: 0 <= i < |buckets| ==> e.counts[i] == AtMost(observed, buckets[i]))
    && e.sum == SumOf(observed)
    && e.count == |observed|
  }

  class Histogram {
    const buckets: seq<real>
    var series: map<string, Entry>
    /** The observations of each series, in order. */
    ghost var observed: map<string, seq<real>>

    ghost predicate Valid()
      reads this
    {
      && series.Keys == observed.Keys
      && forall k :: k in series ==> Represents(series[k], buckets, observed[k]) && LabelKey(series[k].labels) == k
    }

    constructor (buckets: seq<real>)
      ensures Valid() && this.buckets == buckets && observed == map[]
    {
      this.buckets := buckets;
      series, observed := map[], map[];
    }

    /** After any sequence of observations each bucket holds the number at or below its bound. */
    method Observe(value: real, labels: Labels)
      requires Valid()
      modifies this
      ensures Valid()
      ensures var key := LabelKey(labels);
              observed == old(observed)[key := (if key in old(observed) then old(observed)[key] else []) + [value]]
    {
      var key := LabelKey(labels);
      ghost var before := if key in observed then observed[key] else [];
      var entry := if key in series then series[key]
        else Entry(labels, seq(|buckets|, i => 0), 0.0, 0);
      assert Represents(entry, buckets, before) && LabelKey(entry.labels) == key;
      entry := Counted(entry, value, before);
      series := series[key := entry];
      observed := observed[key := before + [value]];
    }

    /** One more observation in an entry: every bucket whose bound it does not exceed, the sum and the count. */
    method Counted(entry: Entry, value: real, ghost before: seq<real>) returns (counted: Entry)
      requires Represents(entry, buckets, before)
      ensures Represents(counted, buckets, before + [value]) && counted.labels == entry.labels
    {
      ghost var after := before + [value];
      assert after[..|before|] == before;
      var counts := entry.counts;
      for i := 0 to |buckets|
        invariant |counts| == |buckets|
        invariant forall j :: 0 <= j < i ==> counts[j] == AtMost(after, buckets[j])
        invariant forall j :: i <= j < |buckets| ==> counts[j] == AtMost(before, buckets[j])
      {
        if value <= buckets[i] {
          counts := counts[i := counts[i] + 1];
        }
      }
      counted := Entry(entry.labels, counts, entry.sum + value, entry.count + 1);
    }
  }

  /** The `_bucket` values of a series as rendered, the last one being `le="+Inf"`. */
  function RenderedBuckets(e: Entry): seq<nat> { e.counts + [e.count] }

  /** `AtMost` counts: a bucket holds the observations at or below its bound, those equal to it included. */
  lemma {:induction false} AtMostCounts(observed: seq<real>, bound: real)
    ensures AtMost(observed, bound) == |Within(observed, bound)|
    decreases |observed|
  {
    if observed != [] {
      var n := |observed| - 1;
      AtMostCounts(observed[..n], bound);
      assert Within(observed, bound) == Within(observed[..n], bound) + (if observed[n] <= bound then {n} else {});
    }
  }

  /** The positions of the observations at or below a bound. */
  ghost function Within(observed: seq<real>, bound: real): set<int> {
    set i | 0 <= i < |observed| && observed[i] <= bound
  }

  lemma {:induction false} AtMostGrows(observed: seq<real>, low: real, high: real)
    requires low <= high
    ensures AtMost(observed, low) <= AtMost(observed, high) <= |observed|
    decreases |observed|
  {
    if observed != [] {
      AtMostGrows(observed[..|observed| - 1], low, high);
    }
  }

  /** With sorted bounds the rendered buckets never decrease, and they end at the total count. */
  lemma RenderedBucketsAreCumulative(e: Entry, buckets: seq<real>, observed: seq<real>, i: nat, j: nat)
    requires Represents(e, buckets, observed)
    requires forall m, n :: 0 <= m < n < |buckets| ==> buckets[m] <= buckets[n]
    requires i <= j < |RenderedBuckets(e)|
    ensures RenderedBuckets(e)[i] <= RenderedBuckets(e)[j]
    ensures RenderedBuckets(e)[|buckets|] == |observed|
  {
    if i < |buckets| {
      AtMostGrows(observed, buckets[i], buckets[if j < |buckets| then j else i]);
    }
  }
}
