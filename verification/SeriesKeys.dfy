/**
 The key under which a metric files a series (`labelKey`, backend/src/lib/metrics.ts:14-18): the
 labels joined as `name=value` with commas, the values as they are. When do two label sets share it?
 */
module SeriesKeys {
  import opened Text

  /** A label set, listed by name as `Object.keys(labels).sort()` orders it. */
  datatype Label = Label(name: string, value: string)
  type Labels = seq<Label>

  function LabelParts(labels: Labels): seq<string> {
    if labels == [] then [] else [labels[0].name + ['='] + labels[0].value] + LabelParts(labels[1..])
  }

  function LabelKey(labels: Labels): string { Join(LabelParts(labels), ',') }

  /** Names as Prometheus admits them contain neither separator. */
  predicate PlainName(name: string) { Without(name, '=') && Without(name, ',') }

  predicate PlainNames(labels: Labels) { forall i :: 0 <= i < |labels| ==> PlainName(labels[i].name) }

  /** A label set as the key function meets it: plain names in strictly increasing order. */
  ghost predicate LabelSet(labels: Labels) {
    PlainNames(labels) && forall i, j :: 0 <= i < j < |labels| ==> Precedes(labels[i].name, labels[j].name)
  }

  /**
   Values are not escaped in a key: any two adjacent labels share their series with one label whose
   value spells the second one out.
   */
  lemma LabelKeysCollide(a: Label, b: Label, rest: Labels)
    ensures var merged := Label(a.name, a.value + [','] + (b.name + ['='] + b.value));
            LabelKey([merged] + rest) == LabelKey([a, b] + rest)
  {
    var merged := Label(a.name, a.value + [','] + (b.name + ['='] + b.value));
    var p, q, tail := a.name + ['='] + a.value, b.name + ['='] + b.value, LabelParts(rest);
    assert ([merged] + rest)[1..] == rest;
    assert ([a, b] + rest)[1..] == [b] + rest && ([b] + rest)[1..] == rest;
    assert LabelParts([b] + rest) == [q] + tail;
    assert LabelParts([a, b] + rest) == [p] + ([q] + tail);
    assert merged.name + ['='] + merged.value == p + [','] + q;
    assert LabelParts([merged] + rest) == [p + [','] + q] + tail;
    MergedJoin(p, q, tail);
  }

  lemma MergedJoin(p: string, q: string, tail: seq<string>)
    ensures Join([p + [','] + q] + tail, ',') == Join([p] + ([q] + tail), ',')
  {
    assert ([p] + ([q] + tail))[1..] == [q] + tail;
    assert ([q] + tail)[1..] == tail;
    assert ([p + [','] + q] + tail)[1..] == tail;
    if tail == [] {
      assert Join([q] + tail, ',') == q;
    } else {
      var more := [','] + Join(tail, ',');
      assert Join([q] + tail, ',') == q + more;
      assert p + [','] + (q + more) == p + [','] + q + more;
    }
  }

  // ---------- The text of a key ----------

  /** What separates a value from the next label's. */
  function Mark(name: string): string { [','] + name + ['='] }

  /** What follows the first value of a key. */
  function Tail(labels: Labels): string {
    if labels == [] then "" else Mark(labels[0].name) + (labels[0].value + Tail(labels[1..]))
  }

  lemma TailOf(k: Label, ls: Labels)
    ensures Tail([k] + ls) == Mark(k.name) + (k.value + Tail(ls))
  {
    assert ([k] + ls)[1..] == ls;
  }

  lemma {:induction false} KeyText(labels: Labels)
    requires labels != []
    ensures LabelKey(labels) == labels[0].name + ['='] + (labels[0].value + Tail(labels[1..]))
    decreases |labels|
  {
    var rest := labels[1..];
    var first := labels[0].name + ['='] + labels[0].value;
    assert LabelParts(labels) == [first] + LabelParts(rest);
    if rest == [] {
      assert LabelParts(labels) == [first];
    } else {
      KeyText(rest);
      assert LabelParts(labels)[1..] == LabelParts(rest);
      assert Tail(rest) == [','] + LabelKey(rest);
    }
  }

  ghost predicate OccursAt(m: string, s: string, i: nat) { i + |m| <= |s| && s[i..i + |m|] == m }

  ghost predicate Contains(m: string, s: string) { exists i: nat :: OccursAt(m, s, i) }

  /** Marks never overlap: one that occurs near another lies before it, after it, or is it. */
  lemma MarksMeet(n: string, k: string, text: string, i: nat, j: nat)
    requires PlainName(n) && PlainName(k) && OccursAt(Mark(n), text, i) && OccursAt(Mark(k), text, j)
    ensures i + |Mark(n)| <= j || j + |Mark(k)| <= i || (i == j && n == k)
  {
    InMark(n, text, i);
    InMark(k, text, j);
    if i == j {
      SameMark(n, k, text, i);
    }
  }

  lemma SameMark(n: string, k: string, text: string, i: nat)
    requires PlainName(n) && PlainName(k) && OccursAt(Mark(n), text, i) && OccursAt(Mark(k), text, i)
    ensures n == k
  {
    InMark(n, text, i);
    InMark(k, text, i);
    assert |n| == |k|;
    assert forall j :: 0 <= j < |n| ==> n[j] == text[i + 1 + j] == k[j];
  }

  /** Within a mark only the first character is a comma, and only the last an equals sign. */
  lemma InMark(n: string, text: string, i: nat)
    requires PlainName(n) && OccursAt(Mark(n), text, i)
    ensures text[i] == ',' && text[i + 1 + |n|] == '='
    ensures forall j :: i < j < i + |Mark(n)| ==> text[j] != ','
    ensures forall j :: i <= j < i + 1 + |n| ==> text[j] != '='
    ensures forall j :: 0 <= j < |n| ==> text[i + 1 + j] == n[j]
  {
    var m := text[i..i + |Mark(n)|];
    assert forall j :: 0 <= j < |m| ==> text[i + j] == m[j];
    forall j | i <= j < i + |Mark(n)| ensures (j > i ==> text[j] != ',') && (j < i + 1 + |n| ==> text[j] != '=') {
      assert text[j] == m[j - i];
    }
  }

  // ---------- Metrics with fixed label names ----------

  predicate SameNames(a: Labels, b: Labels) {
    |a| == |b| && forall i :: 0 <= i < |a| ==> a[i].name == b[i].name
  }

  predicate DistinctNames(labels: Labels) {
    forall i, j :: 0 <= i < j < |labels| ==> labels[i].name != labels[j].name
  }

  /** No value spells the mark that ends it, or the mark it follows. */
  ghost predicate Clear(value: string, rest: Labels)
    decreases |rest|
  {
    rest == [] ||
    (var m := Mark(rest[0].name);
     !Contains(m, value) && !Contains(m, rest[0].value) && Clear(rest[0].value, rest[1..]))
  }

  /** Where a mark may stand in a text that begins with `v` and another mark. */
  lemma Placed(v: string, k: string, x: string, u: string, m: string, y: string)
    requires PlainName(k) && PlainName(m) && v + (Mark(k) + x) == u + (Mark(m) + y)
    ensures Contains(Mark(m), v)
            || (|u| == |v| && k == m && u == v && x == y)
            || (|v + Mark(k)| <= |u| && x == u[|v + Mark(k)|..] + (Mark(m) + y))
  {
    var text := v + (Mark(k) + x);
    Regroup(v, Mark(k), x);
    Regroup(u, Mark(m), y);
    assert OccursAt(Mark(k), text, |v|) && OccursAt(Mark(m), text, |u|);
    MarksMeet(m, k, text, |u|, |v|);
    if |u| + |Mark(m)| <= |v| {
      Inside(v, Mark(k) + x, Mark(m), |u|);
    } else if |u| == |v| {
      SameStart(v, u, Mark(k), x, y);
    } else {
      DropMark(v, Mark(k), x, u, Mark(m) + y);
    }
  }

  lemma Inside(v: string, rest: string, mark: string, i: nat)
    requires OccursAt(mark, v + rest, i) && i + |mark| <= |v|
    ensures Contains(mark, v)
  {
    assert (v + rest)[i..i + |mark|] == v[i..i + |mark|];
    assert OccursAt(mark, v, i);
  }

  lemma DropMark(v: string, mark: string, x: string, u: string, y: string)
    requires v + (mark + x) == u + y && |v + mark| <= |u|
    ensures x == u[|v + mark|..] + y
  {
    assert x == (v + (mark + x))[|v + mark|..];
    assert (u + y)[|v + mark|..] == u[|v + mark|..] + y;
  }

  lemma SameStart(v: string, w: string, mark: string, x: string, y: string)
    requires |v| == |w| && v + (mark + x) == w + (mark + y)
    ensures v == w && x == y
  {
    assert v == (v + (mark + x))[..|v|] && w == (w + (mark + y))[..|w|];
    assert x == (v + (mark + x))[|v + mark|..] && y == (w + (mark + y))[|w + mark|..];
  }

  lemma MarkInside(v: string, u: string, mark: string, y: string)
    requires v == u + (mark + y)
    ensures Contains(mark, v)
  {
    assert v[|u|..|u| + |mark|] == mark;
    assert OccursAt(mark, v, |u|);
  }

  /** A clear text has no room for one more mark in front of its own. */
  lemma {:induction false} NoExtraMark(v: string, ls: Labels, u: string, ms: Labels)
    requires |ms| == |ls| + 1 && SameNames(ls, ms[1..]) && PlainNames(ms) && DistinctNames(ms)
    requires Clear(v, ls) && !Contains(Mark(ms[0].name), v)
    ensures v + Tail(ls) != u + Tail(ms)
    decreases |ls|
  {
    if v + Tail(ls) == u + Tail(ms) {
      var mark, y := Mark(ms[0].name), ms[0].value + Tail(ms[1..]);
      if ls == [] {
        assert v == v + Tail(ls);
        MarkInside(v, u, mark, y);
      } else {
        var k := ls[0];
        assert k.name == ms[1].name;
        Placed(v, k.name, k.value + Tail(ls[1..]), u, ms[0].name, y);
        var w := u[|v + Mark(k.name)|..];
        Regroup(mark, ms[0].value, Tail(ms[1..]));
        Regroup(w, mark + ms[0].value, Tail(ms[1..]));
        NoExtraMark(k.value, ls[1..], w + (mark + ms[0].value), ms[1..]);
      }
    }
  }

  /** A clear key can be read in one way only. */
  lemma {:induction false} ClearIsUnique(v: string, ls: Labels, w: string, ms: Labels)
    requires SameNames(ls, ms) && PlainNames(ls) && DistinctNames(ls)
    requires Clear(v, ls) && v + Tail(ls) == w + Tail(ms)
    ensures v == w && ls == ms
    decreases |ls|
  {
    if ls != [] {
      var k, x, y := ls[0], ls[0].value + Tail(ls[1..]), ms[0].value + Tail(ms[1..]);
      Placed(v, k.name, x, w, k.name, y);
      if |v| < |w| {
        NoExtraMark(k.value, ls[1..], w[|v + Mark(k.name)|..], ms);
      } else {
        ClearIsUnique(k.value, ls[1..], ms[0].value, ms[1..]);
        assert ls == [k] + ls[1..] && ms == [ms[0]] + ms[1..];
      }
    } else {
      assert v == v + Tail(ls) && w == w + Tail(ms);
    }
  }

  /** A key that is not clear can be read in a second way. */
  lemma {:induction false} UnclearIsShared(v: string, ls: Labels) returns (w: string, ms: Labels)
    requires !Clear(v, ls)
    ensures SameNames(ls, ms) && v + Tail(ls) == w + Tail(ms) && (w != v || ms != ls)
    decreases |ls|
  {
    var k, rest := ls[0], ls[1..];
    var m := Mark(k.name);
    assert ls == [k] + rest;
    if i: nat :| OccursAt(m, v, i) {
      w, ms := CutBefore(v, k, rest, i);
    } else if i: nat :| OccursAt(m, k.value, i) {
      w, ms := CutAfter(v, k, rest, i);
    } else {
      var x, others := UnclearIsShared(k.value, rest);
      w, ms := v, [Label(k.name, x)] + others;
      TailOf(k, rest);
      TailOf(Label(k.name, x), others);
      assert ms[1..] == others && ms[0].value == x;
    }
  }

  lemma CutBefore(v: string, k: Label, rest: Labels, i: nat) returns (w: string, ms: Labels)
    requires OccursAt(Mark(k.name), v, i)
    ensures SameNames([k] + rest, ms) && v + Tail([k] + rest) == w + Tail(ms) && |w| < |v|
  {
    var m := Mark(k.name);
    var q := v[i + |m|..];
    w, ms := v[..i], [Label(k.name, q + m + k.value)] + rest;
    TailOf(k, rest);
    TailOf(ms[0], rest);
    assert v == w + m + q;
    RegroupBefore(w, m, q, k.value, Tail(rest));
  }

  lemma RegroupBefore(w: string, m: string, q: string, x: string, t: string)
    ensures (w + m + q) + (m + (x + t)) == w + (m + (q + m + x + t))
  {}

  lemma RegroupAfter(v: string, m: string, p: string, q: string, t: string)
    ensures v + (m + (p + m + q + t)) == (v + m + p) + (m + (q + t))
  {}

  lemma CutAfter(v: string, k: Label, rest: Labels, i: nat) returns (w: string, ms: Labels)
    requires OccursAt(Mark(k.name), k.value, i)
    ensures SameNames([k] + rest, ms) && v + Tail([k] + rest) == w + Tail(ms) && |v| < |w|
  {
    var m := Mark(k.name);
    var p, q := k.value[..i], k.value[i + |m|..];
    w, ms := v + m + p, [Label(k.name, q)] + rest;
    TailOf(k, rest);
    TailOf(ms[0], rest);
    assert k.value == p + m + q;
    RegroupAfter(v, m, p, q, Tail(rest));
  }

  /**
   A metric with fixed label names: a label set is the only one with its names and its key exactly
   when no value spells `,name=` with the name of its own label or of the next one.
   */
  lemma FixedNamesIdentifyExactlyWhen(a: Labels)
    requires a != [] && PlainNames(a) && DistinctNames(a)
    ensures (forall b: Labels :: SameNames(a, b) && LabelKey(b) == LabelKey(a) ==> b == a)
            <==> Clear(a[0].value, a[1..])
  {
    if Clear(a[0].value, a[1..]) {
      forall b: Labels | SameNames(a, b) && LabelKey(b) == LabelKey(a) ensures b == a {
        SameKeySameText(a, b);
        ClearIsUnique(a[0].value, a[1..], b[0].value, b[1..]);
        assert a == [a[0]] + a[1..] && b == [b[0]] + b[1..];
      }
    } else {
      var w, ms := UnclearIsShared(a[0].value, a[1..]);
      var b := [Label(a[0].name, w)] + ms;
      assert b[1..] == ms;
      SameKeySameText(a, b);
      assert a == [a[0]] + a[1..];
    }
  }

  lemma SameKeySameText(a: Labels, b: Labels)
    requires a != [] && SameNames(a, b)
    ensures LabelKey(a) == LabelKey(b) <==> a[0].value + Tail(a[1..]) == b[0].value + Tail(b[1..])
  {
    KeyText(a);
    KeyText(b);
    HeadCancels(a[0].name + ['='], a[0].value + Tail(a[1..]), b[0].value + Tail(b[1..]));
  }

  lemma HeadCancels(head: string, x: string, y: string)
    ensures head + x == head + y <==> x == y
  {
    assert x == (head + x)[|head|..] && y == (head + y)[|head|..];
  }

  /** The collision a metric with fixed names can meet: a value spells the other label's mark. */
  lemma FixedNamesCollide(n: string, m: string, x: string, y: string, z: string)
    ensures LabelKey([Label(n, x + Mark(m) + y), Label(m, z)]) == LabelKey([Label(n, x), Label(m, y + Mark(m) + z)])
  {
    var a, b := [Label(n, x + Mark(m) + y), Label(m, z)], [Label(n, x), Label(m, y + Mark(m) + z)];
    assert a[1..] == [Label(m, z)] && b[1..] == [Label(m, y + Mark(m) + z)];
    assert a[1..][1..] == [] == b[1..][1..];
    SameKeySameText(a, b);
  }

  /** For two labels: unique among the sets with the same names exactly when neither value spells the mark. */
  lemma TwoLabelsIdentifyExactlyWhen(n: string, x: string, m: string, z: string)
    requires PlainName(n) && PlainName(m) && n != m
    ensures var a := [Label(n, x), Label(m, z)];
            (forall b: Labels :: SameNames(a, b) && LabelKey(b) == LabelKey(a) ==> b == a)
            <==> !Contains(Mark(m), x) && !Contains(Mark(m), z)
  {
    var a := [Label(n, x), Label(m, z)];
    FixedNamesIdentifyExactlyWhen(a);
    assert a[1..] == [Label(m, z)] && a[1..][1..] == [];
  }

  // ---------- Any label names ----------

  /** The value of `l` spells a further label that would come after it. */
  ghost predicate SpellsLabel(l: Label) {
    exists m: string :: PlainName(m) && Precedes(l.name, m) && Contains(Mark(m), l.value)
  }

  /**
   A label set shares its key with a different one exactly when it has at least two labels, or its
   only value spells a label whose name comes after its own.
   */
  lemma KeyIsSharedExactlyWhen(a: Labels)
    requires LabelSet(a)
    ensures (exists b: Labels :: LabelSet(b) && b != a && LabelKey(b) == LabelKey(a))
            <==> |a| >= 2 || (|a| == 1 && SpellsLabel(a[0]))
  {
    if |a| >= 2 {
      MergeTwo(a);
    } else if |a| == 1 && SpellsLabel(a[0]) {
      SplitOne(a[0]);
      assert a == [a[0]];
    } else {
      forall b: Labels | LabelSet(b) && LabelKey(b) == LabelKey(a) ensures b == a {
        OnlyReading(a, b);
      }
    }
  }

  lemma MergeTwo(a: Labels)
    requires LabelSet(a) && |a| >= 2
    ensures exists b: Labels :: LabelSet(b) && b != a && LabelKey(b) == LabelKey(a)
  {
    var rest := a[2..];
    var merged := Label(a[0].name, a[0].value + [','] + (a[1].name + ['='] + a[1].value));
    var b := [merged] + rest;
    LabelKeysCollide(a[0], a[1], rest);
    assert a == [a[0], a[1]] + rest;
    forall i | 0 <= i < |b| ensures b[i].name == a[if i == 0 then 0 else i + 1].name {}
    assert LabelSet(b);
    assert |b| < |a|;
  }

  lemma SplitOne(l: Label)
    requires PlainName(l.name) && SpellsLabel(l)
    ensures exists b: Labels :: LabelSet(b) && b != [l] && LabelKey(b) == LabelKey([l])
  {
    var m: string :| PlainName(m) && Precedes(l.name, m) && Contains(Mark(m), l.value);
    var i: nat :| OccursAt(Mark(m), l.value, i);
    SplitAt(l, m, l.value[..i], l.value[i + |Mark(m)|..]);
  }

  lemma SplitAt(l: Label, m: string, p: string, q: string)
    requires PlainName(l.name) && PlainName(m) && Precedes(l.name, m) && l.value == p + Mark(m) + q
    ensures exists b: Labels :: LabelSet(b) && b != [l] && LabelKey(b) == LabelKey([l])
  {
    CutValue(l, m, p, q);
    assert LabelSet([Label(l.name, p), Label(m, q)]);
  }

  lemma CutValue(l: Label, m: string, p: string, q: string)
    requires l.value == p + Mark(m) + q
    ensures LabelKey([Label(l.name, p), Label(m, q)]) == LabelKey([l])
  {
    assert p + Mark(m) + q == p + [','] + (m + ['='] + q);
    LabelKeysCollide(Label(l.name, p), Label(m, q), []);
    assert [Label(l.name, p), Label(m, q)] + [] == [Label(l.name, p), Label(m, q)] && [l] + [] == [l];
  }

  lemma OnlyReading(a: Labels, b: Labels)
    requires LabelSet(a) && LabelSet(b) && LabelKey(a) == LabelKey(b) && |a| <= 1
    requires |a| == 1 ==> !SpellsLabel(a[0])
    ensures a == b
  {
    if a == [] {
      if b != [] { KeyText(b); }
    } else {
      KeyText(a);
      assert a == [a[0]] && a[1..] == [];
      if b != [] {
        KeyText(b);
        assert a[0].value + Tail([]) == a[0].value;
        FirstName(a[0].name, a[0].value, b[0].name, b[0].value + Tail(b[1..]));
        if |b| > 1 {
          assert PlainName(b[1].name) && Precedes(a[0].name, b[1].name);
          MarkInside(a[0].value, b[0].value, Mark(b[1].name), b[1].value + Tail(b[1..][1..]));
        } else {
          assert b == [b[0]] && b[0].value + Tail(b[1..]) == b[0].value;
        }
      }
    }
  }

  lemma FirstName(n: string, x: string, m: string, y: string)
    requires PlainName(n) && PlainName(m) && n + ['='] + x == m + ['='] + y
    ensures n == m && x == y
  {
    var text := n + ['='] + x;
    SplitFirst(n, '=', x);
    SplitFirst(m, '=', y);
    assert n == SplitOn(text, '=')[0] == m;
    assert x == text[|n| + 1..] == y;
  }

  // ---------- Comma-free values ----------

  /** Plain names, and values without the comma. */
  predicate PlainLabels(labels: Labels) {
    forall i :: 0 <= i < |labels| ==>
      PlainName(labels[i].name) && Without(labels[i].value, ',')
  }

  /** Comma-free label sets never share a series. */
  lemma PlainKeysIdentify(a: Labels, b: Labels)
    requires PlainLabels(a) && PlainLabels(b) && LabelKey(a) == LabelKey(b)
    ensures a == b
  {
    PartsArePlain(a);
    PartsArePlain(b);
    var p, q := LabelParts(a), LabelParts(b);
    if a != [] && b != [] {
      SplitJoin(p, ',');
      SplitJoin(q, ',');
    }
    assert p != [] ==> Join(p, ',') != "";
    assert q != [] ==> Join(q, ',') != "";
    PartsIdentify(a, b);
  }

  lemma {:induction false} PartsArePlain(labels: Labels)
    requires PlainLabels(labels)
    ensures |LabelParts(labels)| == |labels|
    ensures forall i :: 0 <= i < |labels| ==> Without(LabelParts(labels)[i], ',') && LabelParts(labels)[i] != ""
    decreases |labels|
  {
    if labels != [] {
      PartsArePlain(labels[1..]);
    }
  }

  lemma {:induction false} PartsIdentify(a: Labels, b: Labels)
    requires PlainLabels(a) && PlainLabels(b) && LabelParts(a) == LabelParts(b)
    ensures a == b
    decreases |a|
  {
    if a != [] && b != [] {
      assert LabelParts(a)[0] == LabelParts(b)[0];
      FirstName(a[0].name, a[0].value, b[0].name, b[0].value);
      assert LabelParts(a)[1..] == LabelParts(b)[1..];
      PartsIdentify(a[1..], b[1..]);
      assert a == [a[0]] + a[1..] && b == [b[0]] + b[1..];
    } else {
      assert |LabelParts(a)| == |LabelParts(b)|;
    }
  }
}
