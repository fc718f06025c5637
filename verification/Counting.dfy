/** Cardinalities of finite sets, used wherever a bound counts events. */
module Counting {

  lemma {:induction false} SubsetCard<T>(a: set<T>, b: set<T>)
    requires a <= b
    ensures |a| <= |b|
    decreases |a|
  {
    if a != {} {
      var x :| x in a;
      SubsetCard(a - {x}, b - {x});
    }
  }

  /** A set whose members get distinct codes below `n` has at most `n` members. */
  lemma {:induction false} DistinctCodes<T(!new)>(s: set<T>, code: T -> int, n: nat)
    requires forall x :: x in s ==> 0 <= code(x) < n
    requires forall x, y :: x in s && y in s && code(x) == code(y) ==> x == y
    ensures |s| <= n
    decreases n
  {
    if n == 0 {
      assert forall x :: x !in s;
      assert s == {};
    } else if x :| x in s && code(x) == n - 1 {
      DistinctCodes(s - {x}, code, n - 1);
    } else {
      DistinctCodes(s, code, n - 1);
    }
  }

  /** A set with no two different members has at most one. */
  lemma AtMostOneMember<T>(s: set<T>)
    requires forall x, y :: x in s && y in s ==> x == y
    ensures |s| <= 1
  {
    if s != {} {
      var x :| x in s;
      assert s == {x};
    }
  }

  function Range(low: int, high: int): set<int>
    decreases high - low
  {
    if low < high then Range(low, high - 1) + {high - 1} else {}
  }

  lemma {:induction false} RangeCard(low: int, high: int)
    requires low <= high
    ensures |Range(low, high)| == high - low
    ensures forall i :: i in Range(low, high) <==> low <= i < high
    decreases high - low
  {
    if low < high {
      RangeCard(low, high - 1);
    }
  }
}
