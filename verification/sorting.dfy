/** Sorting rows descending on a numeric key, as `sort_values(...,
    ascending=False)` does. pandas does not promise a stable order for
    equal keys; the insertion sort here is one admissible order, and every
    property stated about it holds of any descending permutation. */
module Sorting {

  /** Sorted on `key`, largest first. */
  predicate Descending<T>(key: T -> real, s: seq<T>)
  {
    forall i, j | 0 <= i < j < |s| :: key(s[i]) >= key(s[j])
  }

  /** One insertion step: `x` goes before the first strictly smaller row. */
  function Insert<T>(key: T -> real, x: T, s: seq<T>): seq<T>
    decreases |s|
  {
    if |s| == 0 then [x]
    else if key(x) > key(s[0]) then [x] + s
    else [s[0]] + Insert(key, x, s[1..])
  }

  lemma {:induction false} InsertPermutes<T>(key: T -> real, x: T, s: seq<T>)
    ensures multiset(Insert(key, x, s)) == multiset(s) + multiset{x}
    decreases |s|
  {
    if |s| > 0 && key(x) <= key(s[0]) {
      InsertPermutes(key, x, s[1..]);
      assert s == [s[0]] + s[1..];
    }
  }

  lemma {:induction false} InsertMembers<T>(key: T -> real, x: T, s: seq<T>)
    ensures forall y | y in Insert(key, x, s) :: y == x || y in s
    decreases |s|
  {
    if |s| > 0 && key(x) <= key(s[0]) {
      InsertMembers(key, x, s[1..]);
      assert forall y | y in s[1..] :: y in s;
    }
  }

  /** Inserting into a descending list keeps it descending. */
  lemma {:induction false} InsertSorted<T>(key: T -> real, x: T, s: seq<T>)
    requires Descending(key, s)
    ensures Descending(key, Insert(key, x, s))
    decreases |s|
  {
    if |s| > 0 {
      DescendingTail(key, s);
      if key(x) <= key(s[0]) {
        var rest := Insert(key, x, s[1..]);
        InsertSorted(key, x, s[1..]);
        InsertMembers(key, x, s[1..]);
        DescendingCons(key, s[0], rest);
      } else {
        DescendingCons(key, x, s);
      }
    }
  }

  /** A row at least as large as every row of a descending list can go in
      front of it. */
  lemma DescendingCons<T>(key: T -> real, x: T, s: seq<T>)
    requires Descending(key, s)
    requires forall y | y in s :: key(x) >= key(y)
    ensures Descending(key, [x] + s)
  {
    var r := [x] + s;
    forall i, j | 0 <= i < j < |r|
      ensures key(r[i]) >= key(r[j])
    {
      assert r[j] == s[j - 1] && s[j - 1] in s;
      if i > 0 {
        assert r[i] == s[i - 1];
      }
    }
  }

  /** The tail of a descending list is descending and below its head. */
  lemma DescendingTail<T>(key: T -> real, s: seq<T>)
    requires Descending(key, s) && |s| > 0
    ensures Descending(key, s[1..])
    ensures forall y | y in s[1..] :: key(s[0]) >= key(y)
  {
    assert forall k | 0 <= k < |s[1..]| :: s[1..][k] == s[k + 1];
  }

  /** The rows in descending order of `key`. */
  function SortDescending<T>(key: T -> real, s: seq<T>): seq<T>
    decreases |s|
  {
    if |s| == 0 then [] else Insert(key, s[|s| - 1], SortDescending(key, s[..|s| - 1]))
  }

  /** The sort orders largest first and neither drops nor adds a row. */
  lemma {:induction false} SortSpec<T>(key: T -> real, s: seq<T>)
    ensures Descending(key, SortDescending(key, s))
    ensures multiset(SortDescending(key, s)) == multiset(s)
    ensures |SortDescending(key, s)| == |s|
    decreases |s|
  {
    if |s| > 0 {
      SortSpec(key, s[..|s| - 1]);
      InsertSorted(key, s[|s| - 1], SortDescending(key, s[..|s| - 1]));
      InsertPermutes(key, s[|s| - 1], SortDescending(key, s[..|s| - 1]));
      assert s == s[..|s| - 1] + [s[|s| - 1]];
    }
    assert |SortDescending(key, s)| == |multiset(SortDescending(key, s))|;
  }
}
