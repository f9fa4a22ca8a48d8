/** Stands for the library's sort: a sorted permutation. */
module Sorting {

  ghost predicate TotalOrder<T(!new)>(le: (T, T) -> bool) {
    && (forall a, b :: le(a, b) || le(b, a))
    && (forall a, b, c :: le(a, b) && le(b, c) ==> le(a, c))
  }

  ghost predicate SortedBy<T>(le: (T, T) -> bool, s: seq<T>) {
    forall i, j :: 0 <= i < j < |s| ==> le(s[i], s[j])
  }

  method Sort<T(!new)>(le: (T, T) -> bool, s: seq<T>) returns (sorted: seq<T>)
    requires TotalOrder(le)
    ensures SortedBy(le, sorted) && multiset(sorted) == multiset(s)
  {
    sorted := [];
    for i := 0 to |s|
      invariant SortedBy(le, sorted) && multiset(sorted) == multiset(s[..i])
    {
      assert s[..i + 1] == s[..i] + [s[i]];
      InsertedIsSorted(le, sorted, s[i]);
      InsertedKeeps(le, sorted, s[i]);
      sorted := Inserted(le, sorted, s[i]);
    }
    assert s[..|s|] == s;
  }

  function Inserted<T>(le: (T, T) -> bool, sorted: seq<T>, x: T): (r: seq<T>) {
    if sorted == [] || le(x, sorted[0]) then [x] + sorted
    else [sorted[0]] + Inserted(le, sorted[1..], x)
  }

  lemma {:induction false} InsertedKeeps<T>(le: (T, T) -> bool, sorted: seq<T>, x: T)
    ensures multiset(Inserted(le, sorted, x)) == multiset(sorted) + multiset{x}
  {
    if sorted != [] {
      InsertedKeeps(le, sorted[1..], x);
      assert sorted == [sorted[0]] + sorted[1..];
    }
  }

  lemma {:induction false} InsertedIsSorted<T(!new)>(le: (T, T) -> bool, sorted: seq<T>, x: T)
    requires TotalOrder(le) && SortedBy(le, sorted)
    ensures SortedBy(le, Inserted(le, sorted, x))
  {
    if sorted == [] || le(x, sorted[0]) {
    } else {
      InsertedIsSorted(le, sorted[1..], x);
      InsertedKeeps(le, sorted[1..], x);
      assert sorted == [sorted[0]] + sorted[1..];
      var rest := Inserted(le, sorted[1..], x);
      forall j | 0 <= j < |rest| ensures le(sorted[0], rest[j]) {
        assert rest[j] in multiset(rest);
      }
    }
  }
}
