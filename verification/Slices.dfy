/** What Go's sort package does to a slice. */
module Slices {

  predicate NoRepeats<T(==)>(s: seq<T>) {
    forall i, j :: 0 <= i < j < |s| ==> s[i] != s[j]
  }

  function Inserted<T(!new)>(before: (T, T) -> bool, x: T, s: seq<T>): (r: seq<T>)
    ensures forall y :: y in r <==> y == x || y in s
  {
    if s == [] then [x] else if before(x, s[0]) then [x] + s else [s[0]] + Inserted(before, x, s[1..])
  }

  /** A sorted copy; that it rises is a fact about the order. */
  function Sorted<T(!new)>(before: (T, T) -> bool, s: seq<T>): (r: seq<T>)
    ensures forall y :: y in r <==> y in s
  {
    if s == [] then [] else Inserted(before, s[0], Sorted(before, s[1..]))
  }

  lemma {:induction false} InsertedAddsOne<T(!new)>(before: (T, T) -> bool, x: T, s: seq<T>)
    ensures multiset(Inserted(before, x, s)) == multiset(s) + multiset{x}
  {
    if s != [] {
      assert s == [s[0]] + s[1..];
      InsertedAddsOne(before, x, s[1..]);
    }
  }

  lemma {:induction false} SortedIsPermutation<T(!new)>(before: (T, T) -> bool, s: seq<T>)
    ensures multiset(Sorted(before, s)) == multiset(s)
  {
    if s != [] {
      assert s == [s[0]] + s[1..];
      SortedIsPermutation(before, s[1..]);
      InsertedAddsOne(before, s[0], Sorted(before, s[1..]));
    }
  }
}
