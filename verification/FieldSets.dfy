/** Sorted field sets and the binary search internal/cronx reads them through. */
module FieldSets {

  predicate StrictlyRising(s: seq<int>) {
    forall i, j :: 0 <= i < j < |s| ==> s[i] < s[j]
  }

  /** A parsed cron column: nonempty, strictly sorted, inside its bounds. */
  predicate FieldSet(s: seq<int>, lo: int, hi: int) {
    |s| > 0 && StrictlyRising(s) && forall i :: 0 <= i < |s| ==> lo <= s[i] <= hi
  }

  /** sort.SearchInts: the least index holding a value at or above x. */
  function SearchInts(s: seq<int>, x: int): (i: nat)
    requires StrictlyRising(s)
    ensures i <= |s|
    ensures forall k :: 0 <= k < i ==> s[k] < x
    ensures forall k :: i <= k < |s| ==> x <= s[k]
  {
    if |s| == 0 || x <= s[0] then 0 else 1 + SearchInts(s[1..], x)
  }

  predicate Contains(s: seq<int>, v: int)
    requires StrictlyRising(s)
  {
    var i := SearchInts(s, v);
    i < |s| && s[i] == v
  }

  lemma ContainsIsMembership(s: seq<int>, v: int)
    requires StrictlyRising(s)
    ensures Contains(s, v) <==> v in s
  {
  }

  lemma {:induction false} RisesByOne(s: seq<int>, lo: int, hi: int, i: nat)
    requires FieldSet(s, lo, hi) && i < |s|
    ensures lo + i <= s[i] && s[i] + (|s| - 1 - i) <= hi
  {
    if i > 0 {
      RisesBelow(s, lo, i);
    }
    RisesAbove(s, hi, i);
  }

  lemma {:induction false} RisesBelow(s: seq<int>, lo: int, i: nat)
    requires StrictlyRising(s) && i < |s| && lo <= s[0]
    ensures lo + i <= s[i]
  {
    if i > 0 { RisesBelow(s, lo, i - 1); }
  }

  lemma {:induction false} RisesAbove(s: seq<int>, hi: int, i: nat)
    requires StrictlyRising(s) && i < |s| && s[|s| - 1] <= hi
    ensures s[i] + (|s| - 1 - i) <= hi
    decreases |s| - i
  {
    if i < |s| - 1 { RisesAbove(s, hi, i + 1); }
  }

  /** A field set is the whole range exactly when it has as many members as the range is wide. */
  lemma FullIffWide(s: seq<int>, lo: int, hi: int)
    requires FieldSet(s, lo, hi)
    ensures |s| <= hi - lo + 1
    ensures |s| == hi - lo + 1 <==> forall v :: lo <= v <= hi ==> v in s
  {
    RisesByOne(s, lo, hi, 0);
    if |s| == hi - lo + 1 {
      forall v | lo <= v <= hi ensures v in s {
        RisesByOne(s, lo, hi, v - lo);
        assert s[v - lo] == v;
      }
    } else if forall v :: lo <= v <= hi ==> v in s {
      Crowd(s, lo, hi);
    }
  }

  lemma {:induction false} Crowd(s: seq<int>, lo: int, hi: int)
    requires StrictlyRising(s) && lo <= hi + 1
    requires forall v :: lo <= v <= hi ==> v in s
    ensures hi - lo + 1 <= |s|
    decreases hi - lo
  {
    if lo <= hi {
      assert hi in s;
      var k :| 0 <= k < |s| && s[k] == hi;
      forall v | lo <= v <= hi - 1 ensures v in s[..k] {
        assert v in s;
        var j :| 0 <= j < |s| && s[j] == v;
        assert j < k && s[..k][j] == v;
      }
      Crowd(s[..k], lo, hi - 1);
    }
  }
}
