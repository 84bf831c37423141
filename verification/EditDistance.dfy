/** The two-row edit distance, written twice in the repository: Distance in internal/diag/suggest.go and
    editDistance in internal/cronx/zone.go. A string here is its runes. */
module EditDistance {

  // ----- edit scripts

  datatype Edit = Insert(at: nat, c: char) | Delete(at: nat) | Replace(at: nat, c: char)

  predicate Applies(e: Edit, s: string) {
    match e
    case Insert(at, _) => at <= |s|
    case Delete(at) => at < |s|
    case Replace(at, _) => at < |s|
  }

  function Apply(e: Edit, s: string): string
    requires Applies(e, s)
  {
    match e
    case Insert(at, c) => s[..at] + [c] + s[at..]
    case Delete(at) => s[..at] + s[at + 1..]
    case Replace(at, c) => s[..at] + [c] + s[at + 1..]
  }

  /** The script, edit by edit, turns s into t. */
  predicate Turns(s: string, script: seq<Edit>, t: string)
    decreases |script|
  {
    if script == [] then s == t
    else Applies(script[0], s) && Turns(Apply(script[0], s), script[1..], t)
  }

  // ----- the recurrence over prefixes

  function Min3(a: nat, b: nat, c: nat): nat {
    if a <= b && a <= c then a else if b <= c then b else c
  }

  function Levenshtein(a: string, b: string): nat
    decreases |a| + |b|
  {
    if a == [] then |b|
    else if b == [] then |a|
    else
      var m, n := |a| - 1, |b| - 1;
      Min3(Levenshtein(a[..m], b) + 1, Levenshtein(a, b[..n]) + 1,
           Levenshtein(a[..m], b[..n]) + (if a[m] == b[n] then 0 else 1))
  }

  // ----- the two loops

  /** The row above holds the distances from a shorter prefix. */
  predicate IsRow(row: seq<int>, a: string, b: string) {
    |row| == |b| + 1 && forall j :: 0 <= j <= |b| ==> row[j] == Levenshtein(a, b[..j])
  }

  lemma FirstRow(b: string, row: seq<int>)
    requires |row| == |b| + 1 && forall j :: 0 <= j <= |b| ==> row[j] == j
    ensures IsRow(row, [], b)
  {
  }

  lemma NextCell(a: string, b: string, i: nat, j: nat)
    requires 1 <= i <= |a| && 1 <= j <= |b|
    ensures Levenshtein(a[..i], b[..j])
         == Min3(Levenshtein(a[..i - 1], b[..j]) + 1, Levenshtein(a[..i], b[..j - 1]) + 1,
                 Levenshtein(a[..i - 1], b[..j - 1]) + (if a[i - 1] == b[j - 1] then 0 else 1))
  {
    assert a[..i][..i - 1] == a[..i - 1] && b[..j][..j - 1] == b[..j - 1];
  }

  lemma LastRow(row: seq<int>, a: string, b: string)
    requires IsRow(row, a[..|a|], b)
    ensures row[|b|] == Levenshtein(a, b)
  {
    assert a[..|a|] == a && b[..|b|] == b;
  }

  method FillRow(a: string, b: string, i: nat, previous: array<int>, current: array<int>)
    requires 1 <= i <= |a| && previous != current && previous.Length == current.Length == |b| + 1
    requires IsRow(previous[..], a[..i - 1], b)
    modifies current
    ensures IsRow(current[..], a[..i], b)
  {
    hide Levenshtein;
    current[0] := i;
    AgainstEmpty(a[..i]);
    for j := 1 to |b| + 1
      invariant IsRow(previous[..], a[..i - 1], b)
      invariant forall k :: 0 <= k < j ==> current[k] == Levenshtein(a[..i], b[..k])
    {
      var cost := if a[i - 1] == b[j - 1] then 0 else 1;
      NextCell(a, b, i, j);
      assert previous[..][j] == previous[j] && previous[..][j - 1] == previous[j - 1];
      current[j] := Min3(previous[j] + 1, current[j - 1] + 1, previous[j - 1] + cost);
    }
  }

  method Distance(a: string, b: string) returns (d: int)
    ensures d == Levenshtein(a, b)
  {
    hide Levenshtein, IsRow;
    AgainstEmpty(a);
    AgainstEmpty(b);
    if |a| == 0 {
      return |b|;
    }
    if |b| == 0 {
      return |a|;
    }
    var previous := new int[|b| + 1](j => j);
    var current := new int[|b| + 1](j => 0);
    FirstRow(b, previous[..]);
    for i := 1 to |a| + 1
      invariant previous != current && previous.Length == current.Length == |b| + 1
      invariant fresh(previous) && fresh(current)
      invariant IsRow(previous[..], a[..i - 1], b)
    {
      FillRow(a, b, i, previous, current);
      previous, current := current, previous;
    }
    LastRow(previous[..], a, b);
    return previous[|b|];
  }

  method FillRowByHand(a: string, b: string, i: nat, prev: array<int>, cur: array<int>)
    requires 1 <= i <= |a| && prev != cur && prev.Length == cur.Length == |b| + 1
    requires IsRow(prev[..], a[..i - 1], b)
    modifies cur
    ensures IsRow(cur[..], a[..i], b)
  {
    hide Levenshtein;
    cur[0] := i;
    AgainstEmpty(a[..i]);
    for j := 1 to |b| + 1
      invariant IsRow(prev[..], a[..i - 1], b)
      invariant forall k :: 0 <= k < j ==> cur[k] == Levenshtein(a[..i], b[..k])
    {
      var cost := if a[i - 1] == b[j - 1] then 0 else 1;
      NextCell(a, b, i, j);
      assert prev[..][j] == prev[j] && prev[..][j - 1] == prev[j - 1];
      var m := prev[j] + 1;
      if cur[j - 1] + 1 < m {
        m := cur[j - 1] + 1;
      }
      if prev[j - 1] + cost < m {
        m := prev[j - 1] + cost;
      }
      cur[j] := m;
    }
  }

  method EditDistance(a: string, b: string) returns (d: int)
    ensures d == Levenshtein(a, b)
  {
    hide Levenshtein, IsRow;
    var prev := new int[|b| + 1](j => j);
    var cur := new int[|b| + 1](j => 0);
    FirstRow(b, prev[..]);
    for i := 1 to |a| + 1
      invariant prev != cur && prev.Length == cur.Length == |b| + 1
      invariant fresh(prev) && fresh(cur)
      invariant IsRow(prev[..], a[..i - 1], b)
    {
      FillRowByHand(a, b, i, prev, cur);
      prev, cur := cur, prev;
    }
    LastRow(prev[..], a, b);
    return prev[|b|];
  }

  // ----- no script is shorter

  lemma LastCell(p: string, c: char, q: string, d: char)
    ensures Levenshtein(p + [c], q + [d])
         == Min3(Levenshtein(p, q + [d]) + 1, Levenshtein(p + [c], q) + 1,
                 Levenshtein(p, q) + (if c == d then 0 else 1))
  {
    assert (p + [c])[..|p|] == p && (q + [d])[..|q|] == q;
  }

  lemma AgainstEmpty(s: string)
    ensures Levenshtein(s, []) == |s| == Levenshtein([], s)
  {
  }

  lemma {:induction false} OneMoreRune(p: string, q: string, d: char)
    ensures Levenshtein(p, q + [d]) <= Levenshtein(p, q) + 1
  {
    hide Levenshtein;
    if p == [] {
      AgainstEmpty(q);
      AgainstEmpty(q + [d]);
    } else {
      LastCell(p[..|p| - 1], p[|p| - 1], q, d);
      assert p[..|p| - 1] + [p[|p| - 1]] == p;
    }
  }

  lemma {:induction false} LastRuneApart(p: string, x: string, y: string, b: string)
    requires |x| <= 1 && |y| <= 1
    ensures Levenshtein(p + x, b) <= 1 + Levenshtein(p + y, b)
    decreases |b|
  {
    hide Levenshtein;
    if b == [] {
      AgainstEmpty(p + x);
      AgainstEmpty(p + y);
    } else {
      var q, d := b[..|b| - 1], b[|b| - 1];
      assert b == q + [d] && p + [] == p;
      LastRuneApart(p, x, y, q);
      OneMoreRune(p, q, d);
      if x != [] {
        assert x == [x[0]];
        LastCell(p, x[0], q, d);
      }
      if y != [] {
        assert y == [y[0]];
        LastCell(p, y[0], q, d);
      }
    }
  }

  /** Changing at most one rune anywhere moves the distance by at most one. */
  lemma {:induction false} OneEditApart(p: string, x: string, y: string, s: string, b: string)
    requires |x| <= 1 && |y| <= 1
    ensures Levenshtein(p + x + s, b) <= 1 + Levenshtein(p + y + s, b)
    decreases |s| + |b|
  {
    hide Levenshtein;
    if s == [] {
      assert p + x + s == p + x && p + y + s == p + y;
      LastRuneApart(p, x, y, b);
    } else if b == [] {
      AgainstEmpty(p + x + s);
      AgainstEmpty(p + y + s);
    } else {
      var t, c := s[..|s| - 1], s[|s| - 1];
      var q, d := b[..|b| - 1], b[|b| - 1];
      assert s == t + [c] && b == q + [d];
      assert p + x + s == (p + x + t) + [c] && p + y + s == (p + y + t) + [c];
      OneEditApart(p, x, y, t, b);
      OneEditApart(p, x, y, s, q);
      OneEditApart(p, x, y, t, q);
      LastCell(p + x + t, c, q, d);
      LastCell(p + y + t, c, q, d);
    }
  }

  lemma OneEdit(a: string, e: Edit, b: string)
    requires Applies(e, a)
    ensures Levenshtein(a, b) <= 1 + Levenshtein(Apply(e, a), b)
  {
    hide Levenshtein;
    match e
    case Insert(at, c) =>
      assert a[..at] + [] + a[at..] == a;
      OneEditApart(a[..at], [], [c], a[at..], b);
    case Delete(at) =>
      assert a[..at] + [a[at]] + a[at + 1..] == a;
      assert a[..at] + [] + a[at + 1..] == Apply(e, a);
      OneEditApart(a[..at], [a[at]], [], a[at + 1..], b);
    case Replace(at, c) =>
      assert a[..at] + [a[at]] + a[at + 1..] == a;
      OneEditApart(a[..at], [a[at]], [c], a[at + 1..], b);
  }

  lemma {:induction false} NoScriptIsShorter(a: string, script: seq<Edit>, b: string)
    requires Turns(a, script, b)
    ensures Levenshtein(a, b) <= |script|
    decreases |script|
  {
    hide Levenshtein, Apply, Applies;
    if script == [] {
      ZeroIffEqual(a, b);
    } else {
      NoScriptIsShorter(Apply(script[0], a), script[1..], b);
      OneEdit(a, script[0], b);
    }
  }

  // ----- and one script is as short

  lemma {:induction false} TurnsOneAfterAnother(a: string, first: seq<Edit>, b: string, second: seq<Edit>, c: string)
    requires Turns(a, first, b) && Turns(b, second, c)
    ensures Turns(a, first + second, c)
    decreases |first|
  {
    hide Apply, Applies;
    if first == [] {
      assert first + second == second;
    } else {
      TurnsOneAfterAnother(Apply(first[0], a), first[1..], b, second, c);
      assert (first + second)[1..] == first[1..] + second;
    }
  }

  /** An edit leaves what stands behind its string alone. */
  lemma EditInFrontOf(a: string, e: Edit, tail: string)
    requires Applies(e, a)
    ensures Applies(e, a + tail) && Apply(e, a + tail) == Apply(e, a) + tail
  {
    var at := e.at;
    assert (a + tail)[..at] == a[..at];
    match e
    case Insert(_, c) => assert (a + tail)[at..] == a[at..] + tail;
    case _ => assert (a + tail)[at + 1..] == a[at + 1..] + tail;
  }

  lemma {:induction false} TurnsInFrontOf(a: string, script: seq<Edit>, b: string, tail: string)
    requires Turns(a, script, b)
    ensures Turns(a + tail, script, b + tail)
    decreases |script|
  {
    hide Apply, Applies;
    if script != [] {
      TurnsInFrontOf(Apply(script[0], a), script[1..], b, tail);
      EditInFrontOf(a, script[0], tail);
    }
  }

  lemma TurnsAtEnd(p: string, c: char, d: char)
    ensures Turns(p + [c], [Delete(|p|)], p) && Turns(p, [Insert(|p|, d)], p + [d])
    ensures Turns(p + [c], [Replace(|p|, d)], p + [d])
  {
    assert [Delete(|p|)][1..] == [] && [Insert(|p|, d)][1..] == [] && [Replace(|p|, d)][1..] == [];
    assert Apply(Delete(|p|), p + [c]) == p;
    assert Apply(Insert(|p|, d), p) == p + [d];
    assert Apply(Replace(|p|, d), p + [c]) == p + [d];
  }

  lemma {:induction false} ShortestScript(a: string, b: string) returns (script: seq<Edit>)
    ensures Turns(a, script, b) && |script| == Levenshtein(a, b)
    decreases |a| + |b|
  {
    hide Levenshtein, Apply, Applies, Turns;
    if a == [] {
      script := BuildUp(b);
    } else if b == [] {
      script := TearDown(a);
    } else {
      var p, c := a[..|a| - 1], a[|a| - 1];
      var q, d := b[..|b| - 1], b[|b| - 1];
      assert a == p + [c] && b == q + [d];
      LastCell(p, c, q, d);
      TurnsAtEnd(p, c, d);
      TurnsAtEnd(q, c, d);
      if Levenshtein(a, b) == Levenshtein(p, b) + 1 {
        script := ShortestScript(p, b);
        TurnsOneAfterAnother(a, [Delete(|p|)], p, script, b);
        script := [Delete(|p|)] + script;
      } else if Levenshtein(a, b) == Levenshtein(a, q) + 1 {
        script := ShortestScript(a, q);
        TurnsOneAfterAnother(a, script, q, [Insert(|q|, d)], b);
        script := script + [Insert(|q|, d)];
      } else {
        script := ShortestScript(p, q);
        TurnsInFrontOf(p, script, q, [d]);
        if c != d {
          TurnsOneAfterAnother(a, [Replace(|p|, d)], p + [d], script, b);
          script := [Replace(|p|, d)] + script;
        }
      }
    }
  }

  lemma {:induction false} BuildUp(b: string) returns (script: seq<Edit>)
    ensures Turns([], script, b) && |script| == Levenshtein([], b)
  {
    hide Apply, Applies;
    script := [];
    if b != [] {
      var q, d := b[..|b| - 1], b[|b| - 1];
      assert b == q + [d];
      script := BuildUp(q);
      TurnsAtEnd(q, d, d);
      TurnsOneAfterAnother([], script, q, [Insert(|q|, d)], b);
      script := script + [Insert(|q|, d)];
    }
  }

  lemma {:induction false} TearDown(a: string) returns (script: seq<Edit>)
    ensures Turns(a, script, []) && |script| == Levenshtein(a, [])
  {
    hide Apply, Applies;
    script := [];
    if a != [] {
      var p, c := a[..|a| - 1], a[|a| - 1];
      assert a == p + [c];
      script := TearDown(p);
      TurnsAtEnd(p, c, c);
      TurnsOneAfterAnother(a, [Delete(|p|)], p, script, []);
      script := [Delete(|p|)] + script;
    }
  }

  // ----- so it is a metric

  lemma {:induction false} ZeroIffEqual(a: string, b: string)
    ensures Levenshtein(a, b) == 0 <==> a == b
    decreases |a| + |b|
  {
    if a != [] && b != [] {
      var m, n := |a| - 1, |b| - 1;
      assert a == a[..m] + [a[m]] && b == b[..n] + [b[n]];
      ZeroIffEqual(a[..m], b[..n]);
    }
  }

  lemma {:induction false} Symmetric(a: string, b: string)
    ensures Levenshtein(a, b) == Levenshtein(b, a)
    decreases |a| + |b|
  {
    if a != [] && b != [] {
      var m, n := |a| - 1, |b| - 1;
      Symmetric(a[..m], b);
      Symmetric(a, b[..n]);
      Symmetric(a[..m], b[..n]);
    }
  }

  lemma {:induction false} Triangle(a: string, b: string, c: string)
    ensures Levenshtein(a, c) <= Levenshtein(a, b) + Levenshtein(b, c)
  {
    hide Levenshtein, Turns;
    var first := ShortestScript(a, b);
    var second := ShortestScript(b, c);
    TurnsOneAfterAnother(a, first, b, second, c);
    NoScriptIsShorter(a, first + second, c);
  }
}
