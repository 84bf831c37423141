/** Canonical cron expressions, internal/cronx/cronx.go: what an accepted column stands for, and the round
    trip between field sets and the expression that prints them. */
module Canonical {
  import opened Options
  import opened Text
  import opened FieldSets
  import opened CronField

  // ----- what a column stands for

  lemma {:induction false} WalkIsProgression(w: Walk, v: int)
    requires w.step >= 1
    ensures v in Walked(w) <==> w.lo <= v <= w.hi && (v - w.lo) % w.step == 0
    decreases w.hi - w.lo + 1
  {
    if w.lo <= w.hi {
      var rest := w.(lo := w.lo + w.step);
      WalkIsProgression(rest, v);
      StepBack(v - w.lo, w.step);
      assert v in Walked(w) <==> v == w.lo || v in Walked(rest);
    }
  }

  /** Being a multiple of the step does not change by one step; below it only zero is one. */
  lemma StepBack(n: int, step: int)
    requires step >= 1
    ensures (n - step) % step == n % step
    ensures 0 <= n < step ==> n % step == n
  {
    var q, r := n / step, n % step;
    assert n - step == step * (q - 1) + r;
    Remainder(n - step, step, q - 1, r);
    if 0 <= n < step {
      Remainder(n, step, 0, n);
    }
  }

  lemma Remainder(n: int, step: int, q: int, r: int)
    requires n == step * q + r && 0 <= r < step
    ensures n % step == r
  {
    var p, m := n / step, n % step;
    assert step * (p - q) == r - m;
    assert p - q >= 1 ==> step * (p - q) >= step;
    assert p - q <= -1 ==> step * (p - q) <= -step;
  }

  /** The value is on the progression of an atom, 7 read as Sunday. */
  ghost predicate OnSomeProgression(field: string, spec: FieldSpec, v: int) {
    var atoms := Split(field, ',');
    exists i, x :: 0 <= i < |atoms| && OnProgression(atoms[i], spec, x) && Normal(x, spec) == v
  }

  predicate OnProgression(atom: string, spec: FieldSpec, x: int) {
    match ReadAtom(atom, spec)
    case Ok(w) => w.lo <= x <= w.hi && (x - w.lo) % w.step == 0
    case Err(_) => false
  }

  /** An accepted column is the union of its atoms' arithmetic progressions, strictly sorted. */
  lemma FieldIsUnion(field: string, spec: FieldSpec, vals: seq<int>, v: int)
    requires Parses(field, spec, vals)
    ensures v in vals <==> OnSomeProgression(field, spec, v)
  {
    hide ReadAtom, Split, FirstError, StrictlyRising;
    var atoms := Split(field, ',');
    if v in vals {
      var i :| 0 <= i < |atoms| && AtomDenotes(atoms[i], spec, v);
      var w := ReadAtom(atoms[i], spec).value;
      var j :| 0 <= j < |Walked(w)| && Normal(Walked(w)[j], spec) == v;
      WalkIsProgression(w, Walked(w)[j]);
      assert OnProgression(atoms[i], spec, Walked(w)[j]);
    }
    if i, x :| 0 <= i < |atoms| && OnProgression(atoms[i], spec, x) && Normal(x, spec) == v {
      var w := ReadAtom(atoms[i], spec).value;
      WalkIsProgression(w, x);
      var j :| 0 <= j < |Walked(w)| && Walked(w)[j] == x;
      assert AtomDenotes(atoms[i], spec, v);
    }
  }

  lemma {:induction false} NoneOutsideIff(w: Walk, spec: FieldSpec)
    requires w.step >= 1
    ensures FirstOutside(w, spec) == None <==> forall x <- Walked(w) :: Within(x, spec)
    decreases w.hi - w.lo + 1
  {
    hide Within;
    if w.lo <= w.hi {
      var rest := w.(lo := w.lo + w.step);
      NoneOutsideIff(rest, spec);
      assert Walked(w)[0] == w.lo && Walked(w)[1..] == Walked(rest);
      assert forall x :: x in Walked(w) <==> x == w.lo || x in Walked(rest);
    }
  }

  /** Every atom reads, and no value it walks over is out of range. */
  predicate AtomsFit(atoms: seq<string>, spec: FieldSpec) {
    forall i :: 0 <= i < |atoms| ==> AtomFits(atoms[i], spec)
  }

  predicate AtomFits(atom: string, spec: FieldSpec) {
    ReadAtom(atom, spec).Ok? && forall x <- Walked(ReadAtom(atom, spec).value) :: Within(x, spec)
  }

  lemma {:induction false} NoErrorIff(atoms: seq<string>, spec: FieldSpec)
    ensures FirstError(atoms, spec) == None <==> AtomsFit(atoms, spec)
  {
    hide ReadAtom, Within, FirstOutside;
    if atoms != [] {
      NoErrorIff(atoms[1..], spec);
      if ReadAtom(atoms[0], spec).Ok? {
        NoneOutsideIff(ReadAtom(atoms[0], spec).value, spec);
      }
      assert AtomsFit(atoms, spec) <==> AtomFits(atoms[0], spec) && AtomsFit(atoms[1..], spec) by {
        assert forall i :: 1 <= i < |atoms| ==> atoms[i] == atoms[1..][i - 1];
      }
    }
  }

  lemma DenotedInRange(atoms: seq<string>, spec: FieldSpec, v: int)
    requires AtomsFit(atoms, spec) && Denotes(atoms, spec, v)
    ensures spec.min <= v <= EffMax(spec)
  {
    hide ReadAtom;
    var a :| 0 <= a < |atoms| && AtomDenotes(atoms[a], spec, v);
    var w := ReadAtom(atoms[a], spec).value;
    var j :| 0 <= j < |Walked(w)| && Normal(Walked(w)[j], spec) == v;
    assert AtomFits(atoms[a], spec) && Walked(w)[j] in Walked(w);
  }

  lemma ParsedInRange(field: string, spec: FieldSpec, vals: seq<int>)
    requires Parses(field, spec, vals)
    ensures FieldSet(vals, spec.min, EffMax(spec))
  {
    hide AtomsFit, Denotes, Split, FirstError;
    var atoms := Split(field, ',');
    NoErrorIff(atoms, spec);
    forall i | 0 <= i < |vals| ensures spec.min <= vals[i] <= EffMax(spec) {
      assert vals[i] in vals;
      DenotedInRange(atoms, spec, vals[i]);
    }
  }

  lemma ParsesUnique(field: string, spec: FieldSpec, a: seq<int>, b: seq<int>)
    requires Parses(field, spec, a) && Parses(field, spec, b)
    ensures a == b
  {
    hide Denotes, Split, FirstError;
    RisingUnique(a, b);
  }

  lemma {:induction false} RisingUnique(a: seq<int>, b: seq<int>)
    requires StrictlyRising(a) && StrictlyRising(b) && forall v :: v in a <==> v in b
    ensures a == b
  {
    assert a != [] ==> a[0] in a && a[0] in b;
    assert b != [] ==> b[0] in b && b[0] in a;
    if a != [] && b != [] {
      forall v ensures v in a[1..] <==> v in b[1..] {
        assert v in a[1..] <==> v in a && v != a[0];
        assert v in b[1..] <==> v in b && v != b[0];
      }
      RisingUnique(a[1..], b[1..]);
      assert a == [a[0]] + a[1..] && b == [b[0]] + b[1..];
    }
  }

  // ----- the atom that adds nothing

  /** A single value with a step whose start lies beyond the ceiling, such as 90/2 for minutes. */
  predicate StartsBeyond(atom: string, spec: FieldSpec) {
    var i := IndexOf(atom, '/');
    i < |atom| && atom[..i] != "*" && '-' !in atom[..i]
    && match (Resolve(atom[..i], spec), Atoi(atom[i + 1..]))
       case (Some(v), Some(n)) => v > EffMax(spec) && n >= 1
       case _ => false
  }

  /** Exactly these atoms read without an error and stand for no value. */
  lemma SilentIff(atom: string, spec: FieldSpec)
    requires Sound(spec)
    ensures StartsBeyond(atom, spec) <==> ReadAtom(atom, spec).Ok? && Walked(ReadAtom(atom, spec).value) == []
  {
    hide Atoi, Resolve;
  }

  lemma {:induction false} FirstErrorConcat(a: seq<string>, b: seq<string>, spec: FieldSpec)
    ensures FirstError(a + b, spec) == if FirstError(a, spec).Some? then FirstError(a, spec) else FirstError(b, spec)
  {
    hide AtomError;
    if a == [] {
      assert a + b == b;
    } else {
      assert (a + b)[1..] == a[1..] + b;
      FirstErrorConcat(a[1..], b, spec);
    }
  }

  lemma DenotesConcat(a: seq<string>, b: seq<string>, spec: FieldSpec, v: int)
    ensures Denotes(a + b, spec, v) <==> Denotes(a, spec, v) || Denotes(b, spec, v)
  {
    hide AtomDenotes;
    if i :| 0 <= i < |a| && AtomDenotes(a[i], spec, v) {
      assert AtomDenotes((a + b)[i], spec, v);
    }
    if i :| 0 <= i < |b| && AtomDenotes(b[i], spec, v) {
      assert AtomDenotes((a + b)[|a| + i], spec, v);
    }
  }

  /** An atom that stands for nothing may be left out of a list. */
  lemma SilentAtomAddsNothing(pre: seq<string>, atom: string, post: seq<string>, spec: FieldSpec)
    requires ReadAtom(atom, spec).Ok? && Walked(ReadAtom(atom, spec).value) == []
    ensures FirstError(pre + [atom] + post, spec) == FirstError(pre + post, spec)
    ensures forall v :: Denotes(pre + [atom] + post, spec, v) <==> Denotes(pre + post, spec, v)
    ensures forall v :: !Denotes([atom], spec, v)
  {
    hide ReadAtom, Within;
    NoneOutsideIff(ReadAtom(atom, spec).value, spec);
    assert FirstError([atom], spec) == None;
    hide FirstError;
    FirstErrorConcat(pre + [atom], post, spec);
    FirstErrorConcat(pre, [atom], spec);
    FirstErrorConcat(pre, post, spec);
    assert forall v :: !Denotes([atom], spec, v);
    forall v ensures Denotes(pre + [atom] + post, spec, v) <==> Denotes(pre + post, spec, v) {
      DenotesConcat(pre + [atom], post, spec, v);
      DenotesConcat(pre, [atom], spec, v);
      DenotesConcat(pre, post, spec, v);
    }
  }

  /** Such an atom, listed anywhere beside others, changes neither whether the column is accepted nor its
      values: only alone is a start beyond the field refused. */
  lemma StartBeyondAddsNothing(pre: string, atom: string, post: string, spec: FieldSpec, vals: seq<int>)
    requires Sound(spec) && StartsBeyond(atom, spec) && ',' !in atom
    ensures Parses(atom + "," + post, spec, vals) <==> Parses(post, spec, vals)
    ensures Parses(pre + "," + atom, spec, vals) <==> Parses(pre, spec, vals)
    ensures Parses(pre + "," + atom + "," + post, spec, vals) <==> Parses(pre + "," + post, spec, vals)
    ensures !Parses(atom, spec, vals)
  {
    hide ReadAtom, Split, StartsBeyond, FirstError, Denotes;
    var before, after := Split(pre, ','), Split(post, ',');
    SilentIff(atom, spec);
    SplitOnePiece(atom, ',');
    SplitConcat(atom, post, ',');
    SplitConcat(pre, atom, ',');
    SplitConcat(pre + "," + atom, post, ',');
    SplitConcat(pre, post, ',');
    SilentAtomAddsNothing([], atom, after, spec);
    SilentAtomAddsNothing(before, atom, [], spec);
    SilentAtomAddsNothing(before, atom, after, spec);
    assert [] + [atom] + after == [atom] + after && [] + after == after;
    assert before + [atom] + [] == before + [atom] && before + [] == before;
    assert vals != [] ==> vals[0] in vals;
  }

  // ----- which columns are accepted

  /** The values of a range that the atoms denote, in order. */
  function Collected(atoms: seq<string>, spec: FieldSpec, lo: int, hi: int): (r: seq<int>)
    ensures StrictlyRising(r) && forall v :: v in r <==> lo <= v <= hi && Denotes(atoms, spec, v)
    decreases hi - lo + 1
  {
    if lo > hi then []
    else
      var rest := Collected(atoms, spec, lo, hi - 1);
      assert forall j :: 0 <= j < |rest| ==> rest[j] in rest;
      assert forall v :: v in rest + [hi] <==> v in rest || v == hi;
      if Denotes(atoms, spec, hi) then rest + [hi] else rest
  }

  /** A column is accepted exactly when every atom reads and stays in range and some atom stands for a value. */
  lemma AcceptedIff(field: string, spec: FieldSpec)
    ensures (exists vals :: Parses(field, spec, vals))
       <==> AtomsFit(Split(field, ','), spec) && exists v :: Denotes(Split(field, ','), spec, v)
  {
    hide ReadAtom, Split, FirstError, Denotes, AtomsFit;
    var atoms := Split(field, ',');
    NoErrorIff(atoms, spec);
    if vals :| Parses(field, spec, vals) {
      assert vals[0] in vals;
    }
    if AtomsFit(atoms, spec) && exists v :: Denotes(atoms, spec, v) {
      var v :| Denotes(atoms, spec, v);
      var vals := Collected(atoms, spec, spec.min, EffMax(spec));
      forall x | Denotes(atoms, spec, x) ensures x in vals {
        DenotedInRange(atoms, spec, x);
      }
      assert v in vals;
      assert Parses(field, spec, vals);
    }
  }

  // ----- printing

  function Numbers(vals: seq<int>): (parts: seq<string>)
    requires forall i :: 0 <= i < |vals| ==> vals[i] >= 0
    ensures |parts| == |vals| && forall i :: 0 <= i < |parts| ==> Digits(parts[i]) && parts[i] == Itoa(vals[i])
  {
    if vals == [] then [] else [Itoa(vals[0])] + Numbers(vals[1..])
  }

  /** A full range collapses to a star, anything else is listed. */
  function Printed(vals: seq<int>, spec: FieldSpec): string
    requires FieldSet(vals, spec.min, EffMax(spec))
  {
    if |vals| == EffMax(spec) - spec.min + 1 && vals[0] == spec.min && vals[|vals| - 1] == EffMax(spec) then "*"
    else JoinWith(Numbers(vals), ",")
  }

  lemma NumberAtom(n: nat, spec: FieldSpec)
    requires Sound(spec) && spec.min <= n <= EffMax(spec)
    ensures ReadAtom(Itoa(n), spec) == Ok(Walk(n, n, 1)) && AtomError(Itoa(n), spec) == None
    ensures forall v :: AtomDenotes(Itoa(n), spec, v) <==> v == n
  {
    var s := Itoa(n);
    assert '/' !in s && '-' !in s && IsDigit(s[0]) by {
      assert s[0] in s;
      assert !IsDigit('/') && !IsDigit('-');
    }
    AtoiOfItoa(n);
    assert s != "*";
    var w := Walk(n, n, 1);
    assert Walked(w) == [n];
    assert FirstOutside(w, spec) == None;
    assert Normal(Walked(w)[0], spec) == n;
  }

  lemma {:induction false} NumbersParse(vals: seq<int>, spec: FieldSpec)
    requires Sound(spec) && forall i :: 0 <= i < |vals| ==> spec.min <= vals[i] <= EffMax(spec)
    ensures FirstError(Numbers(vals), spec) == None
    ensures forall v :: v in vals <==> Denotes(Numbers(vals), spec, v)
  {
    hide ReadAtom, AtomDenotes, AtomError, Itoa, Sound;
    if vals != [] {
      NumbersParse(vals[1..], spec);
      NumberAtom(vals[0], spec);
      var parts := Numbers(vals);
      assert parts[1..] == Numbers(vals[1..]);
      forall v ensures v in vals <==> Denotes(parts, spec, v) {
        assert v in vals <==> v == vals[0] || v in vals[1..];
        assert forall i :: 1 <= i < |parts| ==> parts[i] == parts[1..][i - 1];
        assert AtomDenotes(parts[0], spec, v) <==> v == vals[0];
      }
    }
  }

  lemma StarParses(vals: seq<int>, spec: FieldSpec)
    requires Sound(spec) && FieldSet(vals, spec.min, EffMax(spec)) && |vals| == EffMax(spec) - spec.min + 1
    ensures Parses("*", spec, vals)
  {
    SplitOnePiece("*", ',');
    var w := Walk(spec.min, MaxOf(spec), 1);
    assert ReadAtom("*", spec) == Ok(w);
    assert forall x <- Walked(w) :: Within(x, spec) by {
      forall x <- Walked(w) ensures Within(x, spec) {
        WalkIsProgression(w, x);
      }
    }
    NoneOutsideIff(w, spec);
    FullIffWide(vals, spec.min, EffMax(spec));
    forall v ensures v in vals <==> Denotes(["*"], spec, v) {
      WalkIsProgression(w, v);
      if v in vals {
        var j :| 0 <= j < |Walked(w)| && Walked(w)[j] == v;
        assert AtomDenotes(["*"][0], spec, v);
      }
      if Denotes(["*"], spec, v) {
        var j :| 0 <= j < |Walked(w)| && Normal(Walked(w)[j], spec) == v;
        WalkIsProgression(w, Walked(w)[j]);
      }
    }
  }

  /** Printing a field set and parsing it again gives the same set. */
  lemma PrintedParses(vals: seq<int>, spec: FieldSpec)
    requires Sound(spec) && FieldSet(vals, spec.min, EffMax(spec))
    ensures Parses(Printed(vals, spec), spec, vals)
    ensures Word(Printed(vals, spec))
  {
    hide Denotes, FirstError, Sound, IsSpace, Itoa;
    if |vals| == EffMax(spec) - spec.min + 1 && vals[0] == spec.min && vals[|vals| - 1] == EffMax(spec) {
      StarParses(vals, spec);
      SpaceIsSpace();
    } else {
      var parts := Numbers(vals);
      NumbersParse(vals, spec);
      forall p <- parts ensures ',' !in p {
        assert !IsDigit(',');
      }
      SplitOfJoin(parts, ',');
      NumbersAreWords(vals);
    }
  }

  lemma NumbersAreWords(vals: seq<int>)
    requires vals != [] && forall i :: 0 <= i < |vals| ==> vals[i] >= 0
    ensures Word(JoinWith(Numbers(vals), ","))
  {
    hide Itoa, IsSpace;
    ListIsWord(Numbers(vals));
  }

  lemma {:induction false} ListIsWord(parts: seq<string>)
    requires parts != [] && forall i :: 0 <= i < |parts| ==> Digits(parts[i])
    ensures Word(JoinWith(parts, ","))
  {
    hide IsSpace;
    SpaceIsSpace();
    if |parts| > 1 {
      ListIsWord(parts[1..]);
    }
  }

  /** A star is printed exactly for the set of every value of the column; any other set is printed as its numbers in
      order between commas. */
  lemma PrintedIff(vals: seq<int>, spec: FieldSpec)
    requires FieldSet(vals, spec.min, EffMax(spec))
    ensures Printed(vals, spec) == "*" <==> forall v :: spec.min <= v <= EffMax(spec) ==> v in vals
    ensures Printed(vals, spec) != "*" ==>
              var parts := Split(Printed(vals, spec), ',');
              |parts| == |vals| && forall i :: 0 <= i < |vals| ==> parts[i] == Itoa(vals[i])
  {
    hide Itoa, Split, Numbers;
    WholeIff(vals, spec);
    ListedIsNoStar(vals);
  }

  lemma WholeIff(vals: seq<int>, spec: FieldSpec)
    requires FieldSet(vals, spec.min, EffMax(spec))
    ensures |vals| == EffMax(spec) - spec.min + 1 && vals[0] == spec.min && vals[|vals| - 1] == EffMax(spec)
       <==> forall v :: spec.min <= v <= EffMax(spec) ==> v in vals
  {
    FullIffWide(vals, spec.min, EffMax(spec));
    RisesByOne(vals, spec.min, EffMax(spec), 0);
    RisesByOne(vals, spec.min, EffMax(spec), |vals| - 1);
  }

  lemma StarIsNoNumber()
    ensures !Digits("*")
  {
    assert "*"[0] == '*' && !IsDigit('*');
  }

  lemma ListedIsNoStar(vals: seq<int>)
    requires vals != [] && forall i :: 0 <= i < |vals| ==> vals[i] >= 0
    ensures JoinWith(Numbers(vals), ",") != "*" && Split(JoinWith(Numbers(vals), ","), ',') == Numbers(vals)
  {
    hide Itoa;
    var parts := Numbers(vals);
    forall p <- parts ensures ',' !in p {
      assert !IsDigit(',');
    }
    SplitOfJoin(parts, ',');
    SplitOnePiece("*", ',');
    StarIsNoNumber();
  }

  /** So a canonical column is its own canonical form, and two sets print alike only when they are equal. */
  lemma PrintedIsInjective(a: seq<int>, b: seq<int>, spec: FieldSpec)
    requires Sound(spec) && FieldSet(a, spec.min, EffMax(spec)) && FieldSet(b, spec.min, EffMax(spec))
    ensures Printed(a, spec) == Printed(b, spec) <==> a == b
  {
    hide Printed, Parses, Sound;
    PrintedParses(a, spec);
    PrintedParses(b, spec);
    if Printed(a, spec) == Printed(b, spec) {
      ParsesUnique(Printed(a, spec), spec, a, b);
    }
  }

  // ----- whole expressions

  predicate SetsFor(sets: seq<seq<int>>, specs: seq<FieldSpec>) {
    |sets| == |specs| && forall i :: 0 <= i < |sets| ==> FieldSet(sets[i], specs[i].min, EffMax(specs[i]))
  }

  ghost predicate AllParse(fields: seq<string>, specs: seq<FieldSpec>, sets: seq<seq<int>>) {
    |fields| == |specs| == |sets| && forall i :: 0 <= i < |fields| ==> Parses(fields[i], specs[i], sets[i])
  }

  ghost predicate AllSound(specs: seq<FieldSpec>) {
    forall i :: 0 <= i < |specs| ==> Sound(specs[i])
  }

  function Columns(sets: seq<seq<int>>, specs: seq<FieldSpec>): (columns: seq<string>)
    requires SetsFor(sets, specs)
    ensures |columns| == |sets| && forall i :: 0 <= i < |sets| ==> columns[i] == Printed(sets[i], specs[i])
  {
    seq(|sets|, i requires 0 <= i < |sets| => Printed(sets[i], specs[i]))
  }

  function Expression(sets: seq<seq<int>>, specs: seq<FieldSpec>): string
    requires SetsFor(sets, specs)
  {
    JoinWith(Columns(sets, specs), " ")
  }

  lemma AllParsedInRange(fields: seq<string>, specs: seq<FieldSpec>, sets: seq<seq<int>>)
    requires AllParse(fields, specs, sets)
    ensures SetsFor(sets, specs)
  {
    hide Parses, FieldSet;
    forall i | 0 <= i < |sets| ensures FieldSet(sets[i], specs[i].min, EffMax(specs[i])) {
      ParsedInRange(fields[i], specs[i], sets[i]);
    }
  }

  /** The expression that prints some sets parses, column by column, to those sets. */
  lemma ExpressionParses(sets: seq<seq<int>>, specs: seq<FieldSpec>)
    requires AllSound(specs) && SetsFor(sets, specs)
    ensures AllParse(Fields(Expression(sets, specs)), specs, sets)
  {
    hide Parses, FieldSet, Printed, Sound, Fields, IsSpace;
    var columns := Columns(sets, specs);
    forall i | 0 <= i < |sets| ensures Word(columns[i]) && Parses(columns[i], specs[i], sets[i]) {
      PrintedParses(sets[i], specs[i]);
    }
    FieldsOfWords(columns);
  }

  /** An expression is its columns with single spaces between them. */
  lemma ExpressionSplits(sets: seq<seq<int>>, specs: seq<FieldSpec>)
    requires AllSound(specs) && SetsFor(sets, specs) && sets != []
    ensures Split(Expression(sets, specs), ' ') == Columns(sets, specs)
  {
    hide FieldSet, Printed, Sound, IsSpace, Split;
    var columns := Columns(sets, specs);
    SpaceIsSpace();
    forall i | 0 <= i < |sets| ensures Word(columns[i]) {
      PrintedParses(sets[i], specs[i]);
    }
    assert forall c <- columns :: Word(c);
    SplitOfJoin(columns, ' ');
  }

  /** Two expressions are the same text exactly when all their sets agree. */
  lemma SameExpressionIffSameSets(a: seq<seq<int>>, b: seq<seq<int>>, specs: seq<FieldSpec>)
    requires AllSound(specs) && SetsFor(a, specs) && SetsFor(b, specs)
    ensures Expression(a, specs) == Expression(b, specs) <==> a == b
  {
    hide Parses, FieldSet, Expression, Sound;
    ExpressionParses(a, specs);
    ExpressionParses(b, specs);
    if Expression(a, specs) == Expression(b, specs) {
      forall i | 0 <= i < |a| ensures a[i] == b[i] {
        ParsesUnique(Fields(Expression(a, specs))[i], specs[i], a[i], b[i]);
      }
    }
  }
}
