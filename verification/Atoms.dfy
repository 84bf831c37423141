/** What each form of a cron atom stands for, in the words of internal/cronx/cronx.go's documentation: numbers and
    names, ranges, stars and steps, 7 folding to Sunday. */
module Atoms {
  import opened Options
  import opened Text
  import opened FieldSets
  import opened CronField
  import opened Canonical
  import opened CronParser

  predicate Plain(text: string) {
    text != "*" && '-' !in text && '/' !in text && ',' !in text
  }

  /** The text is a number, or a name of the column's. */
  predicate Spells(text: string, spec: FieldSpec, v: int) {
    Plain(text) && (spec.names(text) == Some(v) || (v >= 0 && text == Itoa(v)))
  }

  predicate OnWalk(x: int, lo: int, hi: int, step: int)
    requires step >= 1
  {
    lo <= x <= hi && (x - lo) % step == 0
  }

  /** Weekday 7 is Sunday, like 0; every other value is itself. */
  predicate FoldsTo(x: int, v: int, spec: FieldSpec) {
    v == if spec.weekday && x == 7 then 0 else x
  }

  ghost predicate Walks(spec: FieldSpec, lo: int, hi: int, step: int, v: int)
    requires step >= 1
  {
    exists x :: OnWalk(x, lo, hi, step) && FoldsTo(x, v, spec)
  }

  /** The column parses to exactly every step-th value from lo to hi, sorted and folded. */
  ghost predicate StandsFor(field: string, spec: FieldSpec, lo: int, hi: int, step: int)
    requires step >= 1
  {
    forall vals: seq<int> :: Parses(field, spec, vals)
      <==> vals != [] && StrictlyRising(vals) && forall v :: v in vals <==> Walks(spec, lo, hi, step, v)
  }

  /** No value of the walk is out of the column's bounds. */
  ghost predicate StaysInside(spec: FieldSpec, lo: int, hi: int, step: int)
    requires step >= 1
  {
    forall x :: OnWalk(x, lo, hi, step) ==> spec.min <= x <= MaxOf(spec)
  }

  ghost predicate Accepted(field: string, spec: FieldSpec) {
    exists vals :: Parses(field, spec, vals)
  }

  // ----- one atom as a column

  lemma DigitsArePlain(s: string)
    requires Digits(s)
    ensures Plain(s)
  {
    assert s[0] in s;
    assert !IsDigit('*') && !IsDigit('-') && !IsDigit('/') && !IsDigit(',');
  }

  lemma SpelledResolves(text: string, spec: FieldSpec, v: int)
    requires Sound(spec) && Spells(text, spec, v)
    ensures Resolve(text, spec) == Some(v)
  {
    hide Atoi, Itoa;
    if v >= 0 && text == Itoa(v) {
      AtoiOfItoa(v);
    }
  }

  lemma FoldIsNormal(x: int, spec: FieldSpec)
    requires Sound(spec) && spec.min <= x <= MaxOf(spec)
    ensures Within(x, spec) && FoldsTo(x, Normal(x, spec), spec)
  {
  }

  lemma OneAtomDenotes(atom: string, spec: FieldSpec, w: Walk, v: int)
    requires Sound(spec) && ReadAtom(atom, spec) == Ok(w) && w.step >= 1 && StaysInside(spec, w.lo, w.hi, w.step)
    ensures Denotes([atom], spec, v) <==> Walks(spec, w.lo, w.hi, w.step, v)
  {
    hide ReadAtom, Sound;
    if Denotes([atom], spec, v) {
      assert AtomDenotes([atom][0], spec, v);
      var j :| 0 <= j < |Walked(w)| && Normal(Walked(w)[j], spec) == v;
      WalkIsProgression(w, Walked(w)[j]);
      assert OnWalk(Walked(w)[j], w.lo, w.hi, w.step);
    }
    if x :| OnWalk(x, w.lo, w.hi, w.step) && FoldsTo(x, v, spec) {
      WalkIsProgression(w, x);
      var j :| 0 <= j < |Walked(w)| && Walked(w)[j] == x;
      FoldIsNormal(x, spec);
      assert AtomDenotes([atom][0], spec, v);
    }
  }

  lemma OneAtomStands(atom: string, spec: FieldSpec, w: Walk)
    requires Sound(spec) && ',' !in atom && ReadAtom(atom, spec) == Ok(w) && w.step >= 1
    requires StaysInside(spec, w.lo, w.hi, w.step)
    ensures StandsFor(atom, spec, w.lo, w.hi, w.step)
    ensures w.lo <= w.hi ==> Accepted(atom, spec)
  {
    hide ReadAtom, Split, FirstError, Denotes, Sound, Walks;
    SplitOnePiece(atom, ',');
    forall x <- Walked(w) ensures Within(x, spec) {
      WalkIsProgression(w, x);
      assert OnWalk(x, w.lo, w.hi, w.step);
      FoldIsNormal(x, spec);
    }
    NoErrorIff([atom], spec);
    assert AtomFits([atom][0], spec);
    forall v ensures Denotes([atom], spec, v) <==> Walks(spec, w.lo, w.hi, w.step, v) {
      OneAtomDenotes(atom, spec, w, v);
    }
    if w.lo <= w.hi {
      StartIsWalked(spec, w);
      AcceptedIff(atom, spec);
    }
  }

  lemma StartIsWalked(spec: FieldSpec, w: Walk)
    requires w.step >= 1 && w.lo <= w.hi
    ensures exists v :: Walks(spec, w.lo, w.hi, w.step, v)
  {
    var v := if spec.weekday && w.lo == 7 then 0 else w.lo;
    assert OnWalk(w.lo, w.lo, w.hi, w.step) && FoldsTo(w.lo, v, spec);
    assert Walks(spec, w.lo, w.hi, w.step, v);
  }

  /** An atom that does not read, or whose first value is out of range, has its column refused. */
  lemma BadAtomIsRefused(atom: string, spec: FieldSpec)
    requires ',' !in atom
    requires match ReadAtom(atom, spec)
             case Err(_) => true
             case Ok(w) => w.step >= 1 && exists x :: OnWalk(x, w.lo, w.hi, w.step) && !Within(x, spec)
    ensures Refused(atom, spec)
  {
    hide ReadAtom, Split, FirstError, Denotes, Within;
    SplitOnePiece(atom, ',');
    NoErrorIff([atom], spec);
    assert !AtomFits([atom][0], spec) by {
      if ReadAtom(atom, spec).Ok? {
        var w := ReadAtom(atom, spec).value;
        var x :| OnWalk(x, w.lo, w.hi, w.step) && !Within(x, spec);
        WalkIsProgression(w, x);
      }
    }
  }

  // ----- how the texts read

  lemma ReadsPlain(body: string, spec: FieldSpec)
    requires '/' !in body
    ensures ReadAtom(body, spec) == ReadBody(body, 1, false, spec)
  {
    hide ReadBody;
  }

  lemma ReadsStepped(body: string, n: nat, spec: FieldSpec)
    requires '/' !in body
    ensures ReadAtom(body + "/" + Itoa(n), spec)
         == if n < 1 then Err(StepNotPositive) else ReadBody(body, n, true, spec)
    ensures ',' !in body ==> ',' !in body + "/" + Itoa(n)
  {
    hide ReadBody, Atoi, Itoa, Plain;
    var atom := body + "/" + Itoa(n);
    FirstSeparator(body, '/', Itoa(n));
    AtoiOfItoa(n);
    DigitsArePlain(Itoa(n));
    assert atom[..|body|] == body && atom[|body| + 1..] == Itoa(n);
    CommaFree(Itoa(n));
  }

  lemma CommaFree(s: string)
    requires Digits(s)
    ensures ',' !in s
  {
    assert !IsDigit(',');
  }

  lemma FirstSeparator(a: string, sep: char, b: string)
    requires sep !in a
    ensures IndexOf(a + [sep] + b, sep) == |a|
  {
    var s := a + [sep] + b;
    var i := IndexOf(s, sep);
    assert s[|a|] == sep && sep in s;
    assert forall k :: 0 <= k < |a| ==> s[k] == a[k] && a[k] in a;
    assert forall k :: 0 <= k < i ==> s[..i][k] == s[k] && s[k] in s[..i];
  }

  lemma ReadsRange(p: string, a: int, q: string, b: int, step: int, hasStep: bool, spec: FieldSpec)
    requires Sound(spec) && Spells(p, spec, a) && Spells(q, spec, b)
    ensures ReadBody(p + "-" + q, step, hasStep, spec)
         == if a > b then Err(RangeBackwards) else Ok(Walk(a, b, step))
    ensures '/' !in p + "-" + q && ',' !in p + "-" + q
  {
    hide Resolve, Itoa;
    var body := p + "-" + q;
    FirstSeparator(p, '-', q);
    SpelledResolves(p, spec, a);
    SpelledResolves(q, spec, b);
    assert body[|p|] == '-' && '-' in body;
    assert body[..|p|] == p && body[|p| + 1..] == q;
  }

  // ----- what they stand for

  /** A number or a name stands for itself, and is refused outside the column's bounds. */
  lemma SingleStands(text: string, v: int, spec: FieldSpec)
    requires Sound(spec) && Spells(text, spec, v)
    ensures spec.min <= v <= MaxOf(spec) ==> StandsFor(text, spec, v, v, 1) && Accepted(text, spec)
    ensures !(spec.min <= v <= MaxOf(spec)) ==> Refused(text, spec)
  {
    hide Parses, ReadAtom, Resolve, Itoa, Accepted, StandsFor, Refused;
    SpelledResolves(text, spec, v);
    ReadsPlain(text, spec);
    if spec.min <= v <= MaxOf(spec) {
      OneAtomStands(text, spec, Walk(v, v, 1));
    } else {
      assert OnWalk(v, v, v, 1) && !Within(v, spec);
      BadAtomIsRefused(text, spec);
    }
  }

  /** A star stands for every value of the column, and with a step for every n-th from the least. */
  lemma StarStands(n: nat, spec: FieldSpec)
    requires Sound(spec)
    ensures StandsFor("*", spec, spec.min, MaxOf(spec), 1) && Accepted("*", spec)
    ensures n >= 1 ==> StandsFor("*/" + Itoa(n), spec, spec.min, MaxOf(spec), n) && Accepted("*/" + Itoa(n), spec)
    ensures n < 1 ==> Refused("*/" + Itoa(n), spec)
  {
    hide Parses, ReadAtom, Resolve, Itoa, Accepted, StandsFor, Refused;
    ReadsPlain("*", spec);
    OneAtomStands("*", spec, Walk(spec.min, MaxOf(spec), 1));
    ReadsStepped("*", n, spec);
    assert "*" + "/" + Itoa(n) == "*/" + Itoa(n);
    if n >= 1 {
      OneAtomStands("*/" + Itoa(n), spec, Walk(spec.min, MaxOf(spec), n));
    } else {
      BadAtomIsRefused("*/" + Itoa(n), spec);
    }
  }

  /** A range of numbers or names stands for every value between its ends, both included; it is refused when it
      runs backwards or leaves the bounds. */
  lemma RangeStands(p: string, a: int, q: string, b: int, spec: FieldSpec)
    requires Sound(spec) && Spells(p, spec, a) && Spells(q, spec, b)
    ensures spec.min <= a <= b <= MaxOf(spec) ==>
              StandsFor(p + "-" + q, spec, a, b, 1) && Accepted(p + "-" + q, spec)
    ensures !(spec.min <= a <= b <= MaxOf(spec)) ==> Refused(p + "-" + q, spec)
  {
    hide Parses, ReadAtom, ReadBody, Itoa, Accepted, StandsFor, Refused, Spells;
    var body := p + "-" + q;
    ReadsRange(p, a, q, b, 1, false, spec);
    ReadsPlain(body, spec);
    if spec.min <= a <= b <= MaxOf(spec) {
      OneAtomStands(body, spec, Walk(a, b, 1));
    } else {
      assert a <= b ==> OnWalk(a, a, b, 1) && OnWalk(b, a, b, 1) && (!Within(a, spec) || !Within(b, spec));
      BadAtomIsRefused(body, spec);
    }
  }

  /** A stepped range stands for every n-th value from its start up to its end; it is refused without a step of at
      least one, when it runs backwards, and when one of those values is out of bounds. */
  lemma SteppedRangeStands(p: string, a: int, q: string, b: int, n: nat, spec: FieldSpec)
    requires Sound(spec) && Spells(p, spec, a) && Spells(q, spec, b)
    ensures var atom := p + "-" + q + "/" + Itoa(n);
            if a <= b && n >= 1 && StaysInside(spec, a, b, n) then
              StandsFor(atom, spec, a, b, n) && Accepted(atom, spec)
            else Refused(atom, spec)
  {
    hide Parses, ReadAtom, ReadBody, Itoa, Accepted, StandsFor, Refused, Spells, Within;
    var atom := p + "-" + q + "/" + Itoa(n);
    ReadsRange(p, a, q, b, n, true, spec);
    ReadsStepped(p + "-" + q, n, spec);
    if a <= b && n >= 1 && StaysInside(spec, a, b, n) {
      OneAtomStands(atom, spec, Walk(a, b, n));
    } else {
      WithinIff(spec);
      BadAtomIsRefused(atom, spec);
    }
  }

  lemma WithinIff(spec: FieldSpec)
    requires Sound(spec)
    ensures forall x :: Within(x, spec) <==> spec.min <= x <= MaxOf(spec)
  {
  }

  /** A single value with a step walks from that value to the effective ceiling, which is 6 for weekdays. */
  lemma SteppedSingleStands(text: string, v: int, n: nat, spec: FieldSpec)
    requires Sound(spec) && Spells(text, spec, v) && spec.min <= v && n >= 1
    ensures StandsFor(text + "/" + Itoa(n), spec, v, if spec.weekday then 6 else spec.max, n)
    ensures v <= (if spec.weekday then 6 else spec.max) ==> Accepted(text + "/" + Itoa(n), spec)
  {
    hide Parses, ReadAtom, Resolve, Itoa, Accepted, StandsFor;
    SpelledResolves(text, spec, v);
    ReadsStepped(text, n, spec);
    OneAtomStands(text + "/" + Itoa(n), spec, Walk(v, EffMax(spec), n));
  }

  // ----- what is wrong with a refused atom

  /** Neither a number nor a name. */
  predicate Unreadable(text: string, spec: FieldSpec) {
    Plain(text) && spec.names(text) == None && Atoi(text) == None
  }

  lemma SingleErrors(text: string, v: int, spec: FieldSpec)
    requires Sound(spec)
    ensures Spells(text, spec, v) && !(spec.min <= v <= MaxOf(spec)) ==> AtomError(text, spec) == Some(OutOfRange(v))
    ensures Unreadable(text, spec) ==> AtomError(text, spec) == Some(ValueUnreadable)
  {
    hide Atoi, Itoa, ReadAtom;
    if Spells(text, spec, v) {
      SpelledResolves(text, spec, v);
    }
    if Plain(text) {
      ReadsPlain(text, spec);
    }
  }

  lemma RangeErrors(p: string, a: int, q: string, b: int, spec: FieldSpec)
    requires Sound(spec) && (Spells(p, spec, a) || Unreadable(p, spec)) && (Spells(q, spec, b) || Unreadable(q, spec))
    ensures Unreadable(p, spec) || Unreadable(q, spec) ==> AtomError(p + "-" + q, spec) == Some(RangeUnreadable)
    ensures Spells(p, spec, a) && Spells(q, spec, b) && a > b ==> AtomError(p + "-" + q, spec) == Some(RangeBackwards)
  {
    hide Atoi, Itoa, ReadAtom;
    var body := p + "-" + q;
    if Spells(p, spec, a) {
      SpelledResolves(p, spec, a);
    }
    if Spells(q, spec, b) {
      SpelledResolves(q, spec, b);
    }
    FirstSeparator(p, '-', q);
    assert body[|p|] == '-' && '-' in body;
    assert body[..|p|] == p && body[|p| + 1..] == q;
    ReadsPlain(body, spec);
  }

  /** A step of zero, or one that is no number, is the step's error whatever stands before it. */
  lemma StepErrors(body: string, step: string, spec: FieldSpec)
    requires '/' !in body && (step == Itoa(0) || Atoi(step) == None)
    ensures AtomError(body + "/" + step, spec) == Some(StepNotPositive)
  {
    hide Itoa, Atoi;
    var atom := body + "/" + step;
    FirstSeparator(body, '/', step);
    AtoiOfItoa(0);
    assert atom[|body| + 1..] == step;
  }

  /** A column is refused for its first bad atom. */
  lemma FirstBadAtom(pre: string, bad: string, post: string, spec: FieldSpec)
    requires FirstError(Split(pre, ','), spec) == None && ',' !in bad && AtomError(bad, spec).Some?
    ensures FirstError(Split(pre + "," + bad + "," + post, ','), spec) == AtomError(bad, spec)
    ensures FirstError(Split(bad + "," + post, ','), spec) == AtomError(bad, spec)
    ensures FirstError(Split(pre + "," + bad, ','), spec) == AtomError(bad, spec)
  {
    hide Split, AtomError, Plain;
    SplitOnePiece(bad, ',');
    SplitConcat(pre, bad, ',');
    SplitConcat(bad, post, ',');
    SplitConcat(pre + "," + bad, post, ',');
    assert FirstError([bad], spec) == AtomError(bad, spec);
    FirstErrorConcat(Split(pre, ','), [bad], spec);
    FirstErrorConcat([bad], Split(post, ','), spec);
    FirstErrorConcat(Split(pre, ',') + [bad], Split(post, ','), spec);
  }

  // ----- the five columns

  /** Minutes run from 0 to 59, hours to 23, days from 1 to 31, months to 12, weekdays from 0 to 7. */
  lemma ColumnBounds(v: nat, months: Names, days: Names)
    requires AllSound(CronFields(months, days))
    ensures var specs := CronFields(months, days);
            |specs| == 5
            && (Accepted(Itoa(v), specs[0]) <==> v <= 59) && (Accepted(Itoa(v), specs[1]) <==> v <= 23)
            && (Accepted(Itoa(v), specs[2]) <==> 1 <= v <= 31) && (Accepted(Itoa(v), specs[3]) <==> 1 <= v <= 12)
            && (Accepted(Itoa(v), specs[4]) <==> v <= 7)
  {
    hide Parses, Itoa, StandsFor, Sound;
    var specs := CronFields(months, days);
    DigitsArePlain(Itoa(v));
    forall i | 0 <= i < 5
      ensures Accepted(Itoa(v), specs[i]) <==> specs[i].min <= v <= MaxOf(specs[i])
    {
      assert Sound(specs[i]);
      SingleStands(Itoa(v), v, specs[i]);
    }
  }

  /** Stars cover each column: every minute, hour, day and month, and the seven weekdays. */
  lemma StarCovers(months: Names, days: Names, i: nat, vals: seq<int>, v: int)
    requires AllSound(CronFields(months, days)) && i < 5 && Parses("*", CronFields(months, days)[i], vals)
    ensures v in vals <==> [0, 0, 1, 1, 0][i] <= v <= [59, 23, 31, 12, 6][i]
  {
    hide Parses, Sound;
    var spec := CronFields(months, days)[i];
    assert Sound(spec);
    StarStands(1, spec);
    var lo, hi := spec.min, MaxOf(spec);
    assert OnWalk(v, lo, hi, 1) <==> lo <= v <= hi;
    assert spec.weekday ==> spec.min == 0 && MaxOf(spec) == 7;
    assert FoldsTo(v, v, spec) <==> !(spec.weekday && v == 7);
    assert spec.weekday ==> OnWalk(7, lo, hi, 1) && FoldsTo(7, 0, spec);
  }

  // ----- names

  lemma NamesAreNoNumbers(s: string)
    requires Digits(s)
    ensures MonthNames(s) == None && DayNames(s) == None
  {
    assert IsDigit(s[0]) by {
      assert s[0] in s;
    }
  }

  lemma RealColumnsAreSound()
    ensures AllSound(CronFields(MonthNames, DayNames))
  {
    hide MonthNames, DayNames, Digits;
    forall s | Digits(s) ensures MonthNames(s) == None && DayNames(s) == None {
      NamesAreNoNumbers(s);
    }
  }

  /** The twelve months in order, from 1. */
  lemma MonthsInOrder(i: nat)
    requires i < 12
    ensures var names := ["jan", "feb", "mar", "apr", "may", "jun", "jul", "aug", "sep", "oct", "nov", "dec"];
            Parses(names[i], CronFields(MonthNames, DayNames)[3], [i + 1])
  {
    hide Parses, Sound, DayNames;
    var months := CronFields(MonthNames, DayNames)[3];
    var names := ["jan", "feb", "mar", "apr", "may", "jun", "jul", "aug", "sep", "oct", "nov", "dec"];
    RealColumnsAreSound();
    assert Sound(months);
    assert MonthNames(names[i]) == Some(i + 1) && Plain(names[i]);
    OneValueParses(names[i], i + 1, months);
  }

  /** The seven weekdays in order, from Sunday at 0. */
  lemma DaysInOrder(i: nat)
    requires i < 7
    ensures var names := ["sun", "mon", "tue", "wed", "thu", "fri", "sat"];
            Parses(names[i], CronFields(MonthNames, DayNames)[4], [i])
  {
    hide Parses, Sound, MonthNames;
    var days := CronFields(MonthNames, DayNames)[4];
    var names := ["sun", "mon", "tue", "wed", "thu", "fri", "sat"];
    RealColumnsAreSound();
    assert Sound(days);
    assert DayNames(names[i]) == Some(i) && Plain(names[i]);
    OneValueParses(names[i], i, days);
  }

  lemma OneValueParses(text: string, v: int, spec: FieldSpec)
    requires Sound(spec) && Spells(text, spec, v) && spec.min <= v <= EffMax(spec)
    ensures Parses(text, spec, [v])
  {
    hide Parses, Sound, Spells;
    SingleStands(text, v, spec);
    forall x ensures x in [v] <==> Walks(spec, v, v, 1, x) {
      assert OnWalk(v, v, v, 1) && FoldsTo(v, v, spec);
    }
  }

  /** mon-fri and 1-5 are the working days. */
  lemma WorkingDays()
    ensures var days := CronFields(MonthNames, DayNames)[4];
            Parses("mon-fri", days, [1, 2, 3, 4, 5]) && Parses("1-5", days, [1, 2, 3, 4, 5])
  {
    hide Parses, Sound, MonthNames;
    var days := CronFields(MonthNames, DayNames)[4];
    RealColumnsAreSound();
    assert Sound(days);
    assert Itoa(1) == "1" && Itoa(5) == "5";
    RangeStands("mon", 1, "fri", 5, days);
    RangeStands("1", 1, "5", 5, days);
    assert "mon" + "-" + "fri" == "mon-fri" && "1" + "-" + "5" == "1-5";
    forall v ensures v in [1, 2, 3, 4, 5] <==> Walks(days, 1, 5, 1, v) {
      assert 1 <= v <= 5 ==> OnWalk(v, 1, 5, 1) && FoldsTo(v, v, days);
    }
  }

  /** Weekday 7 is Sunday. */
  lemma SevenIsSunday()
    ensures Parses("7", CronFields(MonthNames, DayNames)[4], [0])
  {
    hide Parses, Sound, MonthNames, DayNames;
    var days := CronFields(MonthNames, DayNames)[4];
    RealColumnsAreSound();
    assert Sound(days);
    assert Itoa(7) == "7";
    DigitsArePlain("7");
    SingleStands("7", 7, days);
    forall v ensures v in [0] <==> Walks(days, 7, 7, 1, v) {
      assert OnWalk(7, 7, 7, 1) && FoldsTo(7, 0, days);
    }
  }
}
