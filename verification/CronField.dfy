/** Cron columns, internal/cronx/cronx.go: parsing a column into its field set, printing a set canonically,
    and compiling a printed expression again. Numbers are unbounded. */
module CronField {
  import opened Options
  import opened Text
  import opened FieldSets
  import opened Slices

  /** How a lower-cased name in a month or weekday column reads; None for every other column and text. */
  type Names = string -> Option<int>

  function MonthNames(text: string): Option<int> {
    if text == "jan" then Some(1) else if text == "feb" then Some(2) else if text == "mar" then Some(3)
    else if text == "apr" then Some(4) else if text == "may" then Some(5) else if text == "jun" then Some(6)
    else if text == "jul" then Some(7) else if text == "aug" then Some(8) else if text == "sep" then Some(9)
    else if text == "oct" then Some(10) else if text == "nov" then Some(11) else if text == "dec" then Some(12)
    else None
  }

  function DayNames(text: string): Option<int> {
    if text == "sun" then Some(0) else if text == "mon" then Some(1) else if text == "tue" then Some(2)
    else if text == "wed" then Some(3) else if text == "thu" then Some(4) else if text == "fri" then Some(5)
    else if text == "sat" then Some(6) else None
  }

  datatype FieldSpec = FieldSpec(min: nat, max: nat, weekday: bool, names: Names)

  datatype ParseError =
    | StepNotPositive | RangeUnreadable | RangeBackwards | ValueUnreadable | OutOfRange(value: int) | MatchesNothing

  datatype Result<T> = Ok(value: T) | Err(error: ParseError)

  /** 7 means Sunday, the same as 0. */
  function MaxOf(spec: FieldSpec): int {
    if spec.weekday then 7 else spec.max
  }

  function EffMax(spec: FieldSpec): int {
    if spec.weekday then 6 else MaxOf(spec)
  }

  function Normal(v: int, spec: FieldSpec): int {
    if spec.weekday && v == 7 then 0 else v
  }

  function CronFields(months: Names, days: Names): seq<FieldSpec> {
    [FieldSpec(0, 59, false, _ => None), FieldSpec(0, 23, false, _ => None), FieldSpec(1, 31, false, _ => None),
     FieldSpec(1, 12, false, months), FieldSpec(0, 7, true, days)]
  }

  /** A column with room for a value, whose names are no numbers. */
  ghost predicate Sound(spec: FieldSpec) {
    spec.min <= EffMax(spec) && (spec.weekday ==> spec.min == 0)
    && forall s :: Digits(s) ==> spec.names(s) == None
  }

  // ----- one atom

  function Resolve(text: string, spec: FieldSpec): Option<int> {
    match spec.names(text)
    case Some(v) => Some(v)
    case None => Atoi(text)
  }

  /** lo, lo + step, and on up to hi. */
  datatype Walk = Walk(lo: int, hi: int, step: int)

  function ReadBody(body: string, step: int, hasStep: bool, spec: FieldSpec): (r: Result<Walk>)
    ensures r.Ok? ==> r.value.step == step
  {
    if body == "*" then Ok(Walk(spec.min, MaxOf(spec), step))
    else if '-' in body then
      var i := IndexOf(body, '-');
      match (Resolve(body[..i], spec), Resolve(body[i + 1..], spec))
      case (Some(a), Some(b)) => if a > b then Err(RangeBackwards) else Ok(Walk(a, b, step))
      case _ => Err(RangeUnreadable)
    else
      match Resolve(body, spec)
      case Some(v) => Ok(Walk(v, if hasStep then EffMax(spec) else v, step))
      case None => Err(ValueUnreadable)
  }

  function ReadAtom(atom: string, spec: FieldSpec): (r: Result<Walk>)
    ensures r.Ok? ==> r.value.step >= 1
  {
    var i := IndexOf(atom, '/');
    if i == |atom| then ReadBody(atom, 1, false, spec)
    else
      match Atoi(atom[i + 1..])
      case Some(n) => if n < 1 then Err(StepNotPositive) else ReadBody(atom[..i], n, true, spec)
      case None => Err(StepNotPositive)
  }

  function Walked(w: Walk): seq<int>
    requires w.step >= 1
    decreases w.hi - w.lo + 1
  {
    if w.lo > w.hi then [] else [w.lo] + Walked(w.(lo := w.lo + w.step))
  }

  predicate Within(v: int, spec: FieldSpec) {
    spec.min <= Normal(v, spec) <= MaxOf(spec)
  }

  /** The first value of the walk that add refuses. */
  function FirstOutside(w: Walk, spec: FieldSpec): Option<int>
    requires w.step >= 1
    decreases w.hi - w.lo + 1
  {
    if w.lo > w.hi then None
    else if !Within(w.lo, spec) then Some(Normal(w.lo, spec))
    else FirstOutside(w.(lo := w.lo + w.step), spec)
  }

  function AtomError(atom: string, spec: FieldSpec): Option<ParseError> {
    match ReadAtom(atom, spec)
    case Err(e) => Some(e)
    case Ok(w) =>
      match FirstOutside(w, spec)
      case Some(v) => Some(OutOfRange(v))
      case None => None
  }

  // ----- a whole column

  function FirstError(atoms: seq<string>, spec: FieldSpec): Option<ParseError> {
    if atoms == [] then None
    else
      match AtomError(atoms[0], spec)
      case Some(e) => Some(e)
      case None => FirstError(atoms[1..], spec)
  }

  /** One of the values folds to v. */
  predicate Hits(values: seq<int>, spec: FieldSpec, v: int) {
    exists j :: 0 <= j < |values| && Normal(values[j], spec) == v
  }

  predicate Passes(w: Walk, spec: FieldSpec, v: int)
    requires w.step >= 1
  {
    Hits(Walked(w), spec, v)
  }

  predicate AtomDenotes(atom: string, spec: FieldSpec, v: int) {
    ReadAtom(atom, spec).Ok? && Passes(ReadAtom(atom, spec).value, spec, v)
  }

  predicate Denotes(atoms: seq<string>, spec: FieldSpec, v: int) {
    exists i :: 0 <= i < |atoms| && AtomDenotes(atoms[i], spec, v)
  }

  /** The column is accepted and stands for these values. */
  ghost predicate Parses(field: string, spec: FieldSpec, vals: seq<int>) {
    var atoms := Split(field, ',');
    FirstError(atoms, spec) == None && vals != [] && StrictlyRising(vals)
    && forall v :: v in vals <==> Denotes(atoms, spec, v)
  }

  predicate Below(a: int, b: int) {
    a < b
  }

  lemma {:induction false} InsertedRises(x: int, s: seq<int>)
    requires StrictlyRising(s) && x !in s
    ensures StrictlyRising(Inserted(Below, x, s))
  {
    if s != [] && x >= s[0] {
      InsertedRises(x, s[1..]);
      var rest := Inserted(Below, x, s[1..]);
      forall j | 0 <= j < |rest| ensures s[0] < rest[j] {
        assert rest[j] in rest;
      }
    }
  }

  lemma {:induction false} SortedRises(s: seq<int>)
    requires NoRepeats(s)
    ensures StrictlyRising(Sorted(Below, s))
  {
    if s != [] {
      SortedRises(s[1..]);
      assert s[0] !in s[1..];
      InsertedRises(s[0], Sorted(Below, s[1..]));
    }
  }

  lemma HitsOneMore(values: seq<int>, value: int, spec: FieldSpec, v: int)
    ensures Hits(values + [value], spec, v) <==> Hits(values, spec, v) || Normal(value, spec) == v
  {
    var all := values + [value];
    assert Normal(all[|values|], spec) == Normal(value, spec);
    if j :| 0 <= j < |values| && Normal(values[j], spec) == v {
      assert Normal(all[j], spec) == v;
    }
  }

  /** add for every value of a walk: each is kept once, and the first that is out of range stops it. */
  method AddAll(w: Walk, spec: FieldSpec, seen0: set<int>, vals0: seq<int>)
    returns (outside: Option<int>, seen: set<int>, vals: seq<int>)
    requires w.step >= 1 && NoRepeats(vals0) && (forall v :: v in seen0 <==> v in vals0)
    ensures outside == FirstOutside(w, spec)
    ensures NoRepeats(vals) && forall v :: v in seen <==> v in vals
    ensures outside == None ==> forall v :: v in vals <==> v in vals0 || Passes(w, spec, v)
  {
    assert forall x :: !Hits([], spec, x);
    hide Hits, Normal;
    seen, vals := seen0, vals0;
    ghost var done: seq<int> := [];
    var v := w.lo;
    while v <= w.hi
      invariant Walked(w) == done + Walked(w.(lo := v))
      invariant FirstOutside(w, spec) == FirstOutside(w.(lo := v), spec)
      invariant NoRepeats(vals) && forall x :: x in seen <==> x in vals
      invariant forall x :: x in vals <==> x in vals0 || Hits(done, spec, x)
      decreases w.hi - v
    {
      var value := Normal(v, spec);
      if value < spec.min || value > MaxOf(spec) {
        return Some(value), seen, vals;
      }
      forall x ensures Hits(done + [v], spec, x) <==> Hits(done, spec, x) || value == x {
        HitsOneMore(done, v, spec, x);
      }
      done := done + [v];
      if value !in seen {
        seen := seen + {value};
        vals := vals + [value];
      }
      v := v + w.step;
    }
    assert Walked(w) == done;
    assert forall x :: Hits(done, spec, x) <==> Passes(w, spec, x);
    outside := None;
  }

  lemma DenotesOneMore(atoms: seq<string>, atom: string, spec: FieldSpec, v: int)
    ensures Denotes(atoms + [atom], spec, v) <==> Denotes(atoms, spec, v) || AtomDenotes(atom, spec, v)
  {
    hide AtomDenotes;
    var all := atoms + [atom];
    if AtomDenotes(atom, spec, v) {
      assert AtomDenotes(all[|atoms|], spec, v);
    }
    if i :| 0 <= i < |atoms| && AtomDenotes(atoms[i], spec, v) {
      assert AtomDenotes(all[i], spec, v);
    }
  }

  /** An accepted column gives the strictly sorted, duplicate-free values its atoms denote; a refused one gives
      the error of its first bad atom, or says that nothing matches. */
  method ParseFieldSet(field: string, spec: FieldSpec) returns (r: Result<seq<int>>)
    ensures r.Ok? ==> Parses(field, spec, r.value)
    ensures r.Err? ==>
              FirstError(Split(field, ','), spec) == Some(r.error)
              || (FirstError(Split(field, ','), spec) == None && r.error == MatchesNothing
                  && forall v :: !Denotes(Split(field, ','), spec, v))
  {
    hide ReadAtom, Denotes, Passes, FirstOutside, Sorted, Split;
    var atoms := Split(field, ',');
    var seen: set<int> := {};
    var vals: seq<int> := [];
    NothingDenoted(spec);
    assert atoms[0..] == atoms && atoms[..0] == [];
    for i := 0 to |atoms|
      invariant FirstError(atoms, spec) == FirstError(atoms[i..], spec)
      invariant NoRepeats(vals) && forall v :: v in seen <==> v in vals
      invariant forall v :: v in vals <==> Denotes(atoms[..i], spec, v)
    {
      assert atoms[i..][0] == atoms[i] && atoms[i..][1..] == atoms[i + 1..];
      assert atoms[..i + 1] == atoms[..i] + [atoms[i]];
      var read := ReadAtom(atoms[i], spec);
      if read.Err? {
        return Err(read.error);
      }
      forall v ensures Denotes(atoms[..i + 1], spec, v)
                  <==> Denotes(atoms[..i], spec, v) || Passes(read.value, spec, v)
      {
        DenotesOneMore(atoms[..i], atoms[i], spec, v);
      }
      var outside;
      outside, seen, vals := AddAll(read.value, spec, seen, vals);
      if outside.Some? {
        return Err(OutOfRange(outside.value));
      }
    }
    assert atoms[..|atoms|] == atoms;
    SortedRises(vals);
    if |vals| == 0 {
      return Err(MatchesNothing);
    }
    var first := vals[0];
    assert first in vals && first in Sorted(Below, vals);
    return Ok(Sorted(Below, vals));
  }

  lemma NothingDenoted(spec: FieldSpec)
    ensures forall v :: !Denotes([], spec, v)
  {
  }
}
