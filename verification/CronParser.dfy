/** The two passes over a whole cron expression, internal/cronx/cronx.go: parseCron writes the canonical
    expression, compile reads it back into the sets the search runs on. */
module CronParser {
  import opened Options
  import opened Text
  import opened FieldSets
  import opened CronField
  import opened Canonical
  import Search

  ghost predicate Refused(field: string, spec: FieldSpec) {
    forall vals :: !Parses(field, spec, vals)
  }

  lemma ErrorRefuses(field: string, spec: FieldSpec)
    requires FirstError(Split(field, ','), spec).Some? || forall v :: !Denotes(Split(field, ','), spec, v)
    ensures Refused(field, spec)
  {
    hide Denotes, Split, FirstError;
    forall vals ensures !Parses(field, spec, vals) {
      assert vals != [] ==> vals[0] in vals;
    }
  }

  /** The expression that prints the sets these columns stand for. */
  ghost predicate IsCanonicalOf(fields: seq<string>, specs: seq<FieldSpec>, expr: string) {
    exists sets :: AllParse(fields, specs, sets) && SetsFor(sets, specs) && expr == Expression(sets, specs)
  }

  /** Every column's set, printed and joined; refused with the first column that is. */
  method CanonicalFields(fields: seq<string>, specs: seq<FieldSpec>) returns (r: Result<string>)
    requires |fields| == |specs|
    ensures r.Ok? ==> IsCanonicalOf(fields, specs, r.value)
    ensures r.Err? ==> exists i :: 0 <= i < |fields| && Refused(fields[i], specs[i])
  {
    hide Parses, Refused, FirstError, Denotes, Split, Printed, FieldSet;
    var columns: seq<string> := [];
    ghost var sets: seq<seq<int>> := [];
    for i := 0 to |specs|
      invariant AllParse(fields[..i], specs[..i], sets) && SetsFor(sets, specs[..i])
      invariant columns == Columns(sets, specs[..i])
    {
      var parsed := ParseFieldSet(fields[i], specs[i]);
      if parsed.Err? {
        ErrorRefuses(fields[i], specs[i]);
        return Err(parsed.error);
      }
      ParsedInRange(fields[i], specs[i], parsed.value);
      OneMoreColumn(sets, specs[..i], parsed.value, specs[i]);
      assert specs[..i + 1] == specs[..i] + [specs[i]] && fields[..i + 1] == fields[..i] + [fields[i]];
      sets := sets + [parsed.value];
      columns := columns + [Printed(parsed.value, specs[i])];
    }
    assert specs[..|specs|] == specs && fields[..|specs|] == fields;
    assert JoinWith(columns, " ") == Expression(sets, specs);
    return Ok(JoinWith(columns, " "));
  }

  lemma {:induction false} OneMoreColumn(sets: seq<seq<int>>, specs: seq<FieldSpec>, vals: seq<int>, spec: FieldSpec)
    requires SetsFor(sets, specs) && FieldSet(vals, spec.min, EffMax(spec))
    ensures SetsFor(sets + [vals], specs + [spec])
    ensures Columns(sets + [vals], specs + [spec]) == Columns(sets, specs) + [Printed(vals, spec)]
  {
    hide FieldSet, Printed;
  }

  /** parseCron on lower-cased text whose descriptor is already expanded. The two outside checks, the token
      shapes of harnessCheckField and the parser of record, are parameters. */
  method ParseCron(text: string, specs: seq<FieldSpec>, shape: (string, FieldSpec) -> bool, reference: string -> bool)
    returns (expr: Option<string>)
    ensures expr.Some? ==>
              |Fields(text)| == |specs| && IsCanonicalOf(Fields(text), specs, expr.value) && reference(expr.value)
              && forall i :: 0 <= i < |specs| ==> shape(Fields(text)[i], specs[i])
    ensures expr == None ==>
              |Fields(text)| != |specs|
              || (exists i :: 0 <= i < |specs|
                     && (!shape(Fields(text)[i], specs[i]) || Refused(Fields(text)[i], specs[i])))
              || exists e :: IsCanonicalOf(Fields(text), specs, e) && !reference(e)
  {
    hide Fields, Refused, IsCanonicalOf;
    var fields := Fields(text);
    if |fields| != |specs| {
      return None;
    }
    for i := 0 to |specs|
      invariant forall k :: 0 <= k < i ==> shape(fields[k], specs[k])
    {
      if !shape(fields[i], specs[i]) {
        return None;
      }
    }
    var canon := CanonicalFields(fields, specs);
    if canon.Err? || !reference(canon.value) {
      return None;
    }
    return Some(canon.value);
  }

  function SetsOf(c: Search.Compiled): seq<seq<int>> {
    [c.minutes, c.hours, c.doms, c.months, c.dows]
  }

  /** compile: the sets of an expression of five columns, ready for the search. */
  method Compile(expr: string, months: Names, days: Names) returns (c: Option<Search.Compiled>)
    ensures c.Some? ==> c.value.Valid() && AllParse(Fields(expr), CronFields(months, days), SetsOf(c.value))
    ensures c == None ==>
              |Fields(expr)| != 5 || exists i :: 0 <= i < 5 && Refused(Fields(expr)[i], CronFields(months, days)[i])
  {
    hide Fields, Refused, Parses, FirstError, Denotes, Split;
    var fields := Fields(expr);
    var specs := CronFields(months, days);
    if |fields| != |specs| {
      return None;
    }
    var sets: seq<seq<int>> := [];
    for i := 0 to |specs|
      invariant AllParse(fields[..i], specs[..i], sets)
    {
      var parsed := ParseFieldSet(fields[i], specs[i]);
      if parsed.Err? {
        ErrorRefuses(fields[i], specs[i]);
        return None;
      }
      sets := sets + [parsed.value];
    }
    assert specs[..|specs|] == specs && fields[..|specs|] == fields;
    AllParsedInRange(fields, specs, sets);
    c := Some(Search.Compiled(sets[0], sets[1], sets[2], sets[3], sets[4], |sets[2]| == 31, |sets[4]| == 7));
    assert SetsOf(c.value) == sets;
    assert c.value.Valid() by {
      assert forall i :: 0 <= i < 5 ==> FieldSet(sets[i], specs[i].min, EffMax(specs[i]));
    }
  }

  /** Compiling a canonical expression can only give back the sets that were printed, so equal expressions
      run the same search. */
  lemma CompileRecoversTheSets(sets: seq<seq<int>>, c: Search.Compiled, months: Names, days: Names)
    requires AllSound(CronFields(months, days)) && SetsFor(sets, CronFields(months, days))
    requires AllParse(Fields(Expression(sets, CronFields(months, days))), CronFields(months, days), SetsOf(c))
    ensures SetsOf(c) == sets
  {
    hide Fields, Parses, Expression, SetsFor, Sound;
    var specs := CronFields(months, days);
    var fields := Fields(Expression(sets, specs));
    ExpressionParses(sets, specs);
    forall i | 0 <= i < |sets| ensures SetsOf(c)[i] == sets[i] {
      ParsesUnique(fields[i], specs[i], SetsOf(c)[i], sets[i]);
    }
  }

  /** A canonical expression always compiles, to the sets it prints. */
  method CompileCanonical(expr: string, ghost sets: seq<seq<int>>, months: Names, days: Names)
    returns (c: Search.Compiled)
    requires AllSound(CronFields(months, days)) && SetsFor(sets, CronFields(months, days))
    requires expr == Expression(sets, CronFields(months, days))
    ensures c.Valid() && SetsOf(c) == sets
  {
    hide Fields, Parses, Expression, SetsFor, Sound, Search.Compiled.Valid;
    ExpressionParses(sets, CronFields(months, days));
    var compiled := Compile(expr, months, days);
    assert compiled.Some? by {
      assert forall i :: 0 <= i < 5 ==> Parses(Fields(expr)[i], CronFields(months, days)[i], sets[i]);
    }
    c := compiled.value;
    CompileRecoversTheSets(sets, c, months, days);
  }

  /** What parseCron accepts compiles, and the search runs on the sets its columns denote. */
  method ParseThenCompile(text: string, months: Names, days: Names, shape: (string, FieldSpec) -> bool,
                          reference: string -> bool)
    returns (c: Option<Search.Compiled>)
    requires AllSound(CronFields(months, days))
    ensures c.Some? ==> c.value.Valid() && AllParse(Fields(text), CronFields(months, days), SetsOf(c.value))
    ensures c == None ==>
              |Fields(text)| != 5
              || (exists i :: 0 <= i < 5 && (!shape(Fields(text)[i], CronFields(months, days)[i])
                                            || Refused(Fields(text)[i], CronFields(months, days)[i])))
              || exists e :: IsCanonicalOf(Fields(text), CronFields(months, days), e) && !reference(e)
  {
    hide Fields, Parses, Refused, Sound, Expression, SetsFor, Search.Compiled.Valid;
    var specs := CronFields(months, days);
    var expr := ParseCron(text, specs, shape, reference);
    if expr == None {
      return None;
    }
    ghost var sets :| AllParse(Fields(text), specs, sets) && SetsFor(sets, specs)
                      && expr.value == Expression(sets, specs);
    var compiled := CompileCanonical(expr.value, sets, months, days);
    return Some(compiled);
  }

  /** Parsing a canonical expression again writes the same expression. */
  lemma CanonicalisationIsIdempotent(sets: seq<seq<int>>, again: seq<seq<int>>, specs: seq<FieldSpec>)
    requires AllSound(specs) && SetsFor(sets, specs) && SetsFor(again, specs)
    requires AllParse(Fields(Expression(sets, specs)), specs, again)
    ensures Expression(again, specs) == Expression(sets, specs)
  {
    hide Fields, Parses, Expression, SetsFor, Sound;
    ExpressionParses(sets, specs);
    forall i | 0 <= i < |sets| ensures again[i] == sets[i] {
      ParsesUnique(Fields(Expression(sets, specs))[i], specs[i], again[i], sets[i]);
    }
    assert again == sets;
  }

  /** 90/2 for minutes: an error alone, silent beside 0, though Parse says a start beyond the field is rejected. */
  lemma StartBeyondAccepted(months: Names, days: Names)
    requires AllSound(CronFields(months, days))
    ensures var minutes := CronFields(months, days)[0];
            Parses("90/2,0", minutes, [0]) && Parses("0,90/2", minutes, [0]) && Refused("90/2", minutes)
  {
    hide Parses, ReadAtom, Sound;
    var minutes := CronFields(months, days)[0];
    assert Sound(minutes);
    NinetySecond(minutes);
    ZeroParses(minutes);
    StartBeyondAddsNothing("0", "90/2", "0", minutes, [0]);
    assert "90/2" + "," + "0" == "90/2,0" && "0" + "," + "90/2" == "0,90/2";
    forall vals ensures !Parses("90/2", minutes, vals) {
      StartBeyondAddsNothing("0", "90/2", "0", minutes, vals);
    }
  }

  lemma ZeroParses(spec: FieldSpec)
    requires Sound(spec) && spec.min == 0
    ensures Parses("0", spec, [0])
  {
    assert Itoa(0) == "0";
    SplitOnePiece("0", ',');
    NumberAtom(0, spec);
  }

  lemma NinetySecond(spec: FieldSpec)
    requires Sound(spec) && EffMax(spec) < 90
    ensures StartsBeyond("90/2", spec) && ',' !in "90/2"
  {
    var atom := "90/2";
    assert atom[0] == '9' && atom[1] == '0' && atom[2] == '/' && atom[3] == '2';
    assert '/' in atom && IndexOf(atom, '/') == 2;
    assert atom[..2] == "90" && atom[3..] == "2";
    assert DigitsValue("90") == 90 by {
      assert "90"[..1] == "9" && "9"[..0] == "";
    }
    assert DigitsValue("2") == 2 by {
      assert "2"[..0] == "";
    }
  }
}
