/** Which lines Comment cuts over: its greedy pass is a maximum matching of lines with jobs. */
module Matching {
  import opened Options
  import opened Slices
  import opened Text
  import opened Crontab
  import opened Cutover

  /** Imported jobs: named apart, each from a line that is an entry and no comment. */
  predicate Importable(jobs: seq<Job>) {
    (forall j <- jobs :: j.name != "" && Unbroken(j.name) && IsEntry(Fields(j.origin)))
    && forall i, j :: 0 <= i < j < |jobs| ==> jobs[i].name != jobs[j].name
  }

  predicate IsEntry(fields: seq<string>) {
    fields != [] && !Commented(fields[0]) && fields[0] != "pulseq:cutover"
  }

  // ----- counting by origin

  function LinesWith(lines: seq<string>, fields: seq<string>): nat {
    if lines == [] then 0
    else LinesWith(lines[..|lines| - 1], fields) + (if Fields(lines[|lines| - 1]) == fields then 1 else 0)
  }

  function JobsWith(jobs: seq<Job>, fields: seq<string>): nat {
    if jobs == [] then 0 else (if Fields(jobs[0].origin) == fields then 1 else 0) + JobsWith(jobs[1..], fields)
  }

  /** The jobs of this origin that have not taken a line. */
  function FreeWith(jobs: seq<Job>, matched: set<string>, fields: seq<string>): nat {
    if jobs == [] then 0
    else (if Fields(jobs[0].origin) == fields && jobs[0].name !in matched then 1 else 0)
         + FreeWith(jobs[1..], matched, fields)
  }

  /** The lines of this origin that a job takes. */
  function CutWith(lines: seq<string>, names: seq<string>, fields: seq<string>): nat
    requires |names| == |lines|
  {
    if lines == [] then 0
    else
      var n := |lines| - 1;
      CutWith(lines[..n], names[..n], fields) + (if names[n] != "" && Fields(lines[n]) == fields then 1 else 0)
  }

  /** Each named line belongs to a job whose origin it is, and no job takes two. */
  predicate IsMatching(lines: seq<string>, jobs: seq<Job>, names: seq<string>) {
    |names| == |lines|
    && (forall i :: 0 <= i < |lines| && names[i] != "" ==> Owns(jobs, names[i], lines[i]))
    && forall i, j :: 0 <= i < j < |lines| && names[i] != "" ==> names[i] != names[j]
  }

  predicate Owns(jobs: seq<Job>, name: string, line: string) {
    exists k :: 0 <= k < |jobs| && jobs[k].name == name && LineEqualsOrigin(line, jobs[k].origin)
  }

  function Min(a: nat, b: nat): nat {
    if a < b then a else b
  }

  lemma {:induction false} PickFinds(line: string, jobs: seq<Job>, matched: set<string>)
    requires Importable(jobs)
    ensures var name := Pick(line, jobs, matched);
            (name != "" <==> FreeWith(jobs, matched, Fields(line)) > 0)
            && (name != "" ==> name !in matched && Owns(jobs, name, line))
  {
    hide LineEqualsOrigin, Fields;
    if jobs != [] {
      var job := jobs[0];
      var name := Pick(line, jobs, matched);
      MatchIsSameFields(line, job.origin);
      assert job in jobs;
      if job.name !in matched && LineEqualsOrigin(line, job.origin) {
        assert jobs[0].name == name;
      } else {
        PickFinds(line, jobs[1..], matched);
        if name != "" {
          var k :| 0 <= k < |jobs[1..]| && jobs[1..][k].name == name && LineEqualsOrigin(line, jobs[1..][k].origin);
          assert jobs[k + 1].name == name;
        }
      }
    }
  }

  lemma {:induction false} AssignedIsMatching(lines: seq<string>, jobs: seq<Job>)
    requires Importable(jobs)
    ensures IsMatching(lines, jobs, Assigned(lines, jobs))
  {
    hide Owns, Pick, Importable;
    if lines != [] {
      var n := |lines| - 1;
      AssignedIsMatching(lines[..n], jobs);
      PickFinds(lines[n], jobs, Matched(Assigned(lines[..n], jobs)));
    }
  }

  /** Of the jobs whose origin the line is, this one is the first in the list that no line above has taken. */
  predicate FirstFree(lines: seq<string>, names: seq<string>, jobs: seq<Job>, i: nat, k: nat)
    requires i < |lines| == |names| && k < |jobs|
  {
    Waits(lines[i], names[..i], jobs[k]) && forall j :: 0 <= j < k ==> !Waits(lines[i], names[..i], jobs[j])
  }

  predicate Waits(line: string, taken: seq<string>, job: Job) {
    LineEqualsOrigin(line, job.origin) && job.name !in taken
  }

  lemma {:induction false} PickIsFirst(line: string, jobs: seq<Job>, taken: seq<string>, k: nat)
    requires Importable(jobs) && k < |jobs|
    ensures Pick(line, jobs, Matched(taken)) == jobs[k].name
       <==> Waits(line, taken, jobs[k]) && forall j :: 0 <= j < k ==> !Waits(line, taken, jobs[j])
  {
    hide LineEqualsOrigin, Fields;
    var job := jobs[0];
    assert job in jobs && jobs[k] in jobs;
    assert job.name in Matched(taken) <==> job.name in taken;
    if !Waits(line, taken, job) && k > 0 {
      PickIsFirst(line, jobs[1..], taken, k - 1);
      assert forall j :: 1 <= j < k ==> jobs[j] == jobs[1..][j - 1];
    }
    if !Waits(line, taken, job) && k == 0 {
      PickFinds(line, jobs[1..], Matched(taken));
      var name := Pick(line, jobs[1..], Matched(taken));
      if name != "" {
        var j :| 0 <= j < |jobs[1..]| && jobs[1..][j].name == name;
        assert jobs[j + 1].name == name;
      }
    }
  }

  lemma {:induction false} AssignedAbove(lines: seq<string>, jobs: seq<Job>, i: nat)
    requires i < |lines|
    ensures Assigned(lines, jobs)[..i] == Assigned(lines[..i], jobs)
    ensures Assigned(lines, jobs)[i] == Pick(lines[i], jobs, Matched(Assigned(lines[..i], jobs)))
  {
    hide Pick;
    if i < |lines| - 1 {
      AssignedAbove(lines[..|lines| - 1], jobs, i);
      assert lines[..|lines| - 1][..i] == lines[..i];
    }
  }

  /** Lines are served top to bottom, and each goes to the first waiting job of the list, if any waits. */
  lemma GreedyTakesTheFirst(lines: seq<string>, jobs: seq<Job>, i: nat, k: nat)
    requires Importable(jobs) && i < |lines| && k < |jobs|
    ensures Assigned(lines, jobs)[i] == jobs[k].name <==> FirstFree(lines, Assigned(lines, jobs), jobs, i, k)
  {
    hide Importable, LineEqualsOrigin, Pick, Assigned, Waits;
    AssignedAbove(lines, jobs, i);
    PickIsFirst(lines[i], jobs, Assigned(lines[..i], jobs), k);
  }

  /** A job that takes a line leaves one free job fewer of its origin. */
  lemma {:induction false} TakingFrees(jobs: seq<Job>, matched: set<string>, name: string, k: nat, fields: seq<string>)
    requires Importable(jobs) && k < |jobs| && jobs[k].name == name && name !in matched
    ensures FreeWith(jobs, matched, fields)
         == FreeWith(jobs, matched + {name}, fields) + (if Fields(jobs[k].origin) == fields then 1 else 0)
  {
    hide Fields;
    if k == 0 {
      NotThere(jobs[1..], matched, name, fields);
    } else {
      TakingFrees(jobs[1..], matched, name, k - 1, fields);
    }
  }

  lemma {:induction false} NotThere(jobs: seq<Job>, matched: set<string>, name: string, fields: seq<string>)
    requires forall j <- jobs :: j.name != name
    ensures FreeWith(jobs, matched + {name}, fields) == FreeWith(jobs, matched, fields)
  {
    if jobs != [] {
      assert jobs[0] in jobs;
      NotThere(jobs[1..], matched, name, fields);
    }
  }

  lemma {:induction false} AllFree(jobs: seq<Job>, fields: seq<string>)
    ensures FreeWith(jobs, {}, fields) == JobsWith(jobs, fields)
  {
    if jobs != [] {
      AllFree(jobs[1..], fields);
    }
  }

  /** In any matching, cut lines and free jobs of an origin add up to its jobs. */
  lemma {:induction false} Conservation(lines: seq<string>, jobs: seq<Job>, names: seq<string>, fields: seq<string>)
    requires Importable(jobs) && IsMatching(lines, jobs, names)
    ensures FreeWith(jobs, Matched(names), fields) + CutWith(lines, names, fields) == JobsWith(jobs, fields)
    ensures CutWith(lines, names, fields) <= LinesWith(lines, fields)
  {
    hide Importable, Fields, LineEqualsOrigin, FreeWith;
    if lines == [] {
      assert Matched(names) == {};
      AllFree(jobs, fields);
    } else {
      var n := |lines| - 1;
      Conservation(lines[..n], jobs, names[..n], fields);
      assert names == names[..n] + [names[n]];
      if names[n] == "" {
        assert Matched(names) == Matched(names[..n]);
      } else {
        assert Matched(names) == Matched(names[..n]) + {names[n]};
        var k := OwnerOf(jobs, names[n], lines[n]);
        TakingFrees(jobs, Matched(names[..n]), names[n], k, fields);
      }
    }
  }

  lemma OwnerOf(jobs: seq<Job>, name: string, line: string) returns (k: nat)
    requires Importable(jobs) && Owns(jobs, name, line)
    ensures k < |jobs| && jobs[k].name == name && Fields(jobs[k].origin) == Fields(line)
    ensures IsEntry(Fields(line))
  {
    k :| 0 <= k < |jobs| && jobs[k].name == name && LineEqualsOrigin(line, jobs[k].origin);
    assert jobs[k] in jobs;
    MatchIsSameFields(line, jobs[k].origin);
  }

  /** The greedy pass cuts, origin by origin, as many lines as there are lines or jobs, whichever is fewer. */
  lemma {:induction false} GreedyCutsTheMinimum(lines: seq<string>, jobs: seq<Job>, fields: seq<string>)
    requires Importable(jobs)
    ensures CutWith(lines, Assigned(lines, jobs), fields) == Min(LinesWith(lines, fields), JobsWith(jobs, fields))
  {
    hide Importable, Fields, FreeWith, IsMatching, Pick, JobsWith;
    if lines != [] {
      var n := |lines| - 1;
      var names := Assigned(lines[..n], jobs);
      GreedyCutsTheMinimum(lines[..n], jobs, fields);
      AssignedIsMatching(lines[..n], jobs);
      Conservation(lines[..n], jobs, names, fields);
      PickFinds(lines[n], jobs, Matched(names));
      assert Assigned(lines, jobs)[..n] == names;
    }
  }

  /** No other matching cuts more lines of any origin. */
  lemma GreedyIsMaximum(lines: seq<string>, jobs: seq<Job>, names: seq<string>, fields: seq<string>)
    requires Importable(jobs) && IsMatching(lines, jobs, names)
    ensures CutWith(lines, names, fields) <= CutWith(lines, Assigned(lines, jobs), fields)
  {
    hide Importable, IsMatching, Assigned, FreeWith, LinesWith, JobsWith, CutWith;
    Conservation(lines, jobs, names, fields);
    GreedyCutsTheMinimum(lines, jobs, fields);
  }

  // ----- the report

  function ChangedJobs(changes: seq<Change>): seq<string> {
    seq(|changes|, i requires 0 <= i < |changes| => changes[i].job)
  }

  function SkippedJobs(skips: seq<Skip>): seq<string> {
    seq(|skips|, i requires 0 <= i < |skips| => skips[i].job)
  }

  lemma {:induction false} ChangedAreMatched(clock: Clock, now: Time, lines: seq<string>, names: seq<string>, at: nat)
    requires |names| == |lines|
    requires forall i, j :: 0 <= i < j < |names| && names[i] != "" ==> names[i] != names[j]
    ensures var changed := ChangedJobs(CommentChanges(clock, now, lines, names, at));
            NoRepeats(changed) && forall n :: n in changed <==> n in Matched(names)
  {
    hide MarkerLine;
    if lines != [] {
      ChangedAreMatched(clock, now, lines[1..], names[1..], at + 1);
      var rest := ChangedJobs(CommentChanges(clock, now, lines[1..], names[1..], at + 1));
      var changed := ChangedJobs(CommentChanges(clock, now, lines, names, at));
      assert names == [names[0]] + names[1..];
      if names[0] == "" {
        assert changed == rest;
      } else {
        assert changed == [names[0]] + rest;
        assert names[0] !in names[1..];
        assert Matched(names) == Matched(names[1..]) + {names[0]};
      }
    }
  }

  lemma {:induction false} SkippedAreFree(jobs: seq<Job>, matched: set<string>, lines: seq<string>,
                                          already: set<string>, resembling: Resembling)
    requires forall i, j :: 0 <= i < j < |jobs| ==> jobs[i].name != jobs[j].name
    ensures var skipped := SkippedJobs(CommentSkips(jobs, matched, lines, already, resembling));
            NoRepeats(skipped)
            && forall n :: n in skipped <==> n !in matched && exists k :: 0 <= k < |jobs| && jobs[k].name == n
  {
    if jobs != [] {
      SkippedAreFree(jobs[1..], matched, lines, already, resembling);
      var rest := SkippedJobs(CommentSkips(jobs[1..], matched, lines, already, resembling));
      var skipped := SkippedJobs(CommentSkips(jobs, matched, lines, already, resembling));
      var mine := if jobs[0].name in matched then [] else [jobs[0].name];
      assert skipped == mine + rest;
      forall n ensures n in skipped <==> n !in matched && exists k :: 0 <= k < |jobs| && jobs[k].name == n {
        if k :| 1 <= k < |jobs| && jobs[k].name == n {
          assert jobs[1..][k - 1].name == n;
        }
        if n in rest {
          var k :| 0 <= k < |jobs[1..]| && jobs[1..][k].name == n;
          assert jobs[k + 1].name == n;
        }
      }
    }
  }

  /** Every job is reported exactly once, as a change or as a skip, and nothing else is. */
  lemma EachJobReportedOnce(clock: Clock, now: Time, lines: seq<string>, jobs: seq<Job>, already: set<string>,
                            resembling: Resembling, name: string)
    requires Importable(jobs)
    ensures var names := Assigned(lines, jobs);
            var changed := ChangedJobs(CommentChanges(clock, now, lines, names, 0));
            var skipped := SkippedJobs(CommentSkips(jobs, Matched(names), lines, already, resembling));
            NoRepeats(changed) && NoRepeats(skipped) && !(name in changed && name in skipped)
            && (name in changed || name in skipped <==> exists k :: 0 <= k < |jobs| && jobs[k].name == name)
  {
    hide LineEqualsOrigin, Fields;
    var names := Assigned(lines, jobs);
    AssignedIsMatching(lines, jobs);
    ChangedAreMatched(clock, now, lines, names, 0);
    SkippedAreFree(jobs, Matched(names), lines, already, resembling);
    if name in Matched(names) {
      var i :| 0 <= i < |names| && names[i] == name;
      assert Owns(jobs, names[i], lines[i]);
    }
  }

  // ----- the second pass

  lemma {:induction false} LinesWithConcat(a: seq<string>, b: seq<string>, fields: seq<string>)
    ensures LinesWith(a + b, fields) == LinesWith(a, fields) + LinesWith(b, fields)
  {
    hide Fields;
    if b == [] {
      assert a + b == a;
    } else {
      var n := |b| - 1;
      LinesWithConcat(a, b[..n], fields);
      assert (a + b)[..|a| + n] == a + b[..n];
    }
  }

  lemma CommentedFields(line: string)
    requires Commented(line)
    ensures Fields(line) != [] && Commented(Fields(line)[0])
  {
  }

  /** A pass takes the lines it cuts out of the count, and its markers count for no origin. */
  lemma {:induction false} CutLinesLeave(clock: Clock, now: Time, lines: seq<string>, names: seq<string>,
                                         fields: seq<string>)
    requires |names| == |lines| && IsEntry(fields)
    ensures LinesWith(Rewritten(clock, now, lines, names), fields) + CutWith(lines, names, fields)
         == LinesWith(lines, fields)
  {
    hide Fields, IsSpace, Rewritten;
    if lines == [] {
      NothingRewritten(clock, now, names);
    } else {
      var n := |lines| - 1;
      CutLinesLeave(clock, now, lines[..n], names[..n], fields);
      assert lines == lines[..n] + [lines[n]] && names == names[..n] + [names[n]];
      RewrittenConcat(clock, now, lines[..n], names[..n], [lines[n]], [names[n]], 0);
      var last := Rewritten(clock, now, [lines[n]], [names[n]]);
      LinesWithConcat(Rewritten(clock, now, lines[..n], names[..n]), last, fields);
      OneRewritten(clock, now, lines[n], names[n], fields);
    }
  }

  lemma NothingRewritten(clock: Clock, now: Time, names: seq<string>)
    requires |names| == 0
    ensures Rewritten(clock, now, [], names) == []
  {
  }

  lemma OneRewritten(clock: Clock, now: Time, line: string, name: string, fields: seq<string>)
    requires IsEntry(fields)
    ensures LinesWith(Rewritten(clock, now, [line], [name]), fields)
         == if name == "" && Fields(line) == fields then 1 else 0
  {
    hide Fields, IsSpace;
    LinesWithOne(line, fields);
    if name != "" {
      var marker := MarkerLine(clock, now, name);
      CommentedFields(marker);
      CommentedFields("#" + line);
      LinesWithOne(marker, fields);
      LinesWithOne("#" + line, fields);
      LinesWithConcat([marker], ["#" + line], fields);
      assert [marker] + ["#" + line] == [marker, "#" + line];
    }
  }

  lemma LinesWithOne(line: string, fields: seq<string>)
    ensures LinesWith([line], fields) == if Fields(line) == fields then 1 else 0
  {
  }

  predicate Unnamed(names: seq<string>) {
    forall i :: 0 <= i < |names| ==> names[i] == ""
  }

  lemma {:induction false} RewrittenGrows(clock: Clock, now: Time, lines: seq<string>, names: seq<string>)
    requires |names| == |lines|
    ensures |Rewritten(clock, now, lines, names)| >= |lines|
    ensures Rewritten(clock, now, lines, names) == lines <==> Unnamed(names)
  {
    hide MarkerLine;
    if lines != [] {
      RewrittenGrows(clock, now, lines[1..], names[1..]);
      assert lines == [lines[0]] + lines[1..];
      assert Unnamed(names) <==> names[0] == "" && Unnamed(names[1..]) by {
        assert names == [names[0]] + names[1..];
      }
      if names[0] == "" {
        assert Rewritten(clock, now, lines, names)[1..] == Rewritten(clock, now, lines[1..], names[1..]);
      }
    }
  }

  lemma {:induction false} NothingCut(lines: seq<string>, names: seq<string>, fields: seq<string>)
    requires |names| == |lines| && Unnamed(names)
    ensures CutWith(lines, names, fields) == 0
  {
    if lines != [] {
      NothingCut(lines[..|lines| - 1], names[..|lines| - 1], fields);
    }
  }

  lemma {:induction false} SomethingCut(lines: seq<string>, names: seq<string>, i: nat)
    requires |names| == |lines| && i < |lines| && names[i] != ""
    ensures CutWith(lines, names, Fields(lines[i])) > 0
  {
    if i < |lines| - 1 {
      SomethingCut(lines[..|lines| - 1], names[..|lines| - 1], i);
    }
  }

  /** Every imported line has a job to take it. */
  predicate NoneLeftOver(lines: seq<string>, jobs: seq<Job>) {
    forall j <- jobs :: LinesWith(lines, Fields(j.origin)) <= JobsWith(jobs, Fields(j.origin))
  }

  lemma {:induction false} OwnOrigin(jobs: seq<Job>, j: Job)
    requires j in jobs
    ensures JobsWith(jobs, Fields(j.origin)) > 0
  {
    if jobs[0] != j {
      OwnOrigin(jobs[1..], j);
    }
  }

  /** A pass over any lines changes nothing exactly when none of them is an origin. */
  lemma PassIsNoOpIff(clock: Clock, now: Time, lines: seq<string>, jobs: seq<Job>)
    requires Importable(jobs)
    ensures Rewritten(clock, now, lines, Assigned(lines, jobs)) == lines
       <==> forall j <- jobs :: LinesWith(lines, Fields(j.origin)) == 0
  {
    hide Fields, Rewritten, Assigned, LinesWith, CutWith, JobsWith;
    var names := Assigned(lines, jobs);
    RewrittenGrows(clock, now, lines, names);
    if Unnamed(names) {
      forall j <- jobs ensures LinesWith(lines, Fields(j.origin)) == 0 {
        NothingCut(lines, names, Fields(j.origin));
        GreedyCutsTheMinimum(lines, jobs, Fields(j.origin));
        OwnOrigin(jobs, j);
      }
    } else {
      var i :| 0 <= i < |names| && names[i] != "";
      SomethingCut(lines, names, i);
      GreedyCutsTheMinimum(lines, jobs, Fields(lines[i]));
      AssignedIsMatching(lines, jobs);
      var k := OwnerOf(jobs, names[i], lines[i]);
      assert jobs[k] in jobs;
    }
  }

  /** Comment(Comment(c)) == Comment(c) is not a law: it holds exactly when no wanted origin has more lines
      than jobs, whatever the clock says the second time. */
  lemma SecondPassIsNoOpIff(clock: Clock, now: Time, later: Time, lines: seq<string>, jobs: seq<Job>)
    requires Importable(jobs)
    ensures var once := Rewritten(clock, now, lines, Assigned(lines, jobs));
            Rewritten(clock, later, once, Assigned(once, jobs)) == once <==> NoneLeftOver(lines, jobs)
  {
    hide Fields, Rewritten, Assigned, LinesWith, CutWith, JobsWith, IsEntry;
    var names := Assigned(lines, jobs);
    var once := Rewritten(clock, now, lines, names);
    PassIsNoOpIff(clock, later, once, jobs);
    forall j <- jobs
      ensures LinesWith(once, Fields(j.origin)) == 0
         <==> LinesWith(lines, Fields(j.origin)) <= JobsWith(jobs, Fields(j.origin))
    {
      CutLinesLeave(clock, now, lines, names, Fields(j.origin));
      GreedyCutsTheMinimum(lines, jobs, Fields(j.origin));
    }
  }
}
