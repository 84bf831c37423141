/** The crontab rewrite and its undo, internal/cutover/cutover.go: Comment gives each job the first free line
    that is its origin, Uncomment scans for markers and strips one '#' beneath each. */
module Cutover {
  import opened Options
  import opened Text
  import opened Crontab

  datatype Job = Job(name: string, origin: string)
  datatype Change = Change(job: string, number: nat, when: Time, line: string, marker: string)
  datatype SkipReason = AlreadyCut | Changed(line: string, number: nat) | Missing
  datatype Skip = Skip(job: string, reason: SkipReason)

  /** How findChanged answers for a crontab and an origin: a resembling line and its number. */
  type Resembling = (seq<string>, string) -> Option<(string, nat)>

  // ----- Comment

  /** The first job in the list that is still free and whose origin the line is; "" for none. */
  function Pick(line: string, jobs: seq<Job>, matched: set<string>): string {
    if jobs == [] then ""
    else if jobs[0].name !in matched && LineEqualsOrigin(line, jobs[0].origin) then jobs[0].name
    else Pick(line, jobs[1..], matched)
  }

  function Matched(names: seq<string>): set<string> {
    set n | n in names && n != ""
  }

  /** Line by line the job that takes it. */
  function Assigned(lines: seq<string>, jobs: seq<Job>): (names: seq<string>)
    ensures |names| == |lines|
  {
    if lines == [] then []
    else
      var names := Assigned(lines[..|lines| - 1], jobs);
      names + [Pick(lines[|lines| - 1], jobs, Matched(names))]
  }

  /** A line taken by a job goes behind a '#' under a marker; every other line is copied. */
  function Rewritten(clock: Clock, now: Time, lines: seq<string>, names: seq<string>): seq<string>
    requires |names| == |lines|
  {
    if lines == [] then []
    else
      (if names[0] == "" then [lines[0]] else [MarkerLine(clock, now, names[0]), "#" + lines[0]])
      + Rewritten(clock, now, lines[1..], names[1..])
  }

  function CommentChanges(clock: Clock, now: Time, lines: seq<string>, names: seq<string>, at: nat): seq<Change>
    requires |names| == |lines|
  {
    if lines == [] then []
    else
      (if names[0] == "" then []
       else [Change(names[0], at + 1, now, lines[0], MarkerLine(clock, now, names[0]))])
      + CommentChanges(clock, now, lines[1..], names[1..], at + 1)
  }

  function SkipFor(job: Job, lines: seq<string>, already: set<string>, resembling: Resembling): Skip {
    if job.name in already then Skip(job.name, AlreadyCut)
    else
      match resembling(lines, job.origin)
      case Some((line, number)) => Skip(job.name, Changed(line, number))
      case None => Skip(job.name, Missing)
  }

  function CommentSkips(jobs: seq<Job>, matched: set<string>, lines: seq<string>, already: set<string>,
                        resembling: Resembling): seq<Skip>
  {
    if jobs == [] then []
    else
      (if jobs[0].name in matched then [] else [SkipFor(jobs[0], lines, already, resembling)])
      + CommentSkips(jobs[1..], matched, lines, already, resembling)
  }

  /** Why a job stayed: it has a marker already, or a line resembles its origin, or none does. */
  predicate Explains(clock: Clock, lines: seq<string>, job: Job, resembling: Resembling, skip: Skip) {
    skip.job == job.name
    && (skip.reason == AlreadyCut <==> HasMarkerOf(clock, lines, job.name))
    && (skip.reason != AlreadyCut ==>
          match resembling(lines, job.origin)
          case Some((line, number)) => skip.reason == Changed(line, number)
          case None => skip.reason == Missing)
  }

  predicate HasMarkerOf(clock: Clock, lines: seq<string>, name: string) {
    exists i :: 0 <= i < |lines| && ParseMarker(clock, lines[i]).Some? && ParseMarker(clock, lines[i]).value.job == name
  }

  /** The skips explain, in the order of the job list, exactly the jobs that no change names; at holds their
      places in the list. */
  ghost predicate Explained(clock: Clock, lines: seq<string>, jobs: seq<Job>, changed: set<string>,
                            resembling: Resembling, skips: seq<Skip>, at: seq<int>)
  {
    |at| == |skips| && (forall i, j :: 0 <= i < j < |at| ==> at[i] < at[j])
    && (forall k :: k in at <==> 0 <= k < |jobs| && jobs[k].name !in changed)
    && forall i :: 0 <= i < |at| ==> 0 <= at[i] < |jobs| && Explains(clock, lines, jobs[at[i]], resembling, skips[i])
  }

  lemma SkipIsExplained(clock: Clock, lines: seq<string>, job: Job, resembling: Resembling)
    ensures Explains(clock, lines, job, resembling, SkipFor(job, lines, MarkedJobs(clock, lines), resembling))
  {
    hide ParseMarker;
    if job.name in MarkedJobs(clock, lines) {
      var line :| line in lines && IsMarker(clock, line) && ParseMarker(clock, line).value.job == job.name;
      var i :| 0 <= i < |lines| && lines[i] == line;
      assert HasMarkerOf(clock, lines, job.name);
    }
    if HasMarkerOf(clock, lines, job.name) {
      var i :| 0 <= i < |lines| && IsMarker(clock, lines[i]) && ParseMarker(clock, lines[i]).value.job == job.name;
      assert lines[i] in lines;
    }
  }

  lemma {:induction false} SkipsAreExplained(clock: Clock, lines: seq<string>, jobs: seq<Job>, changed: set<string>,
                                             resembling: Resembling) returns (at: seq<int>)
    ensures Explained(clock, lines, jobs, changed, resembling,
                      CommentSkips(jobs, changed, lines, MarkedJobs(clock, lines), resembling), at)
  {
    hide ParseMarker, Explains, SkipFor, MarkedJobs;
    at := [];
    if jobs != [] {
      var last := |jobs| - 1;
      at := SkipsAreExplained(clock, lines, jobs[..last], changed, resembling);
      LastSkip(jobs, changed, lines, MarkedJobs(clock, lines), resembling);
      if jobs[last].name !in changed {
        SkipIsExplained(clock, lines, jobs[last], resembling);
        at := at + [last];
      }
    }
  }

  lemma {:induction false} LastSkip(jobs: seq<Job>, matched: set<string>, lines: seq<string>, already: set<string>,
                                    resembling: Resembling)
    requires jobs != []
    ensures var last := jobs[|jobs| - 1];
            CommentSkips(jobs, matched, lines, already, resembling)
            == CommentSkips(jobs[..|jobs| - 1], matched, lines, already, resembling)
               + (if last.name in matched then [] else [SkipFor(last, lines, already, resembling)])
  {
    hide SkipFor;
    if |jobs| > 1 {
      LastSkip(jobs[1..], matched, lines, already, resembling);
      assert jobs[..|jobs| - 1][1..] == jobs[1..][..|jobs| - 2];
    }
  }

  function JobsOf(changes: seq<Change>): set<string> {
    set c | c in changes :: c.job
  }

  lemma {:induction false} ChangedIsMatched(clock: Clock, now: Time, lines: seq<string>, names: seq<string>, at: nat)
    requires |names| == |lines|
    ensures JobsOf(CommentChanges(clock, now, lines, names, at)) == Matched(names)
  {
    hide MarkerLine;
    if lines != [] {
      ChangedIsMatched(clock, now, lines[1..], names[1..], at + 1);
      assert names == [names[0]] + names[1..];
      var rest := CommentChanges(clock, now, lines[1..], names[1..], at + 1);
      var all := CommentChanges(clock, now, lines, names, at);
      assert forall c :: c in all <==> (names[0] != "" && c == all[0]) || c in rest;
      assert JobsOf(all) == (if names[0] == "" then {} else {names[0]}) + JobsOf(rest);
    }
  }

  function MarkedJobs(clock: Clock, lines: seq<string>): set<string> {
    set line | line in lines && IsMarker(clock, line) :: ParseMarker(clock, line).value.job
  }

  function CommentText(clock: Clock, now: Time, content: string, jobs: seq<Job>): string {
    var lines := SplitLines(content);
    Join(Rewritten(clock, now, lines, Assigned(lines, jobs)))
  }

  lemma {:induction false} RewrittenConcat(clock: Clock, now: Time, a: seq<string>, m: seq<string>, b: seq<string>,
                                           n: seq<string>, at: nat)
    requires |m| == |a| && |n| == |b|
    ensures Rewritten(clock, now, a + b, m + n) == Rewritten(clock, now, a, m) + Rewritten(clock, now, b, n)
    ensures CommentChanges(clock, now, a + b, m + n, at)
            == CommentChanges(clock, now, a, m, at) + CommentChanges(clock, now, b, n, at + |a|)
  {
    hide MarkerLine;
    if a == [] {
      assert a + b == b && m + n == n;
    } else {
      assert (a + b)[1..] == a[1..] + b && (m + n)[1..] == m[1..] + n;
      RewrittenConcat(clock, now, a[1..], m[1..], b, n, at + 1);
    }
  }

  method PickFor(line: string, jobs: seq<Job>, matched: set<string>) returns (name: string)
    ensures name == Pick(line, jobs, matched)
  {
    for k := 0 to |jobs|
      invariant Pick(line, jobs, matched) == Pick(line, jobs[k..], matched)
    {
      var job := jobs[k];
      if job.name in matched {
        continue;
      }
      if LineEqualsOrigin(line, job.origin) {
        return job.name;
      }
    }
    return "";
  }

  lemma StayedFrom(jobs: seq<Job>, k: nat, matched: set<string>, lines: seq<string>, already: set<string>,
                   resembling: Resembling)
    requires k <= |jobs|
    ensures CommentSkips(jobs[k..], matched, lines, already, resembling)
         == if k == |jobs| then []
            else (if jobs[k].name in matched then [] else [SkipFor(jobs[k], lines, already, resembling)])
                 + CommentSkips(jobs[k + 1..], matched, lines, already, resembling)
  {
    hide SkipFor;
  }

  /** Pass three: the jobs that stayed. */
  method ReportStayed(jobs: seq<Job>, matched: set<string>, lines: seq<string>, already: set<string>,
                      resembling: Resembling) returns (skips: seq<Skip>)
    ensures skips == CommentSkips(jobs, matched, lines, already, resembling)
    ensures forall clock :: already == MarkedJobs(clock, lines) ==>
              exists at :: Explained(clock, lines, jobs, matched, resembling, skips, at)
  {
    hide SkipFor, CommentSkips, MarkedJobs, Explained;
    assert jobs[0..] == jobs && jobs[|jobs|..] == [];
    StayedFrom(jobs, |jobs|, matched, lines, already, resembling);
    skips := [];
    for k := 0 to |jobs|
      invariant CommentSkips(jobs, matched, lines, already, resembling)
             == skips + CommentSkips(jobs[k..], matched, lines, already, resembling)
    {
      StayedFrom(jobs, k, matched, lines, already, resembling);
      if jobs[k].name !in matched {
        skips := skips + [SkipFor(jobs[k], lines, already, resembling)];
      }
    }
    assert skips == CommentSkips(jobs, matched, lines, already, resembling);
    forall clock: Clock | already == MarkedJobs(clock, lines)
      ensures exists at :: Explained(clock, lines, jobs, matched, resembling, skips, at)
    {
      var at := SkipsAreExplained(clock, lines, jobs, matched, resembling);
    }
  }

  method Comment(clock: Clock, content: string, jobs: seq<Job>, now: Time, resembling: Resembling)
    returns (out: string, changes: seq<Change>, skips: seq<Skip>)
    ensures out == CommentText(clock, now, content, jobs)
    ensures var lines := SplitLines(content); changes == CommentChanges(clock, now, lines, Assigned(lines, jobs), 0)
    ensures var lines := SplitLines(content);
            skips == CommentSkips(jobs, Matched(Assigned(lines, jobs)), lines, MarkedJobs(clock, lines), resembling)
    ensures exists at :: Explained(clock, SplitLines(content), jobs, JobsOf(changes), resembling, skips, at)
  {
    hide MarkerLine, ParseMarker, Pick, CommentSkips, SplitLines, Rewritten, Join, CommentChanges, Assigned, Matched;
    var lines := SplitLines(content);
    NothingYet(clock, now, jobs);
    var already: set<string> := {};
    for i := 0 to |lines|
      invariant already == MarkedJobs(clock, lines[..i])
    {
      assert lines[..i + 1] == lines[..i] + [lines[i]];
      if IsMarker(clock, lines[i]) {
        already := already + {ParseMarker(clock, lines[i]).value.job};
      }
    }
    assert lines[..|lines|] == lines;

    out, changes := "", [];
    var matched: set<string> := {};
    for i := 0 to |lines|
      invariant matched == Matched(Assigned(lines[..i], jobs))
      invariant out == Join(Rewritten(clock, now, lines[..i], Assigned(lines[..i], jobs)))
      invariant changes == CommentChanges(clock, now, lines[..i], Assigned(lines[..i], jobs), 0)
    {
      var line := lines[i];
      var name := PickFor(line, jobs, matched);
      OneMoreLine(clock, now, lines[..i], line, jobs);
      assert lines[..i + 1] == lines[..i] + [line];
      if name == "" {
        out := out + line + "\n";
        continue;
      }
      var marker := MarkerLine(clock, now, name);
      out := out + marker + "\n" + "#" + line + "\n";
      matched := matched + {name};
      changes := changes + [Change(name, i + 1, now, line, marker)];
    }

    skips := ReportStayed(jobs, matched, lines, already, resembling);
    ChangedIsMatched(clock, now, lines, Assigned(lines, jobs), 0);
  }

  lemma NothingYet(clock: Clock, now: Time, jobs: seq<Job>)
    ensures Matched(Assigned([], jobs)) == {}
    ensures Join(Rewritten(clock, now, [], Assigned([], jobs))) == ""
    ensures CommentChanges(clock, now, [], Assigned([], jobs), 0) == []
  {
  }

  /** What one more line adds to the text, the matched names and the report. */
  lemma OneMoreLine(clock: Clock, now: Time, lines: seq<string>, line: string, jobs: seq<Job>)
    ensures var names := Assigned(lines, jobs);
            var name := Pick(line, jobs, Matched(names));
            var marker := MarkerLine(clock, now, name);
            Assigned(lines + [line], jobs) == names + [name]
            && Matched(names + [name]) == (if name == "" then Matched(names) else Matched(names) + {name})
            && Join(Rewritten(clock, now, lines + [line], names + [name]))
               == Join(Rewritten(clock, now, lines, names))
                  + (if name == "" then line + "\n" else marker + "\n" + "#" + line + "\n")
            && CommentChanges(clock, now, lines + [line], names + [name], 0)
               == CommentChanges(clock, now, lines, names, 0)
                  + (if name == "" then [] else [Change(name, |lines| + 1, now, line, marker)])
  {
    hide MarkerLine, Pick;
    var names := Assigned(lines, jobs);
    var name := Pick(line, jobs, Matched(names));
    assert (lines + [line])[..|lines|] == lines;
    assert Assigned(lines + [line], jobs) == names + [name];
    hide Assigned, Join;
    RewrittenConcat(clock, now, lines, names, [line], [name], 0);
    JoinConcat(Rewritten(clock, now, lines, names), Rewritten(clock, now, [line], [name]));
    JoinOne(line);
    JoinTwo(MarkerLine(clock, now, name), "#" + line);
  }

  lemma JoinOne(line: string)
    ensures Join([line]) == line + "\n"
  {
  }

  lemma JoinTwo(marker: string, line: string)
    ensures Join([marker, line]) == marker + "\n" + line + "\n"
  {
    JoinOne(line);
    assert [marker, line][1..] == [line];
  }

  // ----- Uncomment

  /** A marker this pass removes: any, or one of the named jobs. */
  predicate Selected(clock: Clock, line: string, only: set<string>) {
    IsMarker(clock, line) && (only == {} || ParseMarker(clock, line).value.job in only)
  }

  predicate Commented(line: string) {
    "#" <= line
  }

  /** The scan of Uncomment over the lines still ahead. */
  function Restored(clock: Clock, lines: seq<string>, only: set<string>): seq<string> {
    if lines == [] then []
    else if !Selected(clock, lines[0], only) then [lines[0]] + Restored(clock, lines[1..], only)
    else if |lines| > 1 && Commented(lines[1]) then [lines[1][1..]] + Restored(clock, lines[2..], only)
    else [""] + Restored(clock, lines[1..], only)
  }

  function UncommentChanges(clock: Clock, lines: seq<string>, only: set<string>, at: nat): seq<Change> {
    if lines == [] then []
    else if !Selected(clock, lines[0], only) then UncommentChanges(clock, lines[1..], only, at + 1)
    else
      var marker := ParseMarker(clock, lines[0]).value;
      if |lines| > 1 && Commented(lines[1]) then
        [Change(marker.job, at + 1, marker.when, lines[1][1..], lines[0])]
        + UncommentChanges(clock, lines[2..], only, at + 2)
      else
        [Change(marker.job, at + 1, marker.when, "", lines[0])] + UncommentChanges(clock, lines[1..], only, at + 1)
  }

  function UncommentText(clock: Clock, content: string, only: set<string>): string {
    Join(Restored(clock, SplitLines(content), only))
  }

  lemma RestoreOne(clock: Clock, lines: seq<string>, only: set<string>, at: nat)
    requires lines != []
    ensures var n := if Selected(clock, lines[0], only) && |lines| > 1 && Commented(lines[1]) then 2 else 1;
            var line := if n == 2 then lines[1][1..] else if Selected(clock, lines[0], only) then "" else lines[0];
            Join(Restored(clock, lines, only)) == line + "\n" + Join(Restored(clock, lines[n..], only))
            && UncommentChanges(clock, lines, only, at)
               == (if Selected(clock, lines[0], only) then
                     var marker := ParseMarker(clock, lines[0]).value;
                     [Change(marker.job, at + 1, marker.when, line, lines[0])]
                   else []) + UncommentChanges(clock, lines[n..], only, at + n)
  {
    hide ParseMarker;
  }

  lemma NothingLeft(clock: Clock, only: set<string>, at: nat)
    ensures Join(Restored(clock, [], only)) == "" && UncommentChanges(clock, [], only, at) == []
  {
  }

  method Uncomment(clock: Clock, content: string, only: seq<string>) returns (out: string, changes: seq<Change>)
    ensures out == UncommentText(clock, content, set n | n in only)
    ensures changes == UncommentChanges(clock, SplitLines(content), set n | n in only, 0)
  {
    hide ParseMarker, SplitLines, Join, Restored, UncommentChanges;
    var filter := set n | n in only;
    var lines := SplitLines(content);
    out, changes := "", [];
    NothingLeft(clock, filter, |lines|);
    assert lines[0..] == lines;
    var i := 0;
    while i < |lines|
      invariant 0 <= i <= |lines|
      invariant UncommentText(clock, content, filter) == out + Join(Restored(clock, lines[i..], filter))
      invariant UncommentChanges(clock, lines, filter, 0) == changes + UncommentChanges(clock, lines[i..], filter, i)
    {
      RestoreOne(clock, lines[i..], filter, i);
      if !IsMarker(clock, lines[i]) || (|filter| > 0 && ParseMarker(clock, lines[i]).value.job !in filter) {
        out := out + lines[i] + "\n";
        i := i + 1;
        continue;
      }
      var marker := ParseMarker(clock, lines[i]).value;
      var change := Change(marker.job, i + 1, marker.when, "", lines[i]);
      if i + 1 < |lines| && Commented(lines[i + 1]) {
        change := change.(line := lines[i + 1][1..]);
        i := i + 1;
      }
      out := out + change.line + "\n";
      changes := changes + [change];
      i := i + 1;
    }
  }
}
