/** The three laws in the header of internal/cutover/cutover.go, on the crontab text the functions take and
    return: the exact condition of each, and a crontab that breaks each. */
module CutoverLaws {
  import opened Options
  import opened Text
  import opened Crontab
  import opened Cutover
  import opened Matching
  import opened Rollback

  // ----- carriage returns

  function ReturnsIn(s: string): nat {
    if s == "" then 0 else (if s[0] == '\r' then 1 else 0) + ReturnsIn(s[1..])
  }

  function Returns(lines: seq<string>): nat {
    if lines == [] then 0 else ReturnsIn(lines[0]) + Returns(lines[1..])
  }

  lemma {:induction false} ReturnsConcat(a: string, b: string)
    ensures ReturnsIn(a + b) == ReturnsIn(a) + ReturnsIn(b)
  {
    if a == "" {
      assert a + b == b;
    } else {
      assert (a + b)[1..] == a[1..] + b;
      ReturnsConcat(a[1..], b);
    }
  }

  lemma {:induction false} UnbrokenReturns(s: string)
    requires Unbroken(s)
    ensures ReturnsIn(s) == 0
  {
    if s != "" {
      assert s[0] in s;
      UnbrokenReturns(s[1..]);
    }
  }

  lemma {:induction false} TrimmedReturns(lines: seq<string>)
    ensures Returns(Trimmed(lines)) <= Returns(lines)
    ensures Returns(Trimmed(lines)) == Returns(lines) ==> Trimmed(lines) == lines
  {
    if lines != [] {
      var line := lines[0];
      TrimmedReturns(lines[1..]);
      assert lines == [line] + lines[1..];
      if EndsInReturn(line) {
        ReturnsConcat(line[..|line| - 1], [line[|line| - 1]]);
        assert line[..|line| - 1] + [line[|line| - 1]] == line;
        assert ReturnsIn([line[|line| - 1]]) == 1;
      }
    }
  }

  lemma {:induction false} RestoredReturns(clock: Clock, lines: seq<string>, only: set<string>)
    ensures Returns(Restored(clock, lines, only)) <= Returns(lines)
  {
    hide Selected;
    if lines != [] {
      RestoredReturns(clock, lines[1..], only);
      if |lines| > 1 && Commented(lines[1]) {
        RestoredReturns(clock, lines[2..], only);
        assert lines[1..][1..] == lines[2..] && lines[1] == lines[1][..1] + lines[1][1..];
        ReturnsConcat(lines[1][..1], lines[1][1..]);
      }
    }
  }

  lemma MarkerReturns(clock: Clock, now: Time, job: string)
    requires Fair(clock) && Unbroken(job)
    ensures Unbroken(MarkerLine(clock, now, job)) && ReturnsIn(MarkerLine(clock, now, job)) == 0
  {
    assert Unbroken(clock.format(now)) && Unbroken(MARKER_PREFIX) && Unbroken(JOB_PART);
    UnbrokenReturns(MarkerLine(clock, now, job));
  }

  predicate UnbrokenNames(names: seq<string>) {
    forall n <- names :: Unbroken(n)
  }

  /** What a pass writes are lines again, with the carriage returns they had and no others, and settled
      exactly when they were. */
  lemma {:induction false} RewrittenAreLines(clock: Clock, now: Time, lines: seq<string>, names: seq<string>)
    requires Fair(clock) && |names| == |lines| && Lines(lines) && UnbrokenNames(names)
    ensures var out := Rewritten(clock, now, lines, names);
            Lines(out) && Returns(out) == Returns(lines) && (Settled(out) <==> Settled(lines))
    ensures Rewritten(clock, now, lines, names) == [""] ==> lines == [""]
  {
    hide MarkerLine, Fair, Unbroken, Rewritten, ReturnsIn;
    if lines == [] {
      NothingRewritten(clock, now, names);
    } else {
      assert lines[0] in lines && names[0] in names;
      RewriteHead(clock, now, lines, names);
      RewrittenAreLines(clock, now, lines[1..], names[1..]);
      RewrittenGrows(clock, now, lines[1..], names[1..]);
      var rest := Rewritten(clock, now, lines[1..], names[1..]);
      assert Settled(lines) <==> !EndsInReturn(lines[0]) && Settled(lines[1..]) by {
        assert lines == [lines[0]] + lines[1..];
      }
      if names[0] == "" {
        HeadFacts([lines[0]], rest);
      } else {
        CutHead(clock, now, lines[0], names[0]);
        HeadFacts([MarkerLine(clock, now, names[0]), "#" + lines[0]], rest);
      }
    }
  }

  lemma {:induction false} HeadFacts(head: seq<string>, rest: seq<string>)
    ensures Returns(head + rest) == Returns(head) + Returns(rest)
    ensures Settled(head + rest) <==> Settled(head) && Settled(rest)
    ensures Lines(head + rest) <==> Lines(head) && Lines(rest)
  {
    hide EndsInReturn, ReturnsIn;
    if head == [] {
      assert head + rest == rest;
    } else {
      assert (head + rest)[1..] == head[1..] + rest;
      HeadFacts(head[1..], rest);
    }
    var all := head + rest;
    assert forall line :: line in all <==> line in head || line in rest;
  }

  lemma OneLineReturns(line: string)
    ensures Returns([line]) == ReturnsIn(line) && (Settled([line]) <==> !EndsInReturn(line))
    ensures Lines([line]) <==> '\n' !in line
  {
    assert [line][0] == line;
  }

  lemma CutHead(clock: Clock, now: Time, line: string, name: string)
    requires Fair(clock) && Unbroken(name) && '\n' !in line
    ensures var head := [MarkerLine(clock, now, name), "#" + line];
            Lines(head) && Returns(head) == ReturnsIn(line) && (Settled(head) <==> !EndsInReturn(line))
  {
    hide MarkerLine, Fair;
    var marker := MarkerLine(clock, now, name);
    MarkerReturns(clock, now, name);
    ReturnsConcat("#", line);
    UnbrokenReturns("#");
    assert marker != "" ==> marker[|marker| - 1] in marker;
    assert EndsInReturn("#" + line) <==> EndsInReturn(line);
    assert [marker, "#" + line] == [marker] + ["#" + line];
    HeadFacts([marker], ["#" + line]);
    OneLineReturns(marker);
    OneLineReturns("#" + line);
  }

  lemma {:induction false} RestoredAreLines(clock: Clock, lines: seq<string>, only: set<string>)
    requires Lines(lines)
    ensures Lines(Restored(clock, lines, only))
  {
    hide Selected;
    if lines != [] {
      assert lines[0] in lines;
      RestoredAreLines(clock, lines[1..], only);
      if |lines| > 1 && Commented(lines[1]) {
        assert lines[1] in lines;
        RestoredAreLines(clock, lines[2..], only);
      }
    }
  }

  lemma NamesAreUnbroken(lines: seq<string>, jobs: seq<Job>)
    requires Importable(jobs)
    ensures UnbrokenNames(Assigned(lines, jobs))
  {
    hide LineEqualsOrigin;
    var names := Assigned(lines, jobs);
    AssignedIsMatching(lines, jobs);
    forall n <- names ensures Unbroken(n) {
      var i :| 0 <= i < |names| && names[i] == n;
      if n != "" {
        var k := OwnerOf(jobs, n, lines[i]);
        assert jobs[k] in jobs;
      }
    }
  }

  /** What one cutover writes, read back line by line. */
  lemma CommentedLines(clock: Clock, now: Time, content: string, jobs: seq<Job>)
    requires Fair(clock) && Importable(jobs)
    ensures var lines := SplitLines(content);
            var out := Rewritten(clock, now, lines, Assigned(lines, jobs));
            Lines(lines) && Lines(out) && Returns(out) == Returns(lines) && (Settled(out) <==> Settled(lines))
            && SplitLines(CommentText(clock, now, content, jobs)) == (if Trimmed(out) == [""] then [] else Trimmed(out))
            && (Settled(lines) ==> Trimmed(out) == out && out != [""])
  {
    hide SplitLines, Rewritten, Join, Importable, Fair;
    var lines := SplitLines(content);
    var out := Rewritten(clock, now, lines, Assigned(lines, jobs));
    SplitLinesAreLines(content);
    NamesAreUnbroken(lines, jobs);
    RewrittenAreLines(clock, now, lines, Assigned(lines, jobs));
    SplitLinesOfJoin(out);
    TrimmedAreLines(out);
  }

  // ----- the laws

  /** Uncomment(Comment(c)) == Uncomment(c), for every job list and clock, exactly when the scan meets no
      orphan marker right above a line about to be cut over. */
  lemma UndoLaw(clock: Clock, now: Time, content: string, jobs: seq<Job>)
    requires Fair(clock) && Importable(jobs) && Settled(SplitLines(content))
    ensures UncommentText(clock, CommentText(clock, now, content, jobs), {}) == UncommentText(clock, content, {})
       <==> !OrphanAboveCut(clock, SplitLines(content), Assigned(SplitLines(content), jobs))
  {
    hide SplitLines, Rewritten, Restored, Join, CommentText, OrphanAboveCut, Importable;
    var lines := SplitLines(content);
    var names := Assigned(lines, jobs);
    CommentedLines(clock, now, content, jobs);
    AssignedFits(clock, lines, jobs);
    UndoIff(clock, now, lines, names);
    RestoredAreLines(clock, lines, {});
    RestoredAreLines(clock, Rewritten(clock, now, lines, names), {});
    if UncommentText(clock, CommentText(clock, now, content, jobs), {}) == UncommentText(clock, content, {}) {
      JoinInjective(Restored(clock, Rewritten(clock, now, lines, names), {}), Restored(clock, lines, {}));
    }
  }

  /** Uncomment(Comment(c)) == c, byte for byte, exactly for content without a marker and without a CRLF that
      ends its last line and is not a single blank line. */
  lemma RoundTripLaw(clock: Clock, now: Time, content: string, jobs: seq<Job>)
    requires Fair(clock) && Importable(jobs)
    ensures UncommentText(clock, CommentText(clock, now, content, jobs), {}) == content
       <==> MarkerFree(clock, SplitLines(content)) && Terminated(content) && NoCrlf(content)
  {
    hide SplitLines, Rewritten, Restored, Join, CommentText, Importable, Terminated, NoCrlf, Settled, MarkerFree;
    var lines := SplitLines(content);
    var names := Assigned(lines, jobs);
    var out := Rewritten(clock, now, lines, names);
    CommentedLines(clock, now, content, jobs);
    AssignedFits(clock, lines, jobs);
    UndoGivesBackIff(clock, now, lines, names);
    JoinOfSplitLines(content);
    if UncommentText(clock, CommentText(clock, now, content, jobs), {}) == content {
      RoundTripIsSettled(clock, now, content, jobs);
    }
  }

  /** Content that comes back has settled lines, and they are the very lines that came back. */
  lemma RoundTripIsSettled(clock: Clock, now: Time, content: string, jobs: seq<Job>)
    requires Fair(clock) && Importable(jobs)
    requires UncommentText(clock, CommentText(clock, now, content, jobs), {}) == content
    ensures var lines := SplitLines(content);
            Settled(lines) && Join(lines) == content
            && Restored(clock, Rewritten(clock, now, lines, Assigned(lines, jobs)), {}) == lines
  {
    hide SplitLines, Rewritten, Restored, Join, CommentText, Importable, Settled;
    var lines := SplitLines(content);
    var out := Rewritten(clock, now, lines, Assigned(lines, jobs));
    var read := SplitLines(CommentText(clock, now, content, jobs));
    var back := Restored(clock, read, {});
    CommentedLines(clock, now, content, jobs);
    TrimmedAreLines(out);
    TrimmedReturns(out);
    RestoredAreLines(clock, read, {});
    RestoredReturns(clock, read, {});
    SplitLinesOfJoin(back);
    TrimmedReturns(back);
    TrimmedAreLines(back);
    assert Returns([""]) == 0 && Returns([]) == 0;
    assert lines == (if Trimmed(back) == [""] then [] else Trimmed(back));
    NoLines(clock, now);
  }

  lemma NoLines(clock: Clock, now: Time)
    ensures Restored(clock, Rewritten(clock, now, [], []), {}) == [] && Restored(clock, [], {}) == []
  {
  }

  /** Comment(Comment(c)) == Comment(c) exactly when no wanted origin has more lines than jobs and no line of c
      ends in a carriage return. */
  lemma SecondCommentLaw(clock: Clock, now: Time, later: Time, content: string, jobs: seq<Job>)
    requires Fair(clock) && Importable(jobs)
    ensures var once := CommentText(clock, now, content, jobs);
            var lines := SplitLines(content);
            CommentText(clock, later, once, jobs) == once <==> NoneLeftOver(lines, jobs) && Settled(lines)
  {
    hide SplitLines, Rewritten, Join, Importable, NoneLeftOver, Settled, Fair;
    var lines := SplitLines(content);
    var out := Rewritten(clock, now, lines, Assigned(lines, jobs));
    var once := CommentText(clock, now, content, jobs);
    var read := SplitLines(once);
    var twice := Rewritten(clock, later, read, Assigned(read, jobs));
    CommentedLines(clock, now, content, jobs);
    CommentedLines(clock, later, once, jobs);
    SecondPassIsNoOpIff(clock, now, later, lines, jobs);
    if CommentText(clock, later, once, jobs) == once {
      JoinInjective(twice, out);
      SecondPassIsSettled(clock, later, out, read, jobs);
    }
  }

  lemma SecondPassIsSettled(clock: Clock, later: Time, out: seq<string>, read: seq<string>, jobs: seq<Job>)
    requires Lines(out) && read == (if Trimmed(out) == [""] then [] else Trimmed(out))
    requires Rewritten(clock, later, read, Assigned(read, jobs)) == out
    ensures Settled(out)
  {
    hide Rewritten, Settled;
    var names := Assigned(read, jobs);
    RewrittenGrows(clock, later, read, names);
    TrimmedAreLines(out);
    if read == [] {
      NothingRewritten(clock, later, names);
    } else {
      SameLengthSame(clock, later, read, names);
    }
  }

  lemma {:induction false} SameLengthSame(clock: Clock, now: Time, lines: seq<string>, names: seq<string>)
    requires |names| == |lines|
    ensures |Rewritten(clock, now, lines, names)| == |lines| ==> Rewritten(clock, now, lines, names) == lines
  {
    hide MarkerLine;
    if lines != [] {
      SameLengthSame(clock, now, lines[1..], names[1..]);
      RewrittenGrows(clock, now, lines[1..], names[1..]);
      assert lines == [lines[0]] + lines[1..];
    }
  }

  lemma {:induction false} MarkerIsWritten(clock: Clock, now: Time, lines: seq<string>, names: seq<string>, i: nat)
    requires |names| == |lines| && i < |lines| && names[i] != ""
    ensures MarkerLine(clock, now, names[i]) in Rewritten(clock, now, lines, names)
  {
    hide MarkerLine;
    if i > 0 {
      MarkerIsWritten(clock, now, lines[1..], names[1..], i - 1);
    }
  }

  /** A second Comment of its own output reports every job the first one cut, and that finds no further line, as
      already cut over. */
  lemma SecondCommentSaysAlreadyCut(clock: Clock, now: Time, content: string, jobs: seq<Job>, k: nat,
                                    resembling: Resembling, skips: seq<Skip>, at: seq<int>)
    requires Fair(clock) && Importable(jobs) && k < |jobs|
    requires jobs[k].name in Matched(Assigned(SplitLines(content), jobs))
    requires var read := SplitLines(CommentText(clock, now, content, jobs));
             jobs[k].name !in Matched(Assigned(read, jobs))
             && Explained(clock, read, jobs, Matched(Assigned(read, jobs)), resembling, skips, at)
    ensures Skip(jobs[k].name, AlreadyCut) in skips
  {
    hide SplitLines, Join, Importable, Fair, CommentText, ParseMarker, MarkerLine, Rewritten;
    var name := jobs[k].name;
    var lines := SplitLines(content);
    var names := Assigned(lines, jobs);
    var out := Rewritten(clock, now, lines, names);
    var i :| 0 <= i < |names| && names[i] == name;
    CommentedLines(clock, now, content, jobs);
    NamesAreUnbroken(lines, jobs);
    MarkerIsWritten(clock, now, lines, names, i);
    var j :| 0 <= j < |out| && out[j] == MarkerLine(clock, now, name);
    MarkerReturns(clock, now, name);
    MarkerFacts(clock, now, name);
    UnbrokenTrims(out[j]);
    assert Trimmed(out)[j] == out[j] != "";
    var read := SplitLines(CommentText(clock, now, content, jobs));
    assert read[j] == out[j];
    assert HasMarkerOf(clock, read, name);
    assert k in at;
  }

  lemma UnbrokenTrims(line: string)
    requires Unbroken(line)
    ensures Trim(line) == line
  {
    assert line != "" ==> line[|line| - 1] in line;
  }

  /** The scan leaves a line that ends in a carriage return. */
  predicate LeavesReturn(clock: Clock, lines: seq<string>, only: set<string>) {
    if lines == [] then false
    else if !Selected(clock, lines[0], only) then EndsInReturn(lines[0]) || LeavesReturn(clock, lines[1..], only)
    else if |lines| > 1 && Commented(lines[1]) then
      EndsInReturn(lines[1][1..]) || LeavesReturn(clock, lines[2..], only)
    else LeavesReturn(clock, lines[1..], only)
  }

  lemma {:induction false} LeavesReturnIff(clock: Clock, lines: seq<string>, only: set<string>)
    ensures Settled(Restored(clock, lines, only)) <==> !LeavesReturn(clock, lines, only)
  {
    hide Selected, EndsInReturn;
    if lines != [] {
      var n := if Selected(clock, lines[0], only) && |lines| > 1 && Commented(lines[1]) then 2 else 1;
      LeavesReturnIff(clock, lines[n..], only);
      var out := Restored(clock, lines, only);
      HeadFacts([out[0]], Restored(clock, lines[n..], only));
      assert out == [out[0]] + Restored(clock, lines[n..], only);
      BlankEndsInNothing();
    }
  }

  lemma BlankEndsInNothing()
    ensures !EndsInReturn("")
  {
  }

  /** The crontab is one marker this pass removes, alone or on a commented blank line. */
  predicate OnlyAMarker(clock: Clock, lines: seq<string>, only: set<string>) {
    (|lines| == 1 || (|lines| == 2 && lines[1] == "#")) && Selected(clock, lines[0], only)
  }

  lemma LeavesOneBlankIff(clock: Clock, lines: seq<string>, only: set<string>)
    requires lines != [""]
    ensures Restored(clock, lines, only) == [""] <==> OnlyAMarker(clock, lines, only)
  {
    hide IsMarker;
    BlankIsNotSelected(clock, only);
    if lines != [] {
      var n := if Selected(clock, lines[0], only) && |lines| > 1 && Commented(lines[1]) then 2 else 1;
      var rest := Restored(clock, lines[n..], only);
      var out := Restored(clock, lines, only);
      NothingRestoredIff(clock, lines[n..], only);
      assert out == [out[0]] + rest;
      assert out == [""] <==> out[0] == "" && rest == [];
      if |lines| > 1 {
        assert lines[1] == "#" <==> Commented(lines[1]) && lines[1][1..] == "";
      }
    }
  }

  lemma NothingRestoredIff(clock: Clock, lines: seq<string>, only: set<string>)
    ensures Restored(clock, lines, only) == [] <==> lines == []
  {
  }

  /** Uncomment(Uncomment(c)) == Uncomment(c) exactly when the first undo lays no selected marker bare, c is
      more than one removed marker, and no line the undo leaves ends in a carriage return. */
  lemma SecondUncommentLaw(clock: Clock, content: string, only: set<string>)
    ensures var once := UncommentText(clock, content, only);
            var lines := SplitLines(content);
            UncommentText(clock, once, only) == once
            <==> !ExposesMarker(clock, lines, only) && !OnlyAMarker(clock, lines, only)
                 && !LeavesReturn(clock, lines, only)
  {
    hide SplitLines, Restored, ExposesMarker, OnlyAMarker, LeavesReturn, Join, Settled;
    var lines := SplitLines(content);
    var out := Restored(clock, lines, only);
    SplitLinesAreLines(content);
    RestoredAreLines(clock, lines, only);
    SplitLinesOfJoin(out);
    TrimmedAreLines(out);
    TrimmedReturns(out);
    UndoTwiceIff(clock, lines, only);
    LeavesReturnIff(clock, lines, only);
    LeavesOneBlankIff(clock, lines, only);
    var read := SplitLines(Join(out));
    RestoredAreLines(clock, read, only);
    RestoredReturns(clock, read, only);
    NothingRestored(clock, only);
    if Join(Restored(clock, read, only)) == Join(out) {
      JoinInjective(Restored(clock, read, only), out);
      assert Returns([""]) == 0;
    }
  }

  // ----- a crontab that breaks each law

  const ENTRY := "0 3 * * * /opt/backup"

  lemma EntryIsImportable()
    ensures Importable([Job("backup", ENTRY)])
  {
    hide Fields, IsSpace;
    SpaceIsSpace();
    assert "0" + ENTRY[1..] == ENTRY && ENTRY[1..][0] == ' ';
    FirstFieldIs("0", ENTRY[1..]);
    assert Fields(ENTRY)[0] == "0" && |"0"| != |"pulseq:cutover"|;
    assert Fields(ENTRY)[0][0] != "#"[0];
    assert Unbroken("backup");
  }

  lemma ReadBack(lines: seq<string>)
    requires forall line <- lines :: Unbroken(line)
    requires lines != [""]
    ensures Lines(lines) && Settled(lines) && SplitLines(Join(lines)) == lines
  {
    hide SplitLines, Join;
    forall line <- lines ensures !EndsInReturn(line) {
      assert line != "" ==> line[|line| - 1] in line;
    }
    TrimmedAreLines(lines);
    SplitLinesOfJoin(lines);
  }

  lemma EntryIsUnbroken()
    ensures Unbroken(ENTRY) && Unbroken("#" + ENTRY) && ENTRY[|ENTRY| - 1] != '\n'
  {
  }

  /** A marker whose commented line was deleted, right above the job's entry: the first undo after a cutover
      spills the new marker's text into the crontab. */
  lemma OrphanBreaksUndo(clock: Clock, earlier: Time, now: Time)
    requires Fair(clock)
    ensures var jobs := [Job("backup", ENTRY)];
            var content := Join([MarkerLine(clock, earlier, "backup"), ENTRY]);
            UncommentText(clock, CommentText(clock, now, content, jobs), {}) != UncommentText(clock, content, {})
  {
    hide Fields, IsSpace, Restored, Rewritten, Importable, MarkerLine, Join, SplitLines, CommentText, UncommentText;
    var jobs := [Job("backup", ENTRY)];
    var marker := MarkerLine(clock, earlier, "backup");
    var lines := [marker, ENTRY];
    EntryIsUnbroken();
    MarkerReturns(clock, earlier, "backup");
    MarkerFacts(clock, earlier, "backup");
    ReadBack(lines);
    EntryIsImportable();
    AssignedFits(clock, lines, jobs);
    assert lines[..1] == [marker] && lines[..1][..0] == [];
    assert Assigned(lines, jobs)[0] == "";
    assert Assigned(lines, jobs)[1] == Pick(ENTRY, jobs, {}) == "backup";
    UndoLaw(clock, now, Join(lines), jobs);
  }

  /** A crontab that lacks its final newline comes back with one. */
  lemma MissingNewlineBreaksRoundTrip(clock: Clock, now: Time)
    requires Fair(clock)
    ensures UncommentText(clock, CommentText(clock, now, ENTRY, [Job("backup", ENTRY)]), {}) != ENTRY
  {
    hide Importable, CommentText, UncommentText;
    EntryIsUnbroken();
    EntryIsImportable();
    RoundTripLaw(clock, now, ENTRY, [Job("backup", ENTRY)]);
  }

  /** A crontab already cut over comes back as it was before that cutover. */
  lemma MarkerBreaksRoundTrip(clock: Clock, earlier: Time, now: Time)
    requires Fair(clock)
    ensures var content := Join([MarkerLine(clock, earlier, "backup"), "#" + ENTRY]);
            UncommentText(clock, CommentText(clock, now, content, [Job("backup", ENTRY)]), {}) != content
  {
    hide Importable, CommentText, UncommentText, MarkerLine, IsMarker, Join, SplitLines;
    var lines := [MarkerLine(clock, earlier, "backup"), "#" + ENTRY];
    EntryIsUnbroken();
    MarkerReturns(clock, earlier, "backup");
    MarkerFacts(clock, earlier, "backup");
    EntryIsImportable();
    ReadBack(lines);
    assert lines[0] in lines;
    RoundTripLaw(clock, now, Join(lines), [Job("backup", ENTRY)]);
  }

  /** One job and its entry twice: the second pass cuts the line the first one left. */
  lemma DuplicateBreaksSecondComment(clock: Clock, now: Time, later: Time)
    requires Fair(clock)
    ensures var jobs := [Job("backup", ENTRY)];
            var once := CommentText(clock, now, Join([ENTRY, ENTRY]), jobs);
            CommentText(clock, later, once, jobs) != once
  {
    hide Fields, IsSpace, Importable, CommentText, Join, SplitLines;
    var jobs := [Job("backup", ENTRY)];
    var lines := [ENTRY, ENTRY];
    EntryIsUnbroken();
    EntryIsImportable();
    ReadBack(lines);
    LinesWithOne(ENTRY, Fields(ENTRY));
    LinesWithConcat([ENTRY], [ENTRY], Fields(ENTRY));
    assert [ENTRY] + [ENTRY] == lines;
    assert jobs[1..] == [] && jobs[0] in jobs;
    assert JobsWith(jobs, Fields(jobs[0].origin)) == 1 < LinesWith(lines, Fields(jobs[0].origin));
    assert !NoneLeftOver(lines, jobs);
    SecondCommentLaw(clock, now, later, Join(lines), jobs);
  }

  /** A marker commented out by hand below another one: the first undo lays it bare, the second removes it. */
  lemma NestedMarkerBreaksSecondUncomment(clock: Clock, earlier: Time)
    requires Fair(clock)
    ensures var marker := MarkerLine(clock, earlier, "backup");
            var once := UncommentText(clock, Join([marker, "#" + marker]), {});
            UncommentText(clock, once, {}) != once
  {
    hide MarkerLine, IsMarker, Join, SplitLines, UncommentText;
    var marker := MarkerLine(clock, earlier, "backup");
    var lines := [marker, "#" + marker];
    MarkerReturns(clock, earlier, "backup");
    MarkerFacts(clock, earlier, "backup");
    HashIsUnbroken(marker);
    ReadBack(lines);
    assert ("#" + marker)[1..] == marker;
    HashIsCommented(marker);
    assert ExposesMarker(clock, lines, {});
    SecondUncommentLaw(clock, Join(lines), {});
  }

  lemma HashIsUnbroken(line: string)
    requires Unbroken(line)
    ensures Unbroken("#" + line)
  {
  }

  /** A crontab of one orphan marker: the first undo leaves a blank line, and the second none. */
  lemma LoneMarkerBreaksSecondUncomment(clock: Clock, earlier: Time)
    requires Fair(clock)
    ensures var once := UncommentText(clock, Join([MarkerLine(clock, earlier, "backup")]), {});
            once == "\n" && UncommentText(clock, once, {}) == ""
  {
    hide MarkerLine, IsMarker, SplitLines;
    var lines := [MarkerLine(clock, earlier, "backup")];
    MarkerReturns(clock, earlier, "backup");
    MarkerFacts(clock, earlier, "backup");
    ReadBack(lines);
    assert Restored(clock, lines, {}) == [""] + Restored(clock, [], {});
    JoinOne("");
    SplitLinesOfJoin([""]);
    assert Trimmed([""]) == [""];
  }
}
