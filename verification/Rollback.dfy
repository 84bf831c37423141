/** What undoing a cutover gives back. The header of internal/cutover/cutover.go promises three laws for every
    crontab; each is proved here with the exact condition under which the code keeps it. */
module Rollback {
  import opened Options
  import opened Text
  import opened Crontab
  import opened Cutover
  import opened Matching

  predicate MarkerFree(clock: Clock, lines: seq<string>) {
    forall line <- lines :: !IsMarker(clock, line)
  }

  /** The lines about to be cut over are no comments, and behind a '#' they are no markers. */
  predicate Fits(clock: Clock, lines: seq<string>, names: seq<string>) {
    |names| == |lines|
    && forall i :: 0 <= i < |lines| && names[i] != "" ==> !Commented(lines[i]) && !IsMarker(clock, "#" + lines[i])
  }

  /** A marker sits on its commented line, which is no marker either way. */
  predicate SitsOnItsLine(clock: Clock, lines: seq<string>, i: nat)
    requires i < |lines|
  {
    IsMarker(clock, lines[i]) ==>
      i + 1 < |lines| && Commented(lines[i + 1])
      && !IsMarker(clock, lines[i + 1]) && !IsMarker(clock, lines[i + 1][1..])
  }

  predicate WellPaired(clock: Clock, lines: seq<string>) {
    forall i :: 0 <= i < |lines| ==> SitsOnItsLine(clock, lines, i)
  }

  lemma WellPairedBelow(clock: Clock, lines: seq<string>)
    requires WellPaired(clock, lines) && lines != []
    ensures WellPaired(clock, lines[1..]) && SitsOnItsLine(clock, lines, 0)
    ensures IsMarker(clock, lines[0]) ==> |lines| > 1 && WellPaired(clock, lines[2..])
  {
    hide IsMarker, Commented;
    forall i | 0 <= i < |lines| - 1 ensures SitsOnItsLine(clock, lines[1..], i) {
      assert SitsOnItsLine(clock, lines, i + 1);
    }
    forall i | 0 <= i < |lines| - 2 ensures SitsOnItsLine(clock, lines[2..], i) {
      assert SitsOnItsLine(clock, lines, i + 2);
    }
  }

  lemma WellPairedAbove(clock: Clock, line: string, rest: seq<string>)
    requires WellPaired(clock, rest) && SitsOnItsLine(clock, [line] + rest, 0)
    ensures WellPaired(clock, [line] + rest)
  {
    hide IsMarker, Commented;
    var lines := [line] + rest;
    forall i | 0 < i < |lines| ensures SitsOnItsLine(clock, lines, i) {
      assert SitsOnItsLine(clock, rest, i - 1);
    }
  }

  lemma AssignedFits(clock: Clock, lines: seq<string>, jobs: seq<Job>)
    requires Importable(jobs)
    ensures Fits(clock, lines, Assigned(lines, jobs))
  {
    hide Fields, IsSpace, Assigned, Importable, LineEqualsOrigin, IsMarker;
    var names := Assigned(lines, jobs);
    AssignedIsMatching(lines, jobs);
    forall i | 0 <= i < |lines| && names[i] != ""
      ensures !Commented(lines[i]) && !IsMarker(clock, "#" + lines[i])
    {
      var _ := OwnerOf(jobs, names[i], lines[i]);
      if Commented(lines[i]) {
        CommentedFields(lines[i]);
      }
      if IsMarker(clock, "#" + lines[i]) {
        CommentedMarker(clock, lines[i]);
      }
    }
  }

  lemma MarkerFacts(clock: Clock, now: Time, job: string)
    requires Fair(clock)
    ensures IsMarker(clock, MarkerLine(clock, now, job)) && Commented(MarkerLine(clock, now, job))
    ensures ParseMarker(clock, MarkerLine(clock, now, job)).value == Marker(now, job)
    ensures MarkerLine(clock, now, job)[1..] != "" && MarkerLine(clock, now, job)[1] == ' '
  {
    MarkerRoundTrip(clock, now, job);
  }

  /** Lines without a '#' in front are copied by every rollback. */
  lemma PlainIsNoMarker(clock: Clock, line: string)
    requires !Commented(line)
    ensures !IsMarker(clock, line)
  {
  }

  lemma MarkerIsCommented(clock: Clock, line: string)
    requires IsMarker(clock, line)
    ensures line != "" && line[0] == '#'
  {
  }

  lemma BlankIsNotSelected(clock: Clock, only: set<string>)
    ensures !Selected(clock, "", only)
  {
  }

  lemma HashIsCommented(line: string)
    ensures Commented("#" + line)
  {
  }

  lemma NothingRestored(clock: Clock, only: set<string>)
    ensures Restored(clock, [], only) == []
  {
  }

  lemma RewriteHead(clock: Clock, now: Time, lines: seq<string>, names: seq<string>)
    requires |names| == |lines| > 0
    ensures var rest := Rewritten(clock, now, lines[1..], names[1..]);
            Rewritten(clock, now, lines, names)
            == (if names[0] == "" then [lines[0]] else [MarkerLine(clock, now, names[0]), "#" + lines[0]]) + rest
  {
  }

  /** A line just cut over is restored on the spot. */
  lemma RestoreCut(clock: Clock, now: Time, line: string, name: string, rest: seq<string>)
    requires Fair(clock)
    ensures Restored(clock, [MarkerLine(clock, now, name), "#" + line] + rest, {}) == [line] + Restored(clock, rest, {})
  {
    hide MarkerLine, IsMarker;
    MarkerFacts(clock, now, name);
    var lines := [MarkerLine(clock, now, name), "#" + line] + rest;
    assert lines[2..] == rest && ("#" + line)[1..] == line;
  }

  lemma RestorePlain(clock: Clock, line: string, rest: seq<string>)
    requires !IsMarker(clock, line)
    ensures Restored(clock, [line] + rest, {}) == [line] + Restored(clock, rest, {})
  {
  }

  lemma SameBelow(line: string, a: seq<string>, b: seq<string>)
    ensures [line] + a == [line] + b <==> a == b
  {
    assert ([line] + a)[1..] == a && ([line] + b)[1..] == b;
  }

  // ----- Uncomment(Comment(c)) == Uncomment(c)

  /** Somewhere the scan meets a marker with nothing to restore, right above a line about to be cut over. */
  predicate OrphanAboveCut(clock: Clock, lines: seq<string>, names: seq<string>)
    requires |names| == |lines|
  {
    if lines == [] then false
    else if !IsMarker(clock, lines[0]) then OrphanAboveCut(clock, lines[1..], names[1..])
    else
      |lines| > 1
      && (names[1] != ""
          || (if Commented(lines[1]) then OrphanAboveCut(clock, lines[2..], names[2..])
              else OrphanAboveCut(clock, lines[1..], names[1..])))
  }

  /** Undoing a cutover and undoing without one give the same lines exactly when no such orphan exists. */
  lemma {:induction false} UndoIff(clock: Clock, now: Time, lines: seq<string>, names: seq<string>)
    requires Fair(clock) && Fits(clock, lines, names)
    ensures Restored(clock, Rewritten(clock, now, lines, names), {}) == Restored(clock, lines, {})
       <==> !OrphanAboveCut(clock, lines, names)
    decreases |lines|, 1
  {
    hide MarkerLine, IsMarker, Rewritten, Fair;
    if lines == [] {
      NothingRewritten(clock, now, names);
    } else {
      RewriteHead(clock, now, lines, names);
      var rest := Rewritten(clock, now, lines[1..], names[1..]);
      if names[0] != "" {
        RestoreCut(clock, now, lines[0], names[0], rest);
        PlainIsNoMarker(clock, lines[0]);
        SameBelow(lines[0], Restored(clock, rest, {}), Restored(clock, lines[1..], {}));
        UndoIff(clock, now, lines[1..], names[1..]);
      } else if !IsMarker(clock, lines[0]) {
        RestorePlain(clock, lines[0], rest);
        SameBelow(lines[0], Restored(clock, rest, {}), Restored(clock, lines[1..], {}));
        UndoIff(clock, now, lines[1..], names[1..]);
      } else {
        UndoBelowMarker(clock, now, lines, names);
      }
    }
  }

  lemma {:induction false} UndoBelowMarker(clock: Clock, now: Time, lines: seq<string>, names: seq<string>)
    requires Fair(clock) && Fits(clock, lines, names) && lines != [] && names[0] == "" && IsMarker(clock, lines[0])
    ensures Restored(clock, Rewritten(clock, now, lines, names), {}) == Restored(clock, lines, {})
       <==> !OrphanAboveCut(clock, lines, names)
    decreases |lines|, 0
  {
    hide MarkerLine, IsMarker, Rewritten, Fair;
    RewriteHead(clock, now, lines, names);
    var rest := Rewritten(clock, now, lines[1..], names[1..]);
    var d := [lines[0]] + rest;
    assert d[1..] == rest;
    if |lines| == 1 {
      NothingRewritten(clock, now, names[1..]);
    } else {
      RewriteHead(clock, now, lines[1..], names[1..]);
      if names[1] != "" {
        MarkerFacts(clock, now, names[1]);
        assert Restored(clock, d, {})[0] != "";
      } else if Commented(lines[1]) {
        assert d[2..] == Rewritten(clock, now, lines[2..], names[2..]);
        SameBelow(lines[1][1..], Restored(clock, d[2..], {}), Restored(clock, lines[2..], {}));
        UndoIff(clock, now, lines[2..], names[2..]);
      } else {
        SameBelow("", Restored(clock, rest, {}), Restored(clock, lines[1..], {}));
        UndoIff(clock, now, lines[1..], names[1..]);
      }
    }
  }

  /** In a well-paired crontab no orphan exists, so the law holds there. */
  lemma {:induction false} WellPairedHasNoOrphan(clock: Clock, lines: seq<string>, names: seq<string>)
    requires WellPaired(clock, lines) && Fits(clock, lines, names)
    ensures !OrphanAboveCut(clock, lines, names)
  {
    hide IsMarker, WellPaired;
    if lines != [] {
      WellPairedBelow(clock, lines);
      if IsMarker(clock, lines[0]) {
        WellPairedHasNoOrphan(clock, lines[2..], names[2..]);
      } else {
        WellPairedHasNoOrphan(clock, lines[1..], names[1..]);
      }
    }
  }

  // ----- Uncomment(Comment(c)) == c

  predicate NoneSelected(clock: Clock, lines: seq<string>, only: set<string>) {
    forall line <- lines :: !Selected(clock, line, only)
  }

  lemma {:induction false} RestoredShrinks(clock: Clock, lines: seq<string>, only: set<string>)
    ensures |Restored(clock, lines, only)| <= |lines|
    ensures Restored(clock, lines, only) == lines <==> NoneSelected(clock, lines, only)
  {
    hide Selected;
    if lines != [] {
      assert lines == [lines[0]] + lines[1..];
      RestoredShrinks(clock, lines[1..], only);
      if !Selected(clock, lines[0], only) {
        assert Restored(clock, lines, only)[1..] == Restored(clock, lines[1..], only);
      } else if |lines| > 1 && Commented(lines[1]) {
        RestoredShrinks(clock, lines[2..], only);
      } else {
        BlankIsNotSelected(clock, only);
        assert Restored(clock, lines, only)[0] == "";
      }
    }
  }

  /** Scanning any line above a rewrite gives at most one line more than were rewritten. */
  lemma {:induction false} UndoShrinks(clock: Clock, now: Time, head: string, lines: seq<string>, names: seq<string>)
    requires Fair(clock) && |names| == |lines|
    ensures |Restored(clock, [head] + Rewritten(clock, now, lines, names), {})| <= 1 + |lines|
    ensures |Restored(clock, Rewritten(clock, now, lines, names), {})| <= |lines|
    decreases |lines|
  {
    hide MarkerLine, IsMarker, Rewritten, Fair;
    var below := Rewritten(clock, now, lines, names);
    var d := [head] + below;
    assert d[1..] == below;
    if lines == [] {
      NothingRewritten(clock, now, names);
    } else {
      RewriteHead(clock, now, lines, names);
      var rest := Rewritten(clock, now, lines[1..], names[1..]);
      if names[0] != "" {
        RestoreCut(clock, now, lines[0], names[0], rest);
        UndoShrinks(clock, now, "#" + lines[0], lines[1..], names[1..]);
        assert d[2..] == ["#" + lines[0]] + rest;
      } else {
        UndoShrinks(clock, now, lines[0], lines[1..], names[1..]);
        assert d[2..] == rest;
      }
    }
  }

  /** A cutover and its undo give a crontab back line for line exactly when it held no marker before. */
  lemma {:induction false} UndoGivesBackIff(clock: Clock, now: Time, lines: seq<string>, names: seq<string>)
    requires Fair(clock) && Fits(clock, lines, names)
    ensures Restored(clock, Rewritten(clock, now, lines, names), {}) == lines <==> MarkerFree(clock, lines)
  {
    hide MarkerLine, IsMarker, Rewritten, Fair, Restored;
    if lines == [] {
      NothingRewritten(clock, now, names);
      NothingRestored(clock, {});
    } else {
      RewriteHead(clock, now, lines, names);
      var rest := Rewritten(clock, now, lines[1..], names[1..]);
      var back := Restored(clock, rest, {});
      assert lines == [lines[0]] + lines[1..];
      if names[0] != "" {
        PlainIsNoMarker(clock, lines[0]);
      }
      if IsMarker(clock, lines[0]) {
        MarkerIsNotGivenBack(clock, now, lines, names);
      } else {
        if names[0] != "" {
          RestoreCut(clock, now, lines[0], names[0], rest);
        } else {
          RestorePlain(clock, lines[0], rest);
        }
        assert ([lines[0]] + back)[1..] == back;
        UndoGivesBackIff(clock, now, lines[1..], names[1..]);
      }
    }
  }

  lemma MarkerIsNotGivenBack(clock: Clock, now: Time, lines: seq<string>, names: seq<string>)
    requires Fair(clock) && Fits(clock, lines, names) && lines != [] && names[0] == "" && IsMarker(clock, lines[0])
    ensures Restored(clock, Rewritten(clock, now, lines, names), {}) != lines
  {
    hide MarkerLine, IsMarker, Rewritten, Fair;
    RewriteHead(clock, now, lines, names);
    var rest := Rewritten(clock, now, lines[1..], names[1..]);
    var d := [lines[0]] + rest;
    assert d[1..] == rest;
    MarkerIsCommented(clock, lines[0]);
    if |lines| == 1 {
      NothingRewritten(clock, now, names[1..]);
    } else {
      RewriteHead(clock, now, lines[1..], names[1..]);
      if names[1] != "" {
        MarkerFacts(clock, now, names[1]);
        assert Restored(clock, d, {})[0][0] == ' ';
      } else if Commented(lines[1]) {
        assert d[2..] == Rewritten(clock, now, lines[2..], names[2..]);
        UndoShrinks(clock, now, "", lines[2..], names[2..]);
      } else {
        assert Restored(clock, d, {})[0] == "";
      }
    }
  }

  // ----- Uncomment(Uncomment(c)) == Uncomment(c)

  /** Somewhere the scan strips a '#' and lays bare a marker it would have selected. */
  predicate ExposesMarker(clock: Clock, lines: seq<string>, only: set<string>) {
    if lines == [] then false
    else if Selected(clock, lines[0], only) && |lines| > 1 && Commented(lines[1]) then
      Selected(clock, lines[1][1..], only) || ExposesMarker(clock, lines[2..], only)
    else ExposesMarker(clock, lines[1..], only)
  }

  lemma {:induction false} ExposesIff(clock: Clock, lines: seq<string>, only: set<string>)
    ensures NoneSelected(clock, Restored(clock, lines, only), only) <==> !ExposesMarker(clock, lines, only)
  {
    hide Selected;
    if lines != [] {
      var n := if Selected(clock, lines[0], only) && |lines| > 1 && Commented(lines[1]) then 2 else 1;
      var back := Restored(clock, lines[n..], only);
      ExposesIff(clock, lines[n..], only);
      var out := Restored(clock, lines, only);
      assert out == [out[0]] + back;
      assert NoneSelected(clock, out, only) <==> !Selected(clock, out[0], only) && NoneSelected(clock, back, only);
      if Selected(clock, lines[0], only) && n == 1 {
        BlankIsNotSelected(clock, only);
      }
    }
  }

  /** Undoing twice is undoing once exactly when the first undo lays no marker bare. */
  lemma UndoTwiceIff(clock: Clock, lines: seq<string>, only: set<string>)
    ensures var once := Restored(clock, lines, only);
            Restored(clock, once, only) == once <==> !ExposesMarker(clock, lines, only)
  {
    hide Restored, Selected, ExposesMarker, NoneSelected;
    RestoredShrinks(clock, Restored(clock, lines, only), only);
    ExposesIff(clock, lines, only);
  }

  lemma {:induction false} WellPairedExposesNone(clock: Clock, lines: seq<string>, only: set<string>)
    requires WellPaired(clock, lines)
    ensures !ExposesMarker(clock, lines, only)
  {
    hide IsMarker, WellPaired;
    if lines != [] {
      WellPairedBelow(clock, lines);
      if Selected(clock, lines[0], only) {
        WellPairedExposesNone(clock, lines[2..], only);
      } else {
        WellPairedExposesNone(clock, lines[1..], only);
      }
    }
  }

  // ----- partial rollbacks

  /** Two partial rollbacks, one after the other, are one rollback of both lists. */
  lemma {:induction false} RollbacksCompose(clock: Clock, lines: seq<string>, a: set<string>, b: set<string>)
    requires WellPaired(clock, lines) && a != {} && b != {}
    ensures Restored(clock, Restored(clock, lines, a), b) == Restored(clock, lines, a + b)
  {
    hide IsMarker, WellPaired;
    if lines != [] {
      WellPairedBelow(clock, lines);
      if !IsMarker(clock, lines[0]) {
        RollbacksCompose(clock, lines[1..], a, b);
      } else {
        RollbacksCompose(clock, lines[2..], a, b);
        var rest := Restored(clock, lines[2..], a);
        if Selected(clock, lines[0], a) {
          assert Restored(clock, lines, a) == [lines[1][1..]] + rest;
          assert ([lines[1][1..]] + rest)[1..] == rest;
        } else {
          KeptPair(clock, lines, a);
          assert ([lines[0], lines[1]] + rest)[2..] == rest;
          if !Selected(clock, lines[0], b) {
            KeptPair(clock, lines, a + b);
            KeptPair(clock, [lines[0], lines[1]] + rest, b);
          }
        }
      }
    }
  }

  /** A marker that stays keeps the line beneath it. */
  lemma KeptPair(clock: Clock, lines: seq<string>, only: set<string>)
    requires |lines| > 1 && !Selected(clock, lines[0], only) && !IsMarker(clock, lines[1])
    ensures Restored(clock, lines, only) == [lines[0], lines[1]] + Restored(clock, lines[2..], only)
  {
    hide IsMarker;
  }

  /** Each marker with the line beneath it, top to bottom. */
  function Pairs(clock: Clock, lines: seq<string>): seq<(string, string)> {
    if |lines| < 2 then []
    else (if IsMarker(clock, lines[0]) then [(lines[0], lines[1])] else []) + Pairs(clock, lines[1..])
  }

  function Unselected(clock: Clock, pairs: seq<(string, string)>, only: set<string>): seq<(string, string)> {
    if pairs == [] then []
    else (if Selected(clock, pairs[0].0, only) then [] else [pairs[0]]) + Unselected(clock, pairs[1..], only)
  }

  /** A partial rollback leaves exactly the other jobs' markers, each still on its line and well paired. */
  lemma {:induction false} PartialRollbackKeepsPairs(clock: Clock, lines: seq<string>, only: set<string>)
    requires WellPaired(clock, lines)
    ensures var out := Restored(clock, lines, only);
            WellPaired(clock, out) && Pairs(clock, out) == Unselected(clock, Pairs(clock, lines), only)
  {
    hide IsMarker, WellPaired, Pairs;
    if lines == [] {
      NoPairs(clock);
    } else {
      WellPairedBelow(clock, lines);
      if !IsMarker(clock, lines[0]) {
        PartialRollbackKeepsPairs(clock, lines[1..], only);
        PlainAbove(clock, lines[0], Restored(clock, lines[1..], only));
        PlainAbove(clock, lines[0], lines[1..]);
        assert [lines[0]] + lines[1..] == lines;
      } else {
        PartialRollbackKeepsPairs(clock, lines[2..], only);
        var rest := Restored(clock, lines[2..], only);
        PairAbove(clock, lines[0], lines[1], lines[2..]);
        assert [lines[0], lines[1]] + lines[2..] == lines;
        if Selected(clock, lines[0], only) {
          PlainAbove(clock, lines[1][1..], rest);
        } else {
          KeptPair(clock, lines, only);
          PairAbove(clock, lines[0], lines[1], rest);
        }
      }
    }
  }

  lemma NoPairs(clock: Clock)
    ensures Pairs(clock, []) == [] && WellPaired(clock, [])
  {
  }

  lemma PlainAbove(clock: Clock, line: string, rest: seq<string>)
    requires !IsMarker(clock, line)
    ensures Pairs(clock, [line] + rest) == Pairs(clock, rest)
    ensures WellPaired(clock, rest) ==> WellPaired(clock, [line] + rest)
  {
    hide IsMarker, WellPaired;
    assert ([line] + rest)[1..] == rest;
    if WellPaired(clock, rest) {
      WellPairedAbove(clock, line, rest);
    }
  }

  lemma PairAbove(clock: Clock, marker: string, line: string, rest: seq<string>)
    requires IsMarker(clock, marker) && Commented(line) && !IsMarker(clock, line) && !IsMarker(clock, line[1..])
    ensures Pairs(clock, [marker, line] + rest) == [(marker, line)] + Pairs(clock, rest)
    ensures WellPaired(clock, rest) ==> WellPaired(clock, [marker, line] + rest)
  {
    hide IsMarker, WellPaired;
    PlainAbove(clock, line, rest);
    assert [marker, line] + rest == [marker] + ([line] + rest);
    assert ([marker] + ([line] + rest))[1..] == [line] + rest;
    if WellPaired(clock, rest) {
      WellPairedAbove(clock, marker, [line] + rest);
    }
  }

  /** Comment keeps a crontab well paired. */
  lemma {:induction false} CommentKeepsPairs(clock: Clock, now: Time, lines: seq<string>, names: seq<string>)
    requires Fair(clock) && WellPaired(clock, lines) && Fits(clock, lines, names)
    ensures WellPaired(clock, Rewritten(clock, now, lines, names))
  {
    hide IsMarker, MarkerLine, Fair, Rewritten, Commented, WellPaired;
    if lines == [] {
      NothingRewritten(clock, now, names);
    } else {
      WellPairedBelow(clock, lines);
      RewriteHead(clock, now, lines, names);
      var rest := Rewritten(clock, now, lines[1..], names[1..]);
      if names[0] != "" {
        CommentKeepsPairs(clock, now, lines[1..], names[1..]);
        MarkerFacts(clock, now, names[0]);
        PlainIsNoMarker(clock, lines[0]);
        assert ("#" + lines[0])[1..] == lines[0];
        HashIsCommented(lines[0]);
        PairAbove(clock, MarkerLine(clock, now, names[0]), "#" + lines[0], rest);
      } else if !IsMarker(clock, lines[0]) {
        CommentKeepsPairs(clock, now, lines[1..], names[1..]);
        PlainAbove(clock, lines[0], rest);
      } else {
        CommentKeepsPairs(clock, now, lines[2..], names[2..]);
        RewriteHead(clock, now, lines[1..], names[1..]);
        var below := Rewritten(clock, now, lines[2..], names[2..]);
        assert lines[1..][1..] == lines[2..] && names[1..][1..] == names[2..];
        assert [lines[0]] + ([lines[1]] + below) == [lines[0], lines[1]] + below;
        PairAbove(clock, lines[0], lines[1], below);
      }
    }
  }

  /** The assignment with some jobs taken out. */
  function Without(names: seq<string>, jobs: set<string>): seq<string> {
    seq(|names|, i requires 0 <= i < |names| => if names[i] in jobs then "" else names[i])
  }

  /** Rolling some jobs back leaves the crontab as if they had never been cut over. */
  lemma {:induction false} RollbackUndoesItsJobs(clock: Clock, now: Time, lines: seq<string>, names: seq<string>,
                                                 only: set<string>)
    requires Fair(clock) && Fits(clock, lines, names) && MarkerFree(clock, lines) && only != {}
    ensures Restored(clock, Rewritten(clock, now, lines, names), only)
         == Rewritten(clock, now, lines, Without(names, only))
  {
    hide IsMarker, MarkerLine, Fair, Rewritten;
    if lines == [] {
      NothingRewritten(clock, now, names);
      NothingRewritten(clock, now, Without(names, only));
    } else {
      RewriteHead(clock, now, lines, names);
      RewriteHead(clock, now, lines, Without(names, only));
      assert Without(names, only)[1..] == Without(names[1..], only);
      RollbackUndoesItsJobs(clock, now, lines[1..], names[1..], only);
      var rest := Rewritten(clock, now, lines[1..], names[1..]);
      var d := Rewritten(clock, now, lines, names);
      if names[0] == "" {
        assert d[1..] == rest;
      } else {
        MarkerFacts(clock, now, names[0]);
        assert d[2..] == rest && ("#" + lines[0])[1..] == lines[0];
        if names[0] !in only {
          KeptPair(clock, d, only);
        }
      }
    }
  }

  // ----- what the rollback reports

  /** Changes as the rollback numbers them: each marker above shifts its line by one. */
  function Shifted(changes: seq<Change>, above: nat): seq<Change> {
    if changes == [] then []
    else [changes[0].(number := changes[0].number + above)] + Shifted(changes[1..], above + 1)
  }

  /** The rollback reports the very changes the cutover made: same jobs, instants, lines and markers. */
  lemma {:induction false} RollbackReportsTheCutover(clock: Clock, now: Time, lines: seq<string>, names: seq<string>,
                                                     at: nat, above: nat)
    requires Fair(clock) && MarkerFree(clock, lines) && |names| == |lines|
    ensures UncommentChanges(clock, Rewritten(clock, now, lines, names), {}, at + above)
         == Shifted(CommentChanges(clock, now, lines, names, at), above)
  {
    hide IsMarker, MarkerLine, Fair, Rewritten;
    if lines == [] {
      NothingRewritten(clock, now, names);
    } else {
      RewriteHead(clock, now, lines, names);
      var rest := Rewritten(clock, now, lines[1..], names[1..]);
      var d := Rewritten(clock, now, lines, names);
      if names[0] == "" {
        assert d[1..] == rest && d[0] == lines[0] && lines[0] in lines;
        RollbackReportsTheCutover(clock, now, lines[1..], names[1..], at + 1, above);
        assert UncommentChanges(clock, d, {}, at + above) == UncommentChanges(clock, rest, {}, at + above + 1);
        assert CommentChanges(clock, now, lines, names, at)
            == CommentChanges(clock, now, lines[1..], names[1..], at + 1);
      } else {
        MarkerFacts(clock, now, names[0]);
        assert d[2..] == rest && ("#" + lines[0])[1..] == lines[0];
        RollbackReportsTheCutover(clock, now, lines[1..], names[1..], at + 1, above + 1);
      }
    }
  }
}
