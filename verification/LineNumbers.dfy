/** The line numbers both passes of internal/cutover/cutover.go report. The comment on Change promises positions
    with markers not counted; the code counts every line. */
module LineNumbers {
  import opened Options
  import opened Text
  import opened Crontab
  import opened Cutover
  import opened Matching
  import opened Rollback
  import opened CutoverLaws

  function Unmarked(clock: Clock, lines: seq<string>): nat {
    if lines == [] then 0
    else (if IsMarker(clock, lines[0]) then 0 else 1) + Unmarked(clock, lines[1..])
  }

  /** The one-based position of line i when markers are not counted. */
  function Position(clock: Clock, lines: seq<string>, i: nat): nat
    requires i < |lines|
  {
    1 + Unmarked(clock, lines[..i])
  }

  /** The reported number is the documented position of the line it points at. */
  predicate AsDocumented(clock: Clock, lines: seq<string>, change: Change) {
    1 <= change.number <= |lines| && change.number == Position(clock, lines, change.number - 1)
  }

  lemma {:induction false} UnmarkedIsAllIff(clock: Clock, lines: seq<string>)
    ensures Unmarked(clock, lines) <= |lines|
    ensures Unmarked(clock, lines) == |lines| <==> MarkerFree(clock, lines)
  {
    hide IsMarker;
    if lines != [] {
      assert lines == [lines[0]] + lines[1..];
      UnmarkedIsAllIff(clock, lines[1..]);
    }
  }

  predicate NoMarkerAbove(clock: Clock, lines: seq<string>, j: nat)
    requires j <= |lines|
  {
    forall i :: 0 <= i < j ==> !IsMarker(clock, lines[i])
  }

  lemma PositionIffNoneAbove(clock: Clock, lines: seq<string>, j: nat)
    requires j < |lines|
    ensures Position(clock, lines, j) == j + 1 <==> NoMarkerAbove(clock, lines, j)
  {
    hide IsMarker;
    UnmarkedIsAllIff(clock, lines[..j]);
    if MarkerFree(clock, lines[..j]) {
      forall i | 0 <= i < j ensures !IsMarker(clock, lines[i]) {
        assert lines[..j][i] == lines[i];
      }
    }
  }

  /** A marker and the line beneath it have the same documented position. */
  lemma PositionPastMarker(clock: Clock, lines: seq<string>, i: nat)
    requires i + 1 < |lines| && IsMarker(clock, lines[i])
    ensures Position(clock, lines, i + 1) == Position(clock, lines, i)
  {
    hide IsMarker;
    assert lines[..i + 1] == lines[..i] + [lines[i]];
    UnmarkedConcat(clock, lines[..i], [lines[i]]);
    assert [lines[i]][1..] == [];
  }

  lemma {:induction false} UnmarkedConcat(clock: Clock, a: seq<string>, b: seq<string>)
    ensures Unmarked(clock, a + b) == Unmarked(clock, a) + Unmarked(clock, b)
  {
    hide IsMarker;
    if a == [] {
      assert a + b == b;
    } else {
      assert (a + b)[1..] == a[1..] + b;
      UnmarkedConcat(clock, a[1..], b);
    }
  }

  // ----- Comment

  function CutChange(clock: Clock, now: Time, lines: seq<string>, names: seq<string>, at: nat, i: nat): Change
    requires |names| == |lines| && i < |lines|
  {
    Change(names[i], at + i + 1, now, lines[i], MarkerLine(clock, now, names[i]))
  }

  predicate IsCut(clock: Clock, now: Time, lines: seq<string>, names: seq<string>, at: nat, change: Change)
    requires |names| == |lines|
  {
    exists i :: 0 <= i < |lines| && names[i] != "" && change == CutChange(clock, now, lines, names, at, i)
  }

  /** The changes are those of the lines cut over, each numbered by its place among all lines. */
  lemma {:induction false} CommentChangesAre(clock: Clock, now: Time, lines: seq<string>, names: seq<string>, at: nat,
                                             change: Change)
    requires |names| == |lines|
    ensures change in CommentChanges(clock, now, lines, names, at) <==> IsCut(clock, now, lines, names, at, change)
  {
    hide MarkerLine;
    if lines != [] {
      CommentChangesAre(clock, now, lines[1..], names[1..], at + 1, change);
      if IsCut(clock, now, lines[1..], names[1..], at + 1, change) {
        var i :| 0 <= i < |lines[1..]| && names[1..][i] != ""
                 && change == CutChange(clock, now, lines[1..], names[1..], at + 1, i);
        assert names[i + 1] != "" && change == CutChange(clock, now, lines, names, at, i + 1);
      }
      if i :| 1 <= i < |lines| && names[i] != "" && change == CutChange(clock, now, lines, names, at, i) {
        assert names[1..][i - 1] != "" && change == CutChange(clock, now, lines[1..], names[1..], at + 1, i - 1);
      }
      assert names[0] != "" ==>
          (change == CutChange(clock, now, lines, names, at, 0)
           ==> IsCut(clock, now, lines, names, at, change));
    }
  }

  /** Comment numbers every line as documented exactly when no marker stands above a line it cuts over. */
  lemma CommentNumbersIff(clock: Clock, now: Time, lines: seq<string>, names: seq<string>)
    requires |names| == |lines|
    ensures (forall change <- CommentChanges(clock, now, lines, names, 0) :: AsDocumented(clock, lines, change))
       <==> forall j :: 0 <= j < |lines| && names[j] != "" ==> NoMarkerAbove(clock, lines, j)
  {
    hide IsMarker, MarkerLine, Position, CommentChanges, NoMarkerAbove;
    var changes := CommentChanges(clock, now, lines, names, 0);
    if forall j :: 0 <= j < |lines| && names[j] != "" ==> NoMarkerAbove(clock, lines, j) {
      forall change <- changes ensures AsDocumented(clock, lines, change) {
        CommentChangesAre(clock, now, lines, names, 0, change);
        var j :| 0 <= j < |lines| && names[j] != "" && change == CutChange(clock, now, lines, names, 0, j);
        PositionIffNoneAbove(clock, lines, j);
      }
    }
    if forall change <- changes :: AsDocumented(clock, lines, change) {
      forall j | 0 <= j < |lines| && names[j] != "" ensures NoMarkerAbove(clock, lines, j) {
        var change := CutChange(clock, now, lines, names, 0, j);
        CommentChangesAre(clock, now, lines, names, 0, change);
        PositionIffNoneAbove(clock, lines, j);
        assert change in changes;
      }
    }
  }

  // ----- Uncomment

  /** The scan stops at line i and removes the marker it holds. */
  predicate Removes(clock: Clock, lines: seq<string>, only: set<string>, i: nat)
    decreases |lines|
  {
    if lines == [] then false
    else if i == 0 then Selected(clock, lines[0], only)
    else
      var n := if Selected(clock, lines[0], only) && |lines| > 1 && Commented(lines[1]) then 2 else 1;
      n <= i && Removes(clock, lines[n..], only, i - n)
  }

  lemma {:induction false} RemovesInside(clock: Clock, lines: seq<string>, only: set<string>, i: nat)
    requires Removes(clock, lines, only, i)
    ensures i < |lines| && Selected(clock, lines[i], only)
    decreases |lines|
  {
    hide Selected;
    if i > 0 {
      var n := if Selected(clock, lines[0], only) && |lines| > 1 && Commented(lines[1]) then 2 else 1;
      RemovesInside(clock, lines[n..], only, i - n);
    }
  }

  /** What the pass reports of the marker at line i. */
  function RemovedChange(clock: Clock, lines: seq<string>, at: nat, i: nat): Change
    requires i < |lines| && IsMarker(clock, lines[i])
  {
    var marker := ParseMarker(clock, lines[i]).value;
    var restored := if i + 1 < |lines| && Commented(lines[i + 1]) then lines[i + 1][1..] else "";
    Change(marker.job, at + i + 1, marker.when, restored, lines[i])
  }

  predicate IsRemoved(clock: Clock, lines: seq<string>, only: set<string>, at: nat, change: Change) {
    exists i :: 0 <= i < |lines| && Removes(clock, lines, only, i) && IsMarker(clock, lines[i])
                && change == RemovedChange(clock, lines, at, i)
  }

  /** The changes are those of the markers removed, each numbered by the marker's place among all lines. */
  lemma {:induction false} UncommentChangesAre(clock: Clock, lines: seq<string>, only: set<string>, at: nat,
                                               change: Change)
    ensures change in UncommentChanges(clock, lines, only, at) <==> IsRemoved(clock, lines, only, at, change)
    decreases |lines|
  {
    hide ParseMarker, Commented, UncommentChanges, IsRemoved, Removes;
    if lines == [] {
      NothingRemoved(clock, only, at, change);
    } else {
      var n := if Selected(clock, lines[0], only) && |lines| > 1 && Commented(lines[1]) then 2 else 1;
      UncommentChangesAre(clock, lines[n..], only, at + n, change);
      RestoreOne(clock, lines, only, at);
      RemovedBelow(clock, lines, only, at, change);
    }
  }

  lemma NothingRemoved(clock: Clock, only: set<string>, at: nat, change: Change)
    ensures UncommentChanges(clock, [], only, at) == [] && !IsRemoved(clock, [], only, at, change)
  {
  }

  /** One turn of the scan: what it removes is its own marker or removed below. */
  lemma RemovedBelow(clock: Clock, lines: seq<string>, only: set<string>, at: nat, change: Change)
    requires lines != []
    ensures var n := if Selected(clock, lines[0], only) && |lines| > 1 && Commented(lines[1]) then 2 else 1;
            IsRemoved(clock, lines, only, at, change)
            <==> IsRemoved(clock, lines[n..], only, at + n, change)
                 || (Selected(clock, lines[0], only) && change == RemovedChange(clock, lines, at, 0))
  {
    hide ParseMarker, Commented, Removes, RemovedChange, Selected;
    var n := if Selected(clock, lines[0], only) && |lines| > 1 && Commented(lines[1]) then 2 else 1;
    var rest := lines[n..];
    RemovesFirst(clock, lines, only);
    if IsRemoved(clock, rest, only, at + n, change) {
      var i :| 0 <= i < |rest| && Removes(clock, rest, only, i) && IsMarker(clock, rest[i])
               && change == RemovedChange(clock, rest, at + n, i);
      RemovesLater(clock, lines, only, at, i + n);
    }
    if i :| 1 <= i < |lines| && Removes(clock, lines, only, i) && IsMarker(clock, lines[i])
            && change == RemovedChange(clock, lines, at, i) {
      RemovesLater(clock, lines, only, at, i);
    }
  }

  lemma RemovesFirst(clock: Clock, lines: seq<string>, only: set<string>)
    requires lines != []
    ensures Removes(clock, lines, only, 0) <==> Selected(clock, lines[0], only)
    ensures Selected(clock, lines[0], only) ==> IsMarker(clock, lines[0])
  {
  }

  lemma RemovesLater(clock: Clock, lines: seq<string>, only: set<string>, at: nat, i: nat)
    requires 0 < i < |lines|
    ensures var n := if Selected(clock, lines[0], only) && |lines| > 1 && Commented(lines[1]) then 2 else 1;
            (Removes(clock, lines, only, i) <==> n <= i && Removes(clock, lines[n..], only, i - n))
            && (n <= i && IsMarker(clock, lines[i]) ==>
                  RemovedChange(clock, lines[n..], at + n, i - n) == RemovedChange(clock, lines, at, i))
  {
    hide ParseMarker, Commented;
  }

  /** Uncomment numbers every marker as documented exactly when no other marker stands above one it removes;
      and that number is the documented position of the line beneath. */
  lemma UncommentNumbersIff(clock: Clock, lines: seq<string>, only: set<string>)
    ensures (forall change <- UncommentChanges(clock, lines, only, 0) :: AsDocumented(clock, lines, change))
       <==> forall j :: 0 <= j < |lines| && Removes(clock, lines, only, j) ==> NoMarkerAbove(clock, lines, j)
    ensures forall j :: 0 <= j < |lines| - 1 && Removes(clock, lines, only, j) ==>
              Position(clock, lines, j + 1) == Position(clock, lines, j)
  {
    hide ParseMarker, Position, UncommentChanges, NoMarkerAbove, Removes;
    var changes := UncommentChanges(clock, lines, only, 0);
    if forall j :: 0 <= j < |lines| && Removes(clock, lines, only, j) ==> NoMarkerAbove(clock, lines, j) {
      forall change <- changes ensures AsDocumented(clock, lines, change) {
        UncommentChangesAre(clock, lines, only, 0, change);
        var j :| 0 <= j < |lines| && Removes(clock, lines, only, j) && IsMarker(clock, lines[j])
                 && change == RemovedChange(clock, lines, 0, j);
        PositionIffNoneAbove(clock, lines, j);
      }
    }
    forall j | 0 <= j < |lines| && Removes(clock, lines, only, j)
      ensures j + 1 < |lines| ==> Position(clock, lines, j + 1) == Position(clock, lines, j)
      ensures (forall change <- changes :: AsDocumented(clock, lines, change)) ==> NoMarkerAbove(clock, lines, j)
    {
      RemovesInside(clock, lines, only, j);
      var change := RemovedChange(clock, lines, 0, j);
      UncommentChangesAre(clock, lines, only, 0, change);
      PositionIffNoneAbove(clock, lines, j);
      assert change in changes;
      if j + 1 < |lines| {
        PositionPastMarker(clock, lines, j);
      }
    }
  }

  // ----- a crontab where the numbers count markers

  lemma UnmarkedBelowMarker(clock: Clock, marker: string, line: string)
    requires IsMarker(clock, marker) && !IsMarker(clock, line)
    ensures Unmarked(clock, [marker, line]) == 1
  {
    hide IsMarker;
    assert [marker, line][1..] == [line] && [line][1..] == [];
    assert Unmarked(clock, [line]) == 1 + Unmarked(clock, []);
  }

  lemma ThirdLineCut(clock: Clock, now: Time, lines: seq<string>, name: string)
    requires |lines| == 3 && name != ""
    ensures CommentChanges(clock, now, lines, ["", "", name], 0)
         == [Change(name, 3, now, lines[2], MarkerLine(clock, now, name))]
  {
    hide MarkerLine;
    assert ["", "", name][1..] == ["", name] && ["", name][1..] == [name] && [name][1..] == [];
    assert lines[1..][1..] == [lines[2]] && [lines[2]][1..] == [];
    assert CommentChanges(clock, now, [lines[2]], [name], 2)
        == [Change(name, 3, now, lines[2], MarkerLine(clock, now, name))] + CommentChanges(clock, now, [], [], 3);
    assert CommentChanges(clock, now, lines[1..], ["", name], 1) == CommentChanges(clock, now, [lines[2]], [name], 2);
  }

  /** Another job already cut over above the entry: Comment reports line 3, not 2. */
  lemma CommentCountsMarkers(clock: Clock, earlier: Time, now: Time)
    requires Fair(clock)
    ensures var lines := [MarkerLine(clock, earlier, "other"), "#" + ENTRY, ENTRY];
            var changes := CommentChanges(clock, now, lines, Assigned(lines, [Job("backup", ENTRY)]), 0);
            |changes| == 1 && changes[0].number == 3 && Position(clock, lines, 2) == 2
  {
    hide Fields, IsSpace, Importable, MarkerLine, IsMarker;
    var jobs := [Job("backup", ENTRY)];
    var marker := MarkerLine(clock, earlier, "other");
    var lines := [marker, "#" + ENTRY, ENTRY];
    MarkerFacts(clock, earlier, "other");
    EntryIsImportable();
    AssignedFits(clock, lines, jobs);
    HashIsCommented(ENTRY);
    var names := Assigned(lines, jobs);
    assert lines[..2] == [marker, "#" + ENTRY] && lines[..2][..1] == [marker] && lines[..1][..0] == [];
    assert names[0] == "" && names[1] == "";
    assert Matched(names[..2]) == {};
    assert names[2] == Pick(ENTRY, jobs, {}) == "backup";
    CommentedEntryIsNoMarker(clock);
    UnmarkedBelowMarker(clock, marker, "#" + ENTRY);
    ThirdLineCut(clock, now, lines, "backup");
    assert names == ["", "", "backup"];
  }

  lemma CommentedEntryIsNoMarker(clock: Clock)
    ensures !IsMarker(clock, "#" + ENTRY)
  {
    assert ("#" + ENTRY)[1] == '0' && MARKER_PREFIX[1] == ' ';
  }

  /** Two jobs cut over, one below the other: Uncomment reports the second at line 3, not 2. */
  lemma UncommentCountsMarkers(clock: Clock, earlier: Time)
    requires Fair(clock)
    ensures var other, marker := MarkerLine(clock, earlier, "other"), MarkerLine(clock, earlier, "backup");
            var lines := [other, "#" + ENTRY, marker, "#" + ENTRY];
            var changes := UncommentChanges(clock, lines, {}, 0);
            |changes| == 2 && changes[1].number == 3 && Position(clock, lines, 3) == Position(clock, lines, 2) == 2
  {
    hide MarkerLine, IsMarker;
    var other, marker := MarkerLine(clock, earlier, "other"), MarkerLine(clock, earlier, "backup");
    var lines := [other, "#" + ENTRY, marker, "#" + ENTRY];
    MarkerFacts(clock, earlier, "other");
    MarkerFacts(clock, earlier, "backup");
    HashIsCommented(ENTRY);
    CommentedEntryIsNoMarker(clock);
    PositionPastMarker(clock, lines, 2);
    assert lines[2..] == [marker, "#" + ENTRY] && [marker, "#" + ENTRY][2..] == [];
    UnmarkedBelowMarker(clock, other, "#" + ENTRY);
    assert lines[..2] == [other, "#" + ENTRY];
    NothingRemoved(clock, {}, 4, RemovedChange(clock, lines, 0, 0));
  }
}
