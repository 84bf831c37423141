# paceq: the occurrence engine, the crontab cutover and the run lease, verified

This project models the parts of paceq whose correctness rests on arithmetic, ordering or interleaving, and proves
what they do. `dafny verify dfyconfig.toml` checks all of it.

- **Cron occurrences** (`Calendar`, `FieldSets`, `Search`, `Zone`, `Iterate`, `Windows`, `Splits`, `LeapDays`), from
  `internal/cronx/iter.go`. Wall clocks are Gregorian tuples; the carries and borrows work on a mutable cursor, as in
  the source. `nextAfter` and `prevBefore` jump over sorted field sets and are proved to answer what a minute by minute
  scan answers. A zone is an offset function together with the answers of `time.Date`, of which only a contract is
  assumed: an existing wall clock is rendered by the answer, a missing one is resolved through one of the two offsets
  around the jump, unspecified which. Zones are regular: offsets within sixteen hours, at most one change in any two
  days, gaps under 23 hours and backward shifts of 30 or 60 minutes. `Between`, `Next` and `Prev` are then proved
  against the set of all emissions of the schedule in the zone.
- **Cron fields** (`Text`, `Slices`, `CronField`, `Canonical`, `CronParser`, `Atoms`), from `internal/cronx/cronx.go`:
  what each form of atom and a whole column denote, and the round trip between field sets and canonical expressions.
- **Intervals** (`Interval`), from `internal/cronx/interval.go`: the epoch-anchored grid on nanosecond cursors,
  negative times included, with the truncating division of the source.
- **Cutover** (`Crontab`, `Cutover`, `Matching`, `Rollback`, `CutoverLaws`, `LineNumbers`), from
  `internal/cutover/cutover.go`: the crontab rewrite and its undo on the crontab text.
- **Run leases** (`Lease`, `Pool`, `Protocol`, `Fencing`, `Progress`), from `internal/engine/leasekeeper.go`,
  `internal/daemon/executors.go`, the claim-hold-finish skeleton of `internal/engine/execute.go` and the fenced writes
  of `internal/store`. `Lease` and `Pool` are the objects with their critical sections as methods; `Protocol` is the
  whole protocol as a state machine in which pool goroutines, the renewal goroutine and other processes take atomic
  steps in any order. `Fencing` holds what it promises about tokens, told leases and handback tries, `Progress` that
  nobody is stuck and every goroutine leaves.
- **Edit distance** (`EditDistance`, `Suggestions`, `Utf8`), from `internal/diag/suggest.go` and
  `internal/cronx/zone.go`: two array loops proved to compute the length of a shortest edit script, and the suggestions
  built on them, whose order and lengths are those of UTF-8 bytes.

`hide` statements keep definitions a proof does not need away from the solver; they change no meaning.

## Where the code and its comments differ

The model follows the code. For each difference the exact condition under which the comment holds is proved, and a
concrete case where it fails.

- `internal/cronx/iter.go:290-291` says that a window may be chopped anywhere. `Splits.CutIsSafeIff` says exactly where
  it may; `Splits.DoubledHourCannotBeCut` gives cuts in Oslo's doubled hour that lose and that repeat an occurrence.
- `internal/cronx/iter.go:237-241` says that no tuple past the stop position can land in the window, whatever the zone.
  Ordinals are no minute counts across a month end. `Windows.StopIsSafeIff` gives the exact condition;
  `Windows.NewfoundlandMidnightIsLost` loses the midnight of 2009-11-01 in St. John's, with no error.
- `internal/cronx/iter.go:310-311` calls the ordinal decode exact. It is so exactly from year 0 on
  (`Calendar.DecodeExactIffNonNegativeYear`, `Calendar.DecodeFailsBeforeYearZero`).
- `internal/cutover/cutover.go:23-27` states three laws for every crontab. `CutoverLaws` proves the exact condition of
  each on the crontab text and gives a crontab that breaks it.
- `internal/cutover/cutover.go:49-50` says line numbers do not count markers; the code counts every line
  (`LineNumbers.CommentNumbersIff`, `LineNumbers.UncommentNumbersIff`, and `LineNumbers.CommentCountsMarkers` and
  `LineNumbers.UncommentCountsMarkers` where it shows).
- `internal/cronx/interval.go:33` says strictly before the cursor, the code says before the cursor's second
  (`Interval.PrevIsNearestIff`, `Interval.PrevSkipsAPoint`). `internal/cronx/interval.go:13-14` says nothing is lost to
  whole seconds; a fraction of the interval is (`Interval.StepIsTheIntervalIff`, `Interval.HalfASecondIsDropped`).
- `internal/cronx/cronx.go:117-118` says that a start beyond the field is rejected; anywhere beside another atom it is
  accepted and stands for nothing (`Canonical.StartBeyondAddsNothing`, `CronParser.StartBeyondAccepted`).

## Model

| member | source | states |
|---|---|---|
| Calendar.OrdinalEmbedsTime | internal/cronx/iter.go:306-308 | packed ordinals of real tuples compare exactly as absolute minutes, and are equal only for equal tuples |
| Calendar.DecodeExactIffNonNegativeYear | internal/cronx/iter.go:310-322 | decoding an ordinal gives the tuple back if and only if its year is not negative |
| Calendar.DecodeFailsBeforeYearZero | internal/cronx/iter.go:310-322 | the first minute of year -1 decodes to month -14 of year 0 |
| Calendar.CivilOf | internal/cronx/iter.go:426-429 | every absolute minute has one real Gregorian tuple, whose minute number it is |
| Search.WallCursor.CarryDay | internal/cronx/iter.go:116-130 | a day or month overflow becomes the real date it names, in place |
| Search.WallCursor.CarryFromHour | internal/cronx/iter.go:106-114 | after the hour was raised, the cursor is the next hour |
| Search.WallCursor.BorrowDay | internal/cronx/iter.go:141-160 | a day or month underflow becomes the real date it names; before year 1 the cursor stays |
| Search.WallCursor.BorrowToHour | internal/cronx/iter.go:132-139 | after the hour was lowered, the cursor is the previous hour |
| Search.WallCursor.RetreatMonth | internal/cronx/iter.go:711-719 | the cursor becomes the last minute of the month before |
| Search.CarryKeepsTheDay | internal/cronx/iter.go:116-130 | a carry keeps the absolute day number |
| Search.BorrowKeepsTheDay | internal/cronx/iter.go:141-160 | a borrow keeps the absolute day number |
| Search.RetreatIsOneMinute | internal/cronx/iter.go:711-719 | the retreat lands one minute before the first of the month |
| Search.HoursInvert | internal/cronx/iter.go:106-160 | one hour forward and one hour back undo each other on every real tuple, both ways |
| Search.HoursMoveByOne | internal/cronx/iter.go:106-160 | each roll moves the absolute hour by exactly one |
| Search.RollHourThereAndBack | internal/cronx/iter.go:106-160 | the same of the cursor methods run one after the other |
| Search.VixieRule | internal/cronx/iter.go:573-605 | a tuple matches exactly when it is a real minute with listed month, hour and minute and the day rule holds: either field when both are restricted, both otherwise |
| Search.DayRuleOnTheCalendar | internal/cronx/iter.go:588-605 | the same day rule on the calendar: weekday 0 is the Sunday 2000-01-02 and every seventh day from it, and with every day of the month listed that alone decides |
| Search.WeekdayCountsFromASunday | internal/cronx/iter.go:102-104 | the weekday of a real date is the number of days since that Sunday, modulo seven |
| Search.MondayIsMonday | internal/cronx/iter.go:588-605 | a Monday schedule matches Monday 2026-10-26 and neither the Sunday before nor the Tuesday after |
| Search.NextDayIn | internal/cronx/iter.go:721-764 | the first matching day of the month at or after a day, or none, on all three search paths |
| Search.PrevDayIn | internal/cronx/iter.go:766-806 | the last matching day at or before a day, or none |
| Search.NextAfter | internal/cronx/iter.go:607-661 | the least matching tuple strictly after w; none means none through the sixth year and year 9999; fewer than 90 turns, so the guard of 100000 is never the answer |
| Search.PrevBefore | internal/cronx/iter.go:663-709 | the greatest matching tuple strictly before w; none means none back to the sixth year and year 1; fewer than 90 turns |
| Search.NextIsUnique | internal/cronx/iter.go:607-661 | the answer of the search is determined by schedule and start |
| Search.PrevInvertsNext | internal/cronx/iter.go:607-709 | for matching tuples of years 1 to 9999, v follows w if and only if w precedes v |
| Search.SearchIsScan | internal/cronx/iter.go:607-661 | the jumping search answers what stepping minute by minute and testing each answers |
| FieldSets.FullIffWide | internal/cronx/cronx.go:487-488 | a field set is the whole range exactly when it has as many members as the range is wide, which is how the wild flags are computed |
| Zone.ClassifyEmissions | internal/cronx/iter.go:440-494 | the emissions are every instant rendering the wall clock, earliest first, or in a gap the one instant under the offset before the jump; in a gap it is skipped as nonexistent under Skip and real under Shift, of two twins the first is real and the second skipped as a duplicate under First and real under Both, and a wall clock that happens once is never skipped |
| Zone.RowIsMarked | internal/cronx/iter.go:451-505 | every table row carries those marks, flag by flag and reason by reason |
| Zone.GapRowIsMarked | internal/cronx/iter.go:474-479 | in a gap: one emission at the wall clock less the offset before the jump, skipped as nonexistent exactly under Skip |
| Zone.EmissionsAt | internal/cronx/iter.go:481-494 | from any instant that renders the wall clock, the scan by an hour and half an hour finds the twin if there is one |
| Zone.GapReadback | internal/cronx/iter.go:454-473 | in a gap the answer of time.Date reads back as another clock, and the comparison of ordinals recovers the offset before the jump from either resolution |
| Zone.RowIsUnique | internal/cronx/iter.go:440-505 | the row depends on zone, policy and wall clock alone, not on which instant time.Date returned |
| Zone.RowExists | internal/cronx/iter.go:440-505 | every wall clock has a row |
| Zone.TwinDistance | internal/cronx/iter.go:481-491 | two instants sharing a wall clock are exactly 30 or 60 minutes apart, so the two deltas suffice |
| Zone.LookupTwiceKeepsThePromise | internal/cronx/iter.go:452 | the contract assumed of time.Date is met by looking the offset up twice, in every regular zone |
| Iterate.FirstAtOrAfter | internal/cronx/iter.go:324-331 | the least matching tuple at or after the start, or none within reach |
| Iterate.Between | internal/cronx/iter.go:201-274 | lists once each, strictly rising by (wall position, instant), exactly the emissions with key above the cursor's and instant at or before the end among tuples up to the stop position and year limit; the error comes exactly when no match up to the year limit lies past the stop position |
| Iterate.CronNext | internal/cronx/iter.go:344-383 | the emission with the least key above the cursor's; fails exactly when there is none, it is more than 1464 days ahead or its tuple is past year 9999; examines at most two tuples |
| Iterate.CronPrev | internal/cronx/iter.go:385-424 | the mirror image, with the greatest key below |
| Iterate.LeastIsUnique | internal/cronx/iter.go:344-383 | slot and instant of the answer are determined |
| Iterate.Slots | internal/cronx/iter.go:306-308 | keys order occurrences by matched wall clock, then by instant |
| Iterate.AboveCursor | internal/cronx/iter.go:344-360 | an occurrence's key is above the cursor's exactly when its wall clock is later than the cursor's own, or the same and its instant later |
| LeapDays.LeapDayIsAnswered | internal/cronx/iter.go:19-29 | from a 29 February, Next of "0 0 29 2 *" answers the one four years off, in any zone without shifts |
| LeapDays.LeapDayAcrossCentury | internal/cronx/iter.go:19-29 | eight years off, across a century that is no leap year, it has no answer |
| LeapDays.NextLeapDayIsLeast | internal/cronx/iter.go:344-383 | that leap day exists all the same and is the next emission |
| Iterate.GreatestIsUnique | internal/cronx/iter.go:385-424 | likewise backward |
| Iterate.PastTheHorizon | internal/cronx/iter.go:19-29 | a tuple six calendar years away lies past the horizon whatever the offsets, so the year cut never hides an answer |
| Windows.CompleteIffNothingPastStop | internal/cronx/iter.go:217-274 | an answer without an error holds every emission of the window exactly when none belongs to a tuple past the stop position |
| Windows.CompleteUpToTheYearLimit | internal/cronx/iter.go:208-210 | with the error, everything of the window up to the sixth year has come back |
| Windows.StopIsSixteenHours | internal/cronx/iter.go:217-251 | a tuple is within the stop position exactly when it is no later than the end's wall clock, or at most sixteen hours later in the same month; the year limit is six calendar years on, and 9999 |
| Windows.StopIsSafeInsideMonth | internal/cronx/iter.go:237-241 | nothing is lost when the end's wall clock plus the zone's lead, up to 960 minutes, stays in its month |
| Windows.StopIsSafeWithoutShifts | internal/cronx/iter.go:237-241 | nothing is ever lost in a zone without shifts |
| Windows.LeadOfSpread | internal/cronx/iter.go:237-241 | offsets that differ by at most v minutes bound the lead by v |
| Windows.LeadOfRegular | internal/cronx/iter.go:237-241 | in every regular zone the lead is at most an hour |
| Windows.StopIsSafeIff | internal/cronx/iter.go:237-241 | for a zone and an end, no schedule and no start loses anything if and only if the end is not in the second pass of a doubled stretch reaching into another month |
| Windows.StraddleLoses | internal/cronx/iter.go:237-251 | where it is, the every minute schedule loses an occurrence and no error is reported |
| Windows.NewfoundlandMidnightIsLost | internal/cronx/iter.go:237-251 | a concrete window in St. John's holds a midnight occurrence past the stop position, and Between reports no error there |
| Windows.SomeAnswerIsNotWhole | internal/cronx/iter.go:237-251 | such a zone exists: some answer without an error misses an occurrence |
| Splits.SplitIffOrdersAgree | internal/cronx/iter.go:287-304 | for complete listings of a window and its two proper halves, the halves join to the whole if and only if key order and instant order agree at the cut |
| Splits.CutIsSafeIff | internal/cronx/iter.go:287-304 | a cut strictly inside the window is good for every schedule, start and end if and only if local time there has passed exactly what instants have, and no missing wall clock has yet to land |
| Splits.ConstantZoneSplits | internal/cronx/iter.go:287-291 | in a zone without shifts, answers without an error split at every cut |
| Splits.QuietCutAgrees | internal/cronx/iter.go:287-304 | cuts and starts three days away from any shift are good |
| Splits.DoubledHourCannotBeCut | internal/cronx/iter.go:287-304 | Oslo 2026-10-25: one cut loses the second 02:30, another lists the first one twice |
| Splits.SomeCutIsNotSafe | internal/cronx/iter.go:287-304 | such a zone exists: some cut loses an occurrence and some cut repeats one |
| Splits.SameMembersSameListing | internal/cronx/iter.go:287-304 | a strictly rising listing is determined by its members |
| Splits.ChainNext | internal/cronx/iter.go:162-185 | without shifts, feeding each answer back into Next enumerates the whole window, and stops short if and only if after the start or some emission of the window nothing is emitted within the horizon |
| Splits.NextFailsIffStuck | internal/cronx/iter.go:344-383 | without shifts, Next has no answer exactly when nothing is emitted after the cursor within the horizon and the supported years |
| Splits.NextInstant | internal/cronx/iter.go:344-383 | without shifts, Next answers the one emission that comes first after the cursor |
| Splits.BetweenIsTheChain | internal/cronx/iter.go:201-274 | without shifts, Between equals that chain for every schedule with a match past the stop position and no gap beyond the horizon, and each failure flag is raised exactly when its condition fails |
| CronField.AddAll | internal/cronx/cronx.go:304-317 | every value of a walk is kept once after folding; the first out of range is reported |
| CronField.ParseFieldSet | internal/cronx/cronx.go:302-386 | an accepted column gives the strictly sorted values its atoms denote; a refused one the error of its first bad atom, or that nothing matches; the members of Atoms say what each form of atom denotes |
| Canonical.WalkIsProgression | internal/cronx/cronx.go:373-377 | the loop of an atom visits exactly the arithmetic progression from lo by step up to hi |
| Canonical.FieldIsUnion | internal/cronx/cronx.go:302-386 | a value is in the set exactly when it is on some atom's progression, 7 read as Sunday |
| Canonical.NoErrorIff | internal/cronx/cronx.go:303-386 | a column has no error exactly when every atom reads and none of its values is out of range |
| Canonical.ParsedInRange | internal/cronx/cronx.go:388-410 | the values lie in min..effMax |
| Canonical.ParsesUnique | internal/cronx/cronx.go:302-386 | a column stands for one set |
| Canonical.SilentIff | internal/cronx/cronx.go:355-377 | an atom reads without an error and denotes nothing exactly when it is a stepped single value starting beyond the ceiling |
| Canonical.SilentAtomAddsNothing | internal/cronx/cronx.go:355-377 | an atom that stands for nothing can be left out anywhere in a list, keeping the first error and the values |
| Canonical.StartBeyondAddsNothing | internal/cronx/cronx.go:355-385 | a start beyond the field, first, last or in the middle of a list, changes neither acceptance nor values, and is refused alone |
| Canonical.AcceptedIff | internal/cronx/cronx.go:302-386 | a column is accepted if and only if every atom reads and stays in range and some atom stands for a value |
| Atoms.SingleStands | internal/cronx/cronx.go:357-365 | a number or a name stands for itself, and is refused exactly outside the bounds of its column |
| Atoms.StarStands | internal/cronx/cronx.go:334-344 | a star stands for every value of its column, with a step for every n-th from the least, and a step of 0 is refused |
| Atoms.RangeStands | internal/cronx/cronx.go:345-355 | a range of numbers or names stands for exactly the folded values from its start to its end, and is refused exactly when it runs backwards or leaves the bounds |
| Atoms.SteppedRangeStands | internal/cronx/cronx.go:345-377 | with a step it stands for exactly every n-th value from its start, and is refused exactly when it runs backwards, the step is 0 or one of those values is out of bounds |
| Atoms.SteppedSingleStands | internal/cronx/cronx.go:366-372 | a single value with a step stands for every n-th value from it to the effective ceiling |
| Atoms.SingleErrors | internal/cronx/cronx.go:357-365 | a single value fails as out of range, with that value, or as unreadable |
| Atoms.RangeErrors | internal/cronx/cronx.go:345-355 | a range with a side that does not read is unreadable, and one with both sides the wrong way round runs backwards |
| Atoms.StepErrors | internal/cronx/cronx.go:325-332 | a step of 0 or one that is no number is the step's error, whatever stands before it |
| Atoms.FirstBadAtom | internal/cronx/cronx.go:319-386 | a list is refused with the error of its first bad atom |
| Atoms.ColumnBounds | internal/cronx/cronx.go:172-180 | minutes run from 0 to 59, hours to 23, days from 1 to 31, months to 12, weekdays from 0 to 7 |
| Atoms.StarCovers | internal/cronx/cronx.go:334-344 | a star parses to every minute, hour, day or month, and to the seven weekdays |
| Atoms.RealColumnsAreSound | internal/cronx/cronx.go:163-180 | the five columns with the real month and weekday names have room for a value, and no name is a number |
| Atoms.MonthsInOrder | internal/cronx/cronx.go:163-166 | jan to dec parse to 1 to 12 |
| Atoms.DaysInOrder | internal/cronx/cronx.go:168-170 | sun to sat parse to 0 to 6 |
| Atoms.WorkingDays | internal/cronx/cronx.go:163-180 | mon-fri and 1-5 are the days 1 to 5 |
| Atoms.SevenIsSunday | internal/cronx/cronx.go:405-410 | weekday 7 parses to 0 |
| Text.AtoiOfSigned | internal/cronx/cronx.go:418-422 | a sign before the digits is read, and no digits are no number |
| Canonical.PrintedParses | internal/cronx/cronx.go:279-300 | printing a field set and parsing it again gives the same set |
| Canonical.PrintedIff | internal/cronx/cronx.go:289-297 | a star is printed exactly for the set of all values; any other set as its numbers in order between commas |
| Canonical.ExpressionSplits | internal/cronx/cronx.go:299 | an expression is its columns with single spaces between them |
| Canonical.PrintedIsInjective | internal/cronx/cronx.go:279-300 | two sets print alike exactly when they are equal |
| Canonical.ExpressionParses | internal/cronx/cronx.go:467-490 | the columns of a printed expression parse to the sets that were printed |
| Canonical.SameExpressionIffSameSets | internal/cronx/cronx.go:279-281 | two expressions are the same text exactly when all five sets agree |
| CronParser.CanonicalFields | internal/cronx/cronx.go:279-300 | the canonical expression of the parsed sets, or an error exactly when some column is refused |
| CronParser.ParseCron | internal/cronx/cronx.go:182-216 | accepted text gives the canonical expression of its sets; rejected text has a wrong column count, a refused shape or column, or the reference parser's veto |
| CronParser.Compile | internal/cronx/cronx.go:467-490 | five accepted columns give a valid compiled schedule with their sets and the wild flags; otherwise some column is refused |
| CronParser.CompileRecoversTheSets | internal/cronx/cronx.go:467-490 | compiling a canonical expression recovers exactly the sets it was printed from |
| CronParser.CompileCanonical | internal/cronx/cronx.go:467-490 | compiling a canonical expression always succeeds, with a valid schedule of exactly those sets |
| CronParser.ParseThenCompile | internal/cronx/cronx.go:467-469 | what parseCron accepts compiles to the sets its columns denote; failures are those of parseCron |
| CronParser.CanonicalisationIsIdempotent | internal/cronx/cronx.go:279-300 | parsing a canonical expression writes the same expression |
| CronParser.StartBeyondAccepted | internal/cronx/cronx.go:116-119 | for minutes, 90/2 is refused alone and both 90/2,0 and 0,90/2 are accepted as 0 |
| Interval.FloorDiv | internal/cronx/interval.go:68-74 | the floor of the quotient, for negative dividends too |
| Interval.CeilDiv | internal/cronx/interval.go:76-82 | the ceiling of the quotient |
| Interval.IntervalNext | internal/cronx/interval.go:21-31 | the first grid point strictly after the cursor, fractions of a second included |
| Interval.IntervalPrev | internal/cronx/interval.go:33-43 | the last grid point strictly before the second the cursor lies in |
| Interval.PrevIsNearestIff | internal/cronx/interval.go:33-43 | that is the last grid point before the cursor itself unless the cursor has a fraction and its second is a grid point |
| Interval.PrevSkipsAPoint | internal/cronx/interval.go:33-43 | at 10.5 seconds on a 10 second grid the code answers 0 |
| Interval.PrevUndoesNext | internal/cronx/interval.go:21-43 | on grid points one step forward and one back cancel |
| Interval.StepIsTheIntervalIff | internal/cronx/interval.go:17-19 | the grid is the interval's own exactly when the interval has whole seconds |
| Interval.HalfASecondIsDropped | internal/cronx/interval.go:17-19 | an interval of 1.5 seconds runs on the grid of 1 second |
| Interval.IntervalBetween | internal/cronx/interval.go:45-57 | the loop returns the list of grid points whose index lies above the cursor's last one and not above the end's |
| Interval.BetweenIsEveryPoint | internal/cronx/interval.go:45-57 | it holds every grid point in (from, to] and nothing else, rising |
| Interval.BetweenSplits | internal/cronx/interval.go:45-57 | it splits exactly at any cut |
| Interval.BetweenIsTheChain | internal/cronx/interval.go:21-57 | it is the chain of next points up to the end |
| Crontab.SplitLinesOfJoin | internal/cutover/cutover.go:400-412 | joined lines split into the same lines less one final carriage return each, except that a single blank line vanishes |
| Crontab.RepairedIff | internal/cutover/cutover.go:406 | the CRLF repair leaves content alone exactly when it holds no CRLF |
| Crontab.JoinOfSplitLines | internal/cutover/cutover.go:400-412 | split content joins to itself exactly when it has no CRLF, its last line is terminated and it is not one blank line |
| Crontab.JoinInjective | internal/cutover/cutover.go:400-412 | different lists of lines join to different texts |
| Crontab.MatchIsSameFields | internal/cutover/cutover.go:313-329 | a line is an entry's origin exactly when their whitespace fields agree |
| Crontab.MatchIsRespacing | internal/cutover/cutover.go:313-329 | an origin that holds a word is matched by exactly the lines that space the same words, whatever the gaps |
| Text.FieldsIff | internal/cutover/cutover.go:326-329 | the fields of a text are the one list of words it is the spacing of |
| Text.AsciiSpaces | internal/cutover/cutover.go:326-329 | in ASCII the spaces are tab, line feed, vertical tab, form feed, carriage return and blank |
| Crontab.MarkerRoundTrip | internal/cutover/cutover.go:122-142 | a marker line reads back as the instant and the job it was written for, whatever the job is called |
| Crontab.MarkerIff | internal/cutover/cutover.go:128-142 | a line is a marker exactly when it opens with the reserved comment and what stands before the first job part, or everything when there is none, reads as a stamp; the rest names the job |
| Crontab.CommentedMarker | internal/cutover/cutover.go:131-142 | a commented line is a marker only if the line begins with the reserved word |
| Cutover.Comment | internal/cutover/cutover.go:144-231 | text, changes and skips are those of the greedy assignment of lines to jobs; the skips explain, in the order of the job list, exactly the jobs no change names: already cut if and only if some line is a marker of that job, otherwise changed with the resembling line and its number when there is one, missing when there is none |
| Cutover.ReportStayed | internal/cutover/cutover.go:212-229 | one skip for every job without a line, in order, with the reason the markers and the resembling lines give |
| CutoverLaws.SecondCommentSaysAlreadyCut | internal/cutover/cutover.go:144-231 | a second Comment on the text of the first reports already cut for every job the first one cut and it does not cut again |
| Matching.GreedyTakesTheFirst | internal/cutover/cutover.go:173-191 | lines are served top to bottom, and each goes to the first job of the list whose origin it is and that has none yet |
| Cutover.Uncomment | internal/cutover/cutover.go:233-277 | text and changes are those of the scan that strips one '#' beneath each selected marker |
| Matching.AssignedIsMatching | internal/cutover/cutover.go:173-191 | every line cut over belongs to a job whose origin it is, and no job takes two |
| Matching.Conservation | internal/cutover/cutover.go:173-209 | in any such matching, cut lines and free jobs of an origin add up to its jobs |
| Matching.GreedyCutsTheMinimum | internal/cutover/cutover.go:173-209 | per origin the greedy pass cuts min(lines, jobs) lines |
| Matching.GreedyIsMaximum | internal/cutover/cutover.go:173-209 | no other matching cuts more lines of any origin |
| Matching.EachJobReportedOnce | internal/cutover/cutover.go:161-231 | every job is in exactly one of changes and skips, once, and nothing else is |
| Matching.CutLinesLeave | internal/cutover/cutover.go:173-209 | a pass takes exactly the lines it cuts out of an origin's count; markers and comments count for none |
| Matching.SecondPassIsNoOpIff | internal/cutover/cutover.go:23-27 | a second pass changes no line if and only if no wanted origin has more lines than jobs |
| Rollback.AssignedFits | internal/cutover/cutover.go:173-191 | no comment and nothing that would become a marker is ever cut over |
| Rollback.UndoIff | internal/cutover/cutover.go:144-277 | undoing with and without a cutover in between agree if and only if the scan meets no marker with nothing to restore right above a line being cut over |
| Rollback.WellPairedHasNoOrphan | internal/cutover/cutover.go:233-277 | a well-paired crontab has no such marker, so there the undo always agrees |
| Rollback.UndoGivesBackIff | internal/cutover/cutover.go:144-277 | a cutover and its undo give the lines back if and only if there was no marker before |
| Rollback.ExposesIff | internal/cutover/cutover.go:242-277 | an undo leaves a selected marker exactly when stripping a '#' lays one bare |
| Rollback.UndoTwiceIff | internal/cutover/cutover.go:242-277 | undoing twice is undoing once exactly when it lays none bare |
| Rollback.WellPairedExposesNone | internal/cutover/cutover.go:242-277 | a well-paired crontab lays none bare |
| Rollback.RollbacksCompose | internal/cutover/cutover.go:233-277 | on well-paired content two partial rollbacks are one of both job lists |
| Rollback.PartialRollbackKeepsPairs | internal/cutover/cutover.go:239-241 | a partial rollback leaves exactly the other jobs' markers, each still on its line |
| Rollback.CommentKeepsPairs | internal/cutover/cutover.go:161-231 | a cutover keeps a crontab well paired |
| Rollback.RollbackUndoesItsJobs | internal/cutover/cutover.go:233-277 | rolling some jobs back leaves the crontab as if they had never been cut over |
| Rollback.RollbackReportsTheCutover | internal/cutover/cutover.go:233-277 | the rollback reports the cutover's jobs, instants, lines and markers, its line numbers shifted by the markers above |
| CutoverLaws.UndoLaw | internal/cutover/cutover.go:144-277 | Uncomment(Comment(c)) == Uncomment(c) on crontab text exactly when the scan meets no orphan marker right above a line being cut over |
| CutoverLaws.RoundTripLaw | internal/cutover/cutover.go:23-27 | for every content, Uncomment(Comment(c)) == c byte for byte if and only if c has no marker and no CRLF, ends its last line and is not one blank line |
| CutoverLaws.SecondCommentLaw | internal/cutover/cutover.go:23-27 | for every content, Comment(Comment(c)) == Comment(c) if and only if no wanted origin has more lines than jobs and no line of c ends in a carriage return |
| CutoverLaws.SecondUncommentLaw | internal/cutover/cutover.go:23-27 | for every content, Uncomment(Uncomment(c)) == Uncomment(c) if and only if the scan lays no selected marker bare, c is more than one removed marker alone or on a commented blank line, and the scan leaves no line ending in a carriage return |
| CutoverLaws.OrphanBreaksUndo | internal/cutover/cutover.go:268-273 | a crontab with an orphan marker above the job's entry is undone to different text with and without the cutover |
| CutoverLaws.MissingNewlineBreaksRoundTrip | internal/cutover/cutover.go:23-27 | a crontab without its final newline comes back with one |
| CutoverLaws.MarkerBreaksRoundTrip | internal/cutover/cutover.go:23-27 | a crontab already cut over does not come back |
| CutoverLaws.DuplicateBreaksSecondComment | internal/cutover/cutover.go:173-191 | for one job and its entry twice, a second Comment changes the text again |
| CutoverLaws.NestedMarkerBreaksSecondUncomment | internal/cutover/cutover.go:265-267 | for a commented marker below a marker, a second Uncomment changes the text again |
| CutoverLaws.LoneMarkerBreaksSecondUncomment | internal/cutover/cutover.go:268-273 | a crontab of one orphan marker becomes a blank line and then nothing |
| LineNumbers.CommentChangesAre | internal/cutover/cutover.go:179-210 | the changes are exactly the lines cut over, each with its place among all lines |
| LineNumbers.CommentNumbersIff | internal/cutover/cutover.go:48-50 | every number Comment reports is the position with markers not counted if and only if no marker stands above a line it cuts over |
| LineNumbers.UncommentChangesAre | internal/cutover/cutover.go:251-275 | the changes are exactly the markers the scan removes, each with the marker's place among all lines and the line restored |
| LineNumbers.UncommentNumbersIff | internal/cutover/cutover.go:48-50 | every number Uncomment reports is the position with markers not counted if and only if no other marker stands above one it removes; the line beneath has the same position |
| LineNumbers.CommentCountsMarkers | internal/cutover/cutover.go:48-50 | below another job's marker and line, Comment reports line 3 for documented position 2 |
| LineNumbers.UncommentCountsMarkers | internal/cutover/cutover.go:48-50 | for two jobs cut over, Uncomment reports the second at line 3 for documented position 2 |
| EditDistance.Distance | internal/diag/suggest.go:59-90 | the two-row loop with swapped rows computes the edit distance recurrence |
| EditDistance.EditDistance | internal/cronx/zone.go:62-90 | so does the other one, hence the two agree |
| EditDistance.ShortestScript | internal/diag/suggest.go:59-90 | some script of that many single-rune edits turns one string into the other |
| EditDistance.NoScriptIsShorter | internal/diag/suggest.go:59-90 | and no script is shorter |
| EditDistance.OneEditApart | internal/diag/suggest.go:59-90 | changing at most one rune anywhere moves the distance by at most one |
| EditDistance.ZeroIffEqual | internal/diag/suggest.go:59-90 | zero exactly for equal strings |
| EditDistance.Symmetric | internal/diag/suggest.go:59-90 | symmetric |
| EditDistance.Triangle | internal/diag/suggest.go:59-90 | the triangle inequality |
| Suggestions.CloseIff | internal/diag/suggest.go:8-12 | a name is close exactly when it continues what was written or at most two edits lead to it, and at no distance exactly when it continues it |
| Suggestions.NearIff | internal/cronx/zone.go:37-60 | a zone is near exactly when at most three edits lead to it |
| Utf8.BeforeIff | internal/diag/suggest.go:29-30 | the order of names is the order of their UTF-8 bytes |
| Utf8.ByteLengthIs | internal/diag/suggest.go:52 | the length of a name is the number of its UTF-8 bytes |
| Suggestions.Suggest | internal/diag/suggest.go:14-57 | nothing for an empty or known name or when none is within two edits; otherwise the closest known name, shorter and then alphabetically first on ties, a continuation counting as no distance |
| Suggestions.ClosestIsUnique | internal/diag/suggest.go:19-22 | the suggestion depends on which names are known, not on their order |
| Suggestions.SuggestZone | internal/cronx/zone.go:41-60 | the nearest zone within three edits, alphabetically first on ties, or nothing |
| Suggestions.NearestZoneIsUnique | internal/cronx/zone.go:41-60 | independent of the order of the zone list |
| Suggestions.SortedAscends | internal/diag/suggest.go:29-30 | the sorted copy ascends in byte order |
| Lease.HeldRun.SignalCancel | internal/engine/leasekeeper.go:39-43 | the cancel channel is closed afterwards and never closed twice |
| Lease.HeldRun.SignalLost | internal/engine/leasekeeper.go:39-44 | likewise the lost channel |
| Lease.Engine.Hold | internal/engine/leasekeeper.go:46-63 | the run's entry becomes a fresh handle with its token and both signals open, every other entry stays |
| Lease.Engine.Release | internal/engine/leasekeeper.go:65-71 | both signals are closed, the entry stays |
| Lease.Engine.Forget | internal/engine/leasekeeper.go:73-82 | the entry leaves exactly when it still carries the caller's token |
| Lease.Engine.Drop | internal/engine/leasekeeper.go:84-91 | the entry leaves exactly when it is still the caller's handle |
| Lease.Engine.TellCancels | internal/engine/leasekeeper.go:120-128 | the live tokens are those of the last answer for each run, and exactly the handles an answer asks to cancel are newly told so |
| Lease.Engine.RenewOnce | internal/engine/leasekeeper.go:104-144 | a failing store changes nothing; otherwise an entry stays exactly when the last answer for its run carries its token, exactly the handles that leave are newly told their lease is lost, and exactly those an answer asks to cancel are newly told that |
| Lease.LiveIsTheLastAnswer | internal/engine/leasekeeper.go:120-122 | the live map holds, for every run answered at all, the token of its last answer |
| Lease.CancelRequestFencesNothing | internal/engine/leasekeeper.go:123-142 | an answer that confirms a run and asks to cancel it closes the cancel channel alone: the entry stays and its lease is not lost |
| Lease.Engine.HeldLease | internal/engine/leasekeeper.go:186-197 | the token held for a run, if any |
| Pool.ExecutorPool.Submit | internal/daemon/executors.go:75-110 | false only when the pool is full and the run is not being driven; starts exactly one execution per driven run and never exceeds the workers |
| Pool.HandBackWhenOwed | internal/daemon/executors.go:167-200 | an error exactly when the run is held and all three tries fail; otherwise the run's entry is gone, after the first answer |
| Protocol.RunsKeepInv | internal/daemon/executors.go:75-200 | every interleaving of pool, executors, renewals and other processes keeps the books, tokens and claims in order |
| Protocol.OneDriverPerRun | internal/daemon/executors.go:75-110 | in every run of the machine at most one goroutine drives a run id and slots in use are the goroutines and never exceed the workers |
| Protocol.PoolEventsAreThePools | internal/daemon/executors.go:75-110 | the machine's pool events are enabled where the pool's own methods take them and change slots and driven runs as those do |
| Protocol.HandbackIsOurs | internal/daemon/executors.go:112-200 | a handback that lands releases a row held by this owner at the token read, which is the goroutine's own claim if it has one, with no other goroutine on the run; a claim loser never hands back |
| Protocol.LeavesNothingBehind | internal/daemon/executors.go:112-118 | a goroutine that leaves without a handback error leaves its row not running under its token, then and ever after |
| Protocol.StaysGone | internal/store/runlease.go:121-133 | a token gone from its row never holds it again |
| Protocol.NothingRunsUnaccounted | internal/daemon/executors.go:112-118 | whatever runs under this owner is with a goroutine that claimed it at this token, or was reported as impossible to hand back |
| Protocol.BookOnlyLosesGoneTokens | internal/engine/leasekeeper.go:73-144 | no renewal, forget or drop removes an entry whose token still holds its row, so none hides an owed handback or removes a newer claim |
| Protocol.LosersAreTold | internal/engine/leasekeeper.go:129-142 | a goroutine still driving whose handle has left the book has been signalled |
| Protocol.AHandbackHappens | internal/daemon/executors.go:75-200 | the machine can run: from any start with a queued run and a free slot it claims the run, is stopped, hands it back under a later token and empties the pool |
| Protocol.RowsStep | internal/store/transitions.go:968-1050 | tokens never fall, and a row comes to run under this owner only with a higher token |
| Protocol.NewlyHeld | internal/store/runlease.go:456-499 | a row comes to run under this owner only by the claim of the goroutine that then holds it |
| Fencing.RowLifeCycle | internal/store/transitions.go:968-1050 | a step leaves a row alone, claims it from the queue under the next token, ends it under its token, or takes it from its owner under the next token |
| Fencing.WritesAreFenced | internal/store/transitions.go:1680-1782 | a claim runs a queued row under the next token, a verdict ends the row held at the claimed token, and a handback queues the row exactly when it is held at the token read |
| Fencing.TokenNamesOneHolder | internal/store/runlease.go:121-133 | whoever runs a row later under a token no newer is the one who ran it then, without a break |
| Fencing.GivesUpAfterThreeTries | internal/daemon/executors.go:161-200 | a goroutine leaves with a handback error exactly when the store failed it three times, and none asks a fourth time |
| Fencing.WhoLeavesQuietly | internal/daemon/executors.go:119-200 | a goroutine leaves without an error only when it lost its claim, found no lease in the book, or the store answered, and then the book no longer holds that token |
| Fencing.OnlyTheDefeatedReport | internal/daemon/executors.go:147-151 | a claim is reported as impossible to hand back only by its goroutine, when it leaves with that error |
| Fencing.AnswerIsTheStore | internal/store/runlease.go:520-525 | a renewal leaves exactly the entries unconfirmed whose row does not run under this owner at their token |
| Fencing.OnlyLosersAreTold | internal/engine/leasekeeper.go:129-142 | no false fencing: a goroutine told that its lease is lost no longer holds its row, then and ever after |
| Fencing.RunsKeepFenced | internal/engine/leasekeeper.go:46-142 | every interleaving keeps handle ids apart and tells only those whose token is gone |
| Fencing.AVerdictHappens | internal/daemon/executors.go:112-200 | the machine can run: a queued run is claimed and ends under that token, the handback changes nothing and the pool empties |
| Fencing.ALossIsTold | internal/engine/leasekeeper.go:104-144 | and a claimed run that is reaped has its driving executor told at the next renewal, with its entry off the book |
| Progress.NobodyIsStuck | internal/daemon/executors.go:75-200 | in every reachable state every goroutine has a step it can take, whatever the store says |
| Progress.EveryoneLeaves | internal/daemon/executors.go:75-200 | no goroutine takes more than thirteen steps of its own, and the thirteenth gives its slot back |
| Progress.RenewalIsNeverStuck | internal/engine/leasekeeper.go:104-144 | the renewal goroutine can move in every state, and a failing store costs it the tick and changes nothing else |
| Progress.OthersMayIff | internal/store/runlease.go:121-133 | the other processes of the machine can make exactly the listed changes to a row: claims, ends and handbacks of their own, reaps, requeues and cancellations in the queue |
| Progress.AFailedHandbackIsReported | internal/daemon/executors.go:147-200 | the machine can fail: three failed tries leave the row running under a claim that is reported, and the pool empty |

## Left out

- Iterate.Between: a cursor whose wall clock lies before year 0 is excluded, because the truncating decode of its ordinal names no date.
- Zone.ClassifyEmissions: offsets with seconds, whole-day jumps of the date line, backward shifts other than 30 or 60 minutes and two shifts within two days are excluded; the code does not detect them.
- CronField.ParseFieldSet: numbers are unbounded, so steps near the integer limit do not wrap around; error texts are reduced to their kinds.
- Interval.IntervalNext: 64-bit overflow of seconds and nanoseconds is not modelled.
- Cutover.Comment: how findChanged finds a resembling line is a parameter; it only chooses the wording of a skip.
- CutoverLaws.UndoLaw: content with a line that still ends in a carriage return after the CRLF repair is excluded, because each pass strips one more and can turn such a line into a marker.
- CutoverLaws.RoundTripLaw: origins that are comments or begin with the reserved word, and job names that are empty, repeated or hold a line break, are excluded.
- Suggestions.Suggest: lower-casing is a parameter, and strings are valid UTF-8.
- Pool.ExecutorPool.Submit: the wait group, the afterRun callback and the pauses between handback tries are not modelled.
- Lease.Engine.RenewOnce: the tick runs without interruption; a book that changes under it, and the ticker loop around it, are in the protocol.
- Pool.HandBackWhenOwed: nobody moves the book between its tries; other goroutines doing so are in the protocol.
- Protocol.RunsKeepInv: ExecuteRun and execute are steps of the machine, not methods, because other goroutines move between them; the steps of a run are one phase, entered by the claim and left by a fenced verdict, a cancellation or any error; a failing claim is taken to have changed nothing, the owner name to belong to this process alone, and a failing handback may or may not have landed.
- formatLocalWall, renderRequestedWall and LocalWall: display only.
- The gronx cross-check and harnessCheckField: parameters of `CronParser.ParseCron`; real IANA data: an abstract offset function; descriptors, lower-casing and the choice between interval and cron in Parse.
- HasMarkers, MarkerJobs, Code and String of the cutover; LoadZone; validation of policies and arguments.
- SQL, migrations, the spool, the runner and its process groups, sockets, HTTP handlers, systemd, metrics, the command line, doctor, explain and the help catalogues.
- stepCeiling, the watchdog, the clock jump detector and the small sorts: true but easy.
