/** The text a crontab is made of, as internal/cutover/cutover.go reads it: lines, whitespace fields and the
    cutover marker line. */
module Crontab {
  import opened Options
  import opened Text

  // ----- lines

  /** strings.ReplaceAll(content, "\r\n", "\n"). */
  function Repaired(content: string): string {
    if content == "" then ""
    else if "\r\n" <= content then "\n" + Repaired(content[2..])
    else [content[0]] + Repaired(content[1..])
  }

  function WithoutLastNewline(content: string): string {
    if content != "" && content[|content| - 1] == '\n' then content[..|content| - 1] else content
  }

  function SplitLines(content: string): seq<string> {
    var text := WithoutLastNewline(Repaired(content));
    if text == "" then [] else Split(text, '\n')
  }

  /** What both passes write: every line and a newline. */
  function Join(lines: seq<string>): string {
    if lines == [] then "" else lines[0] + "\n" + Join(lines[1..])
  }

  predicate Lines(lines: seq<string>) {
    forall line <- lines :: '\n' !in line
  }

  /** Without a line break of either kind. */
  predicate Unbroken(s: string) {
    '\n' !in s && '\r' !in s
  }

  predicate EndsInReturn(line: string) {
    line != "" && line[|line| - 1] == '\r'
  }

  /** No line ends in a carriage return, so the next reading repairs nothing. */
  predicate Settled(lines: seq<string>) {
    forall line <- lines :: !EndsInReturn(line)
  }

  function Trim(line: string): string {
    if EndsInReturn(line) then line[..|line| - 1] else line
  }

  /** The lines as the next reading takes them from their text. */
  function Trimmed(lines: seq<string>): (r: seq<string>)
    ensures |r| == |lines| && forall i :: 0 <= i < |r| ==> r[i] == Trim(lines[i])
  {
    if lines == [] then [] else [Trim(lines[0])] + Trimmed(lines[1..])
  }

  /** Content whose last line ends in a newline and that is no single blank line. */
  predicate Terminated(content: string) {
    content == "" || (content != "\n" && content[|content| - 1] == '\n')
  }

  /** Content without a CRLF break. */
  predicate NoCrlf(content: string) {
    forall i :: 0 <= i < |content| - 1 ==> !(content[i] == '\r' && content[i + 1] == '\n')
  }

  lemma {:induction false} JoinConcat(a: seq<string>, b: seq<string>)
    ensures Join(a + b) == Join(a) + Join(b)
  {
    if a == [] {
      assert a + b == b;
    } else {
      assert (a + b)[1..] == a[1..] + b;
      JoinConcat(a[1..], b);
    }
  }

  predicate StartsWithCrlf(s: string) {
    |s| > 1 && s[0] == '\r' && s[1] == '\n'
  }

  lemma RepairedStep(s: string)
    requires s != ""
    ensures Repaired(s) == if StartsWithCrlf(s) then "\n" + Repaired(s[2..]) else [s[0]] + Repaired(s[1..])
  {
    assert "\r\n"[0] == '\r' && "\r\n"[1] == '\n';
    assert "\r\n" <= s <==> StartsWithCrlf(s);
  }

  lemma {:induction false} RepairedIff(s: string)
    ensures |Repaired(s)| <= |s| && (Repaired(s) == s <==> NoCrlf(s))
  {
    if s != "" {
      RepairedStep(s);
      if StartsWithCrlf(s) {
        RepairedIff(s[2..]);
      } else {
        hide Repaired, NoCrlf;
        RepairedIff(s[1..]);
        assert s == [s[0]] + s[1..];
        assert ([s[0]] + Repaired(s[1..]))[1..] == Repaired(s[1..]);
        NoCrlfBelow(s);
      }
    }
  }

  lemma NoCrlfBelow(s: string)
    requires s != "" && !StartsWithCrlf(s)
    ensures NoCrlf(s) <==> NoCrlf(s[1..])
  {
    if NoCrlf(s[1..]) {
      forall i | 0 <= i < |s| - 1 ensures !(s[i] == '\r' && s[i + 1] == '\n') {
        if i > 0 {
          assert s[1..][i - 1] == s[i] && s[1..][i] == s[i + 1];
        }
      }
    }
    if NoCrlf(s) {
      forall i | 0 <= i < |s[1..]| - 1 ensures !(s[1..][i] == '\r' && s[1..][i + 1] == '\n') {
        assert s[1..][i] == s[i + 1] && s[1..][i + 1] == s[i + 2];
      }
    }
  }

  lemma {:induction false} RepairedLine(line: string, rest: string)
    requires '\n' !in line
    ensures Repaired(line + "\n" + rest) == Trim(line) + "\n" + Repaired(rest)
  {
    hide Repaired;
    var s := line + "\n" + rest;
    RepairedStep(s);
    if line == "" {
      assert s[0] == '\n' && s[1..] == rest;
    } else {
      assert s[0] == line[0] && s[1] == (if |line| == 1 then '\n' else line[1]);
      if StartsWithCrlf(s) {
        assert line == ['\r'] && s[2..] == rest;
      } else {
        assert s[1..] == line[1..] + "\n" + rest;
        RepairedLine(line[1..], rest);
        TrimTail(line);
      }
    }
  }

  lemma TrimTail(line: string)
    requires line != "" && line != ['\r']
    ensures Trim(line) == [line[0]] + Trim(line[1..])
  {
  }

  lemma {:induction false} RepairedJoin(lines: seq<string>)
    requires Lines(lines)
    ensures Repaired(Join(lines)) == Join(Trimmed(lines))
  {
    if lines != [] {
      RepairedJoin(lines[1..]);
      RepairedLine(lines[0], Join(lines[1..]));
    }
  }

  lemma TrimmedAreLines(lines: seq<string>)
    requires Lines(lines)
    ensures Lines(Trimmed(lines)) && (Trimmed(lines) == lines <==> Settled(lines))
  {
    forall line <- Trimmed(lines) ensures '\n' !in line {
      var i :| 0 <= i < |lines| && Trimmed(lines)[i] == line;
      assert lines[i] in lines;
    }
    if Trimmed(lines) == lines {
      forall line <- lines ensures !EndsInReturn(line) {
        var i :| 0 <= i < |lines| && lines[i] == line;
        assert Trim(lines[i]) == lines[i];
      }
    }
  }

  lemma {:induction false} SplitsIntoLines(s: string)
    ensures Lines(Split(s, '\n'))
  {
    if s != "" {
      var rest := Split(s[1..], '\n');
      SplitsIntoLines(s[1..]);
      assert '\n' !in rest[0];
    }
  }

  lemma {:induction false} SplitJoined(lines: seq<string>)
    requires Lines(lines)
    ensures Split(Join(lines), '\n') == lines + [""]
  {
    if lines != [] {
      SplitJoined(lines[1..]);
      assert '\n' !in lines[0];
      SplitPast(lines[0], Join(lines[1..]), '\n');
      assert [lines[0]] + (lines[1..] + [""]) == lines + [""];
    }
  }

  lemma {:induction false} JoinSplit(s: string)
    ensures Join(Split(s, '\n')) == s + "\n"
  {
    if s != "" {
      var rest := Split(s[1..], '\n');
      JoinSplit(s[1..]);
      assert s == [s[0]] + s[1..];
      if s[0] == '\n' {
        assert ([""] + rest)[1..] == rest;
      } else {
        assert ([[s[0]] + rest[0]] + rest[1..])[1..] == rest[1..];
        assert Join(Split(s, '\n')) == [s[0]] + Join(rest);
      }
    }
  }

  /** Two lists of lines are told apart by the text they join to. */
  lemma JoinInjective(a: seq<string>, b: seq<string>)
    requires Lines(a) && Lines(b) && Join(a) == Join(b)
    ensures a == b
  {
    SplitJoined(a);
    SplitJoined(b);
    assert (a + [""])[..|a|] == a && (b + [""])[..|b|] == b;
  }

  lemma {:induction false} JoinEndsInNewline(lines: seq<string>)
    requires lines != []
    ensures Join(lines) != "" && Join(lines)[|Join(lines)| - 1] == '\n'
    ensures Join(lines) == "\n" <==> lines == [""]
  {
    if |lines| > 1 {
      JoinEndsInNewline(lines[1..]);
    }
  }

  /** Joining and splitting again takes one carriage return off the end of each line, and loses nothing else
      but a single blank line: that one vanishes. */
  lemma SplitLinesOfJoin(lines: seq<string>)
    requires Lines(lines)
    ensures SplitLines(Join(lines)) == (if Trimmed(lines) == [""] then [] else Trimmed(lines))
  {
    hide Repaired, Split, Trimmed, Lines, Settled;
    RepairedJoin(lines);
    TrimmedAreLines(lines);
    var trimmed := Trimmed(lines);
    if trimmed != [] {
      JoinEndsInNewline(trimmed);
      SplitUnterminated(trimmed, WithoutLastNewline(Join(trimmed)));
      JoinOfNothing(trimmed);
    }
  }

  lemma JoinOfNothing(lines: seq<string>)
    ensures Join(lines) == "" <==> lines == []
    ensures Split("", '\n') == [""]
  {
  }

  lemma SplitUnterminated(lines: seq<string>, text: string)
    requires Lines(lines) && Join(lines) == text + "\n"
    ensures Split(text, '\n') == lines
  {
    JoinSplit(text);
    SplitsIntoLines(text);
    JoinInjective(Split(text, '\n'), lines);
  }

  lemma SplitLinesAreLines(content: string)
    ensures Lines(SplitLines(content)) && SplitLines(content) != [""]
  {
    hide Repaired;
    var text := WithoutLastNewline(Repaired(content));
    SplitsIntoLines(text);
    JoinSplit(text);
  }

  lemma JoinOfRepaired(content: string)
    ensures Join(SplitLines(content)) == Repaired(content) <==> Terminated(Repaired(content))
  {
    hide Repaired, Split;
    var repaired := Repaired(content);
    var text := WithoutLastNewline(repaired);
    if text == "" {
      assert SplitLines(content) == [];
    } else {
      hide Join;
      JoinSplit(text);
      assert text == repaired || repaired == text + "\n";
      assert |text + "\n"| == |text| + 1 && (text + "\n")[|text|] == '\n';
    }
  }

  /** Splitting and joining again gives the content back exactly when it is terminated and holds no CRLF;
      its lines are then settled. */
  lemma JoinOfSplitLines(content: string)
    ensures Join(SplitLines(content)) == content <==> Terminated(content) && NoCrlf(content)
    ensures Join(SplitLines(content)) == content ==> Settled(SplitLines(content))
  {
    hide Repaired, Split, Join, SplitLines, Terminated, NoCrlf, Settled;
    var lines := SplitLines(content);
    RepairedIff(content);
    JoinOfRepaired(content);
    SplitLinesAreLines(content);
    if Join(lines) == content {
      SplitLinesOfJoin(lines);
      RepairedJoin(lines);
      TrimmedAreLines(lines);
      assert Trimmed(lines) == lines;
    }
  }

  // ----- origins

  /** Whitespace runs collapsed to one space. */
  function Normalise(s: string): string {
    JoinWith(Fields(s), " ")
  }

  predicate LineEqualsOrigin(line: string, origin: string) {
    line == origin || (line != "" && origin != "" && Normalise(line) == Normalise(origin))
  }

  /** A line is an origin exactly when their fields agree, so spacing is all that may differ; an origin
      without a field is only matched byte for byte, unless neither side is empty. */
  lemma MatchIsSameFields(line: string, origin: string)
    ensures Normalise(line) == Normalise(origin) <==> Fields(line) == Fields(origin)
    ensures Fields(origin) != [] ==> (LineEqualsOrigin(line, origin) <==> Fields(line) == Fields(origin))
    ensures Fields(origin) == [] ==>
              (LineEqualsOrigin(line, origin) <==> Fields(line) == [] && (line == "" <==> origin == ""))
  {
    hide IsSpace;
    FieldsAreWords(line);
    FieldsAreWords(origin);
    FieldsOfWords(Fields(line));
    FieldsOfWords(Fields(origin));
  }

  /** An origin that holds a word is matched by exactly the lines that space the same words, whatever the gaps. */
  lemma MatchIsRespacing(line: string, origin: string, words: seq<string>)
    requires Spaced(origin, words) && words != []
    ensures LineEqualsOrigin(line, origin) <==> Spaced(line, words)
  {
    hide Spaced;
    FieldsIff(origin, words);
    FieldsIff(line, words);
    MatchIsSameFields(line, origin);
  }

  // ----- markers

  const MARKER_PREFIX := "# pulseq:cutover "
  const JOB_PART := " job="

  /** Whole seconds of a clock in some zone. */
  type Time = int

  /** Writing and reading RFC 3339 section 5.6 timestamps. */
  datatype Clock = Clock(format: Time -> string, parse: string -> Option<Time>)

  /** A stamp reads back as the instant it was written for and holds neither a space nor a line break. */
  ghost predicate Fair(clock: Clock) {
    forall t: Time :: clock.parse(clock.format(t)) == Some(t) && ' ' !in clock.format(t) && Unbroken(clock.format(t))
  }

  datatype Marker = Marker(when: Time, job: string)

  function MarkerLine(clock: Clock, now: Time, job: string): string {
    MARKER_PREFIX + clock.format(now) + JOB_PART + job
  }

  function ParseMarker(clock: Clock, line: string): Option<Marker> {
    if !(MARKER_PREFIX <= line) then None
    else
      var (stamp, job) := Cut(line[|MARKER_PREFIX|..], JOB_PART);
      match clock.parse(stamp)
      case None => None
      case Some(when) => Some(Marker(when, job))
  }

  predicate IsMarker(clock: Clock, line: string) {
    ParseMarker(clock, line).Some?
  }

  /** A marker line reads back as the instant and the job it was written for, whatever the job is called. */
  lemma MarkerRoundTrip(clock: Clock, now: Time, job: string)
    requires Fair(clock)
    ensures ParseMarker(clock, MarkerLine(clock, now, job)) == Some(Marker(now, job))
  {
    var stamp := clock.format(now);
    CutAtSeparator(stamp, JOB_PART, job);
    assert MarkerLine(clock, now, job)[|MARKER_PREFIX|..] == stamp + JOB_PART + job;
  }

  /** A line is a marker exactly when it opens with the reserved comment and what stands before the first job
      part, or everything when there is none, reads as a stamp; what follows the job part names the job. */
  lemma MarkerIff(clock: Clock, line: string, text: string, i: nat)
    ensures (forall rest :: line != "# pulseq:cutover " + rest) ==> ParseMarker(clock, line) == None
    ensures line == "# pulseq:cutover " + text && FirstAt(text, " job=", i) ==>
              i + 5 <= |text| && ParseMarker(clock, line) == Stamped(clock, text[..i], text[i + 5..])
    ensures line == "# pulseq:cutover " + text && Nowhere(text, " job=") ==>
              ParseMarker(clock, line) == Stamped(clock, text, "")
  {
    hide FirstAt, Nowhere, Cut;
    assert MARKER_PREFIX <= line ==> line == MARKER_PREFIX + line[|MARKER_PREFIX|..];
    assert line == MARKER_PREFIX + text ==> line[|MARKER_PREFIX|..] == text;
    if FirstAt(text, " job=", i) {
      CutIsFirst(text, " job=", i);
    }
    if Nowhere(text, " job=") {
      CutNowhere(text, " job=");
    }
  }

  function Stamped(clock: Clock, stamp: string, job: string): Option<Marker> {
    match clock.parse(stamp)
    case Some(when) => Some(Marker(when, job))
    case None => None
  }

  /** A commented line is only ever a marker if the line begins with the reserved word. */
  lemma CommentedMarker(clock: Clock, line: string)
    requires IsMarker(clock, "#" + line)
    ensures Fields(line) != [] && Fields(line)[0] == "pulseq:cutover"
  {
    hide IsSpace;
    assert line == ("#" + line)[1..];
    assert line[..|MARKER_PREFIX| - 1] == MARKER_PREFIX[1..];
    ReservedWordFirst(line);
  }

  lemma ReservedWordFirst(line: string)
    requires MARKER_PREFIX[1..] <= line
    ensures Fields(line) != [] && Fields(line)[0] == "pulseq:cutover"
  {
    var word := "pulseq:cutover";
    SpaceIsSpace();
    var rest := line[1 + |word|..];
    assert word + rest == line[1..];
    FirstFieldIs(word, rest);
  }
}
