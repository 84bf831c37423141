/** The string functions of Go's standard library that the crontab and the cron parser are written with.
    A string is its characters; texts are valid UTF-8. */
module Text {
  import opened Options

  // ----- splitting and joining

  /** strings.Split by one character: never empty. */
  function Split(s: string, sep: char): (parts: seq<string>)
    ensures parts != []
  {
    if s == "" then [""]
    else
      var rest := Split(s[1..], sep);
      if s[0] == sep then [""] + rest else [[s[0]] + rest[0]] + rest[1..]
  }

  lemma {:induction false} SplitPast(piece: string, rest: string, sep: char)
    requires sep !in piece
    ensures Split(piece + [sep] + rest, sep) == [piece] + Split(rest, sep)
  {
    var s := piece + [sep] + rest;
    if piece == "" {
      assert s[1..] == rest;
    } else {
      assert s[1..] == piece[1..] + [sep] + rest;
      SplitPast(piece[1..], rest, sep);
      assert s[0] == piece[0] && [piece[0]] + piece[1..] == piece;
    }
  }

  lemma {:induction false} SplitOnePiece(piece: string, sep: char)
    requires sep !in piece
    ensures Split(piece, sep) == [piece]
  {
    if piece != "" {
      SplitOnePiece(piece[1..], sep);
      assert [piece[0]] + piece[1..] == piece;
    }
  }

  /** A separator between two texts splits them apart, whatever they hold. */
  lemma {:induction false} SplitConcat(a: string, b: string, sep: char)
    ensures Split(a + [sep] + b, sep) == Split(a, sep) + Split(b, sep)
  {
    hide Split;
    var s := a + [sep] + b;
    SplitStep(s, sep);
    SplitStep(a, sep);
    if a == "" {
      assert s[1..] == b;
    } else {
      assert s[1..] == a[1..] + [sep] + b && s[0] == a[0];
      SplitConcat(a[1..], b, sep);
      FirstGrows(a[0], Split(a[1..], sep), Split(b, sep));
    }
  }

  lemma SplitStep(s: string, sep: char)
    ensures s == "" ==> Split(s, sep) == [""]
    ensures s != "" && s[0] == sep ==> Split(s, sep) == [""] + Split(s[1..], sep)
    ensures s != "" && s[0] != sep ==>
              Split(s, sep) == [[s[0]] + Split(s[1..], sep)[0]] + Split(s[1..], sep)[1..]
  {
  }

  lemma FirstGrows(c: char, parts: seq<string>, more: seq<string>)
    requires parts != []
    ensures [[c] + (parts + more)[0]] + (parts + more)[1..] == [[c] + parts[0]] + parts[1..] + more
    ensures [""] + (parts + more) == [""] + parts + more
  {
    assert (parts + more)[1..] == parts[1..] + more;
  }

  /** Splitting undoes joining when no part holds the separator. */
  lemma {:induction false} SplitOfJoin(parts: seq<string>, sep: char)
    requires parts != [] && forall p <- parts :: sep !in p
    ensures Split(JoinWith(parts, [sep]), sep) == parts
  {
    assert parts[0] in parts;
    if |parts| == 1 {
      SplitOnePiece(parts[0], sep);
    } else {
      SplitOfJoin(parts[1..], sep);
      SplitPast(parts[0], JoinWith(parts[1..], [sep]), sep);
    }
  }

  /** strings.Cut. */
  function Cut(s: string, sep: string): (string, string) {
    if sep <= s then ("", s[|sep|..])
    else if s == "" then ("", "")
    else var (before, after) := Cut(s[1..], sep); ([s[0]] + before, after)
  }

  lemma {:induction false} CutAtSeparator(s: string, sep: string, rest: string)
    requires sep != "" && sep[0] !in s
    ensures Cut(s + sep + rest, sep) == (s, rest)
  {
    var whole := s + sep + rest;
    if s == "" {
      assert whole == sep + rest;
    } else {
      assert whole[1..] == s[1..] + sep + rest;
      CutAtSeparator(s[1..], sep, rest);
      assert whole[0] == s[0] && s == [s[0]] + s[1..];
    }
  }

  /** The separator stands here and nowhere before. */
  predicate FirstAt(s: string, sep: string, i: nat) {
    i <= |s| && sep <= s[i..] && forall k :: 0 <= k < i ==> !(sep <= s[k..])
  }

  predicate Nowhere(s: string, sep: string) {
    forall k :: 0 <= k <= |s| ==> !(sep <= s[k..])
  }

  /** What Cut finds is the first separator; without one everything is before it. */
  lemma {:induction false} CutIsFirst(s: string, sep: string, i: nat)
    requires FirstAt(s, sep, i)
    ensures i + |sep| <= |s| && Cut(s, sep) == (s[..i], s[i + |sep|..])
  {
    hide Cut;
    assert |s[i..]| == |s| - i;
    CutStep(s, sep);
    if i == 0 {
      assert s[0..] == s;
    } else {
      var tail := s[1..];
      assert s[0..] == s && tail[i - 1..] == s[i..];
      assert forall k :: 0 <= k < i - 1 ==> tail[k..] == s[k + 1..];
      CutIsFirst(tail, sep, i - 1);
      assert [s[0]] + tail[..i - 1] == s[..i];
      assert tail[i - 1 + |sep|..] == s[i + |sep|..];
    }
  }

  lemma CutStep(s: string, sep: string)
    ensures sep <= s ==> Cut(s, sep) == ("", s[|sep|..])
    ensures !(sep <= s) && s != "" ==> Cut(s, sep) == ([s[0]] + Cut(s[1..], sep).0, Cut(s[1..], sep).1)
  {
  }

  lemma {:induction false} CutNowhere(s: string, sep: string)
    requires Nowhere(s, sep)
    ensures Cut(s, sep) == (s, "")
  {
    assert s[0..] == s;
    if s != "" {
      var tail := s[1..];
      assert forall k :: 0 <= k <= |tail| ==> tail[k..] == s[k + 1..];
      CutNowhere(tail, sep);
      assert s == [s[0]] + tail;
    }
  }

  /** Where the character first stands, or the length of the string. */
  function IndexOf(s: string, c: char): (i: nat)
    ensures i <= |s| && (i < |s| <==> c in s)
    ensures i < |s| ==> s[i] == c && c !in s[..i]
  {
    if s == "" || s[0] == c then 0
    else
      assert s == [s[0]] + s[1..];
      1 + IndexOf(s[1..], c)
  }

  // ----- fields

  predicate IsSpace(c: char) {
    '\t' <= c <= '\r' || c == ' ' || c == '\U{85}' || c == '\U{A0}' || c == '\U{1680}' || '\U{2000}' <= c <= '\U{200A}'
    || c == '\U{2028}' || c == '\U{2029}' || c == '\U{202F}' || c == '\U{205F}' || c == '\U{3000}'
  }

  function WordLength(s: string): (n: nat)
    ensures n <= |s| && (s != "" && !IsSpace(s[0]) ==> n > 0)
  {
    if s == "" || IsSpace(s[0]) then 0 else 1 + WordLength(s[1..])
  }

  /** strings.Fields: the runs of non-space characters. */
  function Fields(s: string): seq<string> {
    if s == "" then []
    else if IsSpace(s[0]) then Fields(s[1..])
    else [s[..WordLength(s)]] + Fields(s[WordLength(s)..])
  }

  /** strings.Join. */
  function JoinWith(parts: seq<string>, sep: string): string {
    if parts == [] then ""
    else if |parts| == 1 then parts[0]
    else parts[0] + sep + JoinWith(parts[1..], sep)
  }

  predicate Word(s: string) {
    s != "" && forall c <- s :: !IsSpace(c)
  }

  lemma {:induction false} WordLengthIs(w: string, rest: string)
    requires (forall c <- w :: !IsSpace(c)) && (rest == "" || IsSpace(rest[0]))
    ensures WordLength(w + rest) == |w|
  {
    hide IsSpace;
    if w == "" {
      assert w + rest == rest;
    } else {
      assert (w + rest)[1..] == w[1..] + rest;
      WordLengthIs(w[1..], rest);
    }
  }

  lemma FirstFieldIs(w: string, rest: string)
    requires Word(w) && (rest == "" || IsSpace(rest[0]))
    ensures Fields(w + rest) == [w] + Fields(rest)
  {
    hide IsSpace;
    WordLengthIs(w, rest);
    assert (w + rest)[|w|..] == rest;
  }

  lemma {:induction false} WordLengthSpansAWord(s: string, i: nat)
    requires i < WordLength(s)
    ensures !IsSpace(s[i])
  {
    hide IsSpace;
    if i > 0 {
      WordLengthSpansAWord(s[1..], i - 1);
    }
  }

  lemma {:induction false} FieldsAreWords(s: string)
    ensures forall w <- Fields(s) :: Word(w)
  {
    hide IsSpace;
    if s != "" {
      if IsSpace(s[0]) {
        FieldsAreWords(s[1..]);
      } else {
        var n := WordLength(s);
        FieldsAreWords(s[n..]);
        forall c <- s[..n] ensures !IsSpace(c) {
          var i :| 0 <= i < n && s[i] == c;
          WordLengthSpansAWord(s, i);
        }
      }
    }
  }

  lemma {:induction false} FieldsOfWords(words: seq<string>)
    requires forall w <- words :: Word(w)
    ensures Fields(JoinWith(words, " ")) == words
  {
    hide IsSpace;
    if |words| == 1 {
      FirstFieldIs(words[0], "");
      assert words[0] + "" == words[0];
    } else if |words| > 1 {
      var rest := JoinWith(words[1..], " ");
      FieldsOfWords(words[1..]);
      SpaceIsSpace();
      FirstFieldIs(words[0], " " + rest);
      assert (" " + rest)[1..] == rest;
      assert words[0] + " " + rest == words[0] + (" " + rest);
    }
  }

  // ----- spacing

  predicate Blank(s: string) {
    forall c <- s :: IsSpace(c)
  }

  /** Every word with the gap that follows it. */
  function Spread(words: seq<string>, gaps: seq<string>): string
    requires |gaps| == |words|
  {
    if words == [] then "" else words[0] + gaps[0] + Spread(words[1..], gaps[1..])
  }

  /** Blank gaps, of which only the last may be empty. */
  predicate Gaps(gaps: seq<string>) {
    forall i :: 0 <= i < |gaps| ==> Blank(gaps[i]) && (i < |gaps| - 1 ==> gaps[i] != "")
  }

  /** The text is these words, with any spacing before, between and after them. */
  ghost predicate Spaced(s: string, words: seq<string>) {
    exists lead, gaps :: |gaps| == |words| && SpacedBy(s, words, lead, gaps)
  }

  predicate SpacedBy(s: string, words: seq<string>, lead: string, gaps: seq<string>)
    requires |gaps| == |words|
  {
    (forall w <- words :: Word(w)) && Blank(lead) && Gaps(gaps) && s == lead + Spread(words, gaps)
  }

  lemma {:induction false} FieldsSkipBlank(lead: string, s: string)
    requires Blank(lead)
    ensures Fields(lead + s) == Fields(s)
  {
    hide IsSpace;
    if lead == "" {
      assert lead + s == s;
    } else {
      assert (lead + s)[1..] == lead[1..] + s;
      FieldsSkipBlank(lead[1..], s);
    }
  }

  lemma {:induction false} FieldsOfSpread(words: seq<string>, gaps: seq<string>)
    requires |gaps| == |words| && (forall w <- words :: Word(w)) && Gaps(gaps)
    ensures Fields(Spread(words, gaps)) == words
  {
    hide IsSpace, Word, Fields, Gaps, Blank;
    if words == [] {
      NoFields();
    } else {
      var tail := Spread(words[1..], gaps[1..]);
      GapsBelow(gaps);
      FieldsOfSpread(words[1..], gaps[1..]);
      FieldsSkipBlank(gaps[0], tail);
      GapStarts(gaps[0], tail);
      FirstFieldIs(words[0], gaps[0] + tail);
      Associates(words[0], gaps[0], tail);
    }
  }

  lemma NoFields()
    ensures Fields("") == []
  {
  }

  lemma GapsBelow(gaps: seq<string>)
    requires Gaps(gaps) && gaps != []
    ensures Gaps(gaps[1..]) && Blank(gaps[0]) && (|gaps| > 1 ==> gaps[0] != "")
  {
    hide Blank;
    assert forall i :: 0 <= i < |gaps| - 1 ==> gaps[1..][i] == gaps[i + 1];
  }

  lemma GapStarts(gap: string, tail: string)
    requires Blank(gap) && (gap == "" ==> tail == "")
    ensures gap + tail == "" || IsSpace((gap + tail)[0])
  {
    hide IsSpace;
    assert gap != "" ==> gap[0] in gap;
  }

  /** The fields of a text are the one list of words it is the spacing of. */
  lemma {:induction false} FieldsIff(s: string, words: seq<string>)
    ensures Fields(s) == words <==> Spaced(s, words)
  {
    hide IsSpace, Word, Gaps, Blank, Spread;
    if lead, gaps :| |gaps| == |words| && SpacedBy(s, words, lead, gaps) {
      FieldsSkipBlank(lead, Spread(words, gaps));
      FieldsOfSpread(words, gaps);
    }
    var lead, gaps := SpacingOf(s);
  }

  lemma {:induction false} SpacingOf(s: string) returns (lead: string, gaps: seq<string>)
    ensures |gaps| == |Fields(s)| && SpacedBy(s, Fields(s), lead, gaps)
  {
    hide IsSpace;
    if s == "" {
      lead, gaps := "", [];
    } else if IsSpace(s[0]) {
      lead, gaps := SpacingOf(s[1..]);
      SpaceInFront(s, lead, gaps);
      lead := [s[0]] + lead;
    } else {
      var gap, rest := SpacingOf(s[WordLength(s)..]);
      WordInFront(s, gap, rest);
      lead, gaps := "", [gap] + rest;
    }
  }

  lemma SpaceInFront(s: string, lead: string, gaps: seq<string>)
    requires s != "" && IsSpace(s[0]) && |gaps| == |Fields(s[1..])| && SpacedBy(s[1..], Fields(s[1..]), lead, gaps)
    ensures Fields(s) == Fields(s[1..]) && SpacedBy(s, Fields(s), [s[0]] + lead, gaps)
  {
    hide IsSpace, Word, Gaps, Fields, Spread, Blank;
    FieldsPastSpace(s);
    BlankInFront(s[0], lead);
    Associates([s[0]], lead, Spread(Fields(s), gaps));
    assert s == [s[0]] + s[1..];
  }

  lemma BlankInFront(c: char, lead: string)
    requires IsSpace(c) && Blank(lead)
    ensures Blank([c] + lead)
  {
    hide IsSpace;
  }

  lemma Associates(a: string, b: string, c: string)
    ensures (a + b) + c == a + (b + c)
  {
  }

  lemma FieldsPastSpace(s: string)
    requires s != "" && IsSpace(s[0])
    ensures Fields(s) == Fields(s[1..])
  {
    hide IsSpace;
  }

  lemma WordInFront(s: string, gap: string, rest: seq<string>)
    requires s != "" && !IsSpace(s[0])
    requires var tail := s[WordLength(s)..]; |rest| == |Fields(tail)| && SpacedBy(tail, Fields(tail), gap, rest)
    ensures |[gap] + rest| == |Fields(s)| && SpacedBy(s, Fields(s), "", [gap] + rest)
  {
    hide IsSpace, Word, WordLength, Blank, Gaps;
    var word, tail := s[..WordLength(s)], s[WordLength(s)..];
    FieldsAreWords(s);
    assert Fields(s) == [word] + Fields(tail);
    WordEnds(s);
    GapIsNeeded(tail, Fields(tail), gap, rest);
    GapsInFront(gap, rest);
    SpreadInFront(word, Fields(tail), gap, rest);
    NothingIsBlank();
    assert s == word + tail;
  }

  lemma SpreadInFront(word: string, words: seq<string>, gap: string, rest: seq<string>)
    requires |rest| == |words|
    ensures Spread([word] + words, [gap] + rest) == word + (gap + Spread(words, rest))
  {
    assert ([word] + words)[1..] == words && ([gap] + rest)[1..] == rest;
  }

  lemma GapsInFront(gap: string, rest: seq<string>)
    requires Blank(gap) && Gaps(rest) && (rest != [] ==> gap != "")
    ensures Gaps([gap] + rest)
  {
    hide Blank;
  }

  lemma GapIsNeeded(tail: string, words: seq<string>, gap: string, rest: seq<string>)
    requires |rest| == |words| && SpacedBy(tail, words, gap, rest) && (tail != "" ==> IsSpace(tail[0]))
    ensures rest != [] ==> gap != ""
  {
    hide IsSpace, Word, Gaps, Blank;
    SpreadStarts(words, rest);
    assert gap == "" ==> tail == Spread(words, rest);
  }

  lemma NothingIsBlank()
    ensures Blank("")
  {
  }

  lemma WordEnds(s: string)
    ensures WordLength(s) < |s| ==> IsSpace(s[WordLength(s)])
  {
    hide IsSpace;
  }

  lemma SpreadStarts(words: seq<string>, gaps: seq<string>)
    requires |gaps| == |words| && forall w <- words :: Word(w)
    ensures words != [] ==> Spread(words, gaps) != "" && !IsSpace(Spread(words, gaps)[0])
  {
    hide IsSpace;
    if words != [] {
      assert Word(words[0]);
      assert words[0][0] in words[0];
    }
  }

  /** In plain ASCII: tab, line feed, vertical tab, form feed, carriage return and space. */
  lemma AsciiSpaces(c: char)
    requires c as int < 128
    ensures IsSpace(c) <==> c as int in {9, 10, 11, 12, 13, 32}
  {
  }

  lemma SpaceIsSpace()
    ensures IsSpace(' ') && !IsSpace('#') && !IsSpace('*') && !IsSpace(',')
    ensures forall c :: '0' <= c <= '9' ==> !IsSpace(c)
  {
  }

  // ----- numbers

  predicate IsDigit(c: char) {
    '0' <= c <= '9'
  }

  predicate Digits(s: string) {
    s != "" && forall c <- s :: IsDigit(c)
  }

  function DigitsValue(s: string): nat
    requires forall c <- s :: IsDigit(c)
  {
    if s == "" then 0
    else
      var last := s[|s| - 1];
      assert IsDigit(last);
      10 * DigitsValue(s[..|s| - 1]) + (last as int - '0' as int)
  }

  /** strconv.Atoi on unbounded integers: an optional sign and decimal digits. */
  function Atoi(s: string): Option<int> {
    var signed := s != "" && (s[0] == '-' || s[0] == '+');
    var digits := if signed then s[1..] else s;
    if !Digits(digits) then None
    else
      var n: int := DigitsValue(digits);
      Some(if signed && s[0] == '-' then -n else n)
  }

  /** strconv.Itoa, for the numbers a cron field holds. */
  function Itoa(n: nat): (s: string)
    ensures Digits(s)
  {
    if n < 10 then ['0' + n as char] else Itoa(n / 10) + ['0' + (n % 10) as char]
  }

  lemma {:induction false} DigitsOfItoa(n: nat)
    ensures DigitsValue(Itoa(n)) == n
  {
    if n < 10 {
      assert Itoa(n)[..0] == "";
    } else {
      DigitsOfItoa(n / 10);
      assert Itoa(n)[..|Itoa(n)| - 1] == Itoa(n / 10);
    }
  }

  /** A sign is read, whichever it is; without digits nothing is. */
  lemma AtoiOfSigned(n: nat)
    ensures var m: int := n; Atoi("+" + Itoa(n)) == Some(m) && Atoi("-" + Itoa(n)) == Some(-m)
    ensures Atoi("") == None && Atoi("-") == None
  {
    DigitsOfItoa(n);
    assert ("+" + Itoa(n))[1..] == Itoa(n) && ("-" + Itoa(n))[1..] == Itoa(n);
  }

  lemma AtoiOfItoa(n: nat)
    ensures Atoi(Itoa(n)) == Some(n)
  {
    DigitsOfItoa(n);
    assert Itoa(n)[0] in Itoa(n);
  }
}
