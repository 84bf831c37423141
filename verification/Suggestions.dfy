/** The suggestions for a mistyped name: Suggest in internal/diag/suggest.go and suggestZone in
    internal/cronx/zone.go. Lower-casing is a parameter. */
module Suggestions {
  import opened EditDistance
  import opened Slices

  const MAX_DISTANCE := 2
  const MAX_SUGGEST_DISTANCE := 3

  // ----- the alphabetical order

  /** Byte order of the encoded strings, which is the order of their runes. */
  predicate Before(a: string, b: string) {
    if b == "" then false
    else if a == "" then true
    else if a[0] != b[0] then a[0] < b[0]
    else Before(a[1..], b[1..])
  }

  lemma {:induction false} BeforeIsTotal(a: string, b: string)
    ensures a == b || Before(a, b) || Before(b, a)
    ensures !(Before(a, b) && Before(b, a)) && !Before(a, a)
  {
    if a != "" && b != "" {
      BeforeIsTotal(a[1..], b[1..]);
      assert a == [a[0]] + a[1..] && b == [b[0]] + b[1..];
    }
    if a != "" {
      BeforeIsTotal(a[1..], a[1..]);
    }
  }

  lemma {:induction false} BeforeIsTransitive(a: string, b: string, c: string)
    requires Before(a, b) && Before(b, c)
    ensures Before(a, c)
  {
    if a != "" && a[0] == b[0] == c[0] {
      BeforeIsTransitive(a[1..], b[1..], c[1..]);
    }
  }

  predicate Ascending(s: seq<string>) {
    forall i, j :: 0 <= i < j < |s| ==> s[i] == s[j] || Before(s[i], s[j])
  }

  lemma {:induction false} InsertedAscends(x: string, s: seq<string>)
    requires Ascending(s)
    ensures Ascending(Inserted(Before, x, s))
  {
    if s != [] {
      BeforeIsTotal(x, s[0]);
      if Before(x, s[0]) {
        forall j | 0 <= j < |s| ensures Before(x, s[j]) {
          if s[j] != s[0] {
            BeforeIsTransitive(x, s[0], s[j]);
          }
        }
      } else {
        InsertedAscends(x, s[1..]);
        var rest := Inserted(Before, x, s[1..]);
        forall j | 0 <= j < |rest| ensures s[0] == rest[j] || Before(s[0], rest[j]) {
          assert rest[j] in rest;
        }
      }
    }
  }

  lemma {:induction false} SortedAscends(s: seq<string>)
    ensures Ascending(Sorted(Before, s))
  {
    if s != [] {
      SortedAscends(s[1..]);
      InsertedAscends(s[0], Sorted(Before, s[1..]));
    }
  }

  // ----- Suggest

  function ByteLength(s: string): nat {
    if s == "" then 0
    else
      (if s[0] < '\U{80}' then 1 else if s[0] < '\U{800}' then 2 else if s[0] < '\U{10000}' then 3 else 4)
      + ByteLength(s[1..])
  }

  /** How far a candidate is from what was written; one that only goes on where the writer stopped is not far. */
  function Score(lower: string -> string, written: string, candidate: string): nat {
    if lower(written) <= lower(candidate) then 0 else Levenshtein(lower(written), lower(candidate))
  }

  /** Nearer first, then shorter, then alphabetical. */
  predicate Better(lower: string -> string, written: string, a: string, b: string) {
    var x, y := Score(lower, written, a), Score(lower, written, b);
    x < y || (x == y && (ByteLength(a) < ByteLength(b) || (ByteLength(a) == ByteLength(b) && Before(a, b))))
  }

  predicate IsClosest(lower: string -> string, written: string, known: seq<string>, r: string) {
    r in known && Score(lower, written, r) <= MAX_DISTANCE
    && forall c <- known :: c == r || Better(lower, written, r, c)
  }

  predicate NoneIsClose(lower: string -> string, written: string, known: seq<string>) {
    forall c <- known :: Score(lower, written, c) > MAX_DISTANCE
  }

  lemma FirstClose(lower: string -> string, written: string, seen: seq<string>, c: string)
    requires NoneIsClose(lower, written, seen) && Score(lower, written, c) <= MAX_DISTANCE
    ensures IsClosest(lower, written, seen + [c], c)
  {
    hide Score, ByteLength, Before;
  }

  predicate Displaces(lower: string -> string, written: string, c: string, best: string) {
    var x, y := Score(lower, written, c), Score(lower, written, best);
    x < y || (x == y && ByteLength(c) < ByteLength(best))
  }

  lemma Displaced(lower: string -> string, written: string, seen: seq<string>, best: string, c: string)
    requires IsClosest(lower, written, seen, best) && Displaces(lower, written, c, best)
    ensures IsClosest(lower, written, seen + [c], c)
  {
    hide Score, ByteLength, Before;
  }

  lemma Stays(lower: string -> string, written: string, seen: seq<string>, best: string, c: string)
    requires IsClosest(lower, written, seen, best) && !Displaces(lower, written, c, best)
    requires best == c || Before(best, c)
    ensures IsClosest(lower, written, seen + [c], best)
  {
    hide Score, ByteLength, Before;
  }

  lemma IsSeen(lower: string -> string, written: string, known: seq<string>, r: string)
    requires IsClosest(lower, written, known, r)
    ensures r in known && !NoneIsClose(lower, written, known)
  {
    hide Score, Better;
  }

  lemma SameNames(lower: string -> string, written: string, known: seq<string>, other: seq<string>, r: string)
    requires IsClosest(lower, written, known, r) && forall c :: c in known <==> c in other
    ensures IsClosest(lower, written, other, r) && !NoneIsClose(lower, written, other)
  {
    hide Score, Better;
  }

  /** Nothing for an empty or a known name; otherwise the closest known name, if any is within two edits. */
  method Suggest(lower: string -> string, written: string, known: seq<string>) returns (best: string)
    ensures written == "" || written in known || NoneIsClose(lower, written, known) ==> best == ""
    ensures written != "" && written !in known && !NoneIsClose(lower, written, known) ==>
              IsClosest(lower, written, known, best)
  {
    hide Levenshtein, Before, ByteLength, IsClosest;
    if written == "" || |known| == 0 {
      return "";
    }
    var lowered := lower(written);
    var candidates := Sorted(Before, known);
    SortedAscends(known);
    var bestDistance := MAX_DISTANCE + 1;
    best := "";
    for i := 0 to |candidates|
      invariant written !in candidates[..i]
      invariant bestDistance > MAX_DISTANCE ==>
                  best == "" && bestDistance == MAX_DISTANCE + 1 && NoneIsClose(lower, written, candidates[..i])
      invariant bestDistance <= MAX_DISTANCE ==>
                  bestDistance == Score(lower, written, best) && IsClosest(lower, written, candidates[..i], best)
    {
      var candidate := candidates[i];
      assert candidates[..i + 1] == candidates[..i] + [candidate];
      if candidate == written {
        assert candidate in candidates;
        return "";
      }
      var name := lower(candidate);
      var distance := Distance(lowered, name);
      if lowered <= name {
        distance := 0;
      }
      if bestDistance > MAX_DISTANCE {
        if distance <= MAX_DISTANCE {
          FirstClose(lower, written, candidates[..i], candidate);
        }
      } else if Displaces(lower, written, candidate, best) {
        Displaced(lower, written, candidates[..i], best, candidate);
      } else {
        IsSeen(lower, written, candidates[..i], best);
        Stays(lower, written, candidates[..i], best, candidate);
      }
      if distance > MAX_DISTANCE {
        continue;
      }
      if distance < bestDistance || (distance == bestDistance && ByteLength(candidate) < ByteLength(best)) {
        best, bestDistance := candidate, distance;
      }
    }
    assert candidates[..|candidates|] == candidates;
    if bestDistance <= MAX_DISTANCE {
      SameNames(lower, written, candidates, known, best);
    }
  }

  /** What is close to what was written: a continuation of it, or at most two edits away. */
  lemma CloseIff(lower: string -> string, written: string, c: string)
    ensures Score(lower, written, c) <= MAX_DISTANCE
       <==> lower(written) <= lower(c) || exists script :: Turns(lower(written), script, lower(c)) && |script| <= 2
    ensures Score(lower, written, c) == 0 <==> lower(written) <= lower(c)
  {
    var a, b := lower(written), lower(c);
    var shortest := ShortestScript(a, b);
    ZeroIffEqual(a, b);
    if script :| Turns(a, script, b) && |script| <= 2 {
      NoScriptIsShorter(a, script, b);
    }
  }

  /** The answer depends on which names are known, not on their order or repetition. */
  lemma ClosestIsUnique(lower: string -> string, written: string, known: seq<string>, other: seq<string>,
                        r: string, s: string)
    requires forall c :: c in known <==> c in other
    requires IsClosest(lower, written, known, r) && IsClosest(lower, written, other, s)
    ensures r == s
  {
    hide Score, Before, ByteLength;
    BeforeIsTotal(r, s);
  }

  // ----- suggestZone

  function ZoneDistance(lower: string -> string, name: string, zone: string): nat {
    Levenshtein(lower(name), lower(zone))
  }

  /** Within the budget, no zone nearer, and none as near before it in the alphabet. */
  predicate IsNearestZone(lower: string -> string, name: string, zones: seq<string>, r: string) {
    r in zones && ZoneDistance(lower, name, r) <= MAX_SUGGEST_DISTANCE
    && forall z <- zones :: z == r || ZoneDistance(lower, name, r) < ZoneDistance(lower, name, z)
                         || (ZoneDistance(lower, name, r) == ZoneDistance(lower, name, z) && Before(r, z))
  }

  predicate NoZoneIsNear(lower: string -> string, name: string, zones: seq<string>) {
    forall z <- zones :: ZoneDistance(lower, name, z) > MAX_SUGGEST_DISTANCE
  }

  method SuggestZone(lower: string -> string, name: string, zones: seq<string>) returns (best: string)
    ensures NoZoneIsNear(lower, name, zones) ==> best == ""
    ensures !NoZoneIsNear(lower, name, zones) ==> IsNearestZone(lower, name, zones, best)
  {
    hide Levenshtein, Before;
    var lowered := lower(name);
    best := "";
    var bestDist := MAX_SUGGEST_DISTANCE + 1;
    for i := 0 to |zones|
      invariant bestDist > MAX_SUGGEST_DISTANCE ==>
                  best == "" && bestDist == MAX_SUGGEST_DISTANCE + 1 && NoZoneIsNear(lower, name, zones[..i])
      invariant bestDist <= MAX_SUGGEST_DISTANCE ==>
                  bestDist == ZoneDistance(lower, name, best) && IsNearestZone(lower, name, zones[..i], best)
    {
      var cand := zones[i];
      assert zones[..i + 1] == zones[..i] + [cand];
      var d := EditDistance.EditDistance(lowered, lower(cand));
      NothingBeforeEmpty(cand);
      forall z | z in zones[..i] && Before(cand, best) && Before(best, z) ensures Before(cand, z) {
        BeforeIsTransitive(cand, best, z);
      }
      BeforeIsTotal(cand, best);
      if d < bestDist {
        best, bestDist := cand, d;
      } else if d == bestDist && Before(cand, best) {
        best := cand;
      }
    }
    assert zones[..|zones|] == zones;
    if bestDist > MAX_SUGGEST_DISTANCE {
      return "";
    }
  }

  /** A zone is near when at most three edits lead to it. */
  lemma NearIff(lower: string -> string, name: string, zone: string)
    ensures ZoneDistance(lower, name, zone) <= MAX_SUGGEST_DISTANCE
       <==> exists script :: Turns(lower(name), script, lower(zone)) && |script| <= 3
  {
    var a, b := lower(name), lower(zone);
    var shortest := ShortestScript(a, b);
    if script :| Turns(a, script, b) && |script| <= 3 {
      NoScriptIsShorter(a, script, b);
    }
  }

  lemma NothingBeforeEmpty(s: string)
    ensures !Before(s, "")
  {
  }

  lemma NearestZoneIsUnique(lower: string -> string, name: string, zones: seq<string>, other: seq<string>,
                            r: string, s: string)
    requires forall z :: z in zones <==> z in other
    requires IsNearestZone(lower, name, zones, r) && IsNearestZone(lower, name, other, s)
    ensures r == s
  {
    hide Before, ZoneDistance;
    BeforeIsTotal(r, s);
  }
}
