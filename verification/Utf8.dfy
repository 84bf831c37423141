/** Strings as Go holds them: the alphabetical order and the length that internal/diag/suggest.go takes of names
    are those of their UTF-8 bytes (RFC 3629, section 3). */
module Utf8 {
  import opened Suggestions

  function Encoded(c: char): (bytes: seq<int>)
    ensures |bytes| == (if c as int < 0x80 then 1 else if c as int < 0x800 then 2
                        else if c as int < 0x10000 then 3 else 4)
  {
    var n := c as int;
    if n < 0x80 then [n]
    else if n < 0x800 then [0xC0 + n / 64, 0x80 + n % 64]
    else if n < 0x10000 then [0xE0 + n / 64 / 64, 0x80 + n / 64 % 64, 0x80 + n % 64]
    else [0xF0 + n / 64 / 64 / 64, 0x80 + n / 64 / 64 % 64, 0x80 + n / 64 % 64, 0x80 + n % 64]
  }

  function Bytes(s: string): seq<int> {
    if s == "" then [] else Encoded(s[0]) + Bytes(s[1..])
  }

  /** The first byte that differs is smaller, or x ends where y goes on. */
  predicate BytesBefore(x: seq<int>, y: seq<int>) {
    exists i :: 0 <= i <= |x| && i < |y| && SplitAt(x, y, i)
  }

  predicate SplitAt(x: seq<int>, y: seq<int>, i: nat)
    requires i <= |x| && i < |y|
  {
    x[..i] == y[..i] && (i == |x| || x[i] < y[i])
  }

  lemma BytesBeforeOneWay(x: seq<int>, y: seq<int>)
    requires BytesBefore(x, y)
    ensures !BytesBefore(y, x)
  {
    var i :| 0 <= i <= |x| && i < |y| && SplitAt(x, y, i);
    forall j | 0 <= j <= |y| && j < |x| ensures !SplitAt(y, x, j) {
      if j > i {
        assert x[..j][i] == x[i] && y[..j][i] == y[i];
      } else if j < i {
        assert x[..i][j] == x[j] && y[..i][j] == y[j];
      }
    }
  }

  lemma SamePrefix(p: seq<int>, x: seq<int>, y: seq<int>)
    requires BytesBefore(x, y)
    ensures BytesBefore(p + x, p + y)
  {
    var i :| 0 <= i <= |x| && i < |y| && SplitAt(x, y, i);
    assert (p + x)[..|p| + i] == p + x[..i] && (p + y)[..|p| + i] == p + y[..i];
    assert SplitAt(p + x, p + y, |p| + i);
  }

  lemma SixBits(m: int, n: int)
    requires m < n
    ensures m / 64 < n / 64 || (m / 64 == n / 64 && m % 64 < n % 64)
  {
  }

  lemma LeadByte(c: char)
    ensures Encoded(c)[0] <= (match |Encoded(c)| case 1 => 0x7F case 2 => 0xDF case 3 => 0xEF case _ => 0xF7)
    ensures Encoded(c)[0] >= (match |Encoded(c)| case 1 => 0 case 2 => 0xC0 case 3 => 0xE0 case _ => 0xF0)
  {
  }

  /** Where the encodings of two runes in order first differ, the smaller rune has the smaller byte. */
  lemma RunesInOrder(c: char, d: char) returns (i: nat)
    requires c < d
    ensures i < |Encoded(c)| && i < |Encoded(d)|
    ensures Encoded(c)[..i] == Encoded(d)[..i] && Encoded(c)[i] < Encoded(d)[i]
  {
    if |Encoded(c)| == |Encoded(d)| {
      i := SameLengthInOrder(c, d);
    } else {
      hide Encoded;
      LeadByte(c);
      LeadByte(d);
      i := 0;
    }
  }

  lemma SameLengthInOrder(c: char, d: char) returns (i: nat)
    requires c < d && |Encoded(c)| == |Encoded(d)|
    ensures i < |Encoded(c)|
    ensures Encoded(c)[..i] == Encoded(d)[..i] && Encoded(c)[i] < Encoded(d)[i]
  {
    var m, n := c as int, d as int;
    var last := |Encoded(c)| - 1;
    SixBits(m, n);
    if last == 0 || m / 64 == n / 64 {
      i := last;
    } else {
      SixBits(m / 64, n / 64);
      if last == 1 || m / 64 / 64 == n / 64 / 64 {
        i := last - 1;
      } else {
        SixBits(m / 64 / 64, n / 64 / 64);
        i := if last == 2 || m / 64 / 64 / 64 == n / 64 / 64 / 64 then last - 2 else last - 3;
      }
    }
  }

  lemma {:induction false} BeforeInBytes(a: string, b: string)
    requires Before(a, b)
    ensures BytesBefore(Bytes(a), Bytes(b))
  {
    hide Encoded;
    if a == "" {
      assert SplitAt(Bytes(a), Bytes(b), 0);
    } else if a[0] == b[0] {
      BeforeInBytes(a[1..], b[1..]);
      SamePrefix(Encoded(a[0]), Bytes(a[1..]), Bytes(b[1..]));
    } else {
      var i := RunesInOrder(a[0], b[0]);
      var x, y := Encoded(a[0]), Encoded(b[0]);
      assert (x + Bytes(a[1..]))[..i] == x[..i] && (y + Bytes(b[1..]))[..i] == y[..i];
      assert SplitAt(Bytes(a), Bytes(b), i);
    }
  }

  /** The order of names is the order of their bytes. */
  lemma BeforeIff(a: string, b: string)
    ensures Before(a, b) <==> BytesBefore(Bytes(a), Bytes(b))
  {
    hide Before, Bytes, BytesBefore;
    BeforeIsTotal(a, b);
    if Before(a, b) {
      BeforeInBytes(a, b);
    } else if Before(b, a) {
      BeforeInBytes(b, a);
      BytesBeforeOneWay(Bytes(b), Bytes(a));
    } else {
      NotBeforeItself(Bytes(a));
    }
  }

  lemma NotBeforeItself(x: seq<int>)
    ensures !BytesBefore(x, x)
  {
  }

  /** The length of a name is the number of its bytes. */
  lemma {:induction false} ByteLengthIs(s: string)
    ensures ByteLength(s) == |Bytes(s)|
  {
    if s != "" {
      ByteLengthIs(s[1..]);
    }
  }
}
