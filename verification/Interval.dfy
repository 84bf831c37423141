/** Interval schedules, internal/cronx/interval.go: a grid of whole seconds anchored at the Unix epoch.
    Instants are nanoseconds since the epoch, intervals are nanoseconds. */
module Interval {
  import opened Integers

  const SECOND := 1_000_000_000

  /** time.Time.Unix(): the second an instant lies in, counted downwards before the epoch too. */
  function Unix(at: int): (s: int)
    ensures s * SECOND <= at < (s + 1) * SECOND
  {
    at / SECOND
  }

  function IntervalStep(d: int): (step: int)
    requires d >= SECOND
    ensures step >= 1
  {
    QuoTrunc(d, SECOND)
  }

  function GridPoint(k: int, step: int): int {
    k * step * SECOND
  }

  predicate OnGrid(at: int, step: int)
    requires step >= 1
  {
    at % SECOND == 0 && at / SECOND % step == 0
  }

  // ----- the rounding divisions

  lemma TruncationBounds(a: int, b: int)
    requires b > 0
    ensures a >= 0 ==> b * QuoTrunc(a, b) <= a < b * QuoTrunc(a, b) + b
    ensures a <= 0 ==> b * QuoTrunc(a, b) - b < a <= b * QuoTrunc(a, b)
  {
  }

  method FloorDiv(a: int, b: int) returns (q: int)
    requires b > 0
    ensures b * q <= a < b * q + b
  {
    TruncationBounds(a, b);
    q := QuoTrunc(a, b);
    if RemTrunc(a, b) != 0 && a < 0 {
      q := q - 1;
    }
  }

  method CeilDiv(a: int, b: int) returns (q: int)
    requires b > 0
    ensures b * q - b < a <= b * q
  {
    TruncationBounds(a, b);
    q := QuoTrunc(a, b);
    if RemTrunc(a, b) != 0 && a > 0 {
      q := q + 1;
    }
  }

  // ----- grid points and instants

  lemma Product(n: int, step: int)
    requires step >= 1
    ensures n >= 1 ==> n * step >= step
    ensures n <= -1 ==> n * step <= -step
  {
  }

  /** Multiples rise by at least a step. */
  lemma Multiples(step: int, j: int, k: int)
    requires step >= 1
    ensures j < k ==> j * step + step <= k * step
    ensures j > k ==> k * step + step <= j * step
  {
    Product(k - j, step);
    assert (k - j) * step == k * step - j * step;
  }

  lemma Ordered(step: int, j: int, k: int)
    requires step >= 1
    ensures j < k <==> GridPoint(j, step) < GridPoint(k, step)
  {
  }

  lemma QuotientIs(step: int, a: int, q: int)
    requires step >= 1 && q * step <= a < q * step + step
    ensures a / step == q
  {
    var p := a / step;
    assert p * step <= a < p * step + step;
    Multiples(step, p, q);
  }

  lemma GridIsGrid(step: int, k: int)
    requires step >= 1
    ensures OnGrid(GridPoint(k, step), step)
  {
    QuotientIs(SECOND, GridPoint(k, step), k * step);
    QuotientIs(step, k * step, k);
  }

  lemma OnGridHasIndex(at: int, step: int) returns (k: int)
    requires step >= 1 && OnGrid(at, step)
    ensures at == GridPoint(k, step)
  {
    k := at / SECOND / step;
  }

  /** A grid point is after an instant exactly when its second is a later one. */
  lemma AfterSecond(step: int, k: int, at: int)
    ensures GridPoint(k, step) > at <==> k * step > Unix(at)
    ensures GridPoint(k, step) >= at <==> k * step > Unix(at) || (k * step == Unix(at) && at % SECOND == 0)
  {
  }

  // ----- next and previous

  ghost predicate IsNextPoint(step: int, from: int, at: int)
    requires step >= 1
  {
    OnGrid(at, step) && at > from && forall g :: OnGrid(g, step) && g > from ==> at <= g
  }

  ghost predicate IsPrevPoint(step: int, from: int, at: int)
    requires step >= 1
  {
    OnGrid(at, step) && at < from && forall g :: OnGrid(g, step) && g < from ==> g <= at
  }

  lemma NextIndex(step: int, from: int, k: int)
    requires step >= 1 && step * k - step <= Unix(from) < step * k
    ensures IsNextPoint(step, from, GridPoint(k, step))
  {
    hide OnGrid, GridPoint;
    GridIsGrid(step, k);
    AfterSecond(step, k, from);
    forall g | OnGrid(g, step) && g > from ensures GridPoint(k, step) <= g {
      var j := OnGridHasIndex(g, step);
      AfterSecond(step, j, from);
      Multiples(step, j, k);
      Ordered(step, j, k);
    }
  }

  /** The first grid point strictly after the cursor, whatever fraction of a second the cursor holds. */
  method IntervalNext(d: int, from: int) returns (at: int)
    requires d >= SECOND
    ensures IsNextPoint(IntervalStep(d), from, at)
  {
    hide IntervalStep, OnGrid, IsNextPoint, Unix, GridPoint;
    var step := IntervalStep(d);
    var k := FloorDiv(Unix(from), step);
    k := k + 1;
    at := GridPoint(k, step);
    while !(at > from)
      invariant at == GridPoint(k, step) && step * k - step <= Unix(from)
      decreases from - at
    {
      AfterSecond(step, k, from);
      Ordered(step, k, k + 1);
      k := k + 1;
      at := GridPoint(k, step);
    }
    AfterSecond(step, k, from);
    NextIndex(step, from, k);
  }

  /** The last grid point before the second the cursor lies in. */
  lemma PrevIndex(step: int, from: int, k: int)
    requires step >= 1 && step * k < Unix(from) <= step * k + step
    ensures IsPrevPoint(step, Unix(from) * SECOND, GridPoint(k, step))
    ensures GridPoint(k, step) < from
  {
    hide OnGrid, GridPoint;
    GridIsGrid(step, k);
    AfterSecond(step, k, Unix(from) * SECOND);
    AfterSecond(step, k, from);
    forall g | OnGrid(g, step) && g < Unix(from) * SECOND ensures g <= GridPoint(k, step) {
      var j := OnGridHasIndex(g, step);
      AfterSecond(step, j, Unix(from) * SECOND);
      Multiples(step, j, k);
      Ordered(step, k, j);
    }
  }

  method IntervalPrev(d: int, from: int) returns (at: int)
    requires d >= SECOND
    ensures IsPrevPoint(IntervalStep(d), Unix(from) * SECOND, at)
  {
    hide IntervalStep, OnGrid, IsPrevPoint, Unix, GridPoint;
    var step := IntervalStep(d);
    var k := CeilDiv(Unix(from), step);
    k := k - 1;
    at := GridPoint(k, step);
    while !(at < from)
      invariant at == GridPoint(k, step) && step * k < Unix(from) + step
      invariant Unix(from) <= step * k + step && (at < from ==> step * k < Unix(from))
      decreases at - from
    {
      AfterSecond(step, k, from);
      Ordered(step, k - 1, k);
      k := k - 1;
      at := GridPoint(k, step);
    }
    PrevIndex(step, from, k);
  }

  /** What IntervalPrev returns is the nearest grid point before the cursor unless the cursor has a fraction
      of a second and the second it lies in is a grid point: the code then skips that point. */
  lemma PrevIsNearestIff(step: int, from: int, at: int)
    requires step >= 1 && IsPrevPoint(step, Unix(from) * SECOND, at)
    ensures IsPrevPoint(step, from, at) <==> !(from % SECOND != 0 && OnGrid(Unix(from) * SECOND, step))
  {
    hide OnGrid;
    forall g | OnGrid(g, step) && g < from ensures g <= Unix(from) * SECOND {
      var k := OnGridHasIndex(g, step);
      AfterSecond(step, k, from);
      assert GridPoint(k, step) <= Unix(from) * SECOND;
    }
    assert OnGrid(Unix(from) * SECOND, step) || forall g :: OnGrid(g, step) && g < from ==> g < Unix(from) * SECOND;
  }

  /** Ten and a half seconds on a ten second grid: the point before is 10, the code answers 0. */
  lemma PrevSkipsAPoint()
    ensures IsPrevPoint(10, Unix(21 * SECOND / 2) * SECOND, 0) && !IsPrevPoint(10, 21 * SECOND / 2, 0)
    ensures IsPrevPoint(10, 21 * SECOND / 2, 10 * SECOND)
  {
    PrevIndex(10, 21 * SECOND / 2, 0);
    PrevIsNearestIff(10, 21 * SECOND / 2, 0);
    PrevIndex(10, 11 * SECOND, 1);
    forall g | OnGrid(g, 10) && g < 21 * SECOND / 2 ensures g <= 10 * SECOND {
      var k := OnGridHasIndex(g, 10);
    }
  }

  /** On grid points one step forward and one back cancel. */
  lemma PrevUndoesNext(step: int, from: int, at: int, back: int)
    requires step >= 1 && OnGrid(from, step) && IsNextPoint(step, from, at) && IsPrevPoint(step, at, back)
    ensures back == from
  {
  }

  /** The step drops the fraction of a second of the interval, so the grid is the interval's own exactly when
      it has none; Parse rejects only intervals below one second. */
  lemma StepIsTheIntervalIff(d: int)
    requires d >= SECOND
    ensures GridPoint(1, IntervalStep(d)) == d <==> d % SECOND == 0
  {
  }

  /** An interval of a second and a half runs on the grid of whole seconds. */
  lemma HalfASecondIsDropped()
    ensures GridPoint(1, IntervalStep(3 * SECOND / 2)) == SECOND
  {
  }

  // ----- between

  function Points(step: int, lo: int, hi: int): seq<int>
    decreases hi - lo + 1
  {
    if lo > hi then [] else [GridPoint(lo, step)] + Points(step, lo + 1, hi)
  }

  /** The index of the last grid point at or before an instant. */
  function LastIndex(step: int, at: int): (k: int)
    requires step >= 1
  {
    Unix(at) / step
  }

  function Between(step: int, from: int, upTo: int): seq<int>
    requires step >= 1
  {
    Points(step, LastIndex(step, from) + 1, LastIndex(step, upTo))
  }

  lemma {:induction false} PointsAppend(step: int, lo: int, mid: int, hi: int)
    requires lo <= mid + 1 && mid <= hi
    ensures Points(step, lo, hi) == Points(step, lo, mid) + Points(step, mid + 1, hi)
    decreases mid - lo + 1
  {
    hide GridPoint;
    if lo <= mid {
      PointsAppend(step, lo + 1, mid, hi);
    }
  }

  method IntervalBetween(d: int, from: int, upTo: int) returns (out: seq<int>)
    requires d >= SECOND
    ensures out == Between(IntervalStep(d), from, upTo)
  {
    hide IntervalStep, GridPoint, Unix;
    var step := IntervalStep(d);
    var lo := FloorDiv(Unix(from), step);
    var hi := FloorDiv(Unix(upTo), step);
    QuotientIs(step, Unix(from), lo);
    QuotientIs(step, Unix(upTo), hi);
    lo := lo + 1;
    out := [];
    var k := lo;
    while k <= hi
      invariant lo <= k && (k <= hi + 1 || k == lo)
      invariant out == Points(step, lo, k - 1)
      decreases hi - k
    {
      PointsAppend(step, lo, k - 1, k);
      out := out + [GridPoint(k, step)];
      k := k + 1;
    }
  }

  lemma {:induction false} PointsAre(step: int, lo: int, hi: int, i: nat)
    requires i < |Points(step, lo, hi)|
    ensures lo + i <= hi && Points(step, lo, hi)[i] == GridPoint(lo + i, step)
    decreases i
  {
    hide GridPoint;
    if i > 0 {
      PointsAre(step, lo + 1, hi, i - 1);
    }
  }

  lemma {:induction false} PointIsListed(step: int, lo: int, hi: int, k: int)
    requires lo <= k <= hi
    ensures GridPoint(k, step) in Points(step, lo, hi)
    decreases k - lo
  {
    hide GridPoint;
    if lo < k {
      PointIsListed(step, lo + 1, hi, k);
    }
  }

  /** The list holds every grid point in (from, upTo] and nothing else, in rising order. */
  lemma BetweenIsEveryPoint(step: int, from: int, upTo: int, at: int)
    requires step >= 1
    ensures at in Between(step, from, upTo) <==> OnGrid(at, step) && from < at <= upTo
    ensures forall i, j :: 0 <= i < j < |Between(step, from, upTo)| ==>
              Between(step, from, upTo)[i] < Between(step, from, upTo)[j]
  {
    hide OnGrid, GridPoint, Points, Unix, LastIndex;
    var lo, hi := LastIndex(step, from) + 1, LastIndex(step, upTo);
    var out := Points(step, lo, hi);
    if at in out {
      var i :| 0 <= i < |out| && out[i] == at;
      PointsAre(step, lo, hi, i);
      GridIsGrid(step, lo + i);
      IndexBounds(step, from, lo + i);
      IndexBounds(step, upTo, lo + i);
    }
    if OnGrid(at, step) && from < at <= upTo {
      var k := OnGridHasIndex(at, step);
      IndexBounds(step, from, k);
      IndexBounds(step, upTo, k);
      PointIsListed(step, lo, hi, k);
    }
    forall i, j | 0 <= i < j < |out| ensures out[i] < out[j] {
      PointsAre(step, lo, hi, i);
      PointsAre(step, lo, hi, j);
      Ordered(step, lo + i, lo + j);
    }
  }

  lemma IndexBounds(step: int, at: int, k: int)
    requires step >= 1
    ensures GridPoint(k, step) <= at <==> k <= LastIndex(step, at)
  {
    hide GridPoint, Unix;
    AfterSecond(step, k, at);
    var q := Unix(at) / step;
    assert q * step <= Unix(at) < q * step + step;
    Multiples(step, k, q);
  }

  lemma LastIndexRises(step: int, a: int, b: int)
    requires step >= 1 && a <= b
    ensures LastIndex(step, a) <= LastIndex(step, b)
  {
    hide LastIndex, GridPoint;
    IndexBounds(step, a, LastIndex(step, a));
    IndexBounds(step, b, LastIndex(step, a));
  }

  /** Any cut splits the list, with nothing lost and nothing repeated. */
  lemma BetweenSplits(step: int, from: int, cut: int, upTo: int)
    requires step >= 1 && from <= cut <= upTo
    ensures Between(step, from, upTo) == Between(step, from, cut) + Between(step, cut, upTo)
  {
    hide LastIndex, Points;
    LastIndexRises(step, from, cut);
    LastIndexRises(step, cut, upTo);
    PointsAppend(step, LastIndex(step, from) + 1, LastIndex(step, cut), LastIndex(step, upTo));
  }

  /** The list is the chain of next points up to its end. */
  lemma BetweenIsTheChain(step: int, from: int, upTo: int, at: int)
    requires step >= 1 && IsNextPoint(step, from, at)
    ensures Between(step, from, upTo) == if at <= upTo then [at] + Between(step, at, upTo) else []
  {
    hide LastIndex, GridPoint, OnGrid;
    var k := OnGridHasIndex(at, step);
    var before := LastIndex(step, from);
    IndexBounds(step, from, k);
    IndexBounds(step, from, before + 1);
    GridIsGrid(step, before + 1);
    Ordered(step, before + 1, k);
    assert k == before + 1;
    IndexBounds(step, upTo, k);
    IndexBounds(step, at, k);
    IndexBounds(step, at, k + 1);
    Ordered(step, k, k + 1);
  }
}
