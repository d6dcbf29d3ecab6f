/**
 Block ranges of a paginated event query: the requested range is cut into windows of
 `maxBlockLookBack` blocks whose starts are multiples of it, so that repeated queries can be cached.
 */
module BlockRanges {
  import opened Common

  /** Both ends are included. */
  datatype Range = Range(from: int, to: int)

  datatype QueryError = BadLookBack | NodeError(attempt: nat)

  function CeilDiv(a: int, m: int): int
    requires m >= 1
  {
    -((-a) / m)
  }

  function Min(a: int, b: int): int { if a <= b then a else b }

  /** The windows of a call with a positive look-back. `/` floors because the divisor is positive. */
  function Windows(from: int, to: int, m: int): seq<Range>
    requires m >= 1 && from <= to
  {
    FloorMonotone(from, to, m);
    Tiles(from / m, to / m, to, m)
  }

  function Tiles(first: int, last: int, to: int, m: int): seq<Range>
    requires first <= last
  {
    seq(last - first + 1, i requires 0 <= i < last - first + 1 => Aligned(first + i, to, m))
  }

  /** The window that starts at the `k`-th multiple of `m`, cut at `to`. */
  function Aligned(k: int, to: int, m: int): Range {
    Range(k * m, Min(k * m + m - 1, to))
  }

  /** What a call asks for; a missing look-back means one range. */
  function RangesFor(from: int, to: int, lookBack: Option<int>): Result<seq<Range>, QueryError> {
    if lookBack.None? then Ok([Range(from, to)])
    else if from > to then Ok([])
    else if lookBack.value <= 0 then Err(BadLookBack)
    else Ok(Windows(from, to, lookBack.value))
  }

  method GetPaginatedBlockRanges(from: int, to: int, lookBack: Option<int>) returns (r: Result<seq<Range>, QueryError>)
    ensures r == RangesFor(from, to, lookBack)
    ensures lookBack.None? ==> r == Ok([Range(from, to)])
    ensures lookBack.Some? && from > to ==> r == Ok([])
    ensures r.Err? <==> lookBack.Some? && from <= to && lookBack.value <= 0
  {
    if lookBack.None? {
      return Ok([Range(from, to)]);
    }
    if from > to {
      return Ok([]);
    }
    var m := lookBack.value;
    if m <= 0 {
      return Err(BadLookBack);
    }
    var flooredStart := from / m * m;
    var iterations := CeilDiv(to + 1 - flooredStart, m);
    IterationCount(from, to, m);
    var ranges: seq<Range> := [];
    for i := 0 to iterations
      invariant |ranges| == i
      invariant forall j :: 0 <= j < i ==> ranges[j] == Aligned(from / m + j, to, m)
    {
      var innerFrom := flooredStart + m * i;
      Distribute(from / m, i, m);
      ranges := ranges + [Range(innerFrom, Min(innerFrom + m - 1, to))];
    }
    assert ranges == Windows(from, to, m);
    r := Ok(ranges);
  }

  // ---- Arithmetic of floor and ceiling ----

  lemma Distribute(a: int, b: int, m: int)
    ensures (a + b) * m == a * m + m * b
  {
  }

  lemma MulMonotone(a: int, b: int, m: int)
    requires a <= b && m >= 0
    ensures a * m <= b * m
  {
  }

  lemma FloorIs(a: int, m: int, q: int)
    requires m >= 1
    ensures a / m == q <==> q * m <= a < q * m + m
  {
    var p := a / m;
    assert a == p * m + a % m;
    if p < q {
      MulMonotone(p + 1, q, m);
    } else if q < p {
      MulMonotone(q + 1, p, m);
    }
  }

  lemma CeilIs(a: int, m: int, k: int)
    requires m >= 1
    ensures CeilDiv(a, m) == k <==> k * m - m < a <= k * m
  {
    FloorIs(-a, m, -k);
  }

  lemma FloorMonotone(a: int, b: int, m: int)
    requires m >= 1 && a <= b
    ensures a / m <= b / m
  {
    FloorIs(a, m, a / m);
    FloorIs(b, m, b / m);
    if b / m < a / m {
      MulMonotone(b / m + 1, a / m, m);
    }
  }

  /** The ceiling the code computes is the number of windows. */
  lemma IterationCount(from: int, to: int, m: int)
    requires m >= 1 && from <= to
    ensures CeilDiv(to + 1 - from / m * m, m) == to / m - from / m + 1 >= 1
  {
    FloorIs(from, m, from / m);
    FloorIs(to, m, to / m);
    FloorMonotone(from, to, m);
    var k := to / m - from / m + 1;
    Distribute(to / m - from / m, 1, m);
    Distribute(to / m, -(from / m), m);
    CeilIs(to + 1 - from / m * m, m, k);
  }

  // ---- The windows partition the floored range ----

  predicate Contains(r: Range, block: int) { r.from <= block <= r.to }

  /** The `k`-th window up to the one that holds `to`. */
  lemma AlignedShape(k: int, to: int, m: int)
    requires m >= 1 && k <= to / m
    ensures Aligned(k, to, m) == Range(k * m, if k < to / m then k * m + m - 1 else to)
    ensures k * m <= to && k * m % m == 0 && k * m / m == k && (k + 1) * m == k * m + m
  {
    FloorIs(to, m, to / m);
    FloorIs(k * m, m, k);
    assert k * m == k * m / m * m + k * m % m;
    Distribute(k, 1, m);
    MulMonotone(k, to / m, m);
    if k < to / m {
      MulMonotone(k + 1, to / m, m);
    }
  }

  lemma AlignedContains(k: int, to: int, m: int, block: int)
    requires m >= 1
    ensures Contains(Aligned(k, to, m), block) <==> block <= to && block / m == k
  {
    FloorIs(block, m, k);
  }

  /** The `i`-th range starts at a multiple of `m`, is not empty and, unless it is the last, spans
      `m` blocks and is followed by the next without gap. */
  predicate Tile(ws: seq<Range>, m: int, i: nat)
    requires m >= 1 && i < |ws|
  {
    && ws[i].from % m == 0 && ws[i].from <= ws[i].to
    && (i < |ws| - 1 ==> ws[i].to == ws[i].from + m - 1 && ws[i + 1].from == ws[i].to + 1)
  }

  /** Every window starts at a multiple of the look-back and follows its predecessor without gap; only
      the last can be short; none is empty. */
  lemma WindowShape(from: int, to: int, m: int, i: nat)
    requires m >= 1 && from <= to && i < |Windows(from, to, m)|
    ensures Tile(Windows(from, to, m), m, i)
    ensures i == |Windows(from, to, m)| - 1 ==> Windows(from, to, m)[i].to == to
  {
    FloorMonotone(from, to, m);
    var k := from / m + i;
    AlignedShape(k, to, m);
    if k < to / m {
      AlignedShape(k + 1, to, m);
      assert from / m + (i + 1) == k + 1;
    }
  }

  /** The windows start at the floored block and end at `to`, and their number is the code's. */
  lemma WindowEnds(from: int, to: int, m: int)
    requires m >= 1 && from <= to
    ensures var ws := Windows(from, to, m);
      && |ws| == CeilDiv(to + 1 - from / m * m, m) == to / m - from / m + 1 >= 1
      && ws[0].from == from / m * m <= from
      && ws[|ws| - 1].to == to
  {
    IterationCount(from, to, m);
    FloorIs(from, m, from / m);
    var ws := Windows(from, to, m);
    assert ws[0] == Aligned(from / m, to, m) by {
      assert from / m + 0 == from / m;
    }
    WindowShape(from, to, m, |ws| - 1);
  }

  lemma BetweenFloors(from: int, to: int, m: int, block: int)
    requires m >= 1 && from <= to && block <= to
    ensures from / m <= block / m <= to / m <==> from / m * m <= block
  {
    FloorMonotone(block, to, m);
    FloorIs(block, m, block / m);
    FloorIs(from / m * m, m, from / m);
    if from / m <= block / m {
      MulMonotone(from / m, block / m, m);
    }
    if from / m * m <= block {
      FloorMonotone(from / m * m, block, m);
    }
  }

  /** Block `block` lies in exactly one of the ranges if it is in `lo..to`, and in none otherwise. */
  predicate CoveredOnce(ws: seq<Range>, lo: int, to: int, block: int) {
    && ((exists i :: 0 <= i < |ws| && Contains(ws[i], block)) <==> lo <= block <= to)
    && (forall i, j :: 0 <= i < |ws| && 0 <= j < |ws| && Contains(ws[i], block) && Contains(ws[j], block) ==> i == j)
  }

  lemma CoveredByIndex(ws: seq<Range>, first: int, last: int, mine: int, lo: int, to: int, block: int)
    requires |ws| == last - first + 1
    requires forall i :: 0 <= i < |ws| ==> (Contains(ws[i], block) <==> block <= to && mine == first + i)
    requires block <= to ==> (first <= mine <= last <==> lo <= block)
    ensures CoveredOnce(ws, lo, to, block)
  {
    if lo <= block <= to {
      assert Contains(ws[mine - first], block);
    }
  }

  /** Exact partition: a block is in some window exactly when it is in the floored range, and then
      in exactly one. */
  lemma WindowsPartition(from: int, to: int, m: int, block: int)
    requires m >= 1 && from <= to
    ensures CoveredOnce(Windows(from, to, m), from / m * m, to, block)
  {
    FloorMonotone(from, to, m);
    var ws := Windows(from, to, m);
    forall i | 0 <= i < |ws|
      ensures Contains(ws[i], block) <==> block <= to && block / m == from / m + i
    {
      AlignedContains(from / m + i, to, m, block);
    }
    if block <= to {
      BetweenFloors(from, to, m, block);
    }
    CoveredByIndex(ws, from / m, to / m, block / m, from / m * m, to, block);
  }

  lemma SumOfFloors(a: int, d: int, m: int)
    requires m >= 1
    ensures (a + d) / m == a / m + d / m + if a % m + d % m < m then 0 else 1
  {
    var carry := if a % m + d % m < m then 0 else 1;
    Distribute(a / m, d / m, m);
    Distribute(a / m + d / m, carry, m);
    FloorIs(a + d, m, a / m + d / m + carry);
  }

  /** Flooring the start costs at most one query more than the requested blocks need, and it costs one
      exactly when the offset of the start and the remainder of the span together fill a window. */
  lemma FlooringCost(from: int, to: int, m: int)
    requires m >= 1 && from <= to
    ensures |Windows(from, to, m)| ==
      CeilDiv(to - from + 1, m) + if from % m + (to - from) % m < m then 0 else 1
  {
    FloorMonotone(from, to, m);
    SumOfFloors(from, to - from, m);
    var q := (to - from) / m;
    FloorIs(to - from, m, q);
    Distribute(q, 1, m);
    CeilIs(to - from + 1, m, q + 1);
  }

  // ---- What a call is answered ----

  /** The ranges cut the blocks from the floored start to the end: the first starts at the largest multiple
      of `m` up to `from`, each but the last spans `m` blocks and is followed by the next without gap, and
      the last ends at `to` within `m` blocks. */
  predicate Cuts(ws: seq<Range>, from: int, to: int, m: int)
    requires m >= 1
  {
    && ws != [] && ws[0].from == from - from % m && ws[|ws| - 1].to == to
    && (forall i :: 0 <= i < |ws| ==> Tile(ws, m, i))
    && ws[|ws| - 1].to - ws[|ws| - 1].from < m
  }

  lemma WindowsCut(from: int, to: int, m: int)
    requires m >= 1 && from <= to
    ensures Cuts(Windows(from, to, m), from, to, m)
  {
    var ws := Windows(from, to, m);
    WindowEnds(from, to, m);
    forall i | 0 <= i < |ws|
      ensures Tile(ws, m, i)
    {
      WindowShape(from, to, m, i);
    }
    AlignedShape(to / m, to, m);
    FloorIs(to, m, to / m);
    assert ws[|ws| - 1] == Aligned(to / m, to, m) by {
      assert from / m + (|ws| - 1) == to / m;
    }
    assert from == from / m * m + from % m;
  }

  lemma {:induction false} CutStarts(ws: seq<Range>, from: int, to: int, m: int, i: nat)
    requires m >= 1 && Cuts(ws, from, to, m) && i < |ws|
    ensures ws[i].from == from - from % m + i * m
    ensures i < |ws| - 1 ==> ws[i].to == ws[i].from + m - 1
  {
    assert Tile(ws, m, i);
    if i > 0 {
      CutStarts(ws, from, to, m, i - 1);
      assert Tile(ws, m, i - 1);
      Distribute(i - 1, 1, m);
    }
  }

  lemma CutCount(ws: seq<Range>, vs: seq<Range>, from: int, to: int, m: int)
    requires m >= 1 && Cuts(ws, from, to, m) && Cuts(vs, from, to, m)
    ensures |ws| <= |vs|
  {
    var i, j := |ws| - 1, |vs| - 1;
    CutStarts(ws, from, to, m, i);
    CutStarts(vs, from, to, m, j);
    assert Tile(ws, m, i) && Tile(vs, m, j);
    if j < i {
      MulMonotone(j + 1, i, m);
      Distribute(j, 1, m);
    }
  }

  /** There is only one way to cut. */
  lemma CutIsUnique(ws: seq<Range>, vs: seq<Range>, from: int, to: int, m: int)
    requires m >= 1 && Cuts(ws, from, to, m) && Cuts(vs, from, to, m)
    ensures ws == vs
  {
    CutCount(ws, vs, from, to, m);
    CutCount(vs, ws, from, to, m);
    forall i | 0 <= i < |ws|
      ensures ws[i] == vs[i]
    {
      CutStarts(ws, from, to, m, i);
      CutStarts(vs, from, to, m, i);
    }
  }

  /** Without look-back a call is answered with the one range it asks for, an empty request with none; a
      look-back of zero or less is an error; otherwise the ranges cut the floored request, and each block
      lies in exactly one of them. */
  lemma RangesAre(from: int, to: int, lookBack: Option<int>, block: int)
    ensures var r := RangesFor(from, to, lookBack);
      && (lookBack.None? ==> r == Ok([Range(from, to)]))
      && (lookBack.Some? && from > to ==> r == Ok([]))
      && (r.Err? <==> lookBack.Some? && from <= to && lookBack.value <= 0)
      && (lookBack.Some? && lookBack.value >= 1 && from <= to ==>
            && (forall ws :: Cuts(ws, from, to, lookBack.value) <==> r == Ok(ws))
            && CoveredOnce(r.value, from - from % lookBack.value, to, block)
            && (forall i :: 0 <= i < |r.value| ==> Tile(r.value, lookBack.value, i) && r.value[i].to - r.value[i].from < lookBack.value))
  {
    if lookBack.Some? && lookBack.value >= 1 && from <= to {
      var m := lookBack.value;
      var r := Windows(from, to, m);
      WindowsCut(from, to, m);
      assert from == from / m * m + from % m;
      forall ws | Cuts(ws, from, to, m)
        ensures ws == r
      {
        CutIsUnique(ws, r, from, to, m);
      }
      WindowsPartition(from, to, m, block);
      forall i | 0 <= i < |r|
        ensures Tile(r, m, i) && r[i].to - r[i].from < m
      {
        CutStarts(r, from, to, m, i);
      }
    }
  }

  /** The example of the source: 5 to 45 with a look-back of 20. */
  lemma FiveToFortyFive()
    ensures RangesFor(5, 45, Some(20)) == Ok([Range(0, 19), Range(20, 39), Range(40, 45)])
  {
    var ws := [Range(0, 19), Range(20, 39), Range(40, 45)];
    assert Tile(ws, 20, 0) && Tile(ws, 20, 1) && Tile(ws, 20, 2);
    assert Cuts(ws, 5, 45, 20);
    RangesAre(5, 45, Some(20), 5);
  }

  // ---- Caching ----

  /** A full window is queried exactly when it lies between the floored start and the end; so two
      calls with the same look-back share every full window that both spans contain. */
  lemma FullWindowQueriedIff(from: int, to: int, m: int, k: int)
    requires m >= 1 && from <= to
    ensures Range(k * m, k * m + m - 1) in Windows(from, to, m) <==> from / m * m <= k * m && k * m + m - 1 <= to
  {
    FloorMonotone(from, to, m);
    var ws := Windows(from, to, m);
    var full := Range(k * m, k * m + m - 1);
    if full in ws {
      var i :| 0 <= i < |ws| && ws[i] == full;
      WindowsPartition(from, to, m, k * m);
      WindowsPartition(from, to, m, k * m + m - 1);
      assert Contains(ws[i], k * m) && Contains(ws[i], k * m + m - 1);
    }
    if from / m * m <= k * m && k * m + m - 1 <= to {
      BetweenFloors(from, to, m, k * m);
      FloorIs(k * m, m, k);
      assert ws[k - from / m] == Aligned(k, to, m) == full;
    }
  }

  lemma EarlyWindowIgnoresEnd(k: int, to: int, later: int, m: int)
    requires m >= 1 && to <= later && k < to / m
    ensures Aligned(k, to, m) == Aligned(k, later, m)
  {
    FloorMonotone(to, later, m);
    AlignedShape(k, to, m);
    AlignedShape(k, later, m);
  }

  lemma EarlyWindowsAgree(from: int, to: int, later: int, m: int, i: nat)
    requires m >= 1 && from <= to <= later && i < |Windows(from, to, m)| - 1
    ensures i < |Windows(from, later, m)| && Windows(from, to, m)[i] == Windows(from, later, m)[i]
  {
    FloorMonotone(from, to, m);
    FloorMonotone(to, later, m);
    EarlyWindowIgnoresEnd(from / m + i, to, later, m);
  }

  /** Raising the end keeps every window but possibly the last. */
  lemma LaterEndKeepsWindows(from: int, to: int, later: int, m: int)
    requires m >= 1 && from <= to <= later
    ensures var ws := Windows(from, to, m); ws != [] && ws[..|ws| - 1] <= Windows(from, later, m)
  {
    FloorMonotone(from, to, m);
    FloorMonotone(to, later, m);
    var ws, vs := Windows(from, to, m), Windows(from, later, m);
    assert 1 <= |ws| <= |vs|;
    forall i | 0 <= i < |ws| - 1
      ensures ws[i] == vs[i]
    {
      EarlyWindowsAgree(from, to, later, m, i);
    }
  }

  /** Cutting a call at a multiple of the look-back changes no window. */
  lemma WindowsSplit(from: int, to: int, m: int, k: int)
    requires m >= 1 && from < k * m <= to
    ensures Windows(from, to, m) == Windows(from, k * m - 1, m) + Windows(k * m, to, m)
  {
    Distribute(k, -1, m);
    FloorIs(k * m, m, k);
    FloorIs(k * m - 1, m, k - 1);
    FloorMonotone(from, k * m - 1, m);
    FloorMonotone(k * m, to, m);
    var low, high, all := Windows(from, k * m - 1, m), Windows(k * m, to, m), Windows(from, to, m);
    forall i | 0 <= i < |low|
      ensures all[i] == low[i]
    {
      AlignedShape(from / m + i, to, m);
      AlignedShape(from / m + i, k * m - 1, m);
    }
    assert |all| == |low| + |high|;
  }
}
