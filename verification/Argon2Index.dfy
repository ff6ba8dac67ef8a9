/** Reference-block selection (indexAlpha and phi of argon2.go) in 32- and 64-bit unsigned
    arithmetic, against the rules of section 3.4.2 of RFC 9106. */
module Argon2Index {
  const U32 := 0x1_0000_0000
  const U64 := 0x1_0000_0000_0000_0000
  const SYNC_POINTS := 4

  type uint32 = x: int | 0 <= x < U32
  type uint64 = x: int | 0 <= x < U64

  function Add32(a: uint32, b: uint32): uint32 { (a + b) % U32 }
  function Sub32(a: uint32, b: uint32): uint32 { (a - b) % U32 }
  function Mul32(a: uint32, b: uint32): uint32 { (a * b) % U32 }
  function Add64(a: uint64, b: uint64): uint64 { (a + b) % U64 }
  function Sub64(a: uint64, b: uint64): uint64 { (a - b) % U64 }
  function Mul64(a: uint64, b: uint64): uint64 { (a * b) % U64 }

  // ----- the code -----

  // The reference lane, the window size m and the window start s handed to phi.
  datatype Window = Window(refLane: uint32, m: uint32, s: uint32)

  function AlphaWindow(rand: uint64, segments: uint32, threads: uint32,
                       n: uint32, slice: uint32, lane: uint32, index: uint32): Window
    requires threads > 0
  {
    var refLane := if n == 0 && slice == 0 then lane else ((rand / U32) % U32) % threads;
    var size := AlphaSize(segments, n, slice, index, lane == refLane);
    Window(refLane, size.0, size.1)
  }

  function AlphaSize(segments: uint32, n: uint32, slice: uint32, index: uint32, same: bool): (uint32, uint32)
  {
    var m0 := Mul32(3, segments);
    var s0 := Mul32(Add32(slice, 1) % SYNC_POINTS, segments);
    var m1 := if same then Add32(m0, index) else m0;
    var first := Mul32(slice, segments);
    var m2 := if n != 0 then m1 else if slice == 0 || same then Add32(first, index) else first;
    (if index == 0 || same then Sub32(m2, 1) else m2, if n != 0 then s0 else 0)
  }

  function Phi(rand: uint64, m: uint64, s: uint64, lane: uint32, lanes: uint32): uint32
    requires lanes > 0
  {
    Add32(Mul32(lane, lanes), PhiColumn(s, m, PhiScaled(rand, m), lanes))
  }

  function PhiScaled(rand: uint64, m: uint64): uint64
  {
    var p0 := rand % U32;
    var p1 := Mul64(p0, p0) / U32;
    Mul64(p1, m) / U32
  }

  function PhiColumn(s: uint64, m: uint64, p: uint64, lanes: uint32): uint32
    requires lanes > 0
  {
    Sub64(Add64(s, m), Add64(p, 1)) % lanes
  }

  function IndexAlpha(rand: uint64, lanes: uint32, segments: uint32, threads: uint32,
                      n: uint32, slice: uint32, lane: uint32, index: uint32): uint32
    requires threads > 0 && lanes > 0
  {
    var w := AlphaWindow(rand, segments, threads, n, slice, lane, index);
    Phi(rand, w.m, w.s, w.refLane, lanes)
  }

  // ----- the memory matrix -----

  // threads rows (lanes) of four segments each; lanes == 4*segments columns.
  datatype Geometry = Geometry(segments: nat, threads: nat)
  {
    function Columns(): nat { SYNC_POINTS * segments }

    function Memory(): nat { threads * Columns() }

    predicate Valid() { segments >= 2 && threads >= 1 && Memory() < U32 }
  }

  // A position of the fill: pass, slice, lane and index inside the segment.
  datatype Cursor = Cursor(pass: nat, slice: nat, lane: nat, index: nat)
  {
    predicate Valid(g: Geometry)
    {
      && pass < U32 && slice < SYNC_POINTS && lane < g.threads && index < g.segments
      // the first two columns of a lane are filled before the first pass
      && (pass == 0 && slice == 0 ==> index >= 2)
    }

    function Column(g: Geometry): nat { slice * g.segments + index }

    // The block before this one in its lane, around the end of the lane.
    function PreviousColumn(g: Geometry): nat
      requires g.segments >= 1
    {
      if slice == 0 && index == 0 then g.Columns() - 1 else Column(g) - 1
    }

    // Has this column of this lane been computed (in this pass or an earlier one)
    // when the cursor's own block is about to be computed?
    predicate Computed(g: Geometry, inLane: nat, column: nat)
    {
      || pass > 0
      || column < slice * g.segments
      || (inLane == lane && column < slice * g.segments + index)
    }
  }

  // ----- section 3.4.2 of RFC 9106 -----

  function SegmentColumns(g: Geometry, segment: int, count: nat): seq<int>
  {
    seq(count, i requires 0 <= i < count => segment * g.segments + i)
  }

  // The last three segments computed and finished, oldest first.
  function FinishedSegments(c: Cursor): seq<int>
  {
    if c.pass == 0 then seq(c.slice, i requires 0 <= i < c.slice => i)
    else [(c.slice + 1) % SYNC_POINTS, (c.slice + 2) % SYNC_POINTS, (c.slice + 3) % SYNC_POINTS]
  }

  function ColumnsOf(g: Geometry, segments: seq<int>): seq<int>
  {
    if segments == [] then []
    else ColumnsOf(g, segments[..|segments| - 1]) + SegmentColumns(g, segments[|segments| - 1], g.segments)
  }

  function DropLast(s: seq<int>): seq<int>
  {
    if s == [] then [] else s[..|s| - 1]
  }

  // The set W in the order its blocks were computed. In the current lane it also has the blocks
  // of the current segment and lacks the previous block; in another lane it lacks the very last
  // index when the block is the first of its segment.
  function ReferenceSet(g: Geometry, c: Cursor, refLane: nat): seq<int>
  {
    var finished := ColumnsOf(g, FinishedSegments(c));
    if refLane == c.lane then DropLast(finished + SegmentColumns(g, c.slice, c.index))
    else if c.index == 0 then DropLast(finished)
    else finished
  }

  function ReferenceLane(rand: uint64, g: Geometry, c: Cursor): nat
    requires g.threads > 0
  {
    if c.pass == 0 && c.slice == 0 then c.lane else (rand / U32) % g.threads
  }

  // zz = |W| - 1 - (|W| * (J1^2 / 2^32)) / 2^32
  function ReferencePosition(rand: uint64, size: int): int
  {
    var j1 := rand % U32;
    size - 1 - (size * (j1 * j1 / U32)) / U32
  }

  // ----- the window is W -----

  lemma {:induction false} ColumnsOfLength(g: Geometry, segments: seq<int>)
    ensures |ColumnsOf(g, segments)| == |segments| * g.segments
  {
    if segments != [] {
      ColumnsOfLength(g, segments[..|segments| - 1]);
      MultiplyStep(|segments|, g.segments);
    }
  }

  lemma MultiplyStep(k: int, n: int)
    ensures k * n == (k - 1) * n + n
  {
  }

  lemma MultiplyMonotone(a: int, b: int, n: int)
    requires a <= b && n >= 0
    ensures a * n <= b * n
  {
  }

  // k-th column of consecutive segments start, start+1, ... (mod 4).
  lemma {:induction false} ColumnsOfRun(g: Geometry, start: nat, segments: seq<int>, k: nat)
    requires g.segments > 0
    requires |segments| <= SYNC_POINTS && k < |segments| * g.segments
    requires start < SYNC_POINTS
    requires forall i :: 0 <= i < |segments| ==> segments[i] == (start + i) % SYNC_POINTS
    ensures |ColumnsOf(g, segments)| == |segments| * g.segments
    ensures ColumnsOf(g, segments)[k] == (start * g.segments + k) % g.Columns()
  {
    var last := |segments| - 1;
    ColumnsOfLength(g, segments);
    ColumnsOfLength(g, segments[..last]);
    MultiplyStep(|segments|, g.segments);
    if k < last * g.segments {
      ColumnsOfRun(g, start, segments[..last], k);
    } else {
      var i := k - last * g.segments;
      assert ColumnsOf(g, segments)[k] == segments[last] * g.segments + i;
      WrapColumn(g, start, last, i);
    }
  }

  lemma ModWrap(x: int, m: int)
    requires 0 <= x < 2 * m
    ensures x % m == if x < m then x else x - m
  {
    if x >= m {
      assert x == (x - m) + 1 * m;
    }
  }

  lemma WrapColumn(g: Geometry, start: nat, last: nat, i: nat)
    requires start < SYNC_POINTS && last < SYNC_POINTS && i < g.segments
    ensures (start * g.segments + last * g.segments + i) % g.Columns()
         == ((start + last) % SYNC_POINTS) * g.segments + i
  {
    var n := g.segments;
    assert start == 0 || start == 1 || start == 2 || start == 3;
    assert last == 0 || last == 1 || last == 2 || last == 3;
    ModWrap(start * n + last * n + i, 4 * n);
  }

  function WindowStart(g: Geometry, c: Cursor): int
  {
    if c.pass == 0 then 0 else ((c.slice + 1) % SYNC_POINTS) * g.segments
  }

  // Every finished column in W, by its distance from the window start.
  lemma FinishedColumn(g: Geometry, c: Cursor, k: nat)
    requires g.Valid() && c.Valid(g)
    requires k < |FinishedSegments(c)| * g.segments
    ensures |ColumnsOf(g, FinishedSegments(c))| == |FinishedSegments(c)| * g.segments
    ensures ColumnsOf(g, FinishedSegments(c))[k] == (WindowStart(g, c) + k) % g.Columns()
  {
    if c.pass == 0 {
      ColumnsOfRun(g, 0, FinishedSegments(c), k);
    } else {
      ColumnsOfRun(g, (c.slice + 1) % SYNC_POINTS, FinishedSegments(c), k);
    }
  }

  // A column of the current segment continues the window.
  lemma CurrentColumn(g: Geometry, c: Cursor, i: nat)
    requires g.Valid() && c.Valid(g) && i < g.segments
    ensures c.slice * g.segments + i
         == (WindowStart(g, c) + |FinishedSegments(c)| * g.segments + i) % g.Columns()
  {
    var n := g.segments;
    assert c.slice == 0 || c.slice == 1 || c.slice == 2 || c.slice == 3;
    ModWrap(WindowStart(g, c) + |FinishedSegments(c)| * n + i, 4 * n);
  }

  lemma SmallProduct(k: int, n: int)
    requires 0 <= k <= 3 && 0 <= n && 4 * n < U32
    ensures Mul32(k, n) == k * n && 0 <= k * n <= 3 * n
    ensures k == 0 ==> k * n == 0
    ensures k == 1 ==> k * n == n
    ensures k == 2 ==> k * n == 2 * n
    ensures k == 3 ==> k * n == 3 * n
  {
    MultiplyMonotone(k, 3, n);
  }

  lemma HighHalf(rand: uint64)
    ensures (rand / U32) % U32 == rand / U32
  {
  }

  function WindowLength(g: Geometry, c: Cursor, refLane: nat): int
  {
    |FinishedSegments(c)| * g.segments
      + (if refLane == c.lane then c.index else 0)
      - (if c.index == 0 || refLane == c.lane then 1 else 0)
  }

  lemma WindowBounds(g: Geometry, c: Cursor, refLane: nat)
    requires g.Valid() && c.Valid(g)
    requires c.pass == 0 && c.slice == 0 ==> refLane == c.lane
    ensures 0 < WindowLength(g, c, refLane) < g.Columns() && 0 <= WindowStart(g, c) < g.Columns()
    ensures g.Columns() < U32
  {
    MultiplyMonotone(1, g.threads, g.Columns());
    SmallProduct(|FinishedSegments(c)|, g.segments);
    SmallProduct((c.slice + 1) % SYNC_POINTS, g.segments);
  }

  // The code's window sizes never wrap: m is |W| and s is where W starts.
  lemma AlphaSizeExact(g: Geometry, c: Cursor, refLane: nat)
    requires g.Valid() && c.Valid(g) && g.Columns() < U32
    requires c.pass == 0 && c.slice == 0 ==> refLane == c.lane
    ensures AlphaSize(g.segments, c.pass, c.slice, c.index, c.lane == refLane)
         == (WindowLength(g, c, refLane), WindowStart(g, c))
  {
    var n := g.segments;
    var same := c.lane == refLane;
    SmallProduct(3, n);
    SmallProduct(c.slice, n);
    SmallProduct((c.slice + 1) % SYNC_POINTS, n);
    assert Add32(c.slice, 1) == c.slice + 1;
    if c.pass == 0 {
      assert |FinishedSegments(c)| == c.slice;
      SmallSum(c.slice * n, c.index);
    } else {
      assert |FinishedSegments(c)| == 3;
      SmallSum(3 * n, c.index);
    }
  }

  lemma SmallSum(a: uint32, b: uint32)
    ensures a + b < U32 ==> Add32(a, b) == a + b && (a + b >= 1 ==> Sub32(a + b, 1) == a + b - 1)
    ensures a >= 1 ==> Sub32(a, 1) == a - 1
  {
  }

  lemma WindowSize(rand: uint64, g: Geometry, c: Cursor)
    requires g.Valid() && c.Valid(g) && g.Columns() < U32 && g.threads < U32
    ensures ReferenceLane(rand, g, c) < g.threads
    ensures var w := AlphaWindow(rand, g.segments, g.threads, c.pass, c.slice, c.lane, c.index);
            && w.refLane == ReferenceLane(rand, g, c)
            && w.m == WindowLength(g, c, w.refLane)
            && w.s == WindowStart(g, c)
  {
    AlphaSizeExact(g, c, ReferenceLane(rand, g, c));
    HighHalf(rand);
  }

  lemma WindowIsReferenceSet(g: Geometry, c: Cursor, refLane: nat, m: nat, k: nat)
    requires g.Valid() && c.Valid(g)
    requires m == WindowLength(g, c, refLane)
    requires k < m
    ensures |ReferenceSet(g, c, refLane)| == m
    ensures ReferenceSet(g, c, refLane)[k] == (WindowStart(g, c) + k) % g.Columns()
  {
    var size := |FinishedSegments(c)| * g.segments;
    ColumnsOfLength(g, FinishedSegments(c));
    if k < size {
      FinishedColumn(g, c, k);
    } else {
      CurrentColumn(g, c, k - size);
    }
  }

  lemma ScaledBelow(j1: int, m: int)
    requires 0 <= j1 < U32 && 0 < m < U32
    ensures 0 <= j1 * j1 < U64
    ensures 0 <= j1 * j1 / U32 < U32
    ensures 0 <= m * (j1 * j1 / U32) < U64
    ensures 0 <= (m * (j1 * j1 / U32)) / U32 < m
  {
    var p := j1 * j1 / U32;
    MultiplyMonotone(j1, U32 - 1, j1);
    MultiplyMonotone(j1, U32 - 1, U32 - 1);
    assert p < U32;
    MultiplyMonotone(p, U32 - 1, m);
    assert m * p == p * m;
    assert p * m <= U32 * m - m;
  }

  // phi's squaring and scaling stay below 2^64.
  lemma PhiScale(rand: uint64, m: int)
    requires 0 < m < U32
    ensures 0 <= ReferencePosition(rand, m) < m
    ensures PhiScaled(rand, m) == m - 1 - ReferencePosition(rand, m)
  {
    var j1 := rand % U32;
    var p := j1 * j1 / U32;
    ScaledBelow(j1, m);
    assert Mul64(j1, j1) == j1 * j1;
    Commute(p, m);
    assert Mul64(p, m) == m * p;
  }

  lemma Commute(a: int, b: int)
    ensures a * b == b * a
  {
  }

  lemma PhiColumnExact(s: int, m: int, p: int, lanes: int)
    requires 0 <= p < m < lanes < U32 && 0 <= s < lanes
    ensures PhiColumn(s, m, p, lanes) == (s + (m - 1 - p)) % lanes
  {
    assert Add64(s, m) == s + m && Add64(p, 1) == p + 1;
    NoBorrow(s + m, p + 1);
  }

  lemma NoBorrow(a: uint64, b: uint64)
    ensures b <= a ==> Sub64(a, b) == a - b
  {
  }

  // phi subtracts without underflow.
  lemma PhiIsReferencePosition(rand: uint64, m: int, s: int, lanes: int)
    requires 0 < m < lanes < U32 && 0 <= s < lanes
    ensures 0 <= ReferencePosition(rand, m) < m
    ensures PhiColumn(s, m, PhiScaled(rand, m), lanes) == (s + ReferencePosition(rand, m)) % lanes
  {
    PhiScale(rand, m);
    var r := ReferencePosition(rand, m);
    PhiColumnExact(s, m, m - 1 - r, lanes);
  }

  lemma LaneOffset(lane: int, threads: int, lanes: int, column: int)
    requires 0 <= lane < threads && 0 <= column < lanes && threads * lanes < U32
    ensures 0 <= lane < U32 && 0 <= lanes < U32
    ensures 0 <= lane * lanes && lane * lanes + column < threads * lanes
    ensures Add32(Mul32(lane, lanes), column) == lane * lanes + column
  {
    MultiplyMonotone(lane + 1, threads, lanes);
    MultiplyStep(lane + 1, lanes);
    MultiplyMonotone(0, lane, lanes);
    MultiplyMonotone(1, lanes, threads);
    MultiplyMonotone(1, threads, lanes);
    Commute(threads, lanes);
  }

  // The row and column of the block chosen.
  datatype Place = Place(row: int, column: int)
  {
    function Offset(g: Geometry): int { row * g.Columns() + column }
  }

  function ReferencePlace(rand: uint64, g: Geometry, c: Cursor): Place
    requires g.Valid()
  {
    var l := ReferenceLane(rand, g, c);
    Place(l, (WindowStart(g, c) + ReferencePosition(rand, WindowLength(g, c, l))) % g.Columns())
  }

  // In bounds, already computed, neither the current nor the previous block, and never in
  // a segment another lane is filling now.
  ghost predicate SafeReference(g: Geometry, c: Cursor, p: Place)
    requires g.Valid()
  {
    && 0 <= p.row < g.threads && 0 <= p.column < g.Columns()
    && c.Computed(g, p.row, p.column)
    && (p.row == c.lane ==> p.column != c.Column(g) && p.column != c.PreviousColumn(g))
    && (p.row != c.lane ==> p.column < c.slice * g.segments || p.column >= (c.slice + 1) * g.segments)
  }

  // The code computes the offset of that place.
  lemma IndexAlphaIsPlace(rand: uint64, g: Geometry, c: Cursor)
    requires g.Valid() && c.Valid(g)
    ensures g.Columns() < U32 && g.threads < U32
    ensures IndexAlpha(rand, g.Columns(), g.segments, g.threads, c.pass, c.slice, c.lane, c.index)
         == ReferencePlace(rand, g, c).Offset(g)
  {
    var q, l := g.Columns(), ReferenceLane(rand, g, c);
    WindowBounds(g, c, l);
    MultiplyMonotone(1, q, g.threads);
    Commute(g.threads, q);
    WindowSize(rand, g, c);
    PhiIsReferencePosition(rand, WindowLength(g, c, l), WindowStart(g, c), q);
    LaneOffset(l, g.threads, q, ReferencePlace(rand, g, c).column);
  }

  // Section 3.4.2: the block chosen is B[l][z], z the zz-th index of W. No unsigned
  // operation on the way wraps around.
  lemma IndexAlphaSelectsReference(rand: uint64, g: Geometry, c: Cursor)
    requires g.Valid() && c.Valid(g)
    ensures g.Columns() < U32 && g.threads < U32
    ensures var l := ReferenceLane(rand, g, c);
            var w := ReferenceSet(g, c, l);
            var zz := ReferencePosition(rand, |w|);
            && l < g.threads && 0 <= zz < |w|
            && IndexAlpha(rand, g.Columns(), g.segments, g.threads, c.pass, c.slice, c.lane, c.index)
               == l * g.Columns() + w[zz]
  {
    IndexAlphaIsPlace(rand, g, c);
    var l := ReferenceLane(rand, g, c);
    WindowBounds(g, c, l);
    var m := WindowLength(g, c, l);
    PhiScale(rand, m);
    WindowIsReferenceSet(g, c, l, m, ReferencePosition(rand, m));
  }

  lemma FirstPassColumnIsSafe(g: Geometry, c: Cursor, refLane: nat, k: nat)
    requires g.Valid() && c.Valid(g) && refLane < g.threads && k < WindowLength(g, c, refLane)
    requires c.pass == 0 && (c.slice == 0 ==> refLane == c.lane)
    ensures SafeReference(g, c, Place(refLane, (WindowStart(g, c) + k) % g.Columns()))
  {
    WindowBounds(g, c, refLane);
    SmallProduct(c.slice, g.segments);
    ModWrap(k, g.Columns());
  }

  // Where a window column of a later pass falls, with first == slice*n the segment's start:
  // k counts from the end of the segment.
  lemma LaterPassColumn(n: int, slice: int, first: int, k: int)
    requires n > 0 && 0 <= slice < 4 && first == slice * n && 0 <= k < 4 * n - 1
    ensures var s := ((slice + 1) % 4) * n;
            (s + k) % (4 * n) == if first + n + k < 4 * n then first + n + k else first + n + k - 4 * n
    ensures 0 <= first <= 3 * n && (slice + 1) * n == first + n
  {
    SmallColumns(slice, n);
    SmallColumns((slice + 1) % 4, n);
    Successor(slice, n);
    ModWrap(((slice + 1) % 4) * n + k, 4 * n);
  }

  lemma SmallColumns(k: int, n: int)
    requires 0 <= k <= 3 && 0 <= n
    ensures 0 <= k * n <= 3 * n
    ensures k == 0 ==> k * n == 0
    ensures k == 3 ==> k * n == 3 * n
  {
    MultiplyMonotone(k, 3, n);
  }

  lemma LaterPassColumnIsSafe(g: Geometry, c: Cursor, refLane: nat, k: nat)
    requires g.Valid() && c.Valid(g) && refLane < g.threads && k < WindowLength(g, c, refLane)
    requires c.pass > 0
    ensures SafeReference(g, c, Place(refLane, (WindowStart(g, c) + k) % g.Columns()))
  {
    WindowBounds(g, c, refLane);
    assert WindowLength(g, c, refLane) <= 3 * g.segments + (if refLane == c.lane then c.index - 1 else 0);
    LaterPassColumn(g.segments, c.slice, c.slice * g.segments, k);
  }

  lemma Successor(k: int, n: int)
    ensures (k + 1) * n == k * n + n
  {
  }

  // What the code computes is safe to read while other lanes run.
  lemma IndexAlphaIsSafe(rand: uint64, g: Geometry, c: Cursor)
    requires g.Valid() && c.Valid(g)
    ensures SafeReference(g, c, ReferencePlace(rand, g, c))
  {
    var l := ReferenceLane(rand, g, c);
    WindowBounds(g, c, l);
    var m := WindowLength(g, c, l);
    PhiScale(rand, m);
    if c.pass == 0 {
      FirstPassColumnIsSafe(g, c, l, ReferencePosition(rand, m));
    } else {
      LaterPassColumnIsSafe(g, c, l, ReferencePosition(rand, m));
    }
  }
}
