/** divideBlocks and divideCounts of src/common/ltsm_xcb_types.cpp: a region cut
    into blocks.  The loop counters are 16-bit and wrap. */
module Tiling {
  import opened MachineInts
  import opened Arithmetic
  import opened Geometry

  // ---- one direction ----

  /** The block side the loops use. */
  function StepOf(want: uint16, side: uint16): uint16 { if want > side then side else want }

  /** How many steps it takes to get past a side. */
  function Count(side: nat, step: nat): nat
  {
    if side == 0 || step == 0 then 0 else (side - 1) / step + 1
  }

  lemma CountBounds(side: nat, step: nat)
    requires side > 0 && step > 0
    ensures (Count(side, step) - 1) * step < side <= Count(side, step) * step
    ensures Count(side, step) * step < side + step
  {
    var q, r := (side - 1) / step, (side - 1) % step;
    assert side - 1 == q * step + r;
    assert (q + 1) * step == q * step + step;
  }

  lemma InCount(side: nat, step: nat, i: nat)
    requires side > 0 && step > 0
    ensures i * step < side <==> i < Count(side, step)
  {
    CountBounds(side, step);
    if i < Count(side, step) { MulMono(i, Count(side, step) - 1, step); } else { MulMono(Count(side, step), i, step); }
  }

  /** Adding the step never wraps before the end of the side. */
  predicate Reaches(side: uint16, want: uint16)
  {
    side > 0 ==> want > 0 && Count(side, StepOf(want, side)) * StepOf(want, side) <= 0xFFFF
  }

  /** A side up to 32767 is reached by any positive step. */
  lemma SmallSideReaches(side: uint16, want: uint16)
    requires side <= 0x7FFF && want > 0
    ensures Reaches(side, want)
  {
    if side > 0 { CountBounds(side, StepOf(want, side)); }
  }

  /** The 16-bit counter of a loop after some turns. */
  function Counter(step: nat, turns: nat): uint16
    decreases turns
  {
    if turns == 0 then 0 else ToUint16(Counter(step, turns - 1) + step)
  }

  /** The loop over a side ends after exactly n turns. */
  predicate StopsAt(side: nat, step: nat, n: nat)
  {
    Counter(step, n) >= side && forall i :: 0 <= i < n ==> Counter(step, i) < side
  }

  /** Turn i cuts a piece that has this coordinate. */
  predicate Cuts(step: nat, i: nat, p: int) { Counter(step, i) <= p < Counter(step, i) + step }

  /** One of the first n turns does. */
  ghost predicate IsCut(step: nat, n: nat, p: int) { exists i: nat :: i < n && Cuts(step, i, p) }

  /** In n turns every coordinate of the side is cut exactly once. */
  ghost predicate CutsOnce(side: nat, step: nat, n: nat)
  {
    && (forall p: nat :: p < side ==> IsCut(step, n, p))
    && (forall i: nat, k: nat, p: nat :: i < n && k < n && p < side && Cuts(step, i, p) && Cuts(step, k, p) ==> i == k)
  }

  lemma {:induction false} CounterBefore(side: uint16, step: nat, i: nat)
    requires side > 0 && step > 0 && i < Count(side, step)
    ensures Counter(step, i) == i * step < side
  {
    InCount(side, step, i);
    if i > 0 {
      CounterBefore(side, step, i - 1);
      Following(i - 1, step);
      NextCounter(side, step, i - 1, i * step);
    }
  }

  lemma NextCounter(side: uint16, step: nat, i: nat, next: nat)
    requires Counter(step, i) + step == next < side
    ensures Counter(step, i + 1) == next
  {
  }

  lemma Following(i: nat, step: nat)
    ensures (i + 1) * step == i * step + step
  {
  }

  /** The counter after Count turns: past the side, unless it wrapped; then it is
      back within the first piece. */
  lemma CounterAtEnd(side: uint16, step: nat)
    requires 0 < step <= side
    ensures Counter(step, Count(side, step)) == ToUint16(Count(side, step) * step)
    ensures Count(side, step) * step <= 0xFFFF ==> Counter(step, Count(side, step)) >= side
    ensures Count(side, step) * step > 0xFFFF ==> Counter(step, Count(side, step)) < step
  {
    var n := Count(side, step);
    CountBounds(side, step);
    CounterBefore(side, step, n - 1);
    Following(n - 1, step);
  }

  lemma NoWrapCutsOnce(side: uint16, step: nat)
    requires 0 < step <= side && Count(side, step) * step <= 0xFFFF
    ensures StopsAt(side, step, Count(side, step)) && CutsOnce(side, step, Count(side, step))
  {
    var n := Count(side, step);
    CounterAtEnd(side, step);
    forall i: nat | i < n ensures Counter(step, i) == i * step < side { CounterBefore(side, step, i); }
    forall p: nat | p < side ensures IsCut(step, n, p) {
      PartOf(side, step, p, 0);
      PartOf(side, step, p, p / step);
      assert Cuts(step, p / step, p);
    }
    forall i: nat, k: nat, p: nat | i < n && k < n && p < side && Cuts(step, i, p) && Cuts(step, k, p) ensures i == k {
      PartOf(side, step, p, i);
      PartOf(side, step, p, k);
    }
  }

  /** After a wrap the loop goes on, and cuts the beginning of the side again. */
  lemma WrapCutsTwice(side: uint16, step: nat, n: nat)
    requires 0 < step <= side && Count(side, step) * step > 0xFFFF && StopsAt(side, step, n)
    ensures n > Count(side, step) && !CutsOnce(side, step, n)
  {
    var last := Count(side, step);
    CounterAtEnd(side, step);
    if n <= last {
      if n < last { CounterBefore(side, step, n); }
      assert false;
    }
    var p := Counter(step, last);
    assert Counter(step, 0) == 0;
    assert Cuts(step, 0, p) && Cuts(step, last, p);
  }

  /** With a block side of zero the counter stays where it is, for ever. */
  lemma {:induction false} ZeroStepStays(turns: nat)
    ensures Counter(0, turns) == 0
  {
    if turns > 0 { ZeroStepStays(turns - 1); }
  }

  /** The loop ends and cuts every coordinate exactly once if and only if its
      counter does not wrap before the end of the side (and moves at all). */
  lemma LeavesIff(side: uint16, want: uint16)
    requires side > 0
    ensures (exists n: nat :: StopsAt(side, StepOf(want, side), n) && CutsOnce(side, StepOf(want, side), n)) <==> Reaches(side, want)
    ensures Reaches(side, want) ==> StopsAt(side, StepOf(want, side), Count(side, StepOf(want, side)))
  {
    var step := StepOf(want, side);
    if want == 0 {
      forall n: nat ensures !StopsAt(side, step, n) { ZeroStepStays(n); }
    } else if Reaches(side, want) {
      NoWrapCutsOnce(side, step);
    } else {
      forall n: nat | StopsAt(side, step, n) ensures !CutsOnce(side, step, n) { WrapCutsTwice(side, step, n); }
    }
  }

  /** A side of 65535 in blocks of 40000: the second step wraps to 14464. */
  lemma WrapAt65535()
    ensures !Reaches(65535, 40000) && Count(65535, 40000) == 2
    ensures Counter(40000, 0 + 1) == 40000 && Counter(40000, 1 + 1) == 14464
  {
    DivUnique(65534, 40000, 1, 25534);
  }

  // ---- both directions ----

  function Block(r: Region, cw: nat, ch: nat, xx: nat, yy: nat): Region
    requires xx < r.width && yy < r.height
  {
    Region(ToInt16(r.x + xx), ToInt16(r.y + yy), ToUint16(Min(r.width - xx, cw)), ToUint16(Min(r.height - yy, ch)))
  }

  /** The blocks of one row, from offset yy down. */
  function RowOf(r: Region, cw: nat, ch: nat, yy: nat): (row: seq<Region>)
    requires yy < r.height
    ensures |row| == Count(r.width, cw)
  {
    seq(Count(r.width, cw), i requires 0 <= i < Count(r.width, cw) => InCount(r.width, cw, i); Block(r, cw, ch, i * cw, yy))
  }

  /** The first n rows of blocks. */
  function Rows(r: Region, cw: nat, ch: nat, n: nat): (blocks: seq<Region>)
    requires n <= Count(r.height, ch)
    ensures |blocks| == n * Count(r.width, cw)
  {
    if n == 0 then []
    else
      InCount(r.height, ch, n - 1);
      Rows(r, cw, ch, n - 1) + RowOf(r, cw, ch, (n - 1) * ch)
  }

  /** divideBlocks. */
  function Blocks(r: Region, sz: Size): seq<Region>
  {
    var cw, ch := StepOf(sz.width, r.width), StepOf(sz.height, r.height);
    Rows(r, cw, ch, Count(r.height, ch))
  }

  lemma BlockOfRow(r: Region, cw: nat, ch: nat, yy: nat, i: nat, xx: nat)
    requires yy < r.height && i < Count(r.width, cw) && xx == i * cw < r.width
    ensures RowOf(r, cw, ch, yy)[i] == Block(r, cw, ch, xx, yy)
    ensures RowOf(r, cw, ch, yy)[..i + 1] == RowOf(r, cw, ch, yy)[..i] + [Block(r, cw, ch, xx, yy)]
  {
  }

  method DivideRow(r: Region, cw: uint16, ch: uint16, yy: uint16) returns (row: seq<Region>)
    requires yy < r.height && cw == StepOf(cw, r.width) && Reaches(r.width, cw)
    ensures row == RowOf(r, cw, ch, yy)
  {
    row := [];
    ghost var all := RowOf(r, cw, ch, yy);
    if r.width > 0 { CountBounds(r.width, cw); }
    var xx: uint16 := 0;
    while xx < r.width
      invariant |row| <= |all| && xx == |row| * cw && row == all[..|row|]
      invariant xx < r.width <==> |row| < |all|
      decreases |all| - |row|
    {
      NextOffset(r.width, cw, |row|);
      BlockOfRow(r, cw, ch, yy, |row|, xx);
      row := row + [Region(ToInt16(r.x + xx), ToInt16(r.y + yy), ToUint16(Min(r.width - xx, cw)), ToUint16(Min(r.height - yy, ch)))];
      xx := ToUint16(xx + cw);
    }
  }

  lemma NextOffset(side: uint16, step: uint16, k: nat)
    requires side > 0 && step > 0 && Count(side, step) * step <= 0xFFFF && k < Count(side, step)
    ensures ToUint16(k * step + step) == (k + 1) * step
    ensures (k + 1) * step < side <==> k + 1 < Count(side, step)
  {
    assert (k + 1) * step == k * step + step;
    MulMono(k + 1, Count(side, step), step);
    InCount(side, step, k + 1);
  }

  lemma NextRow(r: Region, cw: nat, ch: nat, k: nat, yy: nat)
    requires k < Count(r.height, ch) && yy == k * ch
    ensures yy < r.height && Rows(r, cw, ch, k + 1) == Rows(r, cw, ch, k) + RowOf(r, cw, ch, yy)
  {
    InCount(r.height, ch, k);
  }

  /** The nested loops produce the blocks row by row.  A zero block side or a
      wrapping counter would keep a loop from ending (ZeroStepStays, LeavesIff). */
  method DivideBlocks(r: Region, sz: Size) returns (res: seq<Region>)
    requires Reaches(r.width, sz.width) && Reaches(r.height, sz.height)
    ensures res == Blocks(r, sz)
  {
    var cw: uint16 := if sz.width > r.width then r.width else sz.width;
    var ch: uint16 := if sz.height > r.height then r.height else sz.height;
    res := [];
    ghost var n, k := Count(r.height, ch), 0;
    if r.height > 0 { CountBounds(r.height, ch); }
    var yy: uint16 := 0;
    while yy < r.height
      invariant 0 <= k <= n && yy == k * ch
      invariant yy < r.height <==> k < n
      invariant res == Rows(r, cw, ch, k)
      decreases n - k
    {
      var row := DivideRow(r, cw, ch, yy);
      NextOffset(r.height, ch, k);
      NextRow(r, cw, ch, k, yy);
      res := res + row;
      k := k + 1;
      yy := ToUint16(yy + ch);
    }
  }

  method DivideCounts(r: Region, cols: uint16, rows: uint16) returns (res: seq<Region>)
    requires cols > 0 && rows > 0
    requires Reaches(r.width, CountsSize(r, cols, rows).width) && Reaches(r.height, CountsSize(r, cols, rows).height)
    ensures res == Blocks(r, CountsSize(r, cols, rows))
  {
    var bw: uint16 := if r.width <= cols then 1 else r.width / cols;
    var bh: uint16 := if r.height <= rows then 1 else r.height / rows;
    res := DivideBlocks(r, Size(bw, bh));
  }

  /** For sides up to 32767 positive counts always come to an end. */
  lemma CountsReach(r: Region, cols: uint16, rows: uint16)
    requires cols > 0 && rows > 0 && r.width <= 0x7FFF && r.height <= 0x7FFF
    ensures Reaches(r.width, CountsSize(r, cols, rows).width) && Reaches(r.height, CountsSize(r, cols, rows).height)
  {
    CountsArePositive(r, cols, rows);
    SmallSideReaches(r.width, CountsSize(r, cols, rows).width);
    SmallSideReaches(r.height, CountsSize(r, cols, rows).height);
  }

  function CountsSize(r: Region, cols: uint16, rows: uint16): Size
    requires cols > 0 && rows > 0
  {
    Size(if r.width <= cols then 1 else r.width / cols, if r.height <= rows then 1 else r.height / rows)
  }

  /** divideCounts never asks for an empty block, nor for one larger than a
      non-empty region. */
  lemma CountsArePositive(r: Region, cols: uint16, rows: uint16)
    requires cols > 0 && rows > 0
    ensures var sz := CountsSize(r, cols, rows);
            sz.width > 0 && sz.height > 0 && (!r.IsEmpty() ==> sz.width <= r.width && sz.height <= r.height)
  {
    if r.width > cols { QuotientPositive(r.width, cols); }
    if r.height > rows { QuotientPositive(r.height, rows); }
  }

  /** divideCounts makes at least as many columns and rows as were asked for, if the
      side has so many points, and exactly as many when they divide the side. */
  lemma CountsAreMet(side: uint16, n: uint16, want: nat)
    requires side > 0 && n > 0 && want == if side <= n then 1 else side / n
    ensures Count(side, want) >= Min(n, side)
    ensures side % n == 0 ==> Count(side, want) == n
    ensures side <= n ==> Count(side, want) == side
  {
    if side <= n {
      DivUnique(side - 1, 1, side - 1, 0);
      if side % n == 0 { MultipleAtMost(side, n); }
    } else {
      var r := side % n;
      assert side == want * n + r;
      QuotientPositive(side, n);
      InCount(side, want, n - 1);
      assert (n - 1) * want == n * want - want && n * want == want * n;
      if r == 0 { InCount(side, want, n); }
    }
  }

  lemma MultipleAtMost(side: nat, n: nat)
    requires 0 < side <= n && side % n == 0
    ensures side == n
  {
    if side < n { DivUnique(side, n, 0, side); }
  }

  /** So the blocks of divideCounts are those of a grid that large. */
  lemma CountsGrid(r: Region, cols: uint16, rows: uint16)
    requires CoordinatesFit(r) && !r.IsEmpty() && cols > 0 && rows > 0
    ensures ExactTiling(r, Blocks(r, CountsSize(r, cols, rows)))
    ensures r.width % cols == 0 && r.height % rows == 0 ==> |Blocks(r, CountsSize(r, cols, rows))| == rows * cols
    ensures |Blocks(r, CountsSize(r, cols, rows))| >= Min(rows, r.height) * Min(cols, r.width)
  {
    var sz := CountsSize(r, cols, rows);
    CountsArePositive(r, cols, rows);
    DividesExactly(r, sz);
    CountsAreMet(r.width, cols, sz.width);
    CountsAreMet(r.height, rows, sz.height);
    ProductBound(Min(rows, r.height), Min(cols, r.width), Count(r.height, sz.height), Count(r.width, sz.width));
  }

  lemma QuotientPositive(a: nat, b: nat)
    requires 0 < b < a
    ensures 1 <= a / b <= a
  {
    var q, r := a / b, a % b;
    assert a == q * b + r;
    MulMono(1, b, q);
    if q == 0 { assert false; }
  }

  // ---- exact tiling ----

  /** The region's points have int16 coordinates. */
  predicate CoordinatesFit(r: Region) { r.x + r.width <= 0x8000 && r.y + r.height <= 0x8000 }

  lemma {:induction false} BlockAt(r: Region, cw: nat, ch: nat, n: nat, i: nat, j: nat)
    requires n <= Count(r.height, ch) && i < Count(r.width, cw) && j < n
    ensures i * cw < r.width && j * ch < r.height
    ensures j * Count(r.width, cw) + i < n * Count(r.width, cw)
    ensures Rows(r, cw, ch, n)[j * Count(r.width, cw) + i] == Block(r, cw, ch, i * cw, j * ch)
    decreases n
  {
    var m := Count(r.width, cw);
    InCount(r.width, cw, i);
    InCount(r.height, ch, j);
    MulStep(j, n, m);
    if j < n - 1 {
      BlockAt(r, cw, ch, n - 1, i, j);
    } else {
      assert |Rows(r, cw, ch, n - 1)| == j * m;
    }
  }

  /** Which part of a side a coordinate falls into. */
  lemma PartOf(side: nat, step: nat, p: nat, i: nat)
    requires p < side && step > 0 && i < Count(side, step)
    ensures p / step < Count(side, step)
    ensures i * step <= p < i * step + Min(side - i * step, step) <==> i == p / step
  {
    var q, r := p / step, p % step;
    assert p == q * step + r;
    InCount(side, step, q);
    if i < q { MulStep(i, q, step); }
    if q < i { MulStep(q, i, step); }
  }

  /** What the blocks of a region must be for the tiling to be exact. */
  ghost predicate ExactTiling(r: Region, blocks: seq<Region>)
  {
    && (forall k :: 0 <= k < |blocks| ==> !blocks[k].IsEmpty())
    && (forall k, p :: 0 <= k < |blocks| && Inside(blocks[k], p) ==> Inside(r, p))
    && (forall p :: Inside(r, p) ==> exists k :: 0 <= k < |blocks| && Inside(blocks[k], p))
    && (forall j, k, p :: 0 <= j < |blocks| && 0 <= k < |blocks| && Inside(blocks[j], p) && Inside(blocks[k], p) ==> j == k)
  }

  lemma BlockInside(r: Region, cw: nat, ch: nat, xx: nat, yy: nat)
    requires CoordinatesFit(r) && xx < r.width && yy < r.height && cw > 0 && ch > 0
    ensures var b := Block(r, cw, ch, xx, yy);
            && !b.IsEmpty() && b.x == r.x + xx && b.y == r.y + yy
            && b.width == Min(r.width - xx, cw) && b.height == Min(r.height - yy, ch)
  {
  }

  /** The points that one block covers; it is not empty. */
  lemma BlockCovers(r: Region, cw: nat, ch: nat, i: nat, j: nat, xx: nat, yy: nat, p: Point)
    requires CoordinatesFit(r) && !r.IsEmpty() && cw > 0 && ch > 0
    requires i < Count(r.width, cw) && j < Count(r.height, ch) && xx == i * cw && yy == j * ch
    ensures xx < r.width && yy < r.height && !Block(r, cw, ch, xx, yy).IsEmpty()
    ensures Inside(Block(r, cw, ch, xx, yy), p) <==> Inside(r, p) && i == (p.x - r.x) / cw && j == (p.y - r.y) / ch
  {
    InCount(r.width, cw, i);
    InCount(r.height, ch, j);
    BlockInside(r, cw, ch, xx, yy);
    if Inside(r, p) {
      PartOf(r.width, cw, p.x - r.x, i);
      PartOf(r.height, ch, p.y - r.y, j);
    }
  }

  lemma SplitIndex(k: nat, m: nat, n: nat)
    requires k < n * m
    ensures m > 0 && k == k / m * m + k % m && k / m < n
  {
    if m == 0 { assert false; }
    if k / m >= n { MulMono(n, k / m, m); }
  }

  lemma JoinIndex(i: nat, m: nat, j: nat, n: nat) returns (k: nat)
    requires i < m && j < n
    ensures k < n * m && k % m == i && k / m == j
  {
    MulStep(j, n, m);
    k := j * m + i;
    DivUnique(k, m, j, i);
  }

  /** The k-th block is not empty, and covers the points of its row and column. */
  lemma RowsCover(r: Region, cw: nat, ch: nat, k: nat, p: Point)
    requires CoordinatesFit(r) && !r.IsEmpty() && cw > 0 && ch > 0
    requires k < Count(r.height, ch) * Count(r.width, cw)
    ensures var b, m := Rows(r, cw, ch, Count(r.height, ch))[k], Count(r.width, cw);
            && m > 0 && !b.IsEmpty()
            && (Inside(b, p) <==> Inside(r, p) && k % m == (p.x - r.x) / cw && k / m == (p.y - r.y) / ch)
  {
    var m := Count(r.width, cw);
    SplitIndex(k, m, Count(r.height, ch));
    RowsCoverAt(r, cw, ch, k, k % m, k / m, p);
  }

  lemma RowsCoverAt(r: Region, cw: nat, ch: nat, k: nat, i: nat, j: nat, p: Point)
    requires CoordinatesFit(r) && !r.IsEmpty() && cw > 0 && ch > 0
    requires i < Count(r.width, cw) && j < Count(r.height, ch) && k == j * Count(r.width, cw) + i
    ensures k < Count(r.height, ch) * Count(r.width, cw)
    ensures var b := Rows(r, cw, ch, Count(r.height, ch))[k];
            !b.IsEmpty() && (Inside(b, p) <==> Inside(r, p) && i == (p.x - r.x) / cw && j == (p.y - r.y) / ch)
  {
    var b := BlockAtIndex(r, cw, ch, k, i, j, i * cw, j * ch);
    BlockCovers(r, cw, ch, i, j, i * cw, j * ch, p);
  }

  lemma BlockAtIndex(r: Region, cw: nat, ch: nat, k: nat, i: nat, j: nat, xx: nat, yy: nat) returns (b: Region)
    requires i < Count(r.width, cw) && j < Count(r.height, ch) && k == j * Count(r.width, cw) + i
    requires xx == i * cw && yy == j * ch
    ensures k < Count(r.height, ch) * Count(r.width, cw) && b == Rows(r, cw, ch, Count(r.height, ch))[k]
    ensures xx < r.width && yy < r.height && b == Block(r, cw, ch, xx, yy)
  {
    BlockAt(r, cw, ch, Count(r.height, ch), i, j);
    b := Rows(r, cw, ch, Count(r.height, ch))[k];
  }

  /** Some block covers each point. */
  lemma RowsReach(r: Region, cw: nat, ch: nat, p: Point) returns (k: nat)
    requires CoordinatesFit(r) && !r.IsEmpty() && cw > 0 && ch > 0 && Inside(r, p)
    ensures k < Count(r.height, ch) * Count(r.width, cw)
    ensures Inside(Rows(r, cw, ch, Count(r.height, ch))[k], p)
  {
    var m, n := Count(r.width, cw), Count(r.height, ch);
    var i, j := (p.x - r.x) / cw, (p.y - r.y) / ch;
    PartOf(r.width, cw, p.x - r.x, 0);
    PartOf(r.height, ch, p.y - r.y, 0);
    k := JoinIndex(i, m, j, n);
    RowsCover(r, cw, ch, k, p);
  }

  lemma RowsTileExactly(r: Region, cw: nat, ch: nat)
    requires CoordinatesFit(r) && !r.IsEmpty() && cw > 0 && ch > 0
    ensures ExactTiling(r, Rows(r, cw, ch, Count(r.height, ch)))
  {
    var blocks, m := Rows(r, cw, ch, Count(r.height, ch)), Count(r.width, cw);
    forall k | 0 <= k < |blocks| ensures !blocks[k].IsEmpty() { RowsCover(r, cw, ch, k, TopLeft(r)); }
    forall k, p | 0 <= k < |blocks| && Inside(blocks[k], p) ensures Inside(r, p) { RowsCover(r, cw, ch, k, p); }
    forall p | Inside(r, p) ensures exists k :: 0 <= k < |blocks| && Inside(blocks[k], p) {
      var k := RowsReach(r, cw, ch, p);
    }
    forall j, k, p | 0 <= j < |blocks| && 0 <= k < |blocks| && Inside(blocks[j], p) && Inside(blocks[k], p)
      ensures j == k
    {
      RowsCover(r, cw, ch, j, p);
      RowsCover(r, cw, ch, k, p);
      SplitIndex(j, m, Count(r.height, ch));
      SplitIndex(k, m, Count(r.height, ch));
    }
  }

  /** A region whose coordinates fit is cut exactly: no block is empty or sticks
      out, every point is in exactly one block, and there are as many blocks as
      the sides need. */
  lemma DividesExactly(r: Region, sz: Size)
    requires CoordinatesFit(r) && !r.IsEmpty() && !sz.IsEmpty()
    ensures ExactTiling(r, Blocks(r, sz))
    ensures |Blocks(r, sz)| == Count(r.height, StepOf(sz.height, r.height)) * Count(r.width, StepOf(sz.width, r.width))
  {
    RowsTileExactly(r, StepOf(sz.width, r.width), StepOf(sz.height, r.height));
  }
}
