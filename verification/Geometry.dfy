/** Points, sizes and regions of src/common/ltsm_xcb_types.cpp. */
module Geometry {
  import opened MachineInts
  import opened Arithmetic

  datatype Point = Point(x: int, y: int)

  datatype Size = Size(width: uint16, height: uint16)
  {
    predicate IsEmpty() { width == 0 || height == 0 }
  }

  datatype Region = Region(x: int16, y: int16, width: uint16, height: uint16)
  {
    predicate IsEmpty() { width == 0 || height == 0 }

    predicate IsValid() { 0 <= x && 0 <= y && !IsEmpty() }
  }

  /** The points a region covers. */
  predicate Inside(r: Region, p: Point)
  {
    r.x <= p.x < r.x + r.width && r.y <= p.y < r.y + r.height
  }

  /** Point::operator+ on int16 coordinates. */
  function Plus(a: Point, b: Point): Point { Point(ToInt16(a.x + b.x), ToInt16(a.y + b.y)) }

  function TopLeft(r: Region): Point { Point(r.x, r.y) }

  // ---- walking over a rectangle ----

  /** The k-th point of a rectangle, row by row. */
  function RowMajor(width: nat, k: nat): Point
    requires width > 0
  {
    Point(k % width, k / width)
  }

  /** How many points PointIterator visits before it turns invalid: its x and y
      are 16-bit, so a row of 32768 or more points ends the walk, and so does
      row 32768. */
  function Visits(limit: Size): nat
  {
    if limit.IsEmpty() then 0
    else if limit.width <= 0x7FFF then limit.width * Min(limit.height, 0x8000)
    else 0x8000
  }

  class PointIterator {
    var x: int16
    var y: int16
    const limit: Size

    constructor (limit: Size)
      ensures this.limit == limit && x == 0 && y == 0
    {
      this.limit := limit;
      x, y := 0, 0;
    }

    predicate IsValid()
      reads this
    {
      0 <= x < limit.width && 0 <= y < limit.height
    }

    method Next()
      requires IsValid()
      modifies this
      ensures Point(x, y) == Stepped(limit, old(Point(x, y)))
    {
      x := ToInt16(x + 1);
      if x < limit.width { return; }
      if y < limit.height {
        y := ToInt16(y + 1);
        if limit.height <= y {
          x, y := -1, -1;
          return;
        }
        x := 0;
      }
    }
  }

  predicate OnGrid(limit: Size, p: Point) { 0 <= p.x < limit.width && 0 <= p.y < limit.height }

  /** operator++ of a valid iterator: one to the right, then to the start of the
      next row, then invalid.  The increments wrap at 16 bits. */
  function Stepped(limit: Size, p: Point): Point
  {
    var right, down := ToInt16(p.x + 1), ToInt16(p.y + 1);
    if right < limit.width then Point(right, p.y)
    else if down < limit.height then Point(0, down)
    else Point(-1, -1)
  }

  lemma RowMajorAt(x: nat, y: nat, width: nat)
    requires x < width
    ensures RowMajor(width, y * width + x) == Point(x, y)
  {
    DivUnique(y * width + x, width, y, x);
  }

  function IndexOf(limit: Size, p: Point): int { p.y * limit.width + p.x }

  /** One step of the walk goes to the next index, or off the grid at the end. */
  lemma StepAdvances(limit: Size, p: Point)
    requires OnGrid(limit, p) && p.x <= 0x7FFF && p.y <= 0x7FFF && (limit.width > 0x7FFF ==> p.y == 0)
    ensures var q := Stepped(limit, p);
            && IndexOf(limit, p) < Visits(limit)
            && (OnGrid(limit, q) <==> IndexOf(limit, p) + 1 < Visits(limit))
            && (OnGrid(limit, q) ==> IndexOf(limit, q) == IndexOf(limit, p) + 1 && (limit.width > 0x7FFF ==> q.y == 0))
  {
    if limit.width <= 0x7FFF { NarrowStep(limit, p, Min(limit.height, 0x8000)); }
  }

  lemma NarrowStep(limit: Size, p: Point, rows: nat)
    requires OnGrid(limit, p) && p.y <= 0x7FFF && limit.width <= 0x7FFF && rows == Min(limit.height, 0x8000)
    ensures var q := Stepped(limit, p);
            && IndexOf(limit, p) < limit.width * rows
            && (OnGrid(limit, q) <==> IndexOf(limit, p) + 1 < limit.width * rows)
            && (OnGrid(limit, q) ==> IndexOf(limit, q) == IndexOf(limit, p) + 1)
  {
    IndexOrder(p.x, p.y, limit.width, rows);
  }

  /** The last point of a row is followed by the first of the next one. */
  lemma IndexOrder(x: nat, y: nat, w: nat, rows: nat)
    requires x < w && y < rows
    ensures y * w + x < w * rows && (y + 1) * w + 0 == y * w + w
    ensures y * w + x + 1 == w * rows <==> x == w - 1 && y == rows - 1
  {
    assert (y + 1) * w == y * w + w && w * rows == rows * w;
    MulStep(y, rows, w);
    if y + 1 < rows { MulStep(y + 1, rows, w); }
  }

  /** The walk `for(it = coordBegin(); it.isValid(); ++it)`. */
  method Walk(limit: Size) returns (visited: seq<Point>)
    ensures |visited| == Visits(limit)
    ensures forall k :: 0 <= k < |visited| ==> limit.width > 0 && visited[k] == RowMajor(limit.width, k)
  {
    var it := new PointIterator(limit);
    visited := [];
    ghost var total := Visits(limit);
    if !limit.IsEmpty() { StepAdvances(limit, Point(0, 0)); }
    while it.IsValid()
      invariant it.limit == limit
      invariant forall k :: 0 <= k < |visited| ==> limit.width > 0 && visited[k] == RowMajor(limit.width, k)
      invariant it.IsValid() ==> |visited| == IndexOf(limit, Point(it.x, it.y)) < total && (limit.width > 0x7FFF ==> it.y == 0)
      invariant !it.IsValid() ==> |visited| == total
      decreases total - |visited|
    {
      RowMajorAt(it.x, it.y, limit.width);
      StepAdvances(limit, Point(it.x, it.y));
      visited := visited + [Point(it.x, it.y)];
      it.Next();
    }
  }

  /** The walk reaches every point exactly when the sides are small enough. */
  lemma WalkCompleteIff(limit: Size)
    requires !limit.IsEmpty()
    ensures Visits(limit) == limit.width * limit.height <==>
            (limit.width <= 0x7FFF && limit.height <= 0x8000) || (limit.width == 0x8000 && limit.height == 1)
  {
    var w, h := limit.width, limit.height;
    if w <= 0x7FFF && h > 0x8000 {
      MulStep(0x8000, h, w);
    } else if w > 0x7FFF && h > 1 {
      ProductBound(0x8000, 2, w, h);
    }
  }

  /** Two rows of 32768 points: x wraps after the first row, which ends the walk
      before the second. */
  lemma WideRowsEndEarly(limit: Size)
    requires limit == Size(0x8000, 2)
    ensures Stepped(limit, Point(0x7FFF, 0)) == Point(-0x8000, 0) && !OnGrid(limit, Point(-0x8000, 0))
    ensures Visits(limit) == 0x8000 < limit.width * limit.height
  {
    assert limit.width * limit.height == 0x1_0000;
  }

  /** A complete walk visits each point of the rectangle exactly once. */
  lemma EachPointOnce(limit: Size, p: Point)
    requires 0 <= p.x < limit.width && 0 <= p.y < limit.height
    ensures p.y * limit.width + p.x < limit.width * limit.height
    ensures forall k: nat :: RowMajor(limit.width, k) == p <==> k == p.y * limit.width + p.x
  {
    RowMajorAt(p.x, p.y, limit.width);
    MulStep(p.y, limit.height, limit.width);
  }

  // ---- intersections ----

  function Intersects(a: Region, b: Region): (r: bool)
  {
    if a.IsEmpty() || b.IsEmpty() then false
    else if Min(a.x + a.width, b.x + b.width) <= Max(a.x, b.x) then false
    else if Min(a.y + a.height, b.y + b.height) <= Max(a.y, b.y) then false
    else true
  }

  /** Regions intersect exactly when they share a point. */
  lemma IntersectsIff(a: Region, b: Region)
    ensures Intersects(a, b) <==> exists p :: Inside(a, p) && Inside(b, p)
  {
    if Intersects(a, b) {
      var p := Point(Max(a.x, b.x), Max(a.y, b.y));
      assert Inside(a, p) && Inside(b, p);
    }
  }

  /** The common part of two regions that intersect. */
  function Clipped(a: Region, b: Region): Region
    requires Intersects(a, b)
  {
    var x, y := Max(a.x, b.x), Max(a.y, b.y);
    Region(x, y, Min(a.x + a.width, b.x + b.width) - x, Min(a.y + a.height, b.y + b.height) - y)
  }

  /** It is not empty and covers exactly the common points. */
  lemma ClippedIsExact(a: Region, b: Region)
    requires Intersects(a, b)
    ensures !Clipped(a, b).IsEmpty()
    ensures forall p :: Inside(Clipped(a, b), p) <==> Inside(a, p) && Inside(b, p)
  {
  }

  /** The out-parameter keeps its value when the regions do not intersect. */
  method Intersection(a: Region, b: Region, res: Region) returns (ok: bool, res': Region)
    ensures ok <==> Intersects(a, b)
    ensures res' == if ok then Clipped(a, b) else res
  {
    res' := res;
    var intersects := Intersects(a, b);
    if !intersects { return false, res'; }
    var x := Max(a.x, b.x);
    var width := ToUint16(Min(a.x + a.width, b.x + b.width) - x);
    var y := Max(a.y, b.y);
    var height := ToUint16(Min(a.y + a.height, b.y + b.height) - y);
    res' := Region(x, y, width, height);
    ok := !res'.IsEmpty();
  }

  // ---- joining ----

  function Joined(r: Region, reg: Region): Region
  {
    if !r.IsValid() then reg
    else if !reg.IsEmpty() && r != reg then
      var xm, ym := Min(r.x, reg.x), Min(r.y, reg.y);
      Region(xm, ym, ToUint16(Max(r.x + r.width, reg.x + reg.width) - xm), ToUint16(Max(r.y + r.height, reg.y + reg.height) - ym))
    else r
  }

  /** The damage region, updated in place by join. */
  class Damage {
    var x: int16
    var y: int16
    var width: uint16
    var height: uint16

    ghost function View(): Region
      reads this
    {
      Region(x, y, width, height)
    }

    constructor ()
      ensures View() == Region(-1, -1, 0, 0)
    {
      x, y, width, height := -1, -1, 0, 0;
    }

    method Join(reg: Region)
      modifies this
      ensures View() == Joined(old(View()), reg)
    {
      if !(0 <= x && 0 <= y && width != 0 && height != 0) {
        x, y, width, height := reg.x, reg.y, reg.width, reg.height;
      } else if !reg.IsEmpty() && Region(x, y, width, height) != reg {
        var xm := Min(x, reg.x);
        width := ToUint16(Max(x + width, reg.x + reg.width) - xm);
        x := xm;
        var ym := Min(y, reg.y);
        height := ToUint16(Max(y + height, reg.y + reg.height) - ym);
        y := ym;
      }
    }

    method JoinAll(regs: seq<Region>)
      modifies this
      ensures View() == JoinedAll(old(View()), regs)
    {
      assert regs[..0] == [];
      for i := 0 to |regs|
        invariant View() == JoinedAll(old(View()), regs[..i])
      {
        assert regs[..i + 1][..i] == regs[..i];
        Join(regs[i]);
      }
      assert regs[..|regs|] == regs;
    }
  }

  function JoinedAll(r: Region, regs: seq<Region>): Region
  {
    if regs == [] then r else Joined(JoinedAll(r, regs[..|regs| - 1]), regs[|regs| - 1])
  }

  /** A box given by its edges. */
  datatype Box = Box(left: int, top: int, right: int, bottom: int)

  function BoxOf(r: Region): Box { Box(r.x, r.y, r.x + r.width, r.y + r.height) }

  predicate Within(a: Box, b: Box)
  {
    b.left <= a.left && b.top <= a.top && a.right <= b.right && a.bottom <= b.bottom
  }

  predicate Encloses(box: Box, regs: seq<Region>)
  {
    forall i :: 0 <= i < |regs| ==> Within(BoxOf(regs[i]), box)
  }

  ghost predicate IsLeastBox(box: Box, regs: seq<Region>)
  {
    Encloses(box, regs) && forall b: Box :: Encloses(b, regs) ==> Within(box, b)
  }

  function Union(a: Box, b: Box): Box
  {
    Box(Min(a.left, b.left), Min(a.top, b.top), Max(a.right, b.right), Max(a.bottom, b.bottom))
  }

  function Hull(regs: seq<Region>): Box
    requires regs != []
  {
    var last := BoxOf(regs[|regs| - 1]);
    if |regs| == 1 then last else Union(Hull(regs[..|regs| - 1]), last)
  }

  lemma {:induction false} HullIsLeast(regs: seq<Region>)
    requires regs != []
    ensures IsLeastBox(Hull(regs), regs)
  {
    if |regs| > 1 {
      var front := regs[..|regs| - 1];
      HullIsLeast(front);
      forall i | 0 <= i < |regs| ensures Within(BoxOf(regs[i]), Hull(regs)) {
        if i < |front| { assert Within(BoxOf(front[i]), Hull(front)); }
      }
      forall b: Box | Encloses(b, regs) ensures Within(Hull(regs), b) {
        assert Encloses(b, front);
        assert Within(BoxOf(regs[|regs| - 1]), b);
      }
    } else {
      forall b: Box | Encloses(b, regs) ensures Within(Hull(regs), b) {
        assert Within(BoxOf(regs[0]), b);
      }
    }
  }

  /** The sides of a box fit the 16 bits of a region's width and height. */
  predicate Narrow(b: Box) { b.right - b.left <= 0xFFFF && b.bottom - b.top <= 0xFFFF }

  lemma JoinedTwo(a: Region, b: Region)
    requires a.IsValid() && b.IsValid() && Narrow(Union(BoxOf(a), BoxOf(b)))
    ensures Joined(a, b).IsValid() && BoxOf(Joined(a, b)) == Union(BoxOf(a), BoxOf(b))
  {
  }

  lemma {:induction false} JoinedIsHull(r0: Region, regs: seq<Region>)
    requires !r0.IsValid() && regs != []
    requires forall i :: 0 <= i < |regs| ==> regs[i].IsValid()
    requires Narrow(Hull(regs))
    ensures BoxOf(JoinedAll(r0, regs)) == Hull(regs) && JoinedAll(r0, regs).IsValid()
  {
    var front, last := regs[..|regs| - 1], regs[|regs| - 1];
    if |regs| == 1 {
      assert front == [] && JoinedAll(r0, front) == r0;
    } else {
      JoinedIsHull(r0, front);
      JoinedTwo(JoinedAll(r0, front), last);
    }
  }

  /** Folding join over valid regions, from an invalid one, gives the least box
      containing them all exactly when that box can be a region at all. */
  lemma JoinIsLeastBoxIff(r0: Region, regs: seq<Region>)
    requires !r0.IsValid() && regs != []
    requires forall i :: 0 <= i < |regs| ==> regs[i].IsValid()
    ensures IsLeastBox(BoxOf(JoinedAll(r0, regs)), regs) <==> Narrow(Hull(regs))
  {
    HullIsLeast(regs);
    if Narrow(Hull(regs)) { JoinedIsHull(r0, regs); }
    if IsLeastBox(BoxOf(JoinedAll(r0, regs)), regs) {
      LeastBoxUnique(BoxOf(JoinedAll(r0, regs)), Hull(regs), regs);
    }
  }

  lemma JoinOfTwo(r0: Region, a: Region, b: Region)
    requires !r0.IsValid()
    ensures JoinedAll(r0, [a, b]) == Joined(a, b) && Hull([a, b]) == Union(BoxOf(a), BoxOf(b))
  {
    var both, one := [a, b], [a];
    assert both[..1] == one && one[..0] == [];
    assert JoinedAll(r0, one) == Joined(JoinedAll(r0, []), a) == a;
    assert Hull(one) == BoxOf(a);
  }

  lemma JoinedWidth(a: Region, b: Region)
    requires a.IsValid() && b.IsValid() && a.x == 0 && b.x == 32767 && a.width == b.width == 40000
    ensures Joined(a, b).width == 7231 && Joined(a, b).x == 0
    ensures !Narrow(Union(BoxOf(a), BoxOf(b)))
  {
  }

  /** Two regions of width 40000, at 0 and at 32767: their hull is 72767 wide, the
      joined region only 7231. */
  lemma WideJoinIsCut(r0: Region, a: Region, b: Region)
    requires !r0.IsValid() && a.IsValid() && b.IsValid() && a.x == 0 && b.x == 32767 && a.width == b.width == 40000
    ensures JoinedAll(r0, [a, b]).width == 7231 && !IsLeastBox(BoxOf(JoinedAll(r0, [a, b])), [a, b])
  {
    var both := [a, b];
    JoinOfTwo(r0, a, b);
    JoinedWidth(a, b);
    JoinIsLeastBoxIff(r0, both);
  }

  /** The regions that are not empty. */
  function NonEmpty(regs: seq<Region>): seq<Region>
  {
    if regs == [] then []
    else NonEmpty(regs[..|regs| - 1]) + if regs[|regs| - 1].IsEmpty() then [] else [regs[|regs| - 1]]
  }

  lemma {:induction false} NonEmptyAreValid(regs: seq<Region>)
    requires forall i :: 0 <= i < |regs| ==> regs[i].IsEmpty() || regs[i].IsValid()
    ensures forall i :: 0 <= i < |NonEmpty(regs)| ==> NonEmpty(regs)[i].IsValid()
  {
    if regs != [] { NonEmptyAreValid(regs[..|regs| - 1]); }
  }

  /** Empty regions do not count: what was joined is the same without them. */
  lemma {:induction false} EmptyDoNotCount(r0: Region, regs: seq<Region>)
    requires !r0.IsValid()
    requires forall i :: 0 <= i < |regs| ==> regs[i].IsEmpty() || regs[i].IsValid()
    requires NonEmpty(regs) != [] ==> Narrow(Hull(NonEmpty(regs)))
    ensures NonEmpty(regs) == [] ==> !JoinedAll(r0, regs).IsValid()
    ensures NonEmpty(regs) != [] ==> JoinedAll(r0, regs) == JoinedAll(r0, NonEmpty(regs)) && JoinedAll(r0, regs).IsValid()
  {
    if regs != [] {
      var front, last := regs[..|regs| - 1], regs[|regs| - 1];
      var some := NonEmpty(front);
      if last.IsEmpty() {
        assert NonEmpty(regs) == some;
        EmptyDoNotCount(r0, front);
      } else {
        assert NonEmpty(regs)[..|some|] == some;
        if some != [] { assert Hull(NonEmpty(regs)) == Union(Hull(some), BoxOf(last)); } else { assert JoinedAll(r0, []) == r0; }
        EmptyDoNotCount(r0, front);
        NonEmptyAreValid(regs);
        JoinedIsHull(r0, NonEmpty(regs));
      }
    }
  }

  /** A region left of or above the origin is forgotten: joining it leaves an
      invalid region, which the next one replaces. */
  lemma NegativeIsForgotten(r: Region, a: Region, b: Region)
    requires !a.IsEmpty() && (a.x < 0 || a.y < 0)
    ensures !Joined(r, a).IsValid() && Joined(Joined(r, a), b) == b
  {
  }

  lemma LeastBoxUnique(a: Box, b: Box, regs: seq<Region>)
    requires IsLeastBox(a, regs) && IsLeastBox(b, regs)
    ensures a == b
  {
    assert Within(a, b) && Within(b, a);
  }

  /** Edges up to 65535 are enough. */
  lemma {:induction false} SmallEdgesAreNarrow(regs: seq<Region>)
    requires regs != []
    requires forall i :: 0 <= i < |regs| ==> regs[i].IsValid() && BoxOf(regs[i]).right <= 0xFFFF && BoxOf(regs[i]).bottom <= 0xFFFF
    ensures 0 <= Hull(regs).left && 0 <= Hull(regs).top && Hull(regs).right <= 0xFFFF && Hull(regs).bottom <= 0xFFFF
    ensures Narrow(Hull(regs))
  {
    if |regs| > 1 { SmallEdgesAreNarrow(regs[..|regs| - 1]); }
  }

  /** The result depends only on which regions were joined, not on their order
      or number. */
  lemma JoinOrderIndependent(r0: Region, a: seq<Region>, b: seq<Region>)
    requires !r0.IsValid() && a != [] && Narrow(Hull(a))
    requires forall i :: 0 <= i < |a| ==> a[i].IsValid()
    requires forall r :: r in a <==> r in b
    ensures JoinedAll(r0, a) == JoinedAll(r0, b)
  {
    assert a[0] in b;
    forall i | 0 <= i < |b| ensures b[i].IsValid() { assert b[i] in a; }
    HullIsLeast(a);
    HullIsLeast(b);
    forall i | 0 <= i < |a| ensures Within(BoxOf(a[i]), Hull(b)) { assert a[i] in b; }
    forall i | 0 <= i < |b| ensures Within(BoxOf(b[i]), Hull(a)) { assert b[i] in a; }
    assert Encloses(Hull(b), a) && Encloses(Hull(a), b);
    assert Within(Hull(a), Hull(b)) && Within(Hull(b), Hull(a));
    JoinedIsHull(r0, a);
    JoinedIsHull(r0, b);
  }
}
