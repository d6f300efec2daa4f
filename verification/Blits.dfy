/** blitRegion and copyRegion of src/common/ltsm_framebuffer.cpp: pixel by pixel
    with conversion, row by row, and as parallel jobs in any interleaving. */
module Blits {
  import opened MachineInts
  import opened Wrappers
  import opened Arithmetic
  import opened ByteOrder
  import opened Geometry
  import opened Tiling
  import opened PixelFormats
  import opened PixelLayout
  import opened FrameBuffers

  type Conversion = uint32 -> uint32

  /** What a blit shows: at point p the converted source pixel whose distance
      from `from` is that of p from `to`. */
  function SourcePaint(src: Layout, bytes: seq<byte>, from: Point, to: Point, convert: Conversion): Paint
  {
    (p: Point) => PaintAt(src, bytes, Point(from.x + (p.x - to.x), from.y + (p.y - to.y)), convert)
  }

  /** The converted source pixel at q; outside the source nothing matters. */
  function PaintAt(src: Layout, bytes: seq<byte>, q: Point, convert: Conversion): uint32
  {
    if src.Valid() && |bytes| == src.Size() && Inside(src.Bounds(), q) then convert(PixelOf(src, bytes, q)) else 0
  }

  /** The source pixels of the clipped part exist. */
  predicate SourceInRange(src: Layout, reg: Region, dst: Region)
  {
    0 <= reg.x && 0 <= reg.y && reg.x + dst.width <= src.width && reg.y + dst.height <= src.height
  }

  // ---- walks over tiles ----

  /** p is among the first n points of the walk over a tile. */
  predicate Reached(tile: Region, walk: seq<Point>, n: nat, p: Point)
  {
    exists k :: 0 <= k < n <= |walk| && walk[k] == Point(p.x - tile.x, p.y - tile.y)
  }

  /** The regions drawn so far are the points that the jobs have reached. */
  ghost predicate JobsAt(done: seq<Region>, tiles: seq<Region>, walks: seq<seq<Point>>, at: seq<nat>)
    requires |tiles| == |walks| == |at|
  {
    && (forall t :: 0 <= t < |at| ==> at[t] <= |walks[t]|)
    && forall p :: InAny(done, p) <==> exists t :: 0 <= t < |tiles| && Reached(tiles[t], walks[t], at[t], p)
  }

  /** The walk of a tile, as PointIterator makes it. */
  predicate IsWalk(tile: Region, walk: seq<Point>)
  {
    !tile.IsEmpty() && |walk| == tile.width * tile.height
    && forall k :: 0 <= k < |walk| ==> walk[k] == RowMajor(tile.width, k)
  }

  method WalkTile(tile: Region) returns (walk: seq<Point>)
    requires !tile.IsEmpty() && tile.width <= 0x7FFF && tile.height <= 0x7FFF
    ensures IsWalk(tile, walk)
  {
    walk := Walk(Size(tile.width, tile.height));
    WalkCompleteIff(Size(tile.width, tile.height));
  }

  lemma WalkStays(tile: Region, walk: seq<Point>, k: nat)
    requires IsWalk(tile, walk) && k < |walk|
    ensures 0 <= walk[k].x < tile.width && 0 <= walk[k].y < tile.height
  {
    RowMajorStays(tile.width, tile.height, k);
  }

  lemma RowMajorStays(width: nat, height: nat, k: nat)
    requires k < width * height
    ensures width > 0 && 0 <= RowMajor(width, k).x < width && 0 <= RowMajor(width, k).y < height
  {
    assert width * height == height * width;
    SplitIndex(k, width, height);
  }

  lemma WalkReaches(tile: Region, walk: seq<Point>, p: Point)
    requires IsWalk(tile, walk)
    ensures Reached(tile, walk, |walk|, p) <==> Inside(tile, p)
  {
    if Inside(tile, p) {
      var q, limit := Point(p.x - tile.x, p.y - tile.y), Size(tile.width, tile.height);
      EachPointOnce(limit, q);
      assert walk[q.y * tile.width + q.x] == q;
    }
    if Reached(tile, walk, |walk|, p) {
      var k :| 0 <= k < |walk| && walk[k] == Point(p.x - tile.x, p.y - tile.y);
      WalkStays(tile, walk, k);
    }
  }

  /** One job draws its next point. */
  lemma JobSteps(done: seq<Region>, tiles: seq<Region>, walks: seq<seq<Point>>, at: seq<nat>, t: nat, r: Region)
    requires |tiles| == |walks| == |at| && JobsAt(done, tiles, walks, at)
    requires t < |at| && at[t] < |walks[t]|
    requires r.width == 1 && r.height == 1
    requires r.x == tiles[t].x + walks[t][at[t]].x && r.y == tiles[t].y + walks[t][at[t]].y
    ensures JobsAt(done + [r], tiles, walks, at[t := at[t] + 1])
  {
    var at' := at[t := at[t] + 1];
    forall p ensures InAny(done + [r], p) <==> exists t :: 0 <= t < |tiles| && Reached(tiles[t], walks[t], at'[t], p) {
      InAnyAppend(done, [r], p);
      assert InAny([r], p) <==> Inside([r][0], p);
      assert Inside(r, p) <==> walks[t][at[t]] == Point(p.x - tiles[t].x, p.y - tiles[t].y);
      ReachedStep(tiles[t], walks[t], at[t], p);
      if InAny(done, p) {
        var u :| 0 <= u < |tiles| && Reached(tiles[u], walks[u], at[u], p);
        assert Reached(tiles[u], walks[u], at'[u], p);
      }
      if u :| 0 <= u < |tiles| && Reached(tiles[u], walks[u], at'[u], p) {
        assert u != t ==> Reached(tiles[u], walks[u], at[u], p);
      }
    }
  }

  lemma ReachedStep(tile: Region, walk: seq<Point>, n: nat, p: Point)
    requires n < |walk|
    ensures Reached(tile, walk, n + 1, p) <==> Reached(tile, walk, n, p) || walk[n] == Point(p.x - tile.x, p.y - tile.y)
  {
    if walk[n] == Point(p.x - tile.x, p.y - tile.y) { assert 0 <= n < n + 1 <= |walk|; }
  }

  /** When all jobs are done, exactly the tiled region has been drawn. */
  lemma JobsDone(done: seq<Region>, tiles: seq<Region>, walks: seq<seq<Point>>, at: seq<nat>, dst: Region)
    requires |tiles| == |walks| == |at| && JobsAt(done, tiles, walks, at)
    requires forall t :: 0 <= t < |tiles| ==> IsWalk(tiles[t], walks[t]) && at[t] == |walks[t]|
    requires ExactTiling(dst, tiles)
    ensures forall p :: InAny(done, p) <==> InAny([dst], p)
  {
    forall p ensures InAny(done, p) <==> InAny([dst], p) {
      assert InAny([dst], p) <==> Inside([dst][0], p);
      forall t | 0 <= t < |tiles| ensures Reached(tiles[t], walks[t], at[t], p) <==> Inside(tiles[t], p) {
        WalkReaches(tiles[t], walks[t], p);
      }
    }
  }

  /** Points that the jobs have still to draw. */
  function Left(walks: seq<seq<Point>>, at: seq<nat>): int
    requires |walks| == |at|
  {
    if walks == [] then 0
    else Left(walks[..|walks| - 1], at[..|at| - 1]) + |walks[|walks| - 1]| - at[|at| - 1]
  }

  lemma {:induction false} LeftStep(walks: seq<seq<Point>>, at: seq<nat>, t: nat, k: nat)
    requires |walks| == |at| && t < |at| && at[t] <= k
    requires forall u :: 0 <= u < |at| ==> at[u] <= |walks[u]|
    ensures Left(walks, at[t := k]) == Left(walks, at) - (k - at[t])
    ensures Left(walks, at) >= 0
    decreases |at|
  {
    var n := |at| - 1;
    LeftNat(walks, at);
    if t < n {
      LeftStep(walks[..n], at[..n], t, k);
      assert at[t := k][..n] == at[..n][t := k];
    } else {
      assert at[t := k][..n] == at[..n];
    }
  }

  lemma {:induction false} LeftNat(walks: seq<seq<Point>>, at: seq<nat>)
    requires |walks| == |at|
    requires forall u :: 0 <= u < |at| ==> at[u] <= |walks[u]|
    ensures Left(walks, at) >= 0
    decreases |at|
  {
    if at != [] { LeftNat(walks[..|walks| - 1], at[..|at| - 1]); }
  }

  // ---- one point ----

  /** Point::operator- on int16 coordinates. */
  function Minus(a: Point, b: Point): Point { Point(ToInt16(a.x - b.x), ToInt16(a.y - b.y)) }

  /** The framebuffers and regions of a blit that has something to draw, and the
      picture it shows. */
  ghost predicate Blittable(self: FrameBuffer, fb: FrameBuffer, reg: Region, dst: Region, convert: Conversion, paint: Paint)
    reads fb.buffer
  {
    && self.Valid() && fb.Valid() && fb.buffer != self.buffer
    && Holds(self.Shape(), dst) && SourceInRange(fb.Shape(), reg, dst)
    && paint == SourcePaint(fb.Shape(), fb.buffer[..], TopLeft(reg), TopLeft(dst), convert)
  }

  /** Both pixel() and setPixelRow() know the depths. */
  predicate DepthsKnown(self: FrameBuffer, fb: FrameBuffer)
  {
    Supported(self.format.bitsPixel) && Supported(fb.format.bitsPixel)
  }

  /** setPixel(sub.topLeft + coord, fb.pixel(reg.topLeft + off + coord)), with
      off the offset of the tile in the clipped region; false is an exception. */
  method BlitPoint(self: FrameBuffer, fb: FrameBuffer, reg: Region, dst: Region, convert: Conversion, ghost paint: Paint,
                   sub: Region, coord: Point) returns (ok: bool)
    requires Blittable(self, fb, reg, dst, convert, paint)
    requires 0 <= coord.x < sub.width && 0 <= coord.y < sub.height
    requires Inside(dst, Point(sub.x + coord.x, sub.y + coord.y)) && Inside(dst, TopLeft(sub))
    modifies self.buffer
    ensures ok <==> DepthsKnown(self, fb)
    ensures !ok ==> self.buffer[..] == old(self.buffer[..])
    ensures ok ==> Drawn(self.Shape(), old(self.buffer[..]), self.buffer[..], [Region(sub.x + coord.x, sub.y + coord.y, 1, 1)], paint)
  {
    var pos, from := PointsOf(reg, dst, sub, coord, self.Shape(), fb.Shape());
    var raw := Fetch(fb, reg, dst, convert, paint, pos, from);
    if raw.Throws? { return false; }
    assert Region(pos.x, pos.y, 1, 1) == Region(sub.x + coord.x, sub.y + coord.y, 1, 1);
    ok := SetPoint(self, pos, raw.value, paint);
  }

  /** The converted source pixel for a point. */
  method Fetch(fb: FrameBuffer, reg: Region, dst: Region, convert: Conversion, ghost paint: Paint, pos: Point, from: Point)
    returns (raw: Result<uint32>)
    requires fb.Valid() && Inside(fb.Bounds(), from)
    requires paint == SourcePaint(fb.Shape(), fb.buffer[..], TopLeft(reg), TopLeft(dst), convert)
    requires from == Point(reg.x + (pos.x - dst.x), reg.y + (pos.y - dst.y))
    ensures raw == if Supported(fb.format.bitsPixel) then Ok(paint(pos)) else Throws
  {
    var pixel := fb.Pixel(from);
    if pixel.Throws? { return Throws; }
    ShownAt(fb.Shape(), fb.buffer[..], TopLeft(reg), TopLeft(dst), convert, pos, from);
    raw := Ok(convert(pixel.value));
  }

  method SetPoint(self: FrameBuffer, pos: Point, raw: uint32, ghost paint: Paint) returns (ok: bool)
    requires self.Valid() && Inside(self.Bounds(), pos) && paint(pos) == raw
    modifies self.buffer
    ensures ok == Supported(self.format.bitsPixel)
    ensures !ok ==> self.buffer[..] == old(self.buffer[..])
    ensures ok ==> Drawn(self.Shape(), old(self.buffer[..]), self.buffer[..], [Region(pos.x, pos.y, 1, 1)], paint)
  {
    ghost var before := self.buffer[..];
    assert Min(1, self.width - pos.x) == 1;
    ok := self.SetPixelRow(pos, raw, 1);
    if ok { PointIsPainted(self.Shape(), before, self.buffer[..], pos, raw, paint); }
  }

  lemma ShownAt(src: Layout, bytes: seq<byte>, from: Point, to: Point, convert: Conversion, p: Point, q: Point)
    requires src.Valid() && |bytes| == src.Size() && Inside(src.Bounds(), q)
    requires q == Point(from.x + (p.x - to.x), from.y + (p.y - to.y))
    ensures SourcePaint(src, bytes, from, to, convert)(p) == convert(PixelOf(src, bytes, q))
  {
  }

  /** The point drawn and the source point; in range the int16 sums are exact. */
  method PointsOf(reg: Region, dst: Region, sub: Region, coord: Point, l: Layout, src: Layout) returns (pos: Point, from: Point)
    requires src.Valid() && l.Valid() && Holds(l, dst) && SourceInRange(src, reg, dst)
    requires 0 <= coord.x < sub.width && 0 <= coord.y < sub.height
    requires Inside(dst, Point(sub.x + coord.x, sub.y + coord.y)) && Inside(dst, TopLeft(sub))
    ensures pos == Point(sub.x + coord.x, sub.y + coord.y) && Inside(l.Bounds(), pos)
    ensures from == Point(reg.x + (pos.x - dst.x), reg.y + (pos.y - dst.y)) && Inside(src.Bounds(), from)
  {
    var off := Minus(TopLeft(sub), TopLeft(dst));
    MinusExact(TopLeft(sub), TopLeft(dst));
    pos := Plus(TopLeft(sub), coord);
    PlusExact(TopLeft(sub), coord);
    from := Plus(Plus(TopLeft(reg), off), coord);
    PlusExact(TopLeft(reg), off);
    PlusExact(Plus(TopLeft(reg), off), coord);
  }

  predicate IsInt16(x: int) { -0x8000 <= x < 0x8000 }

  lemma PlusExact(a: Point, b: Point)
    requires IsInt16(a.x + b.x) && IsInt16(a.y + b.y)
    ensures Plus(a, b) == Point(a.x + b.x, a.y + b.y)
  {
  }

  lemma MinusExact(a: Point, b: Point)
    requires IsInt16(a.x - b.x) && IsInt16(a.y - b.y)
    ensures Minus(a, b) == Point(a.x - b.x, a.y - b.y)
  {
  }

  lemma PointIsPainted(l: Layout, before: seq<byte>, after: seq<byte>, pos: Point, raw: uint32, paint: Paint)
    requires 0 <= pos.x < 0x8000 && 0 <= pos.y < 0x8000 && paint(pos) == raw
    requires Drawn(l, before, after, [Region(pos.x, pos.y, 1, 1)], Solid(raw))
    ensures Drawn(l, before, after, [Region(pos.x, pos.y, 1, 1)], paint)
  {
    var r := Region(pos.x, pos.y, 1, 1);
    forall p ensures InAny([r], p) ==> p == pos {
      assert InAny([r], p) <==> Inside([r][0], p);
    }
    DrawnSame(l, before, after, [r], [r], Solid(raw), paint);
  }

  // ---- pixel by pixel ----

  lemma OneTile(dst: Region)
    requires !dst.IsEmpty()
    ensures ExactTiling(dst, [dst])
  {
    forall p | Inside(dst, p) ensures exists k :: 0 <= k < |[dst]| && Inside([dst][k], p) { assert Inside([dst][0], p); }
  }

  lemma NothingReached(tiles: seq<Region>, walks: seq<seq<Point>>, at: seq<nat>)
    requires |tiles| == |walks| == |at| && forall t :: 0 <= t < |at| ==> at[t] == 0
    ensures JobsAt([], tiles, walks, at)
  {
  }

  /** The next pixel of a job lies in the clipped region. */
  lemma StepStays(l: Layout, dst: Region, tiles: seq<Region>, t: nat, walk: seq<Point>, k: nat)
    requires l.Valid() && Holds(l, dst) && ExactTiling(dst, tiles) && t < |tiles| && IsWalk(tiles[t], walk) && k < |walk|
    ensures var sub, coord := tiles[t], walk[k];
            && 0 <= coord.x < sub.width && 0 <= coord.y < sub.height
            && Inside(dst, Point(sub.x + coord.x, sub.y + coord.y)) && Inside(dst, TopLeft(sub))
            && sub.x + coord.x < 0x8000 && sub.y + coord.y < 0x8000
  {
    WalkStays(tiles[t], walk, k);
    assert Inside(tiles[t], Point(tiles[t].x + walk[k].x, tiles[t].y + walk[k].y)) && Inside(tiles[t], TopLeft(tiles[t]));
  }

  /** One job sets its next pixel, or dies of an exception. */
  method JobTurn(self: FrameBuffer, fb: FrameBuffer, reg: Region, dst: Region, convert: Conversion, ghost paint: Paint,
                 tiles: seq<Region>, walks: seq<seq<Point>>, at: seq<nat>, t: nat,
                 ghost before: seq<byte>, ghost done: seq<Region>) returns (ok: bool, ghost done': seq<Region>)
    requires Blittable(self, fb, reg, dst, convert, paint)
    requires |tiles| == |walks| == |at| && t < |at| && at[t] < |walks[t]| && ExactTiling(dst, tiles)
    requires IsWalk(tiles[t], walks[t])
    requires DepthsKnown(self, fb) ==> JobsAt(done, tiles, walks, at)
    requires Drawn(self.Shape(), before, self.buffer[..], done, paint)
    modifies self.buffer
    ensures ok <==> DepthsKnown(self, fb)
    ensures !ok ==> self.buffer[..] == old(self.buffer[..]) && done' == done
    ensures ok ==> JobsAt(done', tiles, walks, at[t := at[t] + 1])
    ensures Drawn(self.Shape(), before, self.buffer[..], done', paint)
  {
    var sub, coord := tiles[t], walks[t][at[t]];
    StepStays(self.Shape(), dst, tiles, t, walks[t], at[t]);
    ghost var r := Region(sub.x + coord.x, sub.y + coord.y, 1, 1);
    done' := done;
    ok := BlitPoint(self, fb, reg, dst, convert, paint, sub, coord);
    if ok {
      DrawnMore(self.Shape(), before, old(self.buffer[..]), self.buffer[..], done, [r], paint);
      done' := done + [r];
      JobSteps(done, tiles, walks, at, t, r);
    }
  }

  /** The sequential loop over the clipped region; an exception leaves it. */
  method BlitPixels(self: FrameBuffer, fb: FrameBuffer, reg: Region, dst: Region, convert: Conversion, ghost paint: Paint)
    returns (ok: bool)
    requires Blittable(self, fb, reg, dst, convert, paint) && !dst.IsEmpty()
    modifies self.buffer
    ensures ok <==> DepthsKnown(self, fb)
    ensures !ok ==> self.buffer[..] == old(self.buffer[..])
    ensures ok ==> Drawn(self.Shape(), old(self.buffer[..]), self.buffer[..], [dst], paint)
  {
    var walk := WalkTile(dst);
    ghost var done: seq<Region>, before := [], self.buffer[..];
    OneTile(dst);
    NothingReached([dst], [walk], [0]);
    DrawnNothing(self.Shape(), before, paint);
    MulMono(1, dst.height, dst.width);
    for k := 0 to |walk|
      invariant Blittable(self, fb, reg, dst, convert, paint)
      invariant JobsAt(done, [dst], [walk], [k])
      invariant Drawn(self.Shape(), before, self.buffer[..], done, paint)
      invariant k > 0 ==> DepthsKnown(self, fb)
      invariant k == 0 ==> self.buffer[..] == before
    {
      ghost var bytes := fb.buffer[..];
      ok, done := JobTurn(self, fb, reg, dst, convert, paint, [dst], [walk], [k], 0, before, done);
      assert fb.buffer[..] == bytes;
      if !ok { return; }
      assert [k][0 := k + 1] == [k + 1];
    }
    JobsDone(done, [dst], [walk], [|walk|], dst);
    DrawnSame(self.Shape(), before, self.buffer[..], done, [dst], paint, paint);
    ok := true;
  }

  lemma TileIsSmall(dst: Region, tiles: seq<Region>, t: nat)
    requires ExactTiling(dst, tiles) && t < |tiles|
    ensures tiles[t].width <= dst.width && tiles[t].height <= dst.height
  {
    var b := tiles[t];
    assert !b.IsEmpty();
    assert Inside(tiles[t], Point(b.x, b.y)) && Inside(dst, Point(b.x, b.y));
    var last := Point(b.x + b.width - 1, b.y + b.height - 1);
    assert Inside(tiles[t], last) && Inside(dst, last);
  }

  /** The parallel form: four tiles (or so), each a job; at every moment any job
      that is not finished may do its next pixel.  A job that throws is finished,
      and nobody hears of it. */
  method BlitTiles(self: FrameBuffer, fb: FrameBuffer, reg: Region, dst: Region, convert: Conversion, ghost paint: Paint)
    requires Blittable(self, fb, reg, dst, convert, paint) && !dst.IsEmpty()
    modifies self.buffer
    ensures !DepthsKnown(self, fb) ==> self.buffer[..] == old(self.buffer[..])
    ensures DepthsKnown(self, fb) ==> Drawn(self.Shape(), old(self.buffer[..]), self.buffer[..], [dst], paint)
  {
    CountsReach(dst, 2, 2);
    var tiles := DivideCounts(dst, 2, 2);
    CountsArePositive(dst, 2, 2);
    DividesExactly(dst, CountsSize(dst, 2, 2));
    var walks := WalkTiles(dst, tiles);
    var at: seq<nat> := seq(|tiles|, _ => 0);
    ghost var done: seq<Region>, before := [], self.buffer[..];
    NothingReached(tiles, walks, at);
    DrawnNothing(self.Shape(), before, paint);
    LeftNat(walks, at);
    while exists t :: 0 <= t < |tiles| && at[t] < |walks[t]|
      invariant Blittable(self, fb, reg, dst, convert, paint) && |at| == |tiles|
      invariant forall t :: 0 <= t < |at| ==> at[t] <= |walks[t]|
      invariant DepthsKnown(self, fb) ==> JobsAt(done, tiles, walks, at)
      invariant Drawn(self.Shape(), before, self.buffer[..], done, paint)
      invariant !DepthsKnown(self, fb) ==> self.buffer[..] == before
      decreases Left(walks, at)
    {
      var t :| 0 <= t < |tiles| && at[t] < |walks[t]|;
      ghost var bytes := fb.buffer[..];
      var ok;
      ok, done := JobTurn(self, fb, reg, dst, convert, paint, tiles, walks, at, t, before, done);
      assert fb.buffer[..] == bytes;
      var next := if ok then at[t] + 1 else |walks[t]|;
      LeftStep(walks, at, t, next);
      at := at[t := next];
    }
    if DepthsKnown(self, fb) {
      JobsDone(done, tiles, walks, at, dst);
      DrawnSame(self.Shape(), before, self.buffer[..], done, [dst], paint, paint);
    }
  }

  method WalkTiles(dst: Region, tiles: seq<Region>) returns (walks: seq<seq<Point>>)
    requires ExactTiling(dst, tiles) && dst.width <= 0x7FFF && dst.height <= 0x7FFF
    ensures |walks| == |tiles| && forall t :: 0 <= t < |tiles| ==> IsWalk(tiles[t], walks[t])
  {
    walks := [];
    for t := 0 to |tiles|
      invariant |walks| == t && forall u :: 0 <= u < t ==> IsWalk(tiles[u], walks[u])
    {
      TileIsSmall(dst, tiles, t);
      var walk := WalkTile(tiles[t]);
      walks := walks + [walk];
    }
  }

  // ---- row by row ----

  lemma OwnerIsAt(l: Layout, i: nat)
    requires l.pitch > 0 && l.bytes > 0
    ensures i == Offset(l, Owner(l, i)) + Part(l, i)
  {
    Euclid(i, l.pitch);
    Euclid(i % l.pitch, l.bytes);
  }

  /** A stored pixel put back gives the same bytes. */
  lemma PixelBytes(src: Layout, bytes: seq<byte>, q: Point, b: nat)
    requires src.Valid() && |bytes| == src.Size() && Inside(src.Bounds(), q) && b < src.bytes
    ensures 0 <= Offset(src, q) && Offset(src, q) + b < |bytes|
    ensures Image(PixelOf(src, bytes, q), src.bytes)[b] == bytes[Offset(src, q) + b]
  {
    OffsetBound(src, q);
    ImageOfLoad(bytes[Offset(src, q)..Offset(src, q) + src.bytes]);
  }

  /** The byte that rowCopy puts at index i of its row is the byte of the source
      pixel that belongs there. */
  lemma CopiedByte(l: Layout, src: Layout, bytes: seq<byte>, to: Point, from: Point, i: nat, paint: Paint)
    requires l.Valid() && src.Valid() && src.bytes == l.bytes && |bytes| == src.Size() && l.pitch > 0
    requires Owner(l, i).y == to.y
    requires Inside(src.Bounds(), Point(from.x + (Owner(l, i).x - to.x), from.y))
    requires paint(Owner(l, i)) == PixelOf(src, bytes, Point(from.x + (Owner(l, i).x - to.x), from.y))
    ensures 0 <= Offset(src, from) + (i - Offset(l, to)) < |bytes|
    ensures Image(paint(Owner(l, i)), l.bytes)[Part(l, i)] == bytes[Offset(src, from) + (i - Offset(l, to))]
  {
    var p, b := Owner(l, i), Part(l, i);
    var q := Point(from.x + (p.x - to.x), from.y);
    OwnerIsAt(l, i);
    PixelBytes(src, bytes, q, b);
    assert (from.x + (p.x - to.x)) * l.bytes == from.x * l.bytes + p.x * l.bytes - to.x * l.bytes;
  }

  /** Rows are copied as they are: both framebuffers have the same format. */
  ghost predicate SameFormat(self: FrameBuffer, fb: FrameBuffer, convert: Conversion)
  {
    self.format == fb.format && forall x: uint32 :: convert(x) == x
  }

  /** rowCopy. */
  method RowCopy(self: FrameBuffer, fb: FrameBuffer, reg: Region, dst: Region, row: nat, ghost convert: Conversion, ghost paint: Paint)
    requires Blittable(self, fb, reg, dst, convert, paint) && SameFormat(self, fb, convert) && row < dst.height
    modifies self.buffer
    ensures dst.y + row < 0x8000
    ensures Drawn(self.Shape(), old(self.buffer[..]), self.buffer[..], [Region(dst.x, dst.y + row, dst.width, 1)], paint)
  {
    ghost var to, from := Point(dst.x, dst.y + row), Point(reg.x, reg.y + row);
    RowSpans(self.Shape(), to, dst.width);
    RowSpans(fb.Shape(), from, dst.width);
    RowPaint(fb.Shape(), fb.buffer[..], reg, dst, to, from, convert, paint);
    var ptr := fb.PitchData(Point(reg.x, reg.y + row));
    var start := self.PitchData(Point(dst.x, dst.y + row));
    var length := dst.width * fb.format.BytePixel();
    ghost var before, bytes := self.buffer[..], fb.buffer[..];
    CopyBytes(self.buffer, start, fb.buffer, ptr, length);
    assert Region(to.x, to.y, dst.width, 1) == Region(dst.x, dst.y + row, dst.width, 1);
    CopiedRow(self.Shape(), fb.Shape(), before, self.buffer[..], bytes, to, from, dst.width, paint);
  }

  /** A stretch of the bytes was replaced by a stretch of others. */
  predicate Copied(before: seq<byte>, after: seq<byte>, start: nat, bytes: seq<byte>, ptr: nat, length: nat)
  {
    && |after| == |before| && ptr + length <= |bytes|
    && forall i :: 0 <= i < |before| ==>
         after[i] == if start <= i < start + length then bytes[ptr + (i - start)] else before[i]
  }

  /** std::copy_n between two buffers. */
  method CopyBytes(to: array<byte>, start: nat, from: array<byte>, ptr: nat, length: nat)
    requires to != from && start + length <= to.Length && ptr + length <= from.Length
    modifies to
    ensures Copied(old(to[..]), to[..], start, from[..], ptr, length)
  {
    for k := 0 to length
      invariant forall i :: 0 <= i < to.Length ==> to[i] == if start <= i < start + k then from[ptr + (i - start)] else old(to[i])
    {
      to[start + k] := from[ptr + k];
    }
  }

  lemma RowSpans(l: Layout, p: Point, count: nat)
    requires l.Valid() && Inside(l.Bounds(), p) && p.x + count <= l.width
    ensures 0 <= Offset(l, p) && 0 <= count * l.bytes && Offset(l, p) + count * l.bytes <= l.Size()
  {
    MulMono(0, count, l.bytes);
    OffsetBound(l, p);
    RunFits(l, p, count);
  }

  lemma RowPaint(src: Layout, bytes: seq<byte>, reg: Region, dst: Region, to: Point, from: Point, convert: Conversion, paint: Paint)
    requires src.Valid() && |bytes| == src.Size() && SourceInRange(src, reg, dst)
    requires to.x == dst.x && dst.y <= to.y < dst.y + dst.height && from.x == reg.x && from.y == reg.y + (to.y - dst.y)
    requires paint == SourcePaint(src, bytes, TopLeft(reg), TopLeft(dst), convert) && forall x: uint32 :: convert(x) == x
    ensures forall x :: to.x <= x < to.x + dst.width ==> paint(Point(x, to.y)) == PixelOf(src, bytes, Point(from.x + (x - to.x), from.y))
  {
    forall x | to.x <= x < to.x + dst.width
      ensures paint(Point(x, to.y)) == PixelOf(src, bytes, Point(from.x + (x - to.x), from.y))
    {
      ShownAt(src, bytes, TopLeft(reg), TopLeft(dst), convert, Point(x, to.y), Point(from.x + (x - to.x), from.y));
    }
  }

  lemma CopiedRow(l: Layout, src: Layout, before: seq<byte>, after: seq<byte>, bytes: seq<byte>, to: Point, from: Point, count: nat,
                  paint: Paint)
    requires l.Valid() && src.Valid() && src.bytes == l.bytes && |bytes| == src.Size() && |before| == l.Size()
    requires Inside(l.Bounds(), to) && to.x + count <= l.width && Inside(src.Bounds(), from) && from.x + count <= src.width
    requires Offset(l, to) >= 0 && Offset(src, from) >= 0 && count * l.bytes >= 0
    requires Copied(before, after, Offset(l, to), bytes, Offset(src, from), count * l.bytes)
    requires forall x :: to.x <= x < to.x + count ==> paint(Point(x, to.y)) == PixelOf(src, bytes, Point(from.x + (x - to.x), from.y))
    ensures Drawn(l, before, after, [Region(to.x, to.y, count, 1)], paint)
  {
    OffsetBound(l, to);
    var regs := [Region(to.x, to.y, count, 1)];
    forall i | 0 <= i < |before| ensures after[i] == DrawnByte(l, before, regs, paint, i) {
      OwnerInRow(l, to, count, i);
      assert InAny(regs, Owner(l, i)) <==> Inside(regs[0], Owner(l, i));
      if InAny(regs, Owner(l, i)) {
        assert Owner(l, i) == Point(Owner(l, i).x, to.y);
        CopiedByte(l, src, bytes, to, from, i, paint);
      }
    }
  }

  /** One more row, on top of the rows that are done. */
  method RowTurn(self: FrameBuffer, fb: FrameBuffer, reg: Region, dst: Region, row: nat, ghost convert: Conversion, ghost paint: Paint,
                 ghost before: seq<byte>, ghost rows: seq<Region>, ghost done: set<nat>) returns (ghost rows': seq<Region>)
    requires Blittable(self, fb, reg, dst, convert, paint) && SameFormat(self, fb, convert) && row < dst.height
    requires Drawn(self.Shape(), before, self.buffer[..], rows, paint) && RowsDone(dst, rows, done)
    modifies self.buffer
    ensures Drawn(self.Shape(), before, self.buffer[..], rows', paint) && RowsDone(dst, rows', done + {row})
  {
    RowCopy(self, fb, reg, dst, row, convert, paint);
    ghost var r := Region(dst.x, dst.y + row, dst.width, 1);
    DrawnMore(self.Shape(), before, old(self.buffer[..]), self.buffer[..], rows, [r], paint);
    rows' := rows + [r];
    RowDone(dst, rows, done, row);
  }

  method BlitRows(self: FrameBuffer, fb: FrameBuffer, reg: Region, dst: Region, ghost convert: Conversion, ghost paint: Paint)
    requires Blittable(self, fb, reg, dst, convert, paint) && SameFormat(self, fb, convert)
    modifies self.buffer
    ensures Drawn(self.Shape(), old(self.buffer[..]), self.buffer[..], [dst], paint)
  {
    ghost var rows: seq<Region>, before := [], self.buffer[..];
    DrawnNothing(self.Shape(), before, paint);
    for row := 0 to dst.height
      invariant Blittable(self, fb, reg, dst, convert, paint)
      invariant Drawn(self.Shape(), before, self.buffer[..], rows, paint) && RowsDone(dst, rows, UpTo(row))
    {
      ghost var bytes := fb.buffer[..];
      rows := RowTurn(self, fb, reg, dst, row, convert, paint, before, rows, UpTo(row));
      assert fb.buffer[..] == bytes;
    }
    AllRowsDone(dst, rows, UpTo(dst.height));
    DrawnSame(self.Shape(), before, self.buffer[..], rows, [dst], paint, paint);
  }

  /** Row copies as jobs, in any order. */
  method BlitRowJobs(self: FrameBuffer, fb: FrameBuffer, reg: Region, dst: Region, ghost convert: Conversion, ghost paint: Paint)
    requires Blittable(self, fb, reg, dst, convert, paint) && SameFormat(self, fb, convert)
    modifies self.buffer
    ensures Drawn(self.Shape(), old(self.buffer[..]), self.buffer[..], [dst], paint)
  {
    var jobs := UpTo(dst.height);
    ghost var rows: seq<Region>, done: set<nat>, before := [], {}, self.buffer[..];
    DrawnNothing(self.Shape(), before, paint);
    while jobs != {}
      invariant Blittable(self, fb, reg, dst, convert, paint)
      invariant Drawn(self.Shape(), before, self.buffer[..], rows, paint) && RowsDone(dst, rows, done)
      invariant jobs + done == UpTo(dst.height)
      decreases |jobs|
    {
      var row :| row in jobs;
      assert row in UpTo(dst.height);
      ghost var bytes := fb.buffer[..];
      rows := RowTurn(self, fb, reg, dst, row, convert, paint, before, rows, done);
      assert fb.buffer[..] == bytes;
      jobs, done := jobs - {row}, done + {row};
    }
    AllRowsDone(dst, rows, done);
    DrawnSame(self.Shape(), before, self.buffer[..], rows, [dst], paint, paint);
  }

  // ---- blitRegion ----

  /** The picture a blit of reg from fb to a place in self shows. */
  ghost function BlitPaint(fb: FrameBuffer, reg: Region, dst: Region, convert: Conversion): Paint
    reads fb.buffer
  {
    SourcePaint(fb.Shape(), fb.buffer[..], TopLeft(reg), TopLeft(dst), convert)
  }

  function Unchanged(): Conversion { x => x }

  /** What convertFrom does for pixels of fb drawn into self; between equal
      formats it changes nothing. */
  function BlitConversion(to: PixelFormat, from: PixelFormat): Conversion
  {
    if to == from then Unchanged() else Converter(from, to)
  }

  /** No exception can come up: rows are copied, or both depths are known. */
  predicate CanBlit(self: FrameBuffer, fb: FrameBuffer) { self.format == fb.format || DepthsKnown(self, fb) }

  /** The bytes after a blit and whether it returned without an exception.  In
      the common part of the target and the framebuffer each point shows the
      converted source pixel, counted from the corner of reg whether or not the
      target's corner was clipped, and no other byte changes.  Where a pixel must
      be converted and a depth is unknown nothing is drawn, and only the
      sequential form throws. */
  ghost predicate BlitOutcome(l: Layout, src: Layout, bytes: seq<byte>, before: seq<byte>, after: seq<byte>,
                              reg: Region, target: Region, convert: Conversion, can: bool, jobs: bool, ok: bool)
  {
    if !Intersects(target, l.Bounds()) then ok && after == before
    else
      var dst := Clipped(target, l.Bounds());
      && ok == (can || jobs)
      && (!can ==> after == before)
      && (can ==> Drawn(l, before, after, [dst], SourcePaint(src, bytes, TopLeft(reg), TopLeft(dst), convert)))
  }

  /** blitRegion, with its form chosen as the code does. */
  method BlitRegion(self: FrameBuffer, fb: FrameBuffer, reg: Region, x: int16, y: int16, cores: nat) returns (ok: bool)
    requires self.Valid() && fb.Valid() && fb.buffer != self.buffer
    requires var target := Region(x, y, reg.width, reg.height);
             Intersects(target, self.Bounds()) ==> SourceInRange(fb.Shape(), reg, Clipped(target, self.Bounds()))
    modifies self.buffer
    ensures fb.buffer[..] == old(fb.buffer[..])
    ensures BlitOutcome(self.Shape(), fb.Shape(), fb.buffer[..], old(self.buffer[..]), self.buffer[..], reg,
                        Region(x, y, reg.width, reg.height), BlitConversion(self.format, fb.format), CanBlit(self, fb), UsesJobs(cores, reg), ok)
  {
    var hit, dst := Intersection(Region(x, y, reg.width, reg.height), self.Bounds(), Region(-1, -1, 0, 0));
    if !hit { return true; }
    ClipHolds(Region(x, y, reg.width, reg.height), self.Shape());
    var convert := BlitConversion(self.format, fb.format);
    ghost var paint, bytes := BlitPaint(fb, reg, dst, convert), fb.buffer[..];
    ok := true;
    if self.format != fb.format {
      if UsesJobs(cores, reg) {
        BlitTiles(self, fb, reg, dst, convert, paint);
      } else {
        ok := BlitPixels(self, fb, reg, dst, convert, paint);
      }
    } else if UsesJobs(cores, reg) {
      BlitRowJobs(self, fb, reg, dst, convert, paint);
    } else {
      BlitRows(self, fb, reg, dst, convert, paint);
    }
    assert fb.buffer[..] == bytes;
  }

  /** The sequential and the parallel form always leave the same bytes.  They
      also end alike exactly when no exception can come up or nothing is to be
      drawn. */
  lemma BlitFormsAgreeIff(l: Layout, src: Layout, bytes: seq<byte>, before: seq<byte>, reg: Region, target: Region,
                          convert: Conversion, can: bool, after: seq<byte>, ok: bool, after': seq<byte>, ok': bool)
    requires BlitOutcome(l, src, bytes, before, after, reg, target, convert, can, false, ok)
    requires BlitOutcome(l, src, bytes, before, after', reg, target, convert, can, true, ok')
    ensures after == after'
    ensures ok == ok' <==> can || !Intersects(target, l.Bounds())
  {
    if Intersects(target, l.Bounds()) && can {
      var dst := Clipped(target, l.Bounds());
      DrawnIsUnique(l, before, after, after', [dst], SourcePaint(src, bytes, TopLeft(reg), TopLeft(dst), convert));
    }
  }

  /** An exception where something is to be drawn. */
  lemma BlitFormsDiffer(l: Layout, src: Layout, bytes: seq<byte>, before: seq<byte>, reg: Region, target: Region,
                        convert: Conversion, can: bool, after: seq<byte>, ok: bool, after': seq<byte>, ok': bool)
    requires !can && Intersects(target, l.Bounds())
    requires BlitOutcome(l, src, bytes, before, after, reg, target, convert, can, false, ok)
    requires BlitOutcome(l, src, bytes, before, after', reg, target, convert, can, true, ok')
    ensures !ok && ok' && after == after' == before
  {
  }

  /** A blit of 100 by 100 points into 15 bits from another format: one core
      reports it, eight do not, and nothing is drawn. */
  lemma FifteenBitsBlit(l: Layout, src: Layout, reg: Region, bytes: seq<byte>, before: seq<byte>, convert: Conversion,
                        after: seq<byte>, ok: bool, after': seq<byte>, ok': bool)
    requires HundredByHundred(l, reg)
    requires BlitOutcome(l, src, bytes, before, after, reg, reg, convert, Supported(15), UsesJobs(1, reg), ok)
    requires BlitOutcome(l, src, bytes, before, after', reg, reg, convert, Supported(15), UsesJobs(8, reg), ok')
    ensures !ok && ok' && after == after' == before
  {
    ManyPoints(reg, 100, 100);
    BlitFormsDiffer(l, src, bytes, before, reg, reg, convert, Supported(15), after, ok, after', ok');
  }

  lemma ClipHolds(target: Region, l: Layout)
    requires Intersects(target, l.Bounds())
    ensures Holds(l, Clipped(target, l.Bounds())) && !Clipped(target, l.Bounds()).IsEmpty()
  {
  }

  /** Row copies and conversion agree where both apply. */
  lemma ConversionOfEqualFormats(pf: PixelFormat, pixel: uint32)
    ensures ConvertPixelFromTo(pixel, pf, pf) == pixel
  {
  }

  /** After a blit the point q of the clipped region shows the source pixel at
      reg.topLeft + q, converted and cut to the depth. */
  lemma BlitShows(l: Layout, before: seq<byte>, after: seq<byte>, src: Layout, bytes: seq<byte>, reg: Region, dst: Region,
                  convert: Conversion, q: Point)
    requires l.Valid() && src.Valid() && |before| == l.Size() && |bytes| == src.Size()
    requires Holds(l, dst) && SourceInRange(src, reg, dst)
    requires Drawn(l, before, after, [dst], SourcePaint(src, bytes, TopLeft(reg), TopLeft(dst), convert))
    requires 0 <= q.x < dst.width && 0 <= q.y < dst.height
    ensures PixelOf(l, after, Point(dst.x + q.x, dst.y + q.y)) ==
            convert(PixelOf(src, bytes, Point(reg.x + q.x, reg.y + q.y))) % Radix(l.bytes)
  {
    BlitShowsAt(l, before, after, src, bytes, reg, dst, convert, Point(dst.x + q.x, dst.y + q.y), Point(reg.x + q.x, reg.y + q.y));
  }

  lemma BlitShowsAt(l: Layout, before: seq<byte>, after: seq<byte>, src: Layout, bytes: seq<byte>, reg: Region, dst: Region,
                    convert: Conversion, p: Point, from: Point)
    requires l.Valid() && src.Valid() && |before| == l.Size() && |bytes| == src.Size()
    requires Inside(l.Bounds(), p) && Inside(src.Bounds(), from) && Inside(dst, p)
    requires from == Point(reg.x + (p.x - dst.x), reg.y + (p.y - dst.y))
    requires Drawn(l, before, after, [dst], SourcePaint(src, bytes, TopLeft(reg), TopLeft(dst), convert))
    ensures PixelOf(l, after, p) == convert(PixelOf(src, bytes, from)) % Radix(l.bytes)
  {
    assert Inside([dst][0], p);
    ShownAt(src, bytes, TopLeft(reg), TopLeft(dst), convert, p, from);
    PixelAfterDrawing(l, before, after, [dst], SourcePaint(src, bytes, TopLeft(reg), TopLeft(dst), convert), p);
  }

  // ---- is the picture where it was asked for? ----

  /** The point (x, y) + q lies in the framebuffer and q in the copied size. */
  predicate Asked(l: Layout, reg: Region, target: Region, q: Point)
  {
    0 <= q.x < reg.width && 0 <= q.y < reg.height && Inside(l.Bounds(), Point(target.x + q.x, target.y + q.y))
  }

  /** The point (x, y) + q shows the converted source pixel reg.topLeft + q. */
  predicate ShowsAsked(l: Layout, src: Layout, bytes: seq<byte>, after: seq<byte>, reg: Region, target: Region,
                       convert: Conversion, q: Point)
    requires l.Valid() && src.Valid() && Holds(src, reg) && Asked(l, reg, target, q) && |bytes| == src.Size()
  {
    |after| == l.Size() && PixelOf(l, after, Point(target.x + q.x, target.y + q.y)) ==
                           convert(PixelOf(src, bytes, Point(reg.x + q.x, reg.y + q.y))) % Radix(l.bytes)
  }

  /** So it is at every such point, whatever the source holds. */
  ghost predicate Aligned(l: Layout, src: Layout, reg: Region, target: Region, convert: Conversion)
    requires l.Valid() && src.Valid() && Holds(src, reg)
  {
    forall bytes: seq<byte>, before: seq<byte>, after: seq<byte>, q: Point ::
      |bytes| == src.Size() && |before| == l.Size() && Asked(l, reg, target, q)
      && BlitOutcome(l, src, bytes, before, after, reg, target, convert, true, false, true)
      ==> ShowsAsked(l, src, bytes, after, reg, target, convert, q)
  }

  /** Some bytes after a blit; there always are such. */
  function BytesAfter(l: Layout, before: seq<byte>, regs: seq<Region>, color: Paint): (after: seq<byte>)
    requires l.Valid() && |before| == l.Size()
    ensures Drawn(l, before, after, regs, color)
  {
    assert l.pitch == 0 ==> l.Size() == 0;
    seq(|before|, i requires 0 <= i < |before| => DrawnByte(l, before, regs, color, i))
  }

  /** A source that shows v at one point and w at all others. */
  function OnePoint(src: Layout, at: Point, v: uint32, w: uint32): (bytes: seq<byte>)
    requires src.Valid()
    ensures |bytes| == src.Size()
  {
    MulMono(0, src.height, src.pitch);
    var none := seq(src.Size(), _ => 0);
    BytesAfter(src, none, [src.Bounds()], (p: Point) => if p == at then v else w)
  }

  lemma OnePointShows(src: Layout, at: Point, v: uint32, w: uint32, p: Point)
    requires src.Valid() && v < Radix(src.bytes) && w < Radix(src.bytes) && Inside(src.Bounds(), p)
    ensures PixelOf(src, OnePoint(src, at, v, w), p) == if p == at then v else w
  {
    MulMono(0, src.height, src.pitch);
    var none: seq<byte> := seq(src.Size(), _ => 0);
    var color: Paint := (p: Point) => if p == at then v else w;
    var bytes := BytesAfter(src, none, [src.Bounds()], color);
    assert bytes == OnePoint(src, at, v, w) by {
      DrawnIsUnique(src, none, bytes, OnePoint(src, at, v, w), [src.Bounds()], color);
    }
    assert Inside([src.Bounds()][0], p);
    PixelAfterDrawing(src, none, bytes, [src.Bounds()], color, p);
    DivUnique(color(p), Radix(src.bytes), 0, color(p));
  }

  lemma UnclippedShows(l: Layout, src: Layout, bytes: seq<byte>, before: seq<byte>, after: seq<byte>, reg: Region, target: Region,
                       convert: Conversion, q: Point)
    requires l.Valid() && src.Valid() && Holds(src, reg) && Asked(l, reg, target, q) && |bytes| == src.Size() && |before| == l.Size()
    requires target.width == reg.width && target.height == reg.height && Intersects(target, l.Bounds())
    requires target.x >= 0 && target.y >= 0
    requires BlitOutcome(l, src, bytes, before, after, reg, target, convert, true, false, true)
    ensures ShowsAsked(l, src, bytes, after, reg, target, convert, q)
  {
    var dst := Clipped(target, l.Bounds());
    ClipHolds(target, l);
    assert Point(dst.x + q.x, dst.y + q.y) == Point(target.x + q.x, target.y + q.y);
    BlitShows(l, before, after, src, bytes, reg, dst, convert, q);
  }

  lemma UnclippedIsAligned(l: Layout, src: Layout, reg: Region, target: Region, convert: Conversion)
    requires l.Valid() && src.Valid() && Holds(src, reg)
    requires target.width == reg.width && target.height == reg.height && Intersects(target, l.Bounds())
    requires target.x >= 0 && target.y >= 0
    ensures Aligned(l, src, reg, target, convert)
  {
    forall bytes: seq<byte>, before: seq<byte>, after: seq<byte>, q: Point |
      |bytes| == src.Size() && |before| == l.Size() && Asked(l, reg, target, q)
      && BlitOutcome(l, src, bytes, before, after, reg, target, convert, true, false, true)
      ensures ShowsAsked(l, src, bytes, after, reg, target, convert, q)
    {
      UnclippedShows(l, src, bytes, before, after, reg, target, convert, q);
    }
  }

  /** The first point drawn shows the first pixel of reg. */
  lemma FirstShown(l: Layout, src: Layout, bytes: seq<byte>, reg: Region, dst: Region, convert: Conversion, v: uint32)
    returns (before: seq<byte>, after: seq<byte>)
    requires l.Valid() && src.Valid() && Holds(src, reg) && Holds(l, dst) && !dst.IsEmpty() && |bytes| == src.Size()
    requires dst.width <= reg.width && dst.height <= reg.height && reg.height > 0
    requires PixelOf(src, bytes, TopLeft(reg)) == v
    ensures |before| == |after| == l.Size() && PixelOf(l, after, TopLeft(dst)) == convert(v) % Radix(l.bytes)
    ensures Drawn(l, before, after, [dst], SourcePaint(src, bytes, TopLeft(reg), TopLeft(dst), convert))
  {
    MulMono(0, l.height, l.pitch);
    before := seq(l.Size(), _ => 0);
    after := BytesAfter(l, before, [dst], SourcePaint(src, bytes, TopLeft(reg), TopLeft(dst), convert));
    BlitShowsAt(l, before, after, src, bytes, reg, dst, convert, TopLeft(dst), TopLeft(reg));
  }

  /** How far a clipped corner is from the asked one. */
  lemma ClipOffset(l: Layout, reg: Region, target: Region) returns (q: Point)
    requires l.Valid() && target.width == reg.width && target.height == reg.height && Intersects(target, l.Bounds())
    ensures var dst := Clipped(target, l.Bounds());
            && Holds(l, dst) && !dst.IsEmpty() && dst.width <= reg.width && dst.height <= reg.height
            && Asked(l, reg, target, q) && Point(target.x + q.x, target.y + q.y) == TopLeft(dst)
    ensures q == Point(0, 0) <==> target.x >= 0 && target.y >= 0
  {
    var dst := Clipped(target, l.Bounds());
    q := Point(dst.x - target.x, dst.y - target.y);
  }

  /** A clipped corner shows the first pixel of reg where another one was asked
      for. */
  lemma ClippedIsDisplaced(l: Layout, src: Layout, reg: Region, target: Region, convert: Conversion, v: uint32, w: uint32)
    requires l.Valid() && src.Valid() && Holds(src, reg)
    requires target.width == reg.width && target.height == reg.height && Intersects(target, l.Bounds())
    requires v < Radix(src.bytes) && w < Radix(src.bytes) && convert(v) % Radix(l.bytes) != convert(w) % Radix(l.bytes)
    requires target.x < 0 || target.y < 0
    ensures !Aligned(l, src, reg, target, convert)
  {
    var q := ClipOffset(l, reg, target);
    var bytes := OnePoint(src, TopLeft(reg), v, w);
    OnePointShows(src, TopLeft(reg), v, w, TopLeft(reg));
    var before, after := FirstShown(l, src, bytes, reg, Clipped(target, l.Bounds()), convert, v);
    assert BlitOutcome(l, src, bytes, before, after, reg, target, convert, true, false, true);
    AskedPixel(src, reg, v, w, q);
    DisplacedBy(l, src, bytes, before, after, reg, target, convert, q, v, w);
  }

  /** The source pixel that was asked for is another one. */
  lemma AskedPixel(src: Layout, reg: Region, v: uint32, w: uint32, q: Point)
    requires src.Valid() && v < Radix(src.bytes) && w < Radix(src.bytes) && Holds(src, reg)
    requires 0 <= q.x < reg.width && 0 <= q.y < reg.height && q != Point(0, 0)
    ensures PixelOf(src, OnePoint(src, TopLeft(reg), v, w), Point(reg.x + q.x, reg.y + q.y)) == w
  {
    OnePointShows(src, TopLeft(reg), v, w, Point(reg.x + q.x, reg.y + q.y));
  }

  lemma NotAsAsked(l: Layout, src: Layout, bytes: seq<byte>, after: seq<byte>, reg: Region, target: Region, convert: Conversion,
                   q: Point, dst: Region, v: uint32, w: uint32)
    requires l.Valid() && src.Valid() && Holds(src, reg) && Asked(l, reg, target, q) && |bytes| == src.Size() && |after| == l.Size()
    requires Point(target.x + q.x, target.y + q.y) == TopLeft(dst)
    requires PixelOf(l, after, TopLeft(dst)) == convert(v) % Radix(l.bytes)
    requires PixelOf(src, bytes, Point(reg.x + q.x, reg.y + q.y)) == w
    requires convert(v) % Radix(l.bytes) != convert(w) % Radix(l.bytes)
    ensures !ShowsAsked(l, src, bytes, after, reg, target, convert, q)
  {
  }

  /** For every source the picture stands where it was asked for, if and only if
      the target's corner is not clipped.  (If conversion and depth could tell no
      two pixels apart, displacement could not be seen.) */
  lemma SourceAlignedIff(l: Layout, src: Layout, reg: Region, target: Region, convert: Conversion, v: uint32, w: uint32)
    requires l.Valid() && src.Valid() && Holds(src, reg)
    requires target.width == reg.width && target.height == reg.height && Intersects(target, l.Bounds())
    requires v < Radix(src.bytes) && w < Radix(src.bytes) && convert(v) % Radix(l.bytes) != convert(w) % Radix(l.bytes)
    ensures Aligned(l, src, reg, target, convert) <==> target.x >= 0 && target.y >= 0
  {
    if target.x >= 0 && target.y >= 0 {
      UnclippedIsAligned(l, src, reg, target, convert);
    } else {
      ClippedIsDisplaced(l, src, reg, target, convert, v, w);
    }
  }

  /** Two pixels of 8 bits, blitted one point to the left into two. */
  predicate OneToTheLeft(l: Layout, reg: Region, target: Region, q: Point)
  {
    l == Layout(2, 1, 2, 1) && reg == Region(0, 0, 2, 1) && target == Region(-1, 0, 2, 1) && q == Point(1, 0)
  }

  lemma LeftCornerCut(a: Region, b: Region)
    requires a.x == -1 && a.y == 0 && a.width == 2 && a.height == 1 && b.x == 0 && b.y == 0 && b.width == 2 && b.height == 1
    ensures Intersects(a, b) && TopLeft(Clipped(a, b)) == Point(0, 0)
  {
  }

  lemma OneToTheLeftFits(l: Layout, reg: Region, target: Region, q: Point)
    requires OneToTheLeft(l, reg, target, q)
    ensures l.Valid() && Holds(l, reg) && Asked(l, reg, target, q) && Radix(l.bytes) == TWO_8 && q != Point(0, 0)
    ensures Intersects(target, l.Bounds()) && Point(target.x + q.x, target.y + q.y) == TopLeft(Clipped(target, l.Bounds()))
  {
    LeftCornerCut(target, l.Bounds());
    RadixUpToFour(l.bytes);
  }

  /** Of the pixels 7 and 9, blitted one point to the left, the one that remains
      shows 7, although the pixel at q, which is 9, belongs there. */
  lemma DisplacedPixel(l: Layout, before: seq<byte>, after: seq<byte>, reg: Region, target: Region, q: Point)
    requires OneToTheLeft(l, reg, target, q) && l.Valid() && |before| == l.Size()
    requires BlitOutcome(l, l, OnePoint(l, TopLeft(reg), 7, 9), before, after, reg, target, Unchanged(), true, false, true)
    ensures Holds(l, reg) && Asked(l, reg, target, q)
    ensures !ShowsAsked(l, l, OnePoint(l, TopLeft(reg), 7, 9), after, reg, target, Unchanged(), q)
  {
    OneToTheLeftFits(l, reg, target, q);
    DisplacedBetween(l, before, after, reg, target, q, 7, 9);
  }

  lemma DisplacedBetween(l: Layout, before: seq<byte>, after: seq<byte>, reg: Region, target: Region, q: Point, v: byte, w: byte)
    requires l.Valid() && Holds(l, reg) && Asked(l, reg, target, q) && |before| == l.Size() && q != Point(0, 0)
    requires Radix(l.bytes) == TWO_8 && v != w
    requires Intersects(target, l.Bounds()) && Point(target.x + q.x, target.y + q.y) == TopLeft(Clipped(target, l.Bounds()))
    requires BlitOutcome(l, l, OnePoint(l, TopLeft(reg), v, w), before, after, reg, target, Unchanged(), true, false, true)
    ensures !ShowsAsked(l, l, OnePoint(l, TopLeft(reg), v, w), after, reg, target, Unchanged(), q)
  {
    var bytes := OnePoint(l, TopLeft(reg), v, w);
    OnePointShows(l, TopLeft(reg), v, w, TopLeft(reg));
    AskedPixel(l, reg, v, w, q);
    SmallUnchanged(l.bytes, v);
    SmallUnchanged(l.bytes, w);
    DisplacedBy(l, l, bytes, before, after, reg, target, Unchanged(), q, v, w);
  }

  lemma SmallUnchanged(n: nat, v: uint32)
    requires Radix(n) == TWO_8 && v < TWO_8
    ensures Unchanged()(v) % Radix(n) == v
  {
  }

  /** What a clipped corner does to one source. */
  lemma DisplacedBy(l: Layout, src: Layout, bytes: seq<byte>, before: seq<byte>, after: seq<byte>, reg: Region, target: Region,
                    convert: Conversion, q: Point, v: uint32, w: uint32)
    requires l.Valid() && src.Valid() && Holds(src, reg) && Asked(l, reg, target, q) && |bytes| == src.Size() && |before| == l.Size()
    requires Intersects(target, l.Bounds()) && Point(target.x + q.x, target.y + q.y) == TopLeft(Clipped(target, l.Bounds()))
    requires BlitOutcome(l, src, bytes, before, after, reg, target, convert, true, false, true)
    requires PixelOf(src, bytes, TopLeft(reg)) == v && PixelOf(src, bytes, Point(reg.x + q.x, reg.y + q.y)) == w
    requires convert(v) % Radix(l.bytes) != convert(w) % Radix(l.bytes)
    ensures !ShowsAsked(l, src, bytes, after, reg, target, convert, q)
  {
    var dst := Clipped(target, l.Bounds());
    ClipHolds(target, l);
    BlitShowsAt(l, before, after, src, bytes, reg, dst, convert, TopLeft(dst), TopLeft(reg));
    NotAsAsked(l, src, bytes, after, reg, target, convert, q, dst, v, w);
  }

  // ---- copyRegion ----

  /** A copy of a region: a framebuffer of its size whose pixels are those of
      the region, in order. */
  method CopyRegion(self: FrameBuffer, reg: Region, cores: nat) returns (res: FrameBuffer)
    requires self.Valid() && Holds(self.Shape(), reg) && !reg.IsEmpty()
    ensures res.Valid() && fresh(res) && fresh(res.buffer)
    ensures res.format == self.format && res.width == reg.width && res.height == reg.height
    ensures forall p :: Inside(res.Bounds(), p) ==>
              PixelOf(res.Shape(), res.buffer[..], p) == PixelOf(self.Shape(), self.buffer[..], Point(reg.x + p.x, reg.y + p.y))
  {
    res := new FrameBuffer(Size(reg.width, reg.height), self.format, if reg.width == self.width then ToUint16(self.pitch) else 0);
    ghost var before, source := res.buffer[..], self.buffer[..];
    var ok := BlitRegion(res, self, reg, 0, 0, cores);
    assert self.buffer[..] == source;
    forall p | Inside(res.Bounds(), p)
      ensures PixelOf(res.Shape(), res.buffer[..], p) == PixelOf(self.Shape(), source, Point(reg.x + p.x, reg.y + p.y))
    {
      CopiedPixel(res.Shape(), before, res.buffer[..], self.Shape(), source, reg, p);
    }
  }

  /** A copy lies at the corner, so its source is the corner of reg. */
  lemma CopiedPixel(l: Layout, before: seq<byte>, after: seq<byte>, src: Layout, bytes: seq<byte>, reg: Region, p: Point)
    requires l.Valid() && src.Valid() && l.bytes == src.bytes && |before| == l.Size() && |bytes| == src.Size()
    requires l.width == reg.width && l.height == reg.height && Holds(src, reg) && Inside(l.Bounds(), p)
    requires Intersects(Region(0, 0, reg.width, reg.height), l.Bounds())
    requires var dst := Clipped(Region(0, 0, reg.width, reg.height), l.Bounds());
             Drawn(l, before, after, [dst], SourcePaint(src, bytes, TopLeft(reg), TopLeft(dst), Unchanged()))
    ensures PixelOf(l, after, p) == PixelOf(src, bytes, Point(reg.x + p.x, reg.y + p.y))
  {
    var dst := Clipped(Region(0, 0, reg.width, reg.height), l.Bounds());
    assert TopLeft(dst) == Point(0, 0) && Inside([dst][0], p);
    var v := CopiedColor(src, bytes, reg, dst, p);
    PixelAfterDrawing(l, before, after, [dst], SourcePaint(src, bytes, TopLeft(reg), TopLeft(dst), Unchanged()), p);
  }

  lemma CopiedColor(src: Layout, bytes: seq<byte>, reg: Region, dst: Region, p: Point) returns (v: uint32)
    requires src.Valid() && |bytes| == src.Size() && TopLeft(dst) == Point(0, 0)
    requires Inside(src.Bounds(), Point(reg.x + p.x, reg.y + p.y))
    ensures v == PixelOf(src, bytes, Point(reg.x + p.x, reg.y + p.y)) && v % Radix(src.bytes) == v
    ensures SourcePaint(src, bytes, TopLeft(reg), TopLeft(dst), Unchanged())(p) == v
  {
    v := PixelOf(src, bytes, Point(reg.x + p.x, reg.y + p.y));
    ShownAt(src, bytes, TopLeft(reg), TopLeft(dst), Unchanged(), p, Point(reg.x + p.x, reg.y + p.y));
    PixelIsSmall(src, bytes, Point(reg.x + p.x, reg.y + p.y));
  }

  lemma PixelIsSmall(l: Layout, buf: seq<byte>, p: Point)
    requires l.Valid() && |buf| == l.Size() && Inside(l.Bounds(), p)
    ensures PixelOf(l, buf, p) % Radix(l.bytes) == PixelOf(l, buf, p)
  {
    OffsetBound(l, p);
    ImageOfLoad(buf[Offset(l, p)..Offset(l, p) + l.bytes]);
    DivUnique(PixelOf(l, buf, p), Radix(l.bytes), 0, PixelOf(l, buf, p));
  }
}
