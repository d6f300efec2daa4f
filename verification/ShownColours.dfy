/** The colours that are seen after setPixel, fillPixel and blitRegion. */
module ShownColours {
  import opened MachineInts
  import opened Wrappers
  import opened ByteOrder
  import opened Geometry
  import opened PixelFormats
  import opened PixelColours
  import opened PixelLayout
  import opened FrameBuffers
  import opened Blits

  /** A framebuffer of this layout can hold the colours of the format. */
  predicate CanShow(l: Layout, pf: PixelFormat) { Regular(pf) && ColoursInBytes(pf, l.bytes) }

  lemma SameFormatScales(pixel: uint32, pf: PixelFormat)
    ensures ColoursScaled(pixel, pf, pixel, pf)
  {
    SameScale(Get(pixel, pf.red), pf.red.max);
    SameScale(Get(pixel, pf.green), pf.green.max);
    SameScale(Get(pixel, pf.blue), pf.blue.max);
  }

  /** What is drawn for a pixel that comes with a format. */
  lemma RawScales(pixel: uint32, pf1: PixelFormat, pf2: PixelFormat)
    requires Regular(pf1) && Regular(pf2)
    ensures ColoursScaled(pixel, pf1, Raw(pf2, pixel, Some(pf1)), pf2)
  {
    ColoursAreScaled(pixel, pf1, pf2);
  }

  /** A point drawn in a pixel of the format pf1 shows its colours, in the
      framebuffer's format pf2. */
  lemma DrawnColours(l: Layout, before: seq<byte>, after: seq<byte>, reg: Region, pixel: uint32, pf1: PixelFormat, pf2: PixelFormat, p: Point)
    requires l.Valid() && |before| == l.Size() && Regular(pf1) && CanShow(l, pf2)
    requires Drawn(l, before, after, [reg], Solid(Raw(pf2, pixel, Some(pf1)))) && Inside(l.Bounds(), p) && Inside(reg, p)
    ensures ColoursScaled(pixel, pf1, PixelOf(l, after, p), pf2)
  {
    FillShows(l, before, after, reg, Raw(pf2, pixel, Some(pf1)), p);
    RawScales(pixel, pf1, pf2);
    CutKeepsColours(pixel, pf1, Raw(pf2, pixel, Some(pf1)), pf2, l.bytes);
  }

  /** setPixel: the point shows the colours of the pixel. */
  lemma SetPixelColours(l: Layout, before: seq<byte>, after: seq<byte>, pos: Point, pixel: uint32, pf1: PixelFormat, pf2: PixelFormat)
    requires l.Valid() && |before| == l.Size() && Regular(pf1) && CanShow(l, pf2) && Inside(l.Bounds(), pos)
    requires Drawn(l, before, after, [Region(pos.x, pos.y, 1, 1)], Solid(Raw(pf2, pixel, Some(pf1))))
    ensures ColoursScaled(pixel, pf1, PixelOf(l, after, pos), pf2)
  {
    DrawnColours(l, before, after, Region(pos.x, pos.y, 1, 1), pixel, pf1, pf2, pos);
  }

  /** fillPixel: so does every point of the region that lies in the framebuffer;
      all other points are as before. */
  lemma FillColours(l: Layout, before: seq<byte>, after: seq<byte>, reg0: Region, pixel: uint32, pf1: PixelFormat, pf2: PixelFormat,
                    jobs: bool, ok: bool, p: Point)
    requires l.Valid() && |before| == l.Size() && Regular(pf1) && CanShow(l, pf2) && Inside(l.Bounds(), p)
    requires FillOutcome(l, true, before, after, reg0, Raw(pf2, pixel, Some(pf1)), jobs, ok)
    ensures |after| == |before|
    ensures if Inside(reg0, p) then ColoursScaled(pixel, pf1, PixelOf(l, after, p), pf2)
            else PixelOf(l, after, p) == PixelOf(l, before, p)
  {
    IntersectsIff(l.Bounds(), reg0);
    if Intersects(l.Bounds(), reg0) {
      var reg := Clipped(l.Bounds(), reg0);
      ClippedIsExact(l.Bounds(), reg0);
      FillShows(l, before, after, reg, Raw(pf2, pixel, Some(pf1)), p);
      if Inside(reg0, p) { DrawnColours(l, before, after, reg, pixel, pf1, pf2, p); }
    }
  }

  /** What blitRegion makes of a source pixel keeps its colours. */
  lemma BlitConversionScales(pixel: uint32, pf1: PixelFormat, pf2: PixelFormat)
    requires Regular(pf1) && Regular(pf2)
    ensures ColoursScaled(pixel, pf1, BlitConversion(pf2, pf1)(pixel), pf2)
  {
    if pf1 == pf2 { SameFormatScales(pixel, pf1); } else { ColoursAreScaled(pixel, pf1, pf2); }
  }

  lemma BlittedPoint(l: Layout, before: seq<byte>, after: seq<byte>, src: Layout, bytes: seq<byte>, reg: Region, dst: Region,
                     pf1: PixelFormat, pf2: PixelFormat, convert: Conversion, q: Point)
    requires l.Valid() && src.Valid() && |before| == l.Size() && |bytes| == src.Size()
    requires Regular(pf1) && CanShow(l, pf2) && convert == BlitConversion(pf2, pf1)
    requires Holds(l, dst) && SourceInRange(src, reg, dst) && 0 <= q.x < dst.width && 0 <= q.y < dst.height
    requires Drawn(l, before, after, [dst], SourcePaint(src, bytes, TopLeft(reg), TopLeft(dst), convert))
    ensures |after| == |before|
    ensures ColoursScaled(PixelOf(src, bytes, Point(reg.x + q.x, reg.y + q.y)), pf1,
                          PixelOf(l, after, Point(dst.x + q.x, dst.y + q.y)), pf2)
  {
    var from := PixelOf(src, bytes, Point(reg.x + q.x, reg.y + q.y));
    BlitShows(l, before, after, src, bytes, reg, dst, convert, q);
    BlitConversionScales(from, pf1, pf2);
    CutKeepsColours(from, pf1, convert(from), pf2, l.bytes);
  }

  /** blitRegion: point q of the common part shows the colours of point q of the
      source region. */
  lemma BlitColours(l: Layout, before: seq<byte>, after: seq<byte>, src: Layout, bytes: seq<byte>, reg: Region, target: Region,
                    pf1: PixelFormat, pf2: PixelFormat, jobs: bool, ok: bool, q: Point, dst: Region)
    requires l.Valid() && src.Valid() && |before| == l.Size() && |bytes| == src.Size()
    requires Regular(pf1) && CanShow(l, pf2) && Intersects(target, l.Bounds()) && dst == Clipped(target, l.Bounds())
    requires SourceInRange(src, reg, dst) && 0 <= q.x < dst.width && 0 <= q.y < dst.height
    requires BlitOutcome(l, src, bytes, before, after, reg, target, BlitConversion(pf2, pf1), true, jobs, ok)
    ensures |after| == |before| && Inside(l.Bounds(), Point(dst.x + q.x, dst.y + q.y))
    ensures ColoursScaled(PixelOf(src, bytes, Point(reg.x + q.x, reg.y + q.y)), pf1,
                          PixelOf(l, after, Point(dst.x + q.x, dst.y + q.y)), pf2)
  {
    ClipHolds(target, l);
    BlittedPoint(l, before, after, src, bytes, reg, dst, pf1, pf2, BlitConversion(pf2, pf1), q);
  }
}
