/** FrameBuffer of src/common/ltsm_framebuffer.cpp: pixels in a byte buffer, for
    buffers that own their memory, start at (0, 0) and have sides up to 32767. */
module FrameBuffers {
  import opened MachineInts
  import opened Wrappers
  import opened Arithmetic
  import opened ByteOrder
  import opened Geometry
  import opened PixelFormats
  import opened PixelLayout

  /** The depths that the pixel functions know; they throw for any other. */
  predicate Supported(bits: int) { bits == 8 || bits == 16 || bits == 24 || bits == 32 }

  /** The pixel that setPixel and fillPixel store: converted when it comes with a
      format of its own. */
  function Raw(format: PixelFormat, pixel: uint32, fmt: Option<PixelFormat>): uint32
  {
    if fmt.Some? then ConvertPixelFromTo(pixel, fmt.value, format) else pixel
  }

  /** The bytes that setPixelRow stores for a pixel. */
  function StoredBytes(bits: int, pixel: uint32): (r: seq<byte>)
    requires Supported(bits)
    ensures |r| == bits / 8
  {
    match bits
    case 32 => Image(pixel, 4)
    case 24 => [ToUint8(pixel), ToUint8(pixel / TWO_8), ToUint8(pixel / TWO_16)]
    case 16 => Image(ToUint16(pixel), 2)
    case _ => [ToUint8(pixel)]
  }

  /** They are the low bytes of the pixel, lowest first, at every depth. */
  lemma StoredIsImage(bits: int, pixel: uint32)
    requires Supported(bits)
    ensures StoredBytes(bits, pixel) == Image(pixel, bits / 8)
  {
    var image := Image(pixel, bits / 8);
    assert Radix(0) == 1 && Radix(1) == TWO_8 && Radix(2) == TWO_16;
    if bits == 8 {
      assert image[0] == pixel / Radix(0) % TWO_8;
    } else if bits == 16 {
      LowHalf(pixel);
      assert image[0] == pixel / Radix(0) % TWO_8 && image[1] == pixel / Radix(1) % TWO_8;
    } else if bits == 24 {
      assert image[0] == pixel / Radix(0) % TWO_8 && image[1] == pixel / Radix(1) % TWO_8 && image[2] == pixel / Radix(2) % TWO_8;
    }
  }

  lemma LowHalf(pixel: uint32)
    ensures Image(ToUint16(pixel), 2) == Image(pixel, 2)
  {
    var half := ToUint16(pixel);
    assert Radix(0) == 1 && Radix(1) == TWO_8;
    assert half % TWO_8 == pixel % TWO_8 && half / TWO_8 % TWO_8 == pixel / TWO_8 % TWO_8;
    assert Image(half, 2)[0] == half / Radix(0) % TWO_8 && Image(half, 2)[1] == half / Radix(1) % TWO_8;
    assert Image(pixel, 2)[0] == pixel / Radix(0) % TWO_8 && Image(pixel, 2)[1] == pixel / Radix(1) % TWO_8;
  }

  /** rawPixel on a little-endian machine. */
  function RawPixel(raw: seq<byte>, bits: int): Result<nat>
    requires |raw| == bits / 8
  {
    if bits == 32 then Ok(Load(raw))
    else if bits == 24 then Ok((raw[2] * TWO_8 + raw[1]) * TWO_8 + raw[0])
    else if bits == 16 then Ok(Load(raw))
    else if bits == 8 then Ok(raw[0])
    else Throws
  }

  lemma RawPixelIsLoad(raw: seq<byte>, bits: int)
    requires |raw| == bits / 8
    ensures RawPixel(raw, bits) == if Supported(bits) then Ok(Load(raw)) else Throws
  {
    if bits == 24 {
      assert Load(raw[3..]) == 0;
      assert raw[2..][1..] == raw[3..] && Load(raw[2..]) == raw[2];
      assert raw[1..][1..] == raw[2..] && Load(raw[1..]) == raw[1] + TWO_8 * raw[2];
    }
    if bits == 8 { assert Load(raw[1..]) == 0; }
  }

  class FrameBuffer {
    const format: PixelFormat
    const width: uint16
    const height: uint16
    const pitch: nat
    const buffer: array<byte>

    function Shape(): Layout { Layout(pitch, format.BytePixel(), width, height) }

    ghost predicate Valid() { Shape().Valid() && buffer.Length == Shape().Size() }

    function Bounds(): Region { Region(0, 0, width, height) }

    constructor (size: Size, format: PixelFormat, pitch2: uint16)
      requires 1 <= format.BytePixel() <= 4 && size.width <= 0x7FFF && size.height <= 0x7FFF
      ensures Valid() && fresh(buffer)
      ensures this.format == format && width == size.width && height == size.height
      ensures pitch == Max(format.BytePixel() * size.width, pitch2)
      ensures forall i :: 0 <= i < buffer.Length ==> buffer[i] == 0
    {
      this.format := format;
      width, height := size.width, size.height;
      pitch := Max(format.BytePixel() * size.width, pitch2);
      MulMono(0, size.height, Max(format.BytePixel() * size.width, pitch2));
      buffer := new byte[size.height * Max(format.BytePixel() * size.width, pitch2)](_ => 0);
    }

    /** std::fill_n at an offset of the buffer, with items of some bytes each. */
    method Fill(start: nat, count: nat, image: seq<byte>)
      requires |image| > 0 && start + count * |image| <= buffer.Length
      modifies buffer
      ensures Repeated(old(buffer[..]), buffer[..], start, count, image)
    {
      ghost var before := buffer[..];
      for k := 0 to count
        invariant Repeated(before, buffer[..], start, k, image)
      {
        MulStep(k, count, |image|);
        MulMono(0, k, |image|);
        ghost var mid := buffer[..];
        forall b | 0 <= b < |image| { buffer[start + k * |image| + b] := image[b]; }
        RepeatedStep(before, mid, buffer[..], start, k, image);
      }
    }

    /** pitchData(y) + x * bytePerPixel: where a pixel starts in the buffer. */
    method PitchData(pos: Point) returns (offset: nat)
      requires Valid() && Inside(Bounds(), pos)
      ensures offset == Offset(Shape(), pos)
    {
      OffsetBound(Shape(), pos);
      offset := pitch * pos.y + pos.x * format.BytePixel();
    }

    /** Draws a run of pixels in one row, cut at the right border. */
    method SetPixelRow(pos: Point, pixel: uint32, length: nat) returns (ok: bool)
      requires Valid() && Inside(Bounds(), pos)
      modifies buffer
      ensures ok == Supported(format.bitsPixel)
      ensures !ok ==> buffer[..] == old(buffer[..])
      ensures ok ==> Drawn(Shape(), old(buffer[..]), buffer[..],
                           [Region(pos.x, pos.y, Min(length, width - pos.x), 1)], Solid(pixel))
    {
      var offset := PitchData(pos);
      var count := Min(length, width - pos.x);
      if !Supported(format.bitsPixel) { return false; }
      var image := StoredBytes(format.bitsPixel, pixel);
      StoredIsImage(format.bitsPixel, pixel);
      RunFits(Shape(), pos, count);
      Fill(offset, count, image);
      RowIsDrawn(Shape(), old(buffer[..]), buffer[..], pos, count, pixel);
      ok := true;
    }

    method SetPixel(pos: Point, pixel: uint32, fmt: Option<PixelFormat>) returns (ok: bool)
      requires Valid() && Inside(Bounds(), pos)
      modifies buffer
      ensures ok == Supported(format.bitsPixel)
      ensures !ok ==> buffer[..] == old(buffer[..])
      ensures ok ==> Drawn(Shape(), old(buffer[..]), buffer[..], [Region(pos.x, pos.y, 1, 1)], Solid(Raw(format, pixel, fmt)))
    {
      ok := SetPixelRow(pos, Raw(format, pixel, fmt), 1);
    }

    /** pixel(): exactly what is stored, or an exception at an unknown depth. */
    method Pixel(pos: Point) returns (r: Result<uint32>)
      requires Valid() && Inside(Bounds(), pos)
      ensures r == if Supported(format.bitsPixel) then Ok(PixelOf(Shape(), buffer[..], pos)) else Throws
    {
      OffsetBound(Shape(), pos);
      var ptr := PitchData(pos);
      var raw := buffer[ptr..ptr + format.BytePixel()];
      assert raw == buffer[..][ptr..ptr + format.BytePixel()];
      RawPixelIsLoad(raw, format.bitsPixel);
      LoadFits(raw);
      r := RawPixel(raw, format.bitsPixel);
    }

    // ---- filling ----

    /** fillPixel: see FillOutcome.  Rows are drawn in order, or as jobs in any
        order.  An unknown depth makes setPixelRow throw: in the loop that is an
        exception of fillPixel, in a job it goes into a future nobody asks. */
    method FillPixel(reg0: Region, pixel: uint32, fmt: Option<PixelFormat>, cores: nat) returns (ok: bool)
      requires Valid()
      modifies buffer
      ensures FillOutcome(Shape(), Supported(format.bitsPixel), old(buffer[..]), buffer[..], reg0, Raw(format, pixel, fmt),
                          Intersects(Bounds(), reg0) && UsesJobs(cores, Clipped(Bounds(), reg0)), ok)
    {
      var hit, reg := Intersection(Bounds(), reg0, Region(-1, -1, 0, 0));
      if !hit { return true; }
      ClipInBounds(Bounds(), reg0);
      if UsesJobs(cores, reg) {
        FillRowJobs(reg, Raw(format, pixel, fmt));
        ok := true;
      } else {
        ok := FillRows(reg, Raw(format, pixel, fmt));
      }
    }

    /** The loop over the rows; an exception leaves it at once. */
    method FillRows(reg: Region, raw: uint32) returns (ok: bool)
      requires Valid() && Holds(Shape(), reg) && reg.height > 0
      modifies buffer
      ensures ok == Supported(format.bitsPixel)
      ensures !ok ==> buffer[..] == old(buffer[..])
      ensures ok ==> Drawn(Shape(), old(buffer[..]), buffer[..], [reg], Solid(raw))
    {
      ghost var rows: seq<Region>, before := [], buffer[..];
      DrawnNothing(Shape(), before, Solid(raw));
      for yy := 0 to reg.height
        invariant yy > 0 ==> Supported(format.bitsPixel)
        invariant Drawn(Shape(), before, buffer[..], rows, Solid(raw)) && RowsDone(reg, rows, UpTo(yy))
        invariant yy == 0 ==> buffer[..] == before
      {
        ok, rows := FillRow(reg, raw, yy, before, rows, UpTo(yy));
        if !ok { return; }
      }
      AllRowsDone(reg, rows, UpTo(reg.height));
      DrawnSame(Shape(), before, buffer[..], rows, [reg], Solid(raw), Solid(raw));
      ok := true;
    }

    /** One job for each row, in any order; what a job throws is lost. */
    method FillRowJobs(reg: Region, raw: uint32)
      requires Valid() && Holds(Shape(), reg)
      modifies buffer
      ensures !Supported(format.bitsPixel) ==> buffer[..] == old(buffer[..])
      ensures Supported(format.bitsPixel) ==> Drawn(Shape(), old(buffer[..]), buffer[..], [reg], Solid(raw))
    {
      var jobs := UpTo(reg.height);
      ghost var rows: seq<Region>, done: set<nat>, before := [], {}, buffer[..];
      DrawnNothing(Shape(), before, Solid(raw));
      while jobs != {}
        invariant jobs + done == UpTo(reg.height)
        invariant Drawn(Shape(), before, buffer[..], rows, Solid(raw))
        invariant Supported(format.bitsPixel) ==> RowsDone(reg, rows, done)
        invariant !Supported(format.bitsPixel) ==> buffer[..] == before
        decreases |jobs|
      {
        var yy :| yy in jobs;
        assert yy in UpTo(reg.height);
        var stored;
        stored, rows := FillRow(reg, raw, yy, before, rows, done);
        jobs, done := jobs - {yy}, done + {yy};
      }
      if Supported(format.bitsPixel) {
        AllRowsDone(reg, rows, done);
        DrawnSame(Shape(), before, buffer[..], rows, [reg], Solid(raw), Solid(raw));
      }
    }

    /** One row of a fill, on top of the rows that are done. */
    method FillRow(reg: Region, raw: uint32, yy: nat, ghost before: seq<byte>, ghost rows: seq<Region>, ghost done: set<nat>)
      returns (ok: bool, ghost rows': seq<Region>)
      requires Valid() && Holds(Shape(), reg) && yy < reg.height
      requires Drawn(Shape(), before, buffer[..], rows, Solid(raw))
      modifies buffer
      ensures ok == Supported(format.bitsPixel)
      ensures Drawn(Shape(), before, buffer[..], rows', Solid(raw))
      ensures !ok ==> buffer[..] == old(buffer[..]) && rows' == rows
      ensures ok && RowsDone(reg, rows, done) ==> RowsDone(reg, rows', done + {yy})
    {
      var pos := Plus(TopLeft(reg), Point(0, yy));
      RowStart(reg, yy);
      var row := Region(reg.x, reg.y + yy, reg.width, 1);
      assert Region(pos.x, pos.y, Min(reg.width, width - pos.x), 1) == row;
      rows' := rows;
      ok := SetPixelRow(pos, raw, reg.width);
      if ok {
        DrawnMore(Shape(), before, old(buffer[..]), buffer[..], rows, [row], Solid(raw));
        rows' := rows + [row];
        if RowsDone(reg, rows, done) { RowDone(reg, rows, done, yy); }
      }
    }
  }

  // ---- what a fill does ----

  /** The test that makes the code switch to parallel jobs. */
  predicate UsesJobs(cores: nat, reg: Region) { 2 < cores && 1024 < reg.width * reg.height }

  /** The bytes after a fill and whether it returned without an exception.  With
      nothing in common nothing happens; a known depth is filled; an unknown one
      leaves every byte alone, and only the sequential form says so. */
  ghost predicate FillOutcome(l: Layout, known: bool, before: seq<byte>, after: seq<byte>, reg0: Region, raw: uint32,
                              jobs: bool, ok: bool)
  {
    if !Intersects(l.Bounds(), reg0) then ok && after == before
    else
      && ok == (known || jobs)
      && (!known ==> after == before)
      && (known ==> Drawn(l, before, after, [Clipped(l.Bounds(), reg0)], Solid(raw)))
  }

  /** The sequential and the parallel form always leave the same bytes.  They
      also end alike exactly when the depth is known or nothing is to be drawn. */
  lemma FillFormsAgreeIff(l: Layout, known: bool, before: seq<byte>, reg0: Region, raw: uint32,
                          after: seq<byte>, ok: bool, after': seq<byte>, ok': bool)
    requires FillOutcome(l, known, before, after, reg0, raw, false, ok)
    requires FillOutcome(l, known, before, after', reg0, raw, true, ok')
    ensures after == after'
    ensures ok == ok' <==> known || !Intersects(l.Bounds(), reg0)
  {
    if Intersects(l.Bounds(), reg0) && known {
      DrawnIsUnique(l, before, after, after', [Clipped(l.Bounds(), reg0)], Solid(raw));
    }
  }

  /** An unknown depth where something is to be drawn. */
  lemma FillFormsDiffer(l: Layout, known: bool, before: seq<byte>, reg0: Region, raw: uint32,
                        after: seq<byte>, ok: bool, after': seq<byte>, ok': bool)
    requires !known && Intersects(l.Bounds(), reg0)
    requires FillOutcome(l, known, before, after, reg0, raw, false, ok)
    requires FillOutcome(l, known, before, after', reg0, raw, true, ok')
    ensures !ok && ok' && after == after' == before
  {
  }

  /** Filling 100 by 100 points of 15 bits: one core reports it, eight do not. */
  lemma FifteenBitsFill(l: Layout, reg: Region, before: seq<byte>, raw: uint32, after: seq<byte>, ok: bool, after': seq<byte>, ok': bool)
    requires HundredByHundred(l, reg)
    requires FillOutcome(l, Supported(15), before, after, reg, raw, UsesJobs(1, reg), ok)
    requires FillOutcome(l, Supported(15), before, after', reg, raw, UsesJobs(8, reg), ok')
    ensures !ok && ok' && after == after' == before
  {
    ManyPoints(reg, 100, 100);
    FillFormsDiffer(l, Supported(15), before, reg, raw, after, ok, after', ok');
  }

  /** All points of a framebuffer of 100 by 100. */
  predicate HundredByHundred(l: Layout, reg: Region)
  {
    l.Bounds() == reg && reg.width == 100 && reg.height == 100
  }

  lemma ManyPoints(reg: Region, w: nat, h: nat)
    requires reg.x == 0 && reg.y == 0 && reg.width == w && reg.height == h && 1024 < w * h
    ensures Intersects(reg, reg) && UsesJobs(8, reg) && !UsesJobs(1, reg)
  {
  }

  // ---- rows of a region ----

  /** The job form needs more than two cores and more than 1024 points. */
  lemma JobsThreshold(cores: nat, reg: Region)
    ensures reg.width == 32 && reg.height == 32 ==> !UsesJobs(cores, reg)
    ensures reg.width == 41 && reg.height == 25 ==> (UsesJobs(cores, reg) <==> cores >= 3)
  {
    if reg.width == 32 && reg.height == 32 { assert reg.width * reg.height == 1024; }
    if reg.width == 41 && reg.height == 25 { assert reg.width * reg.height == 1025; }
  }

  /** The numbers below n. */
  function UpTo(n: nat): (s: set<nat>)
    ensures forall y: nat :: y in s <==> y < n
  {
    if n == 0 then {} else UpTo(n - 1) + {n - 1}
  }

  /** A region inside the framebuffer. */
  predicate Holds(l: Layout, reg: Region)
  {
    0 <= reg.x && 0 <= reg.y && reg.x + reg.width <= l.width && reg.y + reg.height <= l.height
    && reg.width > 0
  }

  lemma RowStart(reg: Region, yy: nat)
    requires 0 <= reg.x && 0 <= reg.y && reg.y + yy < 0x8000
    ensures Plus(TopLeft(reg), Point(0, yy)) == Point(reg.x, reg.y + yy)
  {
  }

  lemma ClipInBounds(bounds: Region, reg: Region)
    requires bounds.x == 0 && bounds.y == 0 && Intersects(bounds, reg)
    ensures var c := Clipped(bounds, reg);
            0 <= c.x && 0 <= c.y && c.x + c.width <= bounds.width && c.y + c.height <= bounds.height && c.width > 0
  {
  }

  lemma RunFits(l: Layout, p: Point, count: nat)
    requires l.Valid() && Inside(l.Bounds(), p) && p.x + count <= l.width
    ensures Offset(l, p) + count * l.bytes <= l.Size()
  {
    MulStep(p.y, l.height, l.pitch);
    MulMono(p.x + count, l.width, l.bytes);
    Distribute(p.x, count, l.bytes);
  }

  /** The regions cover exactly these rows of reg. */
  ghost predicate RowsDone(reg: Region, rows: seq<Region>, done: set<nat>)
  {
    forall p :: InAny(rows, p) <==> reg.x <= p.x < reg.x + reg.width && p.y - reg.y in done
  }

  lemma RowDone(reg: Region, rows: seq<Region>, done: set<nat>, yy: nat)
    requires RowsDone(reg, rows, done) && reg.y + yy < 0x8000
    ensures RowsDone(reg, rows + [Region(reg.x, reg.y + yy, reg.width, 1)], done + {yy})
  {
    var row := Region(reg.x, reg.y + yy, reg.width, 1);
    forall p ensures InAny(rows + [row], p) <==> reg.x <= p.x < reg.x + reg.width && p.y - reg.y in done + {yy} {
      InAnyAppend(rows, [row], p);
      assert InAny([row], p) <==> Inside([row][0], p);
    }
  }

  lemma AllRowsDone(reg: Region, rows: seq<Region>, done: set<nat>)
    requires RowsDone(reg, rows, done) && done == UpTo(reg.height)
    ensures forall p :: InAny(rows, p) <==> InAny([reg], p)
  {
    forall p ensures InAny(rows, p) <==> InAny([reg], p) {
      assert InAny([reg], p) <==> Inside([reg][0], p);
    }
  }

  /** After a fill every point of the region shows the pixel cut to the depth,
      and every other point of the framebuffer what it showed before. */
  lemma FillShows(l: Layout, before: seq<byte>, after: seq<byte>, reg: Region, pixel: uint32, p: Point)
    requires l.Valid() && |before| == l.Size() && Drawn(l, before, after, [reg], Solid(pixel)) && Inside(l.Bounds(), p)
    ensures PixelOf(l, after, p) == if Inside(reg, p) then pixel % Radix(l.bytes) else PixelOf(l, before, p)
  {
    assert InAny([reg], p) <==> Inside([reg][0], p);
    PixelAfterDrawing(l, before, after, [reg], Solid(pixel), p);
  }

  /** Drawing inside the framebuffer leaves the padding of every row alone. */
  lemma PaddingStays(l: Layout, before: seq<byte>, after: seq<byte>, reg: Region, paint: Paint, i: nat)
    requires l.Valid() && |before| == l.Size() && Holds(l, reg) && Drawn(l, before, after, [reg], paint)
    requires i < |before| && i % l.pitch >= l.width * l.bytes
    ensures after[i] == before[i]
  {
    var c := i % l.pitch;
    Euclid(c, l.bytes);
    ColumnOrder(c / l.bytes, c % l.bytes, l.width, l.bytes);
    assert InAny([reg], Owner(l, i)) <==> Inside([reg][0], Owner(l, i));
    assert after[i] == DrawnByte(l, before, [reg], paint, i);
  }
}
