/** Where the pixels of a framebuffer lie in its bytes, and what it means that
    some regions of it were drawn. */
module PixelLayout {
  import opened MachineInts
  import opened Arithmetic
  import opened ByteOrder
  import opened Geometry

  datatype Layout = Layout(pitch: nat, bytes: nat, width: uint16, height: uint16)
  {
    predicate Valid()
    {
      1 <= bytes <= 4 && width * bytes <= pitch && width <= 0x7FFF && height <= 0x7FFF
    }

    function Size(): nat { height * pitch }

    function Bounds(): Region { Region(0, 0, width, height) }
  }

  function Offset(l: Layout, p: Point): int { p.y * l.pitch + p.x * l.bytes }

  /** The point whose pixel a byte belongs to; the padding at the end of a row
      belongs to points right of the framebuffer. */
  function Owner(l: Layout, i: nat): Point
    requires l.pitch > 0 && l.bytes > 0
  {
    Point(i % l.pitch / l.bytes, i / l.pitch)
  }

  /** Which byte of its pixel it is. */
  function Part(l: Layout, i: nat): (b: nat)
    requires l.pitch > 0 && l.bytes > 0
    ensures b < l.bytes
  {
    i % l.pitch % l.bytes
  }

  lemma OffsetBound(l: Layout, p: Point)
    requires l.Valid() && Inside(l.Bounds(), p)
    ensures 0 <= Offset(l, p) && Offset(l, p) + l.bytes <= l.Size() && l.pitch > 0
  {
    MulStep(p.y, l.height, l.pitch);
    MulStep(p.x, l.width, l.bytes);
    MulMono(0, p.y, l.pitch);
  }

  lemma OwnerOf(l: Layout, p: Point, b: nat)
    requires l.Valid() && Inside(l.Bounds(), p) && b < l.bytes
    ensures l.pitch > 0 && Offset(l, p) + b >= 0
    ensures Owner(l, Offset(l, p) + b) == p && Part(l, Offset(l, p) + b) == b
  {
    OffsetBound(l, p);
    MulStep(p.x, l.width, l.bytes);
    PartsOf(Offset(l, p) + b, p.y, p.x, b, l.pitch, l.bytes);
  }

  lemma PartsOf(i: nat, y: nat, x: nat, b: nat, pitch: nat, n: nat)
    requires i == y * pitch + x * n + b && b < n && x * n + b < pitch
    ensures i / pitch == y && i % pitch / n == x && i % pitch % n == b
  {
    DivUnique(i, pitch, y, x * n + b);
    DivUnique(x * n + b, n, x, b);
  }

  /** rawPixel at a point: the bytes, lowest first. */
  function PixelOf(l: Layout, buf: seq<byte>, p: Point): uint32
    requires l.Valid() && |buf| == l.Size() && Inside(l.Bounds(), p)
  {
    OffsetBound(l, p);
    var raw := buf[Offset(l, p)..Offset(l, p) + l.bytes];
    LoadFits(raw);
    Load(raw)
  }

  lemma LoadFits(raw: seq<byte>)
    requires |raw| <= 4
    ensures Load(raw) < TWO_32
  {
    ImageOfLoad(raw);
    RadixUpToFour(|raw|);
  }

  lemma RadixUpToFour(n: nat)
    requires n <= 4
    ensures Radix(n) == if n == 0 then 1 else if n == 1 then TWO_8 else if n == 2 then TWO_16 else if n == 3 then 0x100_0000 else TWO_32
  {
    if n > 0 { RadixUpToFour(n - 1); }
  }

  // ---- drawing ----

  predicate InAny(regs: seq<Region>, p: Point)
  {
    exists k :: 0 <= k < |regs| && Inside(regs[k], p)
  }

  type Paint = Point -> uint32

  /** One colour everywhere. */
  function Solid(pixel: uint32): Paint { (_: Point) => pixel }

  /** The byte at index i after the regions were drawn. */
  function DrawnByte(l: Layout, before: seq<byte>, regs: seq<Region>, color: Paint, i: nat): byte
    requires l.pitch > 0 && l.bytes > 0 && i < |before|
  {
    if InAny(regs, Owner(l, i)) then Image(color(Owner(l, i)), l.bytes)[Part(l, i)] else before[i]
  }

  /** Every byte of a pixel in the regions shows the point's colour, cut to the
      pixel's width; every other byte, padding included, is as before. */
  ghost predicate Drawn(l: Layout, before: seq<byte>, after: seq<byte>, regs: seq<Region>, color: Paint)
  {
    && |after| == |before|
    && (|before| > 0 ==> l.pitch > 0 && l.bytes > 0)
    && forall i :: 0 <= i < |before| ==> after[i] == DrawnByte(l, before, regs, color, i)
  }

  lemma DrawnNothing(l: Layout, buf: seq<byte>, color: Paint)
    requires l.Valid() && |buf| == l.Size()
    ensures Drawn(l, buf, buf, [], color)
  {
    if l.pitch == 0 { assert l.Size() == 0; }
  }

  /** Drawing more regions of the same picture, in any order. */
  lemma DrawnMore(l: Layout, s0: seq<byte>, s1: seq<byte>, s2: seq<byte>, regs1: seq<Region>, regs2: seq<Region>, color: Paint)
    requires Drawn(l, s0, s1, regs1, color) && Drawn(l, s1, s2, regs2, color)
    ensures Drawn(l, s0, s2, regs1 + regs2, color)
  {
    forall p ensures InAny(regs1 + regs2, p) <==> InAny(regs1, p) || InAny(regs2, p) {
      InAnyAppend(regs1, regs2, p);
    }
    forall i | 0 <= i < |s0| ensures s2[i] == DrawnByte(l, s0, regs1 + regs2, color, i) {
      assert s2[i] == DrawnByte(l, s1, regs2, color, i);
      assert s1[i] == DrawnByte(l, s0, regs1, color, i);
    }
  }

  lemma InAnyAppend(a: seq<Region>, b: seq<Region>, p: Point)
    ensures InAny(a + b, p) <==> InAny(a, p) || InAny(b, p)
  {
    if InAny(a, p) {
      var k :| 0 <= k < |a| && Inside(a[k], p);
      assert (a + b)[k] == a[k];
    }
    if InAny(b, p) {
      var k :| 0 <= k < |b| && Inside(b[k], p);
      assert (a + b)[|a| + k] == b[k];
    }
  }

  /** What is drawn on what decides every byte. */
  lemma DrawnIsUnique(l: Layout, before: seq<byte>, a: seq<byte>, b: seq<byte>, regs: seq<Region>, color: Paint)
    requires Drawn(l, before, a, regs, color) && Drawn(l, before, b, regs, color)
    ensures a == b
  {
    forall i | 0 <= i < |before| ensures a[i] == b[i] {
      assert a[i] == DrawnByte(l, before, regs, color, i);
    }
  }

  /** Only the points drawn matter, and only their colours. */
  lemma DrawnSame(l: Layout, before: seq<byte>, after: seq<byte>, regs: seq<Region>, regs': seq<Region>, color: Paint, color': Paint)
    requires Drawn(l, before, after, regs, color)
    requires forall p :: InAny(regs, p) <==> InAny(regs', p)
    requires forall p :: InAny(regs, p) ==> color(p) == color'(p)
    ensures Drawn(l, before, after, regs', color')
  {
    forall i | 0 <= i < |before| ensures after[i] == DrawnByte(l, before, regs', color', i) {
      assert after[i] == DrawnByte(l, before, regs, color, i);
    }
  }

  /** Reading after drawing: a drawn point shows its colour modulo the pixel
      width, any other point shows what it showed before. */
  lemma PixelAfterDrawing(l: Layout, before: seq<byte>, after: seq<byte>, regs: seq<Region>, color: Paint, p: Point)
    requires l.Valid() && |before| == l.Size() && Drawn(l, before, after, regs, color) && Inside(l.Bounds(), p)
    ensures PixelOf(l, after, p) == if InAny(regs, p) then color(p) % Radix(l.bytes) else PixelOf(l, before, p)
  {
    OffsetBound(l, p);
    SliceAfterDrawing(l, before, after, regs, color, p, Offset(l, p));
    if InAny(regs, p) { LoadOfImageIsCut(color(p), l.bytes); }
  }

  lemma SliceAfterDrawing(l: Layout, before: seq<byte>, after: seq<byte>, regs: seq<Region>, color: Paint, p: Point, off: nat)
    requires l.Valid() && |before| == l.Size() && Drawn(l, before, after, regs, color)
    requires Inside(l.Bounds(), p) && off == Offset(l, p) && off + l.bytes <= |before|
    ensures after[off..off + l.bytes] == if InAny(regs, p) then Image(color(p), l.bytes) else before[off..off + l.bytes]
  {
    var raw := if InAny(regs, p) then Image(color(p), l.bytes) else before[off..off + l.bytes];
    forall b | 0 <= b < l.bytes ensures after[off + b] == raw[b] {
      ByteAfterDrawing(l, before, after, regs, color, p, b);
    }
    SliceIs(after, off, raw);
  }

  lemma SliceIs(s: seq<byte>, off: nat, t: seq<byte>)
    requires off + |t| <= |s| && forall b :: 0 <= b < |t| ==> s[off + b] == t[b]
    ensures s[off..off + |t|] == t
  {
  }

  lemma ByteAfterDrawing(l: Layout, before: seq<byte>, after: seq<byte>, regs: seq<Region>, color: Paint, p: Point, b: nat)
    requires l.Valid() && |before| == l.Size() && Drawn(l, before, after, regs, color)
    requires Inside(l.Bounds(), p) && b < l.bytes
    ensures 0 <= Offset(l, p) && Offset(l, p) + b < |before|
    ensures after[Offset(l, p) + b] == if InAny(regs, p) then Image(color(p), l.bytes)[b] else before[Offset(l, p) + b]
  {
    OffsetBound(l, p);
    OwnerOf(l, p, b);
    assert after[Offset(l, p) + b] == DrawnByte(l, before, regs, color, Offset(l, p) + b);
  }

  /** The bytes that setPixelRow writes: `image` over and over. */
  predicate Repeated(before: seq<byte>, after: seq<byte>, start: nat, count: nat, image: seq<byte>)
    requires |image| > 0
  {
    && |after| == |before|
    && forall i :: 0 <= i < |before| ==>
         after[i] == if start <= i < start + count * |image| then image[(i - start) % |image|] else before[i]
  }

  /** A byte lies in a run of pixels of one row exactly when its owner does. */
  lemma OwnerInRow(l: Layout, p: Point, count: nat, i: nat)
    requires l.Valid() && Inside(l.Bounds(), p) && p.x + count <= l.width
    ensures l.pitch > 0 && Offset(l, p) >= 0
    ensures Offset(l, p) <= i < Offset(l, p) + count * l.bytes <==>
            Owner(l, i).y == p.y && p.x <= Owner(l, i).x < p.x + count
    ensures Owner(l, i).y == p.y && p.x <= Owner(l, i).x ==> i >= Offset(l, p) && (i - Offset(l, p)) % l.bytes == Part(l, i)
  {
    OffsetBound(l, p);
    MulMono(p.x + count, l.width, l.bytes);
    Euclid(i, l.pitch);
    ByteInRun(i, i / l.pitch, i % l.pitch, Offset(l, p), p.y, p.x, count, l.bytes, l.pitch);
  }

  lemma Euclid(i: nat, m: nat)
    requires m > 0
    ensures i == i / m * m + i % m && i / m >= 0 && 0 <= i % m < m
  {
  }

  lemma ByteInRun(i: nat, row: nat, c: nat, off: nat, y: nat, x: nat, count: nat, n: nat, pitch: nat)
    requires n > 0 && c < pitch && (x + count) * n <= pitch
    requires i == row * pitch + c && off == y * pitch + x * n
    ensures off <= i < off + count * n <==> row == y && x <= c / n < x + count
    ensures row == y && x <= c / n ==> i >= off && (i - off) % n == c % n
  {
    Distribute(x, count, n);
    if row != y {
      RowOrder(row, c, y, x * n, count * n, pitch);
    } else {
      ColumnInRun(c, x, count, n);
    }
  }

  lemma ColumnInRun(c: nat, px: nat, count: nat, n: nat)
    requires n > 0
    ensures px * n <= c < px * n + count * n <==> px <= c / n < px + count
    ensures px <= c / n ==> c >= px * n && (c - px * n) % n == c % n
  {
    var x, b := c / n, c % n;
    assert c == x * n + b;
    Distribute(px, count, n);
    ColumnOrder(x, b, px, n);
    ColumnOrder(x, b, px + count, n);
    if x >= px {
      Distribute(x - px, px, n);
      DivUnique(c - px * n, n, x - px, b);
    }
  }

  lemma Distribute(a: nat, b: nat, n: nat)
    ensures (a + b) * n == a * n + b * n
  {
  }

  lemma RowOrder(row: nat, c: nat, y: nat, start: nat, len: nat, pitch: nat)
    requires c < pitch && start + len <= pitch && row != y
    ensures !(y * pitch + start <= row * pitch + c < y * pitch + start + len)
  {
    if row < y { MulStep(row, y, pitch); } else { MulStep(y, row, pitch); }
  }

  lemma ColumnOrder(x: nat, b: nat, x': nat, n: nat)
    requires b < n
    ensures x * n + b >= x' * n <==> x >= x'
  {
    if x >= x' { MulMono(x', x, n); } else { MulStep(x, x', n); }
  }

  lemma RowIsDrawn(l: Layout, before: seq<byte>, after: seq<byte>, p: Point, count: nat, pixel: uint32)
    requires l.Valid() && |before| == l.Size() && Inside(l.Bounds(), p) && p.x + count <= l.width
    requires Offset(l, p) >= 0 && Repeated(before, after, Offset(l, p), count, Image(pixel, l.bytes))
    ensures Drawn(l, before, after, [Region(p.x, p.y, count, 1)], Solid(pixel))
  {
    OffsetBound(l, p);
    var color := Solid(pixel);
    var regs := [Region(p.x, p.y, count, 1)];
    forall i | 0 <= i < |before| ensures after[i] == DrawnByte(l, before, regs, color, i) {
      OwnerInRow(l, p, count, i);
      assert InAny(regs, Owner(l, i)) <==> Inside(regs[0], Owner(l, i));
    }
  }

  /** One more pixel of the run. */
  lemma RepeatedStep(before: seq<byte>, mid: seq<byte>, after: seq<byte>, start: nat, k: nat, image: seq<byte>)
    requires |image| > 0 && Repeated(before, mid, start, k, image) && |after| == |mid|
    requires forall i :: 0 <= i < |mid| ==>
               after[i] == if start + k * |image| <= i < start + k * |image| + |image| then image[i - start - k * |image|] else mid[i]
    ensures Repeated(before, after, start, k + 1, image)
  {
    assert (k + 1) * |image| == k * |image| + |image|;
    forall i | 0 <= i < |before|
      ensures after[i] == if start <= i < start + (k + 1) * |image| then image[(i - start) % |image|] else before[i]
    {
      if start + k * |image| <= i < start + k * |image| + |image| {
        DivUnique(i - start, |image|, k, i - start - k * |image|);
      }
    }
  }
}
