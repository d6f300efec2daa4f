/** toRLE, pixelMapPalette and pixelMapWeight of src/common/ltsm_framebuffer.cpp:
    scans over the pixels of a region, in one piece or in four bands. */
module PixelScans {
  import opened MachineInts
  import opened Wrappers
  import opened Arithmetic
  import opened ByteOrder
  import opened Geometry
  import opened Tiling
  import opened PixelLayout
  import opened FrameBuffers

  type Pixels = seq<uint32>

  predicate InRange(l: Layout, reg: Region)
  {
    0 <= reg.x && 0 <= reg.y && reg.x + reg.width <= l.width && reg.y + reg.height <= l.height
  }

  /** The k-th point of a region, row by row. */
  function ScanPoint(reg: Region, k: nat): (p: Point)
    requires k < reg.width * reg.height
    ensures Inside(reg, p)
  {
    GridPoint(reg.width, reg.height, k);
    Point(reg.x + k % reg.width, reg.y + k / reg.width)
  }

  lemma GridPoint(w: nat, h: nat, k: nat)
    requires k < w * h
    ensures w > 0 && 0 <= k % w < w && 0 <= k / w < h
  {
    assert w * h == h * w;
    SplitIndex(k, w, h);
  }

  /** The pixels of a region in that order. */
  function PixelsOf(l: Layout, buf: seq<byte>, reg: Region): (r: Pixels)
    requires l.Valid() && |buf| == l.Size() && InRange(l, reg)
    ensures |r| == reg.width * reg.height
  {
    MulMono(0, reg.width, reg.height);
    seq(reg.width * reg.height, k requires 0 <= k < reg.width * reg.height => PixelOf(l, buf, ScanPoint(reg, k)))
  }

  lemma PixelAt(l: Layout, buf: seq<byte>, reg: Region, px: nat, py: nat)
    requires l.Valid() && |buf| == l.Size() && InRange(l, reg) && px < reg.width && py < reg.height
    ensures 0 <= py * reg.width + px < reg.width * reg.height
    ensures PixelsOf(l, buf, reg)[py * reg.width + px] == PixelOf(l, buf, Point(reg.x + px, reg.y + py))
  {
    MulStep(py, reg.height, reg.width);
    MulMono(0, py, reg.width);
    RowMajorAt(px, py, reg.width);
  }

  /** rawPixel at a position of a region, as the scanning loops read it. */
  method ScanPixel(self: FrameBuffer, reg: Region, px: nat, py: nat, ghost ps: Pixels, ghost n: nat) returns (r: Result<uint32>)
    requires self.Valid() && InRange(self.Shape(), reg) && px < reg.width && py < reg.height
    requires ps == PixelsOf(self.Shape(), self.buffer[..], reg) && n == py * reg.width + px
    ensures n < |ps| && ps[..n + 1] == ps[..n] + [ps[n]]
    ensures r == if Supported(self.format.bitsPixel) then Ok(ps[n]) else Throws
  {
    PixelAt(self.Shape(), self.buffer[..], reg, px, py);
    r := self.Pixel(Point(reg.x + px, reg.y + py));
  }

  // ---- run lengths ----

  datatype Run = Run(pixel: uint32, length: nat)

  /** One pixel more: the last run grows, or a new one starts. */
  function AddPixel(runs: seq<Run>, pixel: uint32): seq<Run>
  {
    var n := |runs|;
    if n > 0 && runs[n - 1].pixel == pixel then runs[..n - 1] + [Run(pixel, runs[n - 1].length + 1)]
    else runs + [Run(pixel, 1)]
  }

  function Encode(ps: Pixels): seq<Run>
  {
    if ps == [] then [] else AddPixel(Encode(ps[..|ps| - 1]), ps[|ps| - 1])
  }

  function Repeat(pixel: uint32, n: nat): (r: Pixels)
    ensures |r| == n
  {
    seq(n, _ => pixel)
  }

  function Expand(runs: seq<Run>): Pixels
  {
    if runs == [] then [] else Expand(runs[..|runs| - 1]) + Repeat(runs[|runs| - 1].pixel, runs[|runs| - 1].length)
  }

  function TotalLength(runs: seq<Run>): nat
  {
    if runs == [] then 0 else TotalLength(runs[..|runs| - 1]) + runs[|runs| - 1].length
  }

  predicate Positive(runs: seq<Run>) { forall i :: 0 <= i < |runs| ==> runs[i].length > 0 }

  /** Neighbouring runs differ, so no run could be longer. */
  predicate Maximal(runs: seq<Run>) { forall i :: 0 < i < |runs| ==> runs[i - 1].pixel != runs[i].pixel }

  lemma ExpandAdd(runs: seq<Run>, pixel: uint32)
    ensures Expand(AddPixel(runs, pixel)) == Expand(runs) + [pixel]
  {
    var n := |runs|;
    var added := AddPixel(runs, pixel);
    if n > 0 && runs[n - 1].pixel == pixel {
      assert added[..n - 1] == runs[..n - 1];
      assert Repeat(pixel, runs[n - 1].length + 1) == Repeat(pixel, runs[n - 1].length) + [pixel];
    } else {
      assert added[..n] == runs && Repeat(pixel, 1) == [pixel];
    }
  }

  lemma AddKeepsShape(runs: seq<Run>, pixel: uint32)
    requires Positive(runs) && Maximal(runs)
    ensures Positive(AddPixel(runs, pixel)) && Maximal(AddPixel(runs, pixel))
  {
  }

  lemma EncodeStep(front: Pixels, last: uint32)
    ensures Encode(front + [last]) == AddPixel(Encode(front), last)
  {
    assert (front + [last])[..|front|] == front;
  }

  lemma {:induction false} EncodeExpands(ps: Pixels)
    ensures Expand(Encode(ps)) == ps
    decreases |ps|
  {
    if ps != [] {
      var front, last := ps[..|ps| - 1], ps[|ps| - 1];
      assert ps == front + [last];
      EncodeExpands(front);
      EncodeStep(front, last);
      ExpandStep(Encode(ps), Encode(front), front, last);
    }
  }

  lemma ExpandStep(added: seq<Run>, runs: seq<Run>, front: Pixels, last: uint32)
    requires added == AddPixel(runs, last) && Expand(runs) == front
    ensures Expand(added) == front + [last]
  {
    ExpandAdd(runs, last);
  }

  lemma {:induction false} EncodeShape(ps: Pixels)
    ensures Positive(Encode(ps)) && Maximal(Encode(ps))
  {
    if ps != [] {
      EncodeShape(ps[..|ps| - 1]);
      AddKeepsShape(Encode(ps[..|ps| - 1]), ps[|ps| - 1]);
    }
  }

  /** Expanding gives the pixels back; runs are positive and maximal. */
  lemma EncodeIsFaithful(ps: Pixels)
    ensures Expand(Encode(ps)) == ps && Positive(Encode(ps)) && Maximal(Encode(ps))
  {
    EncodeExpands(ps);
    EncodeShape(ps);
  }

  lemma {:induction false} ExpandLength(runs: seq<Run>)
    ensures |Expand(runs)| == TotalLength(runs)
  {
    if runs != [] { ExpandLength(runs[..|runs| - 1]); }
  }

  lemma {:induction false} ExpandAppend(a: seq<Run>, b: seq<Run>)
    ensures Expand(a + b) == Expand(a) + Expand(b)
  {
    if b == [] {
      assert a + b == a && Expand(a) + [] == Expand(a);
    } else {
      var front, last := b[..|b| - 1], b[|b| - 1];
      ExpandAppend(a, front);
      assert (a + b)[..|a + b| - 1] == a + front;
      assert Expand(a) + Expand(front) + Repeat(last.pixel, last.length) == Expand(a) + (Expand(front) + Repeat(last.pixel, last.length));
    }
  }

  /** Run-length encodings with the same expansion and maximal runs are equal:
      the sequential encoding is the only one of its kind. */
  lemma {:induction false} MaximalIsUnique(a: seq<Run>, b: seq<Run>)
    requires Positive(a) && Positive(b) && Maximal(a) && Maximal(b) && Expand(a) == Expand(b)
    ensures a == b
    decreases |a|
  {
    NonEmptyExpands(a);
    NonEmptyExpands(b);
    if a != [] {
      var n, m := |a| - 1, |b| - 1;
      LastRunsAgree(a, b);
      MaximalIsUnique(a[..n], b[..m]);
      assert a == a[..n] + [a[n]] && b == b[..m] + [b[m]];
    }
  }

  lemma NonEmptyExpands(a: seq<Run>)
    requires Positive(a)
    ensures a == [] <==> Expand(a) == []
  {
    if a != [] { assert |Expand(a)| >= a[|a| - 1].length; }
  }

  /** The last run is the longest tail of one pixel. */
  lemma LastRun(a: seq<Run>)
    requires a != [] && Positive(a) && Maximal(a)
    ensures var n, ps := |a| - 1, Expand(a);
            var start := |Expand(a[..n])|;
            && start + a[n].length == |ps| && ps[..start] == Expand(a[..n])
            && (forall k :: start <= k < |ps| ==> ps[k] == a[n].pixel)
            && (start > 0 ==> ps[start - 1] != a[n].pixel)
  {
    var n := |a| - 1;
    if n > 0 {
      var front := a[..n];
      assert Expand(front) == Expand(front[..n - 1]) + Repeat(front[n - 1].pixel, front[n - 1].length);
      assert a[n - 1].pixel != a[n].pixel && front[n - 1] == a[n - 1] && front[n - 1].length > 0;
    }
  }

  lemma LastRunsAgree(a: seq<Run>, b: seq<Run>)
    requires a != [] && b != [] && Positive(a) && Positive(b) && Maximal(a) && Maximal(b) && Expand(a) == Expand(b)
    ensures a[|a| - 1] == b[|b| - 1] && Expand(a[..|a| - 1]) == Expand(b[..|b| - 1])
  {
    LastRun(a);
    LastRun(b);
    var ps := Expand(a);
    var sa, sb := |Expand(a[..|a| - 1])|, |Expand(b[..|b| - 1])|;
    assert a[|a| - 1].length > 0 && b[|b| - 1].length > 0;
    assert ps[|ps| - 1] == a[|a| - 1].pixel == b[|b| - 1].pixel;
    assert sa == sb;
  }

  /** regionProcessed of toRLE. */
  method RegionRuns(self: FrameBuffer, reg: Region) returns (res: Result<seq<Run>>)
    requires self.Valid() && InRange(self.Shape(), reg)
    ensures res == if Supported(self.format.bitsPixel) || reg.IsEmpty()
                   then Ok(Encode(PixelsOf(self.Shape(), self.buffer[..], reg))) else Throws
  {
    ghost var ps := PixelsOf(self.Shape(), self.buffer[..], reg);
    var runs: seq<Run> := [];
    ghost var n := 0;
    for py := 0 to reg.height
      invariant n == py * reg.width && n <= |ps| && runs == Encode(ps[..n])
      invariant py > 0 && reg.width > 0 ==> Supported(self.format.bitsPixel)
    {
      MulStep(py, reg.height, reg.width);
      for px := 0 to reg.width
        invariant n == py * reg.width + px && n <= |ps| && runs == Encode(ps[..n])
        invariant n > 0 ==> Supported(self.format.bitsPixel)
      {
        var pix := ScanPixel(self, reg, px, py, ps, n);
        if pix.Throws? { return Throws; }
        assert ps[..n + 1][..n] == ps[..n];
        runs := AddPixel(runs, pix.value);
        n := n + 1;
      }
      assert (py + 1) * reg.width == py * reg.width + reg.width;
    }
    assert reg.height * reg.width == reg.width * reg.height && ps[..|ps|] == ps;
    res := Ok(runs);
  }

  // ---- four bands ----

  /** The bands of the parallel forms: full rows, a quarter of the height each. */
  function Bands(reg: Region): seq<Region> { Blocks(reg, Size(reg.width, reg.height / 4)) }

  /** Rows above band j. */
  function RowsAbove(reg: Region, j: nat): nat { Min(j * (reg.height / 4), reg.height) }

  /** The rows from top to bottom of a region. */
  function FullRows(reg: Region, top: nat, bottom: nat): Region
    requires top <= bottom <= reg.height && reg.y + top < 0x8000
  {
    Region(reg.x, reg.y + top, reg.width, bottom - top)
  }

  /** Band heights add up to the height. */
  lemma RowsAboveStep(reg: Region, j: nat)
    requires reg.height >= 4
    ensures var ch, n := reg.height / 4, Count(reg.height, reg.height / 4);
            && n > 0 && RowsAbove(reg, n) == reg.height
            && (j < n ==> RowsAbove(reg, j) == j * ch < RowsAbove(reg, j + 1) == j * ch + Min(reg.height - j * ch, ch))
  {
    var ch := reg.height / 4;
    CountBounds(reg.height, ch);
    InCount(reg.height, ch, j);
    Distribute(j, 1, ch);
  }

  lemma OneColumn(width: nat)
    requires width > 0
    ensures Count(width, width) == 1
  {
    DivUnique(width - 1, width, 0, width - 1);
  }

  /** From four rows up there is a band height, and the bands are full rows. */
  lemma BandAt(reg: Region, j: nat)
    requires 0 <= reg.x && 0 <= reg.y && reg.x + reg.width <= 0x7FFF && reg.y + reg.height <= 0x7FFF
    requires reg.width > 0 && reg.height >= 4
    ensures |Bands(reg)| == Count(reg.height, reg.height / 4)
    ensures j < |Bands(reg)| ==> RowsAbove(reg, j) < RowsAbove(reg, j + 1)
    ensures j < |Bands(reg)| ==> Bands(reg)[j] == FullRows(reg, RowsAbove(reg, j), RowsAbove(reg, j + 1))
  {
    var ch := reg.height / 4;
    var n := Count(reg.height, ch);
    OneColumn(reg.width);
    RowsAboveStep(reg, j);
    assert Bands(reg) == Rows(reg, reg.width, ch, n);
    if j < n { BandIsBlock(reg, ch, j, j * ch); }
  }

  lemma BandIsBlock(reg: Region, ch: nat, j: nat, top: nat)
    requires 0 <= reg.x && 0 <= reg.y && reg.x + reg.width <= 0x7FFF && reg.y + reg.height <= 0x7FFF
    requires reg.width > 0 && 0 < ch <= reg.height && j < Count(reg.height, ch) && top == j * ch < reg.height
    ensures |Rows(reg, reg.width, ch, Count(reg.height, ch))| == Count(reg.height, ch)
    ensures Rows(reg, reg.width, ch, Count(reg.height, ch))[j] == FullRows(reg, top, top + Min(reg.height - top, ch))
  {
    OneColumn(reg.width);
    BlockAt(reg, reg.width, ch, Count(reg.height, ch), 0, j);
    BlockInside(reg, reg.width, ch, 0, top);
  }

  /** The step of the loop over bands. */
  function BandHeight(reg: Region): uint16 { StepOf(reg.height / 4, reg.height) }

  /** The loop that divides a region into bands ends if and only if the region
      has at least four rows.  Otherwise its counter stays 0 whatever the number
      of turns, and the scan never returns. */
  lemma BandLoopEndsIff(reg: Region)
    requires !reg.IsEmpty() && reg.height <= 0x7FFF
    ensures (exists n: nat :: StopsAt(reg.height, BandHeight(reg), n)) <==> reg.height >= 4
    ensures reg.height >= 4 ==> StopsAt(reg.height, BandHeight(reg), Count(reg.height, BandHeight(reg)))
    ensures reg.height < 4 ==> forall turns: nat :: Counter(BandHeight(reg), turns) == 0
  {
    if reg.height >= 4 {
      SmallSideReaches(reg.height, reg.height / 4);
      LeavesIff(reg.height, reg.height / 4);
      assert StopsAt(reg.height, BandHeight(reg), Count(reg.height, BandHeight(reg)));
    } else {
      forall turns: nat ensures Counter(BandHeight(reg), turns) == 0 { ZeroStepStays(turns); }
    }
  }

  /** Two rows of 600 points on eight cores: the scan is cut into bands, and the
      cutting never ends. */
  lemma TwoRowsNeverEnd(reg: Region)
    requires reg == Region(0, 0, 600, 2)
    ensures UsesJobs(8, reg) && forall n: nat :: !StopsAt(reg.height, BandHeight(reg), n)
  {
    BandLoopEndsIff(reg);
  }

  lemma RowProducts(w: nat, top: nat, bottom: nat, h: nat)
    requires top <= bottom <= h
    ensures 0 <= top * w <= bottom * w <= w * h && w * (bottom - top) == bottom * w - top * w
  {
    MulMono(0, top, w);
    MulMono(top, bottom, w);
    MulMono(bottom, h, w);
  }

  /** The pixels of a band of full rows are a slice of those of the region. */
  lemma BandPixels(l: Layout, buf: seq<byte>, reg: Region, top: nat, bottom: nat)
    requires l.Valid() && |buf| == l.Size() && InRange(l, reg) && top <= bottom <= reg.height && reg.y + top < 0x8000
    ensures var band, w := FullRows(reg, top, bottom), reg.width;
            && InRange(l, band) && 0 <= top * w <= bottom * w <= w * reg.height
            && PixelsOf(l, buf, reg)[..top * w] + PixelsOf(l, buf, band) == PixelsOf(l, buf, reg)[..bottom * w]
  {
    var w := reg.width;
    var band := FullRows(reg, top, bottom);
    RowProducts(w, top, bottom, reg.height);
    var whole, part := PixelsOf(l, buf, reg), PixelsOf(l, buf, band);
    forall k | 0 <= k < |part| ensures part[k] == whole[top * w + k] {
      BandPixel(l, buf, reg, top, bottom, k);
    }
  }

  lemma BandPixel(l: Layout, buf: seq<byte>, reg: Region, top: nat, bottom: nat, k: nat)
    requires l.Valid() && |buf| == l.Size() && InRange(l, reg) && top <= bottom <= reg.height && reg.y + top < 0x8000
    requires InRange(l, FullRows(reg, top, bottom)) && k < reg.width * (bottom - top)
    ensures 0 <= top * reg.width + k < reg.width * reg.height
    ensures PixelsOf(l, buf, FullRows(reg, top, bottom))[k] == PixelsOf(l, buf, reg)[top * reg.width + k]
  {
    RowProducts(reg.width, top, bottom, reg.height);
    GridPoint(reg.width, bottom - top, k);
    Shifted(reg.width, top, k);
    assert ScanPoint(FullRows(reg, top, bottom), k) == ScanPoint(reg, top * reg.width + k);
  }

  lemma Shifted(w: nat, top: nat, k: nat)
    requires w > 0
    ensures (top * w + k) % w == k % w && (top * w + k) / w == top + k / w
  {
    var q, r := k / w, k % w;
    assert k == q * w + r;
    assert (top + q) * w == top * w + q * w;
    DivUnique(top * w + k, w, top + q, r);
  }

  /** The pixels of the first j bands. */
  function PixelsAbove(l: Layout, buf: seq<byte>, reg: Region, j: nat): Pixels
    requires l.Valid() && |buf| == l.Size() && InRange(l, reg)
  {
    AboveBound(reg, j);
    PixelsOf(l, buf, reg)[..RowsAbove(reg, j) * reg.width]
  }

  lemma AboveBound(reg: Region, j: nat)
    ensures 0 <= RowsAbove(reg, j) * reg.width <= reg.width * reg.height
  {
    MulMono(0, j, reg.height / 4);
    MulMono(0, RowsAbove(reg, j), reg.width);
    MulMono(RowsAbove(reg, j), reg.height, reg.width);
  }

  /** Band by band, the pixels of the region in order. */
  lemma BandStep(l: Layout, buf: seq<byte>, reg: Region, j: nat)
    requires l.Valid() && |buf| == l.Size() && InRange(l, reg) && reg.width > 0 && reg.height >= 4
    ensures PixelsAbove(l, buf, reg, 0) == [] && PixelsAbove(l, buf, reg, |Bands(reg)|) == PixelsOf(l, buf, reg)
    ensures j < |Bands(reg)| ==> InRange(l, Bands(reg)[j]) && !Bands(reg)[j].IsEmpty()
    ensures j < |Bands(reg)| ==>
              PixelsAbove(l, buf, reg, j + 1) == PixelsAbove(l, buf, reg, j) + PixelsOf(l, buf, Bands(reg)[j])
  {
    BandAt(reg, j);
    RowsAboveStep(reg, j);
    assert reg.height * reg.width == reg.width * reg.height;
    if j < |Bands(reg)| { BandPixels(l, buf, reg, RowsAbove(reg, j), RowsAbove(reg, j + 1)); }
  }

  method DivideBands(self: FrameBuffer, reg: Region) returns (bands: seq<Region>)
    requires self.Valid() && InRange(self.Shape(), reg) && reg.width > 0 && reg.height >= 4
    ensures bands == Bands(reg) && bands != []
  {
    SmallSideReaches(reg.width, reg.width);
    SmallSideReaches(reg.height, reg.height / 4);
    BandAt(reg, 0);
    RowsAboveStep(reg, 0);
    bands := DivideBlocks(reg, Size(reg.width, reg.height / 4));
  }

  /** toRLE: the region's runs, or the runs of its bands one after the other. */
  method ToRLE(self: FrameBuffer, reg: Region, cores: nat) returns (res: Result<seq<Run>>)
    requires self.Valid() && InRange(self.Shape(), reg)
    requires UsesJobs(cores, reg) ==> reg.height >= 4
    ensures res.Throws? <==> !Supported(self.format.bitsPixel) && !reg.IsEmpty()
    ensures res.Ok? ==>
              var ps := PixelsOf(self.Shape(), self.buffer[..], reg);
              && Expand(res.value) == ps && Positive(res.value) && TotalLength(res.value) == reg.width * reg.height
              && (!UsesJobs(cores, reg) ==> res.value == Encode(ps))
  {
    ghost var ps := PixelsOf(self.Shape(), self.buffer[..], reg);
    if UsesJobs(cores, reg) {
      res := BandRuns(self, reg);
    } else {
      res := RegionRuns(self, reg);
      EncodeIsFaithful(ps);
    }
    if res.Ok? { ExpandLength(res.value); }
  }

  /** One job's list, spliced to the end. */
  method AppendRuns(self: FrameBuffer, band: Region, list: seq<Run>) returns (res: Result<seq<Run>>)
    requires self.Valid() && InRange(self.Shape(), band) && !band.IsEmpty() && Positive(list)
    ensures res.Throws? <==> !Supported(self.format.bitsPixel)
    ensures res.Ok? ==> Positive(res.value)
    ensures res.Ok? ==> Expand(res.value) == Expand(list) + PixelsOf(self.Shape(), self.buffer[..], band)
  {
    var runs := RegionRuns(self, band);
    if runs.Throws? { return Throws; }
    EncodeIsFaithful(PixelsOf(self.Shape(), self.buffer[..], band));
    ExpandAppend(list, runs.value);
    res := Ok(list + runs.value);
  }

  method BandRuns(self: FrameBuffer, reg: Region) returns (res: Result<seq<Run>>)
    requires self.Valid() && InRange(self.Shape(), reg) && reg.width > 0 && reg.height >= 4
    ensures res.Throws? <==> !Supported(self.format.bitsPixel)
    ensures res.Ok? ==> Expand(res.value) == PixelsOf(self.Shape(), self.buffer[..], reg) && Positive(res.value)
  {
    var bands := DivideBands(self, reg);
    BandStep(self.Shape(), self.buffer[..], reg, 0);
    var list: seq<Run> := [];
    ghost var above: Pixels := [];
    for j := 0 to |bands|
      invariant above == PixelsAbove(self.Shape(), self.buffer[..], reg, j)
      invariant Expand(list) == above && Positive(list)
      invariant j > 0 ==> Supported(self.format.bitsPixel)
    {
      BandStep(self.Shape(), self.buffer[..], reg, j);
      var more := AppendRuns(self, bands[j], list);
      if more.Throws? { return Throws; }
      above := above + PixelsOf(self.Shape(), self.buffer[..], bands[j]);
      list := more.value;
    }
    res := Ok(list);
  }

  // ---- palettes ----

  type PixelMap = map<uint32, nat>

  /** Some pixel map that holds exactly the pixels. */
  predicate HoldsExactly(m: PixelMap, ps: Pixels) { forall v: uint32 :: v in m <==> v in ps }

  /** A pixel enters the map once, with index 0. */
  method AddColour(m: PixelMap, pix: uint32, ghost ps: Pixels) returns (more: PixelMap)
    requires HoldsExactly(m, ps)
    ensures HoldsExactly(more, ps + [pix])
  {
    more := if pix in m then m else m[pix := 0];
    OneMoreColour(ps, pix);
  }

  lemma OneMoreColour(ps: Pixels, pix: uint32)
    ensures forall v: uint32 :: v in ps + [pix] <==> v in ps || v == pix
  {
  }

  /** regionProcessed of pixelMapPalette: every pixel maps to 0. */
  method RegionPalette(self: FrameBuffer, reg: Region) returns (res: Result<PixelMap>)
    requires self.Valid() && InRange(self.Shape(), reg)
    ensures res.Throws? <==> !Supported(self.format.bitsPixel) && !reg.IsEmpty()
    ensures res.Ok? ==> HoldsExactly(res.value, PixelsOf(self.Shape(), self.buffer[..], reg))
  {
    ghost var ps := PixelsOf(self.Shape(), self.buffer[..], reg);
    var m: PixelMap := map[];
    ghost var n := 0;
    for py := 0 to reg.height
      invariant n == py * reg.width && n <= |ps| && HoldsExactly(m, ps[..n])
      invariant py > 0 && reg.width > 0 ==> Supported(self.format.bitsPixel)
    {
      MulStep(py, reg.height, reg.width);
      for px := 0 to reg.width
        invariant n == py * reg.width + px && n <= |ps| && HoldsExactly(m, ps[..n])
        invariant n > 0 ==> Supported(self.format.bitsPixel)
      {
        var pix := ScanPixel(self, reg, px, py, ps, n);
        if pix.Throws? { return Throws; }
        m := AddColour(m, pix.value, ps[..n]);
        n := n + 1;
      }
      assert (py + 1) * reg.width == py * reg.width + reg.width;
    }
    assert reg.height * reg.width == reg.width * reg.height && ps[..|ps|] == ps;
    res := Ok(m);
  }

  /** One job's map, merged into the first. */
  method AddPalette(self: FrameBuffer, band: Region, m: PixelMap, ghost above: Pixels) returns (res: Result<PixelMap>)
    requires self.Valid() && InRange(self.Shape(), band) && !band.IsEmpty() && HoldsExactly(m, above)
    ensures res.Throws? <==> !Supported(self.format.bitsPixel)
    ensures res.Ok? ==> HoldsExactly(res.value, above + PixelsOf(self.Shape(), self.buffer[..], band))
  {
    var part := RegionPalette(self, band);
    if part.Throws? { return Throws; }
    HoldsBoth(m, part.value, above, PixelsOf(self.Shape(), self.buffer[..], band));
    res := Ok(part.value + m);
  }

  lemma HoldsBoth(m: PixelMap, part: PixelMap, ps: Pixels, ps': Pixels)
    requires HoldsExactly(m, ps) && HoldsExactly(part, ps')
    ensures HoldsExactly(part + m, ps + ps')
  {
  }

  method BandPalettes(self: FrameBuffer, reg: Region) returns (res: Result<PixelMap>)
    requires self.Valid() && InRange(self.Shape(), reg) && reg.width > 0 && reg.height >= 4
    ensures res.Throws? <==> !Supported(self.format.bitsPixel)
    ensures res.Ok? ==> HoldsExactly(res.value, PixelsOf(self.Shape(), self.buffer[..], reg))
  {
    var bands := DivideBands(self, reg);
    BandStep(self.Shape(), self.buffer[..], reg, 0);
    var m: PixelMap := map[];
    ghost var above: Pixels := [];
    for j := 0 to |bands|
      invariant above == PixelsAbove(self.Shape(), self.buffer[..], reg, j) && HoldsExactly(m, above)
      invariant j > 0 ==> Supported(self.format.bitsPixel)
    {
      BandStep(self.Shape(), self.buffer[..], reg, j);
      var more := AddPalette(self, bands[j], m, above);
      if more.Throws? { return Throws; }
      above := above + PixelsOf(self.Shape(), self.buffer[..], bands[j]);
      m := more.value;
    }
    res := Ok(m);
  }

  /** A numbering of the distinct pixels from 0 up: order lists them by index,
      so no index is missing and none is used twice. */
  predicate IsPalette(m: PixelMap, order: Pixels, ps: Pixels)
  {
    && (forall v: uint32 :: v in m <==> v in order)
    && (forall i :: 0 <= i < |order| ==> order[i] in m && m[order[i]] == i)
    && (forall v: uint32 :: v in order <==> v in ps)
  }

  /** pixelMapPalette; the map is walked in whatever order it keeps. */
  method PixelMapPalette(self: FrameBuffer, reg: Region, cores: nat) returns (res: Result<PixelMap>, ghost order: Pixels)
    requires self.Valid() && InRange(self.Shape(), reg)
    requires UsesJobs(cores, reg) ==> reg.height >= 4
    ensures res.Throws? <==> !Supported(self.format.bitsPixel) && !reg.IsEmpty()
    ensures res.Ok? ==> IsPalette(res.value, order, PixelsOf(self.Shape(), self.buffer[..], reg))
  {
    order := [];
    if UsesJobs(cores, reg) {
      res := BandPalettes(self, reg);
    } else {
      res := RegionPalette(self, reg);
    }
    if res.Ok? {
      var m;
      m, order := Number(res.value);
      res := Ok(m);
    }
  }

  /** The last loop of pixelMapPalette. */
  method Number(m0: PixelMap) returns (m: PixelMap, ghost order: Pixels)
    ensures forall v: uint32 :: v in m <==> v in order
    ensures forall v: uint32 :: v in m <==> v in m0
    ensures forall i :: 0 <= i < |order| ==> order[i] in m && m[order[i]] == i
  {
    m, order := m0, [];
    var keys, index := m.Keys, 0;
    while keys != {}
      invariant m.Keys == m0.Keys && index == |order|
      invariant forall v: uint32 :: v in m <==> v in keys || v in order
      invariant forall v: uint32 :: v in keys ==> v !in order
      invariant forall i :: 0 <= i < |order| ==> order[i] in m && m[order[i]] == i
      decreases keys
    {
      var key :| key in keys;
      m := m[key := index];
      order := order + [key];
      index := index + 1;
      keys := keys - {key};
    }
  }

  /** A palette has as many indices as there are distinct pixels, and finding the
      index of a colour and looking the index up are inverse. */
  lemma PaletteIsBijection(m: PixelMap, order: Pixels, ps: Pixels, v: uint32, w: uint32)
    requires IsPalette(m, order, ps) && v in ps && w in ps
    ensures m[v] < |order| && order[m[v]] == v && (m[v] == m[w] ==> v == w)
    ensures |order| == |Colours(ps)|
  {
    assert v in order && w in order;
    var i :| 0 <= i < |order| && order[i] == v;
    var k :| 0 <= k < |order| && order[k] == w;
    assert Colours(ps) == Colours(order);
    ColourCount(order);
  }

  function Colours(ps: Pixels): set<uint32> { set x | x in ps }

  lemma {:induction false} ColourCount(order: Pixels)
    requires forall i, k :: 0 <= i < k < |order| ==> order[i] != order[k]
    ensures |Colours(order)| == |order|
  {
    if order != [] {
      var front, last := order[..|order| - 1], order[|order| - 1];
      ColourCount(front);
      assert last !in front;
      assert Colours(order) == Colours(front) + {last};
    }
  }

  // ---- histograms ----

  /** The map counts every pixel as often as it occurs. */
  predicate IsHistogram(m: PixelMap, bag: multiset<uint32>)
  {
    forall v: uint32 :: (v in m <==> v in bag) && (v in m ==> m[v] == bag[v])
  }

  /** try_emplace with weight 1, or one more. */
  method AddWeight(m: PixelMap, pix: uint32, ghost ps: Pixels) returns (more: PixelMap)
    requires IsHistogram(m, multiset(ps))
    ensures IsHistogram(more, multiset(ps + [pix]))
  {
    more := if pix in m then m[pix := m[pix] + 1] else m[pix := 1];
    assert multiset(ps + [pix]) == multiset(ps) + multiset{pix};
  }

  method RegionWeight(self: FrameBuffer, reg: Region) returns (res: Result<PixelMap>)
    requires self.Valid() && InRange(self.Shape(), reg)
    ensures res.Throws? <==> !Supported(self.format.bitsPixel) && !reg.IsEmpty()
    ensures res.Ok? ==> IsHistogram(res.value, multiset(PixelsOf(self.Shape(), self.buffer[..], reg)))
  {
    ghost var ps := PixelsOf(self.Shape(), self.buffer[..], reg);
    var m: PixelMap := map[];
    ghost var n := 0;
    for py := 0 to reg.height
      invariant n == py * reg.width && n <= |ps| && IsHistogram(m, multiset(ps[..n]))
      invariant py > 0 && reg.width > 0 ==> Supported(self.format.bitsPixel)
    {
      MulStep(py, reg.height, reg.width);
      for px := 0 to reg.width
        invariant n == py * reg.width + px && n <= |ps| && IsHistogram(m, multiset(ps[..n]))
        invariant n > 0 ==> Supported(self.format.bitsPixel)
      {
        var pix := ScanPixel(self, reg, px, py, ps, n);
        if pix.Throws? { return Throws; }
        m := AddWeight(m, pix.value, ps[..n]);
        n := n + 1;
      }
      assert (py + 1) * reg.width == py * reg.width + reg.width;
    }
    assert reg.height * reg.width == reg.width * reg.height && ps[..|ps|] == ps;
    res := Ok(m);
  }

  /** The merge loop: weights of pixels that are there already are added up. */
  method MergeWeights(m: PixelMap, part: PixelMap, ghost bag: multiset<uint32>, ghost bag': multiset<uint32>) returns (all: PixelMap)
    requires IsHistogram(m, bag) && IsHistogram(part, bag')
    ensures IsHistogram(all, bag + bag')
  {
    all := m;
    var keys := part.Keys;
    while keys != {}
      invariant keys <= part.Keys
      invariant forall v: uint32 :: v in all <==> v in m || (v in part && v !in keys)
      invariant forall v: uint32 :: v in all ==> all[v] == bag[v] + if v in part && v !in keys then bag'[v] else 0
      decreases keys
    {
      var key :| key in keys;
      all := if key in all then all[key := all[key] + part[key]] else all[key := part[key]];
      keys := keys - {key};
    }
  }

  /** One job's weights, merged into the first map. */
  method AddWeights(self: FrameBuffer, band: Region, m: PixelMap, ghost above: Pixels) returns (res: Result<PixelMap>)
    requires self.Valid() && InRange(self.Shape(), band) && !band.IsEmpty() && IsHistogram(m, multiset(above))
    ensures res.Throws? <==> !Supported(self.format.bitsPixel)
    ensures res.Ok? ==> IsHistogram(res.value, multiset(above + PixelsOf(self.Shape(), self.buffer[..], band)))
  {
    var part := RegionWeight(self, band);
    if part.Throws? { return Throws; }
    BagOfBoth(above, PixelsOf(self.Shape(), self.buffer[..], band));
    var all := MergeWeights(m, part.value, multiset(above), multiset(PixelsOf(self.Shape(), self.buffer[..], band)));
    res := Ok(all);
  }

  lemma BagOfBoth(ps: Pixels, ps': Pixels)
    ensures multiset(ps + ps') == multiset(ps) + multiset(ps')
  {
  }

  method BandWeights(self: FrameBuffer, reg: Region) returns (res: Result<PixelMap>)
    requires self.Valid() && InRange(self.Shape(), reg) && reg.width > 0 && reg.height >= 4
    ensures res.Throws? <==> !Supported(self.format.bitsPixel)
    ensures res.Ok? ==> IsHistogram(res.value, multiset(PixelsOf(self.Shape(), self.buffer[..], reg)))
  {
    var bands := DivideBands(self, reg);
    BandStep(self.Shape(), self.buffer[..], reg, 0);
    var m: PixelMap := map[];
    ghost var above: Pixels := [];
    for j := 0 to |bands|
      invariant above == PixelsAbove(self.Shape(), self.buffer[..], reg, j) && IsHistogram(m, multiset(above))
      invariant j > 0 ==> Supported(self.format.bitsPixel)
    {
      BandStep(self.Shape(), self.buffer[..], reg, j);
      var more := AddWeights(self, bands[j], m, above);
      if more.Throws? { return Throws; }
      above := above + PixelsOf(self.Shape(), self.buffer[..], bands[j]);
      m := more.value;
    }
    res := Ok(m);
  }

  /** pixelMapWeight: in both forms the multiset of the region's pixels. */
  method PixelMapWeight(self: FrameBuffer, reg: Region, cores: nat) returns (res: Result<PixelMap>)
    requires self.Valid() && InRange(self.Shape(), reg)
    requires UsesJobs(cores, reg) ==> reg.height >= 4
    ensures res.Throws? <==> !Supported(self.format.bitsPixel) && !reg.IsEmpty()
    ensures res.Ok? ==> IsHistogram(res.value, multiset(PixelsOf(self.Shape(), self.buffer[..], reg)))
    ensures res.Ok? ==> Weight(res.value) == reg.width * reg.height
  {
    if UsesJobs(cores, reg) {
      res := BandWeights(self, reg);
    } else {
      res := RegionWeight(self, reg);
    }
    if res.Ok? { WeightIsSize(res.value, multiset(PixelsOf(self.Shape(), self.buffer[..], reg))); }
  }

  ghost function Weight(m: PixelMap): nat
    decreases |m|
  {
    if m == map[] then 0
    else
      var k :| k in m;
      m[k] + Weight(m - {k})
  }

  /** All weights together are the number of pixels. */
  lemma {:induction false} WeightIsSize(m: PixelMap, bag: multiset<uint32>)
    requires IsHistogram(m, bag)
    ensures Weight(m) == |bag|
    decreases |m|
  {
    if m == map[] {
      assert bag == multiset{} by {
        forall v: uint32 ensures v !in bag { assert v !in m; }
      }
    } else {
      var k :| k in m && Weight(m) == m[k] + Weight(m - {k});
      WeightIsSize(m - {k}, bag[k := 0]);
    }
  }

  /** There is only one histogram of a multiset, so both forms agree. */
  lemma HistogramIsUnique(m1: PixelMap, m2: PixelMap, bag: multiset<uint32>)
    requires IsHistogram(m1, bag) && IsHistogram(m2, bag)
    ensures m1 == m2
  {
    assert forall v: uint32 :: v in m1 <==> v in m2;
    assert forall v: uint32 :: v in m1 ==> m1[v] == m2[v];
  }
}
