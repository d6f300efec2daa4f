/** PixelFormat and convertPixelFromTo of src/common/ltsm_framebuffer.cpp. */
module PixelFormats {
  import opened MachineInts
  import opened Arithmetic
  import opened Bits

  /** One colour channel: its largest value and its position in the pixel. */
  datatype Channel = Channel(max: uint16, shift: uint8)

  datatype PixelFormat = PixelFormat(bitsPixel: uint8, red: Channel, green: Channel, blue: Channel, alpha: Channel)
  {
    function BytePixel(): nat { bitsPixel / 8 }

    /** In the order convertPixelFromTo combines them. */
    function Channels(): (r: seq<Channel>)
      ensures |r| == 4
    {
      [alpha, red, green, blue]
    }

    predicate Compare(pf: PixelFormat, skipAlpha: bool)
    {
      && bitsPixel == pf.bitsPixel
      && red == pf.red && green == pf.green && blue == pf.blue
      && (skipAlpha || alpha == pf.alpha)
    }
  }

  function Mask(c: Channel): uint32 { Shl(c.max, c.shift) }

  /** red, green, blue and alpha of a pixel. */
  function Get(pixel: uint32, c: Channel): (r: uint16)
    ensures r <= c.max
  {
    And(Shr(pixel, c.shift), c.max)
  }

  /** convertMax; the C++ product is an int, so it must stay below 2^31. */
  function ConvertMax(col1: uint16, max1: uint16, max2: uint16): (r: uint32)
  {
    if max1 != 0 then
      ProductFits(col1, max2, max1 + 1);
      (col1 * (max2 + 1)) / (max1 + 1)
    else 0
  }

  lemma ProductFits(col: uint16, max: uint16, d: nat)
    requires d > 0
    ensures 0 <= (col * (max + 1)) / d < TWO_32
  {
    ProductBound(col, max + 1, 0xFFFF, 0x1_0000);
    MulMono(0, col, max + 1);
    QuotientBelow(col * (max + 1), d);
  }

  lemma QuotientBelow(n: nat, d: nat)
    requires d > 0
    ensures 0 <= n / d <= n
  {
    MulMono(1, d, n / d);
    assert n == n / d * d + n % d && n / d * d == d * (n / d);
  }

  function ConvertChannel(pixel: uint32, c1: Channel, c2: Channel): uint32
  {
    if c1.max == c2.max then Get(pixel, c1) else ConvertMax(Get(pixel, c1), c1.max, c2.max)
  }

  /** The shifted channel values or-ed together. */
  function Pack(vs: seq<uint32>, cs: seq<Channel>): uint32
    requires |vs| == |cs|
  {
    if |vs| == 0 then 0
    else
      var n := |vs| - 1;
      var rest, last := Pack(vs[..n], cs[..n]), Shl(vs[n], cs[n].shift);
      OrWord(rest, last);
      Or(rest, last)
  }

  function ConvertChannels(pixel: uint32, cs1: seq<Channel>, cs2: seq<Channel>): (r: seq<uint32>)
    requires |cs1| == |cs2|
    ensures |r| == |cs1|
  {
    seq(|cs1|, i requires 0 <= i < |cs1| => ConvertChannel(pixel, cs1[i], cs2[i]))
  }

  function ConvertPixelFromTo(pixel: uint32, pf1: PixelFormat, pf2: PixelFormat): uint32
  {
    if pf2.Compare(pf1, true) && pf2.alpha == pf1.alpha then pixel
    else if pf2.Compare(pf1, true) && pf2.alpha.max == 0 && pf1.alpha.max != 0 then And(Not(Mask(pf1.alpha)), pixel)
    else if pf2.Compare(pf1, true) && pf2.alpha.max != 0 && pf1.alpha.max == 0 then
      OrWord(Mask(pf2.alpha), pixel);
      Or(Mask(pf2.alpha), pixel)
    else Pack(ConvertChannels(pixel, pf1.Channels(), pf2.Channels()), pf2.Channels())
  }

  /** convertFrom as a function of the pixel. */
  function Converter(pf1: PixelFormat, pf2: PixelFormat): uint32 -> uint32
  {
    pixel => ConvertPixelFromTo(pixel, pf1, pf2)
  }

  /** Of two different channel maxima of k ones, the smaller is at most 0x7FFF. */
  lemma {:induction false} SmallerOnes(a: nat, b: nat)
    requires a < b && Ones(b) <= 0xFFFF
    ensures Ones(a) <= 0x7FFF
  {
    if a < b - 1 { SmallerOnes(a, b - 1); }
  }

  /** For channels of k ones, which is what bit masks are, the product that
      convertMax forms between different maxima never overflows its int. */
  lemma ProductIsInt(col: uint16, a: nat, b: nat)
    requires Ones(a) <= 0xFFFF && Ones(b) <= 0xFFFF && Ones(a) != Ones(b) && col <= Ones(a)
    ensures col * (Ones(b) + 1) < 0x8000_0000
  {
    if a < b {
      SmallerOnes(a, b);
      ProductBound(col, Ones(b) + 1, 0x7FFF, 0x1_0000);
    } else {
      SmallerOnes(b, a);
      ProductBound(col, Ones(b) + 1, 0xFFFF, 0x8000);
    }
  }

  /** A mask with a gap can make it overflow: 65535 from a maximum of 65535 to one
      of 65534. */
  lemma ProductOverflows(max1: uint16, max2: uint16)
    requires max1 == 0xFFFF && max2 == 0xFFFE
    ensures max1 != max2 && max1 * (max2 + 1) >= 0x8000_0000 && forall k: nat :: max2 != Ones(k)
  {
    forall k: nat ensures max2 != Ones(k) { assert k > 0 ==> Ones(k) == 2 * Ones(k - 1) + 1; }
  }

  // ---- regular formats ----

  function Width(max: nat): nat { if max == 0 then 0 else 1 + Width(max / 2) }

  lemma {:induction false} WidthOnes(k: nat)
    ensures Width(Ones(k)) == k
  {
    if k > 0 { WidthOnes(k - 1); assert Ones(k) / 2 == Ones(k - 1); }
  }

  /** The maximum is 2^k - 1 and the channel lies inside the 32 bits. */
  predicate RegularChannel(c: Channel)
  {
    c.max == Ones(Width(c.max)) && (c.max != 0 ==> c.shift + Width(c.max) <= 32)
  }

  predicate DisjointMasks(cs: seq<Channel>)
  {
    forall i, j :: 0 <= i < j < |cs| ==> And(Mask(cs[i]), Mask(cs[j])) == 0
  }

  predicate Regular(pf: PixelFormat)
  {
    (forall i :: 0 <= i < 4 ==> RegularChannel(pf.Channels()[i])) && DisjointMasks(pf.Channels())
  }

  /** The pixel has no bit outside the masks of the format. */
  predicate Within(pixel: uint32, pf: PixelFormat)
  {
    forall k: nat :: k < 32 && Bit(pixel, k) ==>
      exists i :: 0 <= i < 4 && Bit(Mask(pf.Channels()[i]), k)
  }

  lemma MaskBit(c: Channel, k: nat)
    requires RegularChannel(c) && k < 32
    ensures Bit(Mask(c), k) <==> c.shift <= k < c.shift + Width(c.max)
  {
    ShlBit(c.max, c.shift, k);
    if c.shift <= k { OnesBit(Width(c.max), k - c.shift); }
  }

  /** A value that fits the channel only sets bits of its mask. */
  lemma ShiftedBit(v: uint32, c: Channel, k: nat)
    requires RegularChannel(c) && v <= c.max && k < 32
    ensures Bit(Shl(v, c.shift), k) <==> Bit(Mask(c), k) && c.shift <= k && Bit(v, k - c.shift)
  {
    ShlBit(v, c.shift, k);
    MaskBit(c, k);
    if c.shift <= k && k - c.shift >= Width(c.max) {
      BelowOnes(v, Width(c.max));
      BelowBit(v, Width(c.max), k - c.shift);
    }
  }

  lemma GetBit(pixel: uint32, c: Channel, k: nat)
    requires RegularChannel(c)
    ensures Bit(Get(pixel, c), k) <==> k < Width(c.max) && Bit(pixel, k + c.shift)
  {
    AndBit(Shr(pixel, c.shift), c.max, k);
    ShrBit(pixel, c.shift, k);
    OnesBit(Width(c.max), k);
  }

  lemma {:induction false} PackBit(vs: seq<uint32>, cs: seq<Channel>, k: nat)
    requires |vs| == |cs| && k < 32
    ensures Bit(Pack(vs, cs), k) <==> exists i :: 0 <= i < |vs| && Bit(Shl(vs[i], cs[i].shift), k)
  {
    if |vs| == 0 {
      ZeroBit(k);
    } else {
      var n := |vs| - 1;
      PackBit(vs[..n], cs[..n], k);
      OrBit(Pack(vs[..n], cs[..n]), Shl(vs[n], cs[n].shift), k);
      if i :| 0 <= i < |vs| && Bit(Shl(vs[i], cs[i].shift), k) && i < n {
        assert Bit(Shl(vs[..n][i], cs[..n][i].shift), k);
      }
      if j :| 0 <= j < n && Bit(Shl(vs[..n][j], cs[..n][j].shift), k) {
        assert Bit(Shl(vs[j], cs[j].shift), k);
      }
    }
  }

  lemma NoCommonBit(c1: Channel, c2: Channel, k: nat)
    requires And(Mask(c1), Mask(c2)) == 0
    ensures !(Bit(Mask(c1), k) && Bit(Mask(c2), k))
  {
    AndBit(Mask(c1), Mask(c2), k);
    ZeroBit(k);
  }

  ghost predicate Fits(vs: seq<uint32>, cs: seq<Channel>)
  {
    |vs| == |cs| && forall j :: 0 <= j < |cs| ==> RegularChannel(cs[j]) && vs[j] <= cs[j].max
  }

  /** Only the value of its own channel decides a bit of a packed pixel. */
  lemma PackedOwnBit(vs: seq<uint32>, cs: seq<Channel>, i: nat, at: nat)
    requires Fits(vs, cs) && i < |vs| && DisjointMasks(cs) && at < 32 && Bit(Mask(cs[i]), at)
    ensures Bit(Pack(vs, cs), at) == Bit(Shl(vs[i], cs[i].shift), at)
  {
    PackBit(vs, cs, at);
    forall j | 0 <= j < |vs| && j != i ensures !Bit(Shl(vs[j], cs[j].shift), at) {
      ShiftedBit(vs[j], cs[j], at);
      if j < i { NoCommonBit(cs[j], cs[i], at); } else { NoCommonBit(cs[i], cs[j], at); }
    }
  }

  lemma GetPackedBit(vs: seq<uint32>, cs: seq<Channel>, i: nat, k: nat)
    requires Fits(vs, cs) && i < |vs| && DisjointMasks(cs) && k < Width(cs[i].max)
    ensures Bit(Get(Pack(vs, cs), cs[i]), k) == Bit(vs[i], k)
  {
    assert RegularChannel(cs[i]);
    MaskBit(cs[i], k + cs[i].shift);
    PackedOwnBit(vs, cs, i, k + cs[i].shift);
    OwnBit(Pack(vs, cs), vs[i], cs[i], k);
  }

  lemma OwnBit(packed: uint32, v: uint32, c: Channel, k: nat)
    requires RegularChannel(c) && v <= c.max && k < Width(c.max)
    requires Bit(packed, k + c.shift) == Bit(Shl(v, c.shift), k + c.shift)
    ensures Bit(Get(packed, c), k) == Bit(v, k)
  {
    GetBit(packed, c, k);
    MaskBit(c, k + c.shift);
    ShiftedBit(v, c, k + c.shift);
  }

  /** Reading a channel of packed values gives the value that was packed. */
  lemma GetPacked(vs: seq<uint32>, cs: seq<Channel>, i: nat)
    requires Fits(vs, cs) && i < |vs| && DisjointMasks(cs)
    ensures Get(Pack(vs, cs), cs[i]) == vs[i]
  {
    var c, w := cs[i], Width(cs[i].max);
    var packed := Pack(vs, cs);
    forall k: nat | k < w ensures Bit(Get(packed, c), k) == Bit(vs[i], k) {
      GetPackedBit(vs, cs, i, k);
    }
    BelowOnes(Get(packed, c), w);
    BelowOnes(vs[i], w);
    SameBits(Get(packed, c), vs[i], w);
  }

  lemma GotBit(pixel: uint32, c: Channel, k: nat)
    requires RegularChannel(c) && k < 32
    ensures Bit(Shl(Get(pixel, c), c.shift), k) <==> Bit(Mask(c), k) && Bit(pixel, k)
  {
    ShiftedBit(Get(pixel, c), c, k);
    MaskBit(c, k);
    if Bit(Mask(c), k) { GetBit(pixel, c, k - c.shift); }
  }

  /** The channel values of a pixel. */
  function Gets(pixel: uint32, cs: seq<Channel>): (r: seq<uint32>)
    ensures |r| == |cs|
  {
    seq(|cs|, i requires 0 <= i < |cs| => Get(pixel, cs[i]) as uint32)
  }

  /** Packing the channels of a pixel gives the pixel back. */
  lemma PackGot(pixel: uint32, pf: PixelFormat)
    requires Regular(pf) && Within(pixel, pf)
    ensures Pack(Gets(pixel, pf.Channels()), pf.Channels()) == pixel
  {
    var cs := pf.Channels();
    var vs := Gets(pixel, cs);
    var packed := Pack(vs, cs);
    forall k: nat | k < 32 ensures Bit(packed, k) == Bit(pixel, k) {
      PackBit(vs, cs, k);
      forall i | 0 <= i < 4 ensures Bit(Shl(vs[i], cs[i].shift), k) <==> Bit(Mask(cs[i]), k) && Bit(pixel, k) {
        GotBit(pixel, cs[i], k);
      }
    }
    Word(packed);
    Word(pixel);
    SameBits(packed, pixel, 32);
  }

  // ---- the round trip ----

  lemma {:induction false} Pow2Sum(a: nat, b: nat)
    ensures Pow2(a + b) == Pow2(a) * Pow2(b)
  {
    if a > 0 {
      Pow2Sum(a - 1, b);
      DoubleProduct(Pow2(a - 1), Pow2(b));
    }
  }

  /** With p1 = 2^k1 colours on one side and p1 * m on the other, widening
      multiplies by m and narrowing divides exactly. */
  lemma ScaleBack(col: nat, p1: nat, m: nat)
    requires col < p1 && m > 0
    ensures (col * (p1 * m)) / p1 == col * m < p1 * m
    ensures ((col * m) * p1) / (p1 * m) == col
  {
    assert col * (p1 * m) == (col * m) * p1;
    MulDiv(col * m, p1);
    MulMono(col + 1, p1, m);
    assert (col + 1) * m == col * m + m;
    assert (col * m) * p1 == col * (p1 * m);
    MulDiv(col, p1 * m);
  }

  /** Widening a channel and narrowing it again is the identity. */
  lemma WidenNarrow(col: uint16, max1: uint16, max2: uint16)
    requires max1 == Ones(Width(max1)) && max2 == Ones(Width(max2)) && col <= max1 <= max2
    ensures ConvertMax(col, max1, max2) <= max2
    ensures ConvertMax(ConvertMax(col, max1, max2), max2, max1) == col
  {
    if max1 > 0 {
      WidthMono(max1, max2);
      var d := Width(max2) - Width(max1);
      Pow2Sum(Width(max1), d);
      WidenByFactor(col, max1, max2, Pow2(d));
    }
  }

  lemma WidenByFactor(col: uint16, max1: uint16, max2: uint16, m: nat)
    requires 0 < max1 && col <= max1 && max2 + 1 == (max1 + 1) * m && m > 0 && max2 > 0
    ensures ConvertMax(col, max1, max2) <= max2
    ensures ConvertMax(ConvertMax(col, max1, max2), max2, max1) == col
  {
    ScaleBack(col, max1 + 1, m);
    assert ConvertMax(col, max1, max2) == col * m;
  }

  lemma {:induction false} WidthMono(a: nat, b: nat)
    requires a <= b
    ensures Width(a) <= Width(b)
  {
    if a > 0 { WidthMono(a / 2, b / 2); }
  }

  /** Every RGB channel of pf2 has at least as many colours as in pf1. */
  predicate NotNarrower(pf1: PixelFormat, pf2: PixelFormat)
  {
    pf1.red.max <= pf2.red.max && pf1.green.max <= pf2.green.max && pf1.blue.max <= pf2.blue.max
  }

  function RoundTrip(pixel: uint32, pf1: PixelFormat, pf2: PixelFormat): uint32
  {
    ConvertPixelFromTo(ConvertPixelFromTo(pixel, pf1, pf2), pf2, pf1)
  }

  function General(pixel: uint32, pf1: PixelFormat, pf2: PixelFormat): uint32
  {
    Pack(ConvertChannels(pixel, pf1.Channels(), pf2.Channels()), pf2.Channels())
  }

  /** One channel survives the way there and back through the general path. */
  lemma ChannelSurvives(pixel: uint32, pf1: PixelFormat, pf2: PixelFormat, i: nat)
    requires Regular(pf1) && Regular(pf2) && pf1.alpha.max == 0 && NotNarrower(pf1, pf2) && i < 4
    ensures ConvertChannel(General(pixel, pf1, pf2), pf2.Channels()[i], pf1.Channels()[i]) == Get(pixel, pf1.Channels()[i])
  {
    var cs1, cs2 := pf1.Channels(), pf2.Channels();
    var vs := ConvertChannels(pixel, cs1, cs2);
    forall j | 0 <= j < 4 ensures vs[j] <= cs2[j].max {
      if cs1[j].max != cs2[j].max { WidenNarrow(Get(pixel, cs1[j]), cs1[j].max, cs2[j].max); }
    }
    GetPacked(vs, cs2, i);
    if cs1[i].max != cs2[i].max { WidenNarrow(Get(pixel, cs1[i]), cs1[i].max, cs2[i].max); }
  }

  lemma GeneralRoundTrip(pixel: uint32, pf1: PixelFormat, pf2: PixelFormat)
    requires Regular(pf1) && Regular(pf2) && pf1.alpha.max == 0 && NotNarrower(pf1, pf2) && Within(pixel, pf1)
    ensures General(General(pixel, pf1, pf2), pf2, pf1) == pixel
  {
    var cs1, cs2 := pf1.Channels(), pf2.Channels();
    var there := General(pixel, pf1, pf2);
    forall i | 0 <= i < 4 ensures ConvertChannels(there, cs2, cs1)[i] == Gets(pixel, cs1)[i] {
      ChannelSurvives(pixel, pf1, pf2, i);
    }
    assert ConvertChannels(there, cs2, cs1) == Gets(pixel, cs1);
    PackGot(pixel, pf1);
  }

  /** The shortcut that only sets the alpha mask is undone by the one that
      clears it. */
  lemma AlphaRoundTrip(pixel: uint32, pf1: PixelFormat, pf2: PixelFormat)
    requires Regular(pf1) && Regular(pf2) && pf1.alpha.max == 0 && Within(pixel, pf1)
    requires pf2.Compare(pf1, true)
    ensures And(Not(Mask(pf2.alpha)), Or(Mask(pf2.alpha), pixel)) == pixel
  {
    var m := Mask(pf2.alpha);
    var back := And(Not(m), Or(m, pixel));
    forall k: nat | k < 32 ensures Bit(back, k) == Bit(pixel, k) {
      OrWord(m, pixel);
      AndBit(Not(m), Or(m, pixel), k);
      NotBit(m, k);
      OrBit(m, pixel, k);
      if Bit(pixel, k) {
        var i :| 0 <= i < 4 && Bit(Mask(pf1.Channels()[i]), k);
        MaskBit(pf1.alpha, k);
        assert And(Mask(pf2.Channels()[0]), Mask(pf2.Channels()[i])) == 0;
        NoCommonBit(pf2.alpha, pf2.Channels()[i], k);
      }
    }
    OrWord(m, pixel);
    Word(back);
    Word(pixel);
    SameBits(back, pixel, 32);
  }

  /** Converting to a format that is nowhere narrower and back is the identity
      on the pixels of the first format, whichever path the code takes. */
  lemma ConversionRoundTrip(pixel: uint32, pf1: PixelFormat, pf2: PixelFormat)
    requires Regular(pf1) && Regular(pf2) && pf1.alpha.max == 0 && NotNarrower(pf1, pf2) && Within(pixel, pf1)
    ensures RoundTrip(pixel, pf1, pf2) == pixel
  {
    if pf2.Compare(pf1, true) && pf2.alpha.max != 0 {
      AlphaRoundTrip(pixel, pf1, pf2);
    } else {
      GeneralRoundTrip(pixel, pf1, pf2);
    }
  }

  // ---- and only then ----

  lemma ConvertBound(col: uint16, max1: uint16, max2: uint16)
    requires col <= max1
    ensures ConvertMax(col, max1, max2) <= max2
  {
    if max1 != 0 {
      var n, p := col * (max2 + 1), max1 + 1;
      MulStep(col, p, max2 + 1);
      assert n == p * (n / p) + n % p;
      if n / p > max2 { MulMono(max2 + 1, n / p, p); }
    }
  }

  lemma ConvertedFit(pixel: uint32, pf1: PixelFormat, pf2: PixelFormat)
    requires Regular(pf1) && Regular(pf2)
    ensures Fits(ConvertChannels(pixel, pf1.Channels(), pf2.Channels()), pf2.Channels())
  {
    forall j | 0 <= j < 4 ensures ConvertChannel(pixel, pf1.Channels()[j], pf2.Channels()[j]) <= pf2.Channels()[j].max {
      ConvertBound(Get(pixel, pf1.Channels()[j]), pf1.Channels()[j].max, pf2.Channels()[j].max);
    }
  }

  /** A channel of a converted pixel is the converted channel. */
  lemma GetGeneral(pixel: uint32, pf1: PixelFormat, pf2: PixelFormat, i: nat)
    requires Regular(pf1) && Regular(pf2) && i < 4
    ensures Get(General(pixel, pf1, pf2), pf2.Channels()[i]) == ConvertChannel(pixel, pf1.Channels()[i], pf2.Channels()[i])
  {
    ConvertedFit(pixel, pf1, pf2);
    GetPacked(ConvertChannels(pixel, pf1.Channels(), pf2.Channels()), pf2.Channels(), i);
  }

  lemma NarrowUnit(pixel: uint32, c1: Channel, c2: Channel)
    requires c1.max > c2.max && Get(pixel, c1) <= 1
    ensures ConvertChannel(pixel, c1, c2) == 0
  {
    if Get(pixel, c1) == 1 { DivUnique(c2.max + 1, c1.max + 1, 0, c2.max + 1); }
    else { DivUnique(0, c1.max + 1, 0, 0); }
  }

  lemma ConvertZero(pixel: uint32, c1: Channel, c2: Channel)
    requires Get(pixel, c1) == 0
    ensures ConvertChannel(pixel, c1, c2) == 0
  {
    DivUnique(0, c1.max + 1, 0, 0);
  }

  /** The pixel whose channel c has value 1 and whose other bits are clear. */
  lemma UnitPixel(c: Channel)
    requires RegularChannel(c) && c.max > 0
    ensures Get(Shl(1, c.shift), c) == 1
    ensures forall k: nat :: k < 32 && Bit(Shl(1, c.shift), k) ==> Bit(Mask(c), k)
  {
    var p, w := Shl(1, c.shift), Width(c.max);
    forall k: nat | k < w ensures Bit(Get(p, c), k) == Bit(1, k) {
      GetBit(p, c, k);
      ShlBit(1, c.shift, k + c.shift);
    }
    forall k: nat | k < 32 && Bit(p, k) ensures Bit(Mask(c), k) { ShiftedBit(1, c, k); }
    BelowOnes(Get(p, c), w);
    BelowOnes(1, w);
    SameBits(Get(p, c), 1, w);
  }

  /** A channel that becomes narrower loses some pixel of the first format. */
  lemma NarrowLoses(pf1: PixelFormat, pf2: PixelFormat, i: nat)
    requires Regular(pf1) && Regular(pf2) && 1 <= i < 4
    requires pf1.Channels()[i].max > pf2.Channels()[i].max
    ensures var p := Shl(1, pf1.Channels()[i].shift); Within(p, pf1) && RoundTrip(p, pf1, pf2) != p
  {
    var c1, c2 := pf1.Channels()[i], pf2.Channels()[i];
    var p := Shl(1, c1.shift);
    UnitPixel(c1);
    assert !pf2.Compare(pf1, true) && !pf1.Compare(pf2, true);
    var there := General(p, pf1, pf2);
    GetGeneral(p, pf1, pf2, i);
    NarrowUnit(p, c1, c2);
    GetGeneral(there, pf2, pf1, i);
    ConvertZero(there, c2, c1);
    assert Get(RoundTrip(p, pf1, pf2), c1) == 0;
  }

  /** The round trip is the identity on every pixel of the first format exactly
      when no channel becomes narrower. */
  lemma RoundTripIff(pf1: PixelFormat, pf2: PixelFormat)
    requires Regular(pf1) && Regular(pf2) && pf1.alpha.max == 0
    ensures (forall p: uint32 :: Within(p, pf1) ==> RoundTrip(p, pf1, pf2) == p) <==> NotNarrower(pf1, pf2)
  {
    if NotNarrower(pf1, pf2) {
      forall p: uint32 | Within(p, pf1) ensures RoundTrip(p, pf1, pf2) == p { ConversionRoundTrip(p, pf1, pf2); }
    } else {
      var i := if pf1.red.max > pf2.red.max then 1 else if pf1.green.max > pf2.green.max then 2 else 3;
      NarrowLoses(pf1, pf2, i);
    }
  }
}
