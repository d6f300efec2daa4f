/** What convertPixelFromTo does to the colours of a pixel, said without its
    paths: a channel keeps its share of the channel's range, rounded down. */
module PixelColours {
  import opened MachineInts
  import opened Arithmetic
  import opened Bits
  import opened ByteOrder
  import opened PixelFormats

  /** w out of max2 + 1 is the same share as v out of max1 + 1, rounded down. */
  predicate Scaled(v: nat, max1: nat, w: nat, max2: nat)
  {
    w * (max1 + 1) <= v * (max2 + 1) < (w + 1) * (max1 + 1)
  }

  /** Channel i of the pixel and of the result. */
  predicate ChannelScaled(pixel: uint32, pf1: PixelFormat, result: uint32, pf2: PixelFormat, i: nat)
    requires i < 4
  {
    var c1, c2 := pf1.Channels()[i], pf2.Channels()[i];
    Scaled(Get(pixel, c1), c1.max, Get(result, c2), c2.max)
  }

  predicate ColoursScaled(pixel: uint32, pf1: PixelFormat, result: uint32, pf2: PixelFormat)
  {
    && Scaled(Get(pixel, pf1.red), pf1.red.max, Get(result, pf2.red), pf2.red.max)
    && Scaled(Get(pixel, pf1.green), pf1.green.max, Get(result, pf2.green), pf2.green.max)
    && Scaled(Get(pixel, pf1.blue), pf1.blue.max, Get(result, pf2.blue), pf2.blue.max)
  }

  predicate SameColours(pf1: PixelFormat, pf2: PixelFormat)
  {
    pf1.bitsPixel == pf2.bitsPixel && pf1.red == pf2.red && pf1.green == pf2.green && pf1.blue == pf2.blue
  }

  /** The formats differ in nothing but that the second has an alpha channel. */
  predicate GainsAlpha(pf1: PixelFormat, pf2: PixelFormat)
  {
    SameColours(pf1, pf2) && pf1.alpha.max == 0 && pf2.alpha.max > 0
  }

  /** Colours are scaled; alpha too, unless it is new to an otherwise equal
      format, where it is opaque; and no other bit is set. */
  ghost predicate IsConversion(pixel: uint32, pf1: PixelFormat, result: uint32, pf2: PixelFormat)
  {
    && Within(result, pf2)
    && ColoursScaled(pixel, pf1, result, pf2)
    && (if GainsAlpha(pf1, pf2) then Get(result, pf2.alpha) == pf2.alpha.max
        else Scaled(Get(pixel, pf1.alpha), pf1.alpha.max, Get(result, pf2.alpha), pf2.alpha.max))
  }

  // ---- scaling ----

  lemma ScaledUnique(v: nat, max1: nat, w: nat, w': nat, max2: nat)
    requires Scaled(v, max1, w, max2) && Scaled(v, max1, w', max2)
    ensures w == w'
  {
    IsQuotient(v * (max2 + 1), max1 + 1, w);
    IsQuotient(v * (max2 + 1), max1 + 1, w');
  }

  lemma IsQuotient(n: int, d: nat, q: nat)
    requires d > 0 && q * d <= n < (q + 1) * d
    ensures n / d == q
  {
    Distributed(q, d);
    MulMono(0, q, d);
    DivUnique(n, d, q, n - q * d);
  }

  lemma SameScale(v: nat, max: nat)
    ensures Scaled(v, max, v, max)
  {
    Distributed(v, max + 1);
  }

  lemma Distributed(q: nat, d: nat)
    ensures (q + 1) * d == q * d + d
  {
  }

  lemma QuotientScales(n: nat, d: nat)
    requires d > 0
    ensures n / d * d <= n < (n / d + 1) * d
  {
    Distributed(n / d, d);
    assert n == n / d * d + n % d;
  }

  lemma ConvertMaxScales(v: uint16, max1: uint16, max2: uint16)
    requires v <= max1
    ensures Scaled(v, max1, ConvertMax(v, max1, max2), max2)
  {
    if max1 != 0 { QuotientScales(v * (max2 + 1), max1 + 1); }
  }

  // ---- the general path ----

  lemma PackedScales(pixel: uint32, pf1: PixelFormat, pf2: PixelFormat, i: nat)
    requires Regular(pf1) && Regular(pf2) && i < 4
    ensures ChannelScaled(pixel, pf1, General(pixel, pf1, pf2), pf2, i)
  {
    var c1, c2 := pf1.Channels()[i], pf2.Channels()[i];
    GetGeneral(pixel, pf1, pf2, i);
    if c1.max == c2.max { SameScale(Get(pixel, c1), c1.max); } else { ConvertMaxScales(Get(pixel, c1), c1.max, c2.max); }
  }

  lemma PackedWithin(pixel: uint32, pf1: PixelFormat, pf2: PixelFormat)
    requires Regular(pf1) && Regular(pf2)
    ensures Within(General(pixel, pf1, pf2), pf2)
  {
    var cs := pf2.Channels();
    var vs := ConvertChannels(pixel, pf1.Channels(), cs);
    ConvertedFit(pixel, pf1, pf2);
    forall k: nat | k < 32 && Bit(Pack(vs, cs), k) ensures exists i :: 0 <= i < 4 && Bit(Mask(cs[i]), k) {
      PackBit(vs, cs, k);
      var i :| 0 <= i < 4 && Bit(Shl(vs[i], cs[i].shift), k);
      ShiftedBit(vs[i], cs[i], k);
    }
  }

  // ---- the shortcuts ----

  /** Two pixels with the same bits in a channel's mask have the same channel. */
  lemma SameChannel(x: uint32, y: uint32, c: Channel)
    requires RegularChannel(c)
    requires forall k: nat :: k < 32 && Bit(Mask(c), k) ==> Bit(x, k) == Bit(y, k)
    ensures Get(x, c) == Get(y, c)
  {
    var w := Width(c.max);
    forall k: nat | k < w ensures Bit(Get(x, c), k) == Bit(Get(y, c), k) {
      GetBit(x, c, k);
      GetBit(y, c, k);
      MaskBit(c, k + c.shift);
    }
    BelowOnes(Get(x, c), w);
    BelowOnes(Get(y, c), w);
    SameBits(Get(x, c), Get(y, c), w);
  }

  /** Clearing the bits of one channel leaves a disjoint one alone. */
  lemma ClearedOther(pixel: uint32, a: Channel, c: Channel)
    requires RegularChannel(c) && And(Mask(a), Mask(c)) == 0
    ensures Get(And(Not(Mask(a)), pixel), c) == Get(pixel, c)
  {
    forall k: nat | k < 32 && Bit(Mask(c), k) ensures Bit(And(Not(Mask(a)), pixel), k) == Bit(pixel, k) {
      NoCommonBit(a, c, k);
      AndBit(Not(Mask(a)), pixel, k);
      NotBit(Mask(a), k);
    }
    SameChannel(And(Not(Mask(a)), pixel), pixel, c);
  }

  /** So does setting them. */
  lemma SetOther(pixel: uint32, a: Channel, c: Channel)
    requires RegularChannel(c) && And(Mask(a), Mask(c)) == 0
    ensures Or(Mask(a), pixel) < TWO_32 && Get(Or(Mask(a), pixel), c) == Get(pixel, c)
  {
    OrWord(Mask(a), pixel);
    forall k: nat | k < 32 && Bit(Mask(c), k) ensures Bit(Or(Mask(a), pixel), k) == Bit(pixel, k) {
      NoCommonBit(a, c, k);
      OrBit(Mask(a), pixel, k);
    }
    SameChannel(Or(Mask(a), pixel), pixel, c);
  }

  /** A channel all of whose bits are set has its largest value. */
  lemma SetFull(pixel: uint32, a: Channel)
    requires RegularChannel(a)
    ensures Or(Mask(a), pixel) < TWO_32 && Get(Or(Mask(a), pixel), a) == a.max
  {
    OrWord(Mask(a), pixel);
    var w := Width(a.max);
    forall k: nat | k < w ensures Bit(Get(Or(Mask(a), pixel), a), k) == Bit(a.max, k) {
      GetBit(Or(Mask(a), pixel), a, k);
      OrBit(Mask(a), pixel, k + a.shift);
      MaskBit(a, k + a.shift);
      OnesBit(w, k);
    }
    BelowOnes(Get(Or(Mask(a), pixel), a), w);
    BelowOnes(a.max, w);
    SameBits(Get(Or(Mask(a), pixel), a), a.max, w);
  }

  lemma AlphaApart(pf: PixelFormat, i: nat)
    requires Regular(pf) && 1 <= i < 4
    ensures RegularChannel(pf.Channels()[i]) && And(Mask(pf.alpha), Mask(pf.Channels()[i])) == 0
  {
    assert pf.Channels()[0] == pf.alpha;
  }

  lemma ClearedScales(pixel: uint32, pf1: PixelFormat, pf2: PixelFormat, i: nat)
    requires Regular(pf1) && SameColours(pf1, pf2) && 1 <= i < 4
    ensures ChannelScaled(pixel, pf1, And(Not(Mask(pf1.alpha)), pixel), pf2, i)
  {
    var c := pf1.Channels()[i];
    AlphaApart(pf1, i);
    ClearedOther(pixel, pf1.alpha, c);
    SameScale(Get(pixel, c), c.max);
  }

  lemma SetScales(pixel: uint32, pf1: PixelFormat, pf2: PixelFormat, i: nat)
    requires Regular(pf2) && SameColours(pf1, pf2) && 1 <= i < 4
    ensures Or(Mask(pf2.alpha), pixel) < TWO_32 && ChannelScaled(pixel, pf1, Or(Mask(pf2.alpha), pixel), pf2, i)
  {
    var c := pf2.Channels()[i];
    AlphaApart(pf2, i);
    SetOther(pixel, pf2.alpha, c);
    SameScale(Get(pixel, c), c.max);
  }

  // ---- all paths ----

  lemma ChannelIsScaled(pixel: uint32, pf1: PixelFormat, pf2: PixelFormat, i: nat)
    requires Regular(pf1) && Regular(pf2) && 1 <= i < 4
    ensures ChannelScaled(pixel, pf1, ConvertPixelFromTo(pixel, pf1, pf2), pf2, i)
  {
    if !SameColours(pf1, pf2) {
      PackedScales(pixel, pf1, pf2, i);
    } else if pf1.alpha == pf2.alpha {
      SameScale(Get(pixel, pf1.Channels()[i]), pf1.Channels()[i].max);
    } else if pf2.alpha.max == 0 && pf1.alpha.max != 0 {
      ClearedScales(pixel, pf1, pf2, i);
    } else if pf2.alpha.max != 0 && pf1.alpha.max == 0 {
      SetScales(pixel, pf1, pf2, i);
    } else {
      PackedScales(pixel, pf1, pf2, i);
    }
  }

  /** Every colour keeps its share of its channel, whichever path the code takes,
      on every pixel. */
  lemma ColoursAreScaled(pixel: uint32, pf1: PixelFormat, pf2: PixelFormat)
    requires Regular(pf1) && Regular(pf2)
    ensures ColoursScaled(pixel, pf1, ConvertPixelFromTo(pixel, pf1, pf2), pf2)
  {
    ChannelIsScaled(pixel, pf1, pf2, 1);
    ChannelIsScaled(pixel, pf1, pf2, 2);
    ChannelIsScaled(pixel, pf1, pf2, 3);
  }

  /** A format that gains alpha makes its pixels opaque; otherwise alpha is
      scaled, and in particular is 0 when there was none. */
  lemma AlphaIs(pixel: uint32, pf1: PixelFormat, pf2: PixelFormat)
    requires Regular(pf1) && Regular(pf2)
    ensures var alpha := Get(ConvertPixelFromTo(pixel, pf1, pf2), pf2.alpha);
            if GainsAlpha(pf1, pf2) then alpha == pf2.alpha.max
            else Scaled(Get(pixel, pf1.alpha), pf1.alpha.max, alpha, pf2.alpha.max)
  {
    if !SameColours(pf1, pf2) {
      PackedScales(pixel, pf1, pf2, 0);
    } else if pf1.alpha == pf2.alpha {
      SameScale(Get(pixel, pf1.alpha), pf1.alpha.max);
    } else if pf2.alpha.max == 0 && pf1.alpha.max != 0 {
      assert Get(pixel, pf1.alpha) <= pf1.alpha.max;
    } else if GainsAlpha(pf1, pf2) {
      assert RegularChannel(pf2.Channels()[0]);
      SetFull(pixel, pf2.alpha);
    } else {
      PackedScales(pixel, pf1, pf2, 0);
    }
  }

  /** A bit of a pixel that lies in a colour channel of one format lies in that of
      a format with the same colours. */
  lemma ClearedWithin(pixel: uint32, pf1: PixelFormat, pf2: PixelFormat)
    requires Regular(pf1) && SameColours(pf1, pf2) && Within(pixel, pf1)
    ensures Within(And(Not(Mask(pf1.alpha)), pixel), pf2)
  {
    forall k: nat | k < 32 && Bit(And(Not(Mask(pf1.alpha)), pixel), k)
      ensures exists i :: 0 <= i < 4 && Bit(Mask(pf2.Channels()[i]), k)
    {
      AndBit(Not(Mask(pf1.alpha)), pixel, k);
      NotBit(Mask(pf1.alpha), k);
      var i :| 0 <= i < 4 && Bit(Mask(pf1.Channels()[i]), k);
      assert i != 0 && pf2.Channels()[i] == pf1.Channels()[i];
    }
  }

  lemma SetWithin(pixel: uint32, pf1: PixelFormat, pf2: PixelFormat)
    requires Regular(pf1) && SameColours(pf1, pf2) && Within(pixel, pf1) && pf1.alpha.max == 0
    ensures Or(Mask(pf2.alpha), pixel) < TWO_32 && Within(Or(Mask(pf2.alpha), pixel), pf2)
  {
    OrWord(Mask(pf2.alpha), pixel);
    forall k: nat | k < 32 && Bit(Or(Mask(pf2.alpha), pixel), k)
      ensures exists i :: 0 <= i < 4 && Bit(Mask(pf2.Channels()[i]), k)
    {
      OrBit(Mask(pf2.alpha), pixel, k);
      if Bit(Mask(pf2.alpha), k) {
        assert Bit(Mask(pf2.Channels()[0]), k);
      } else {
        var i :| 0 <= i < 4 && Bit(Mask(pf1.Channels()[i]), k);
        MaskBit(pf1.alpha, k);
        assert i != 0 && pf2.Channels()[i] == pf1.Channels()[i];
      }
    }
  }

  /** No bit outside the second format's masks. */
  lemma ConvertedWithin(pixel: uint32, pf1: PixelFormat, pf2: PixelFormat)
    requires Regular(pf1) && Regular(pf2) && Within(pixel, pf1)
    ensures Within(ConvertPixelFromTo(pixel, pf1, pf2), pf2)
  {
    if SameColours(pf1, pf2) && pf1.alpha == pf2.alpha {
      assert pf1.Channels() == pf2.Channels();
    } else if SameColours(pf1, pf2) && pf2.alpha.max == 0 && pf1.alpha.max != 0 {
      ClearedWithin(pixel, pf1, pf2);
    } else if GainsAlpha(pf1, pf2) {
      SetWithin(pixel, pf1, pf2);
    } else {
      PackedWithin(pixel, pf1, pf2);
    }
  }

  // ---- the law determines the result ----

  /** A pixel is its channels. */
  lemma SamePixel(x: uint32, y: uint32, pf: PixelFormat)
    requires Regular(pf) && Within(x, pf) && Within(y, pf)
    requires Get(x, pf.red) == Get(y, pf.red) && Get(x, pf.green) == Get(y, pf.green)
    requires Get(x, pf.blue) == Get(y, pf.blue) && Get(x, pf.alpha) == Get(y, pf.alpha)
    ensures x == y
  {
    assert Gets(x, pf.Channels()) == Gets(y, pf.Channels());
    PackGot(x, pf);
    PackGot(y, pf);
  }

  lemma ConversionIsUnique(pixel: uint32, pf1: PixelFormat, x: uint32, y: uint32, pf2: PixelFormat)
    requires Regular(pf2) && IsConversion(pixel, pf1, x, pf2) && IsConversion(pixel, pf1, y, pf2)
    ensures x == y
  {
    ScaledUnique(Get(pixel, pf1.red), pf1.red.max, Get(x, pf2.red), Get(y, pf2.red), pf2.red.max);
    ScaledUnique(Get(pixel, pf1.green), pf1.green.max, Get(x, pf2.green), Get(y, pf2.green), pf2.green.max);
    ScaledUnique(Get(pixel, pf1.blue), pf1.blue.max, Get(x, pf2.blue), Get(y, pf2.blue), pf2.blue.max);
    if !GainsAlpha(pf1, pf2) {
      ScaledUnique(Get(pixel, pf1.alpha), pf1.alpha.max, Get(x, pf2.alpha), Get(y, pf2.alpha), pf2.alpha.max);
    }
    SamePixel(x, y, pf2);
  }

  /** convertPixelFromTo gives the one pixel that the law describes. */
  lemma ConversionIff(pixel: uint32, pf1: PixelFormat, result: uint32, pf2: PixelFormat)
    requires Regular(pf1) && Regular(pf2) && Within(pixel, pf1)
    ensures result == ConvertPixelFromTo(pixel, pf1, pf2) <==> IsConversion(pixel, pf1, result, pf2)
  {
    ColoursAreScaled(pixel, pf1, pf2);
    AlphaIs(pixel, pf1, pf2);
    ConvertedWithin(pixel, pf1, pf2);
    if IsConversion(pixel, pf1, result, pf2) {
      ConversionIsUnique(pixel, pf1, result, ConvertPixelFromTo(pixel, pf1, pf2), pf2);
    }
  }

  // ---- pixels cut to the depth ----

  /** The channel lies in the n low bits. */
  predicate InBits(c: Channel, n: nat) { c.max > 0 ==> c.shift + Width(c.max) <= n }

  /** The colours of the format lie in the bytes of a pixel. */
  predicate ColoursInBytes(pf: PixelFormat, bytes: nat)
  {
    InBits(pf.red, 8 * bytes) && InBits(pf.green, 8 * bytes) && InBits(pf.blue, 8 * bytes)
  }

  lemma {:induction false} RadixIsPow2(n: nat)
    ensures Radix(n) == Pow2(8 * n)
  {
    if n > 0 {
      RadixIsPow2(n - 1);
      EightMore(8 * (n - 1));
    }
  }

  lemma EightMore(k: nat)
    ensures Pow2(k + 8) == TWO_8 * Pow2(k)
  {
    assert Pow2(k + 4) == 16 * Pow2(k) by {
      assert Pow2(k + 2) == 4 * Pow2(k);
    }
    assert Pow2(k + 6) == 4 * Pow2(k + 4);
  }

  lemma Remainder(x: nat, r: nat) returns (h: nat)
    requires r > 0
    ensures 0 <= x % r <= x && x == x % r + h * r
  {
    h := x / r;
    assert x == h * r + x % r;
    MulMono(0, h, r);
  }

  /** Cutting a pixel to its low bytes leaves the channels in them alone. */
  lemma CutKeepsChannel(x: uint32, c: Channel, bytes: nat)
    requires RegularChannel(c) && InBits(c, 8 * bytes)
    ensures 0 <= x % Radix(bytes) <= x && Get(x % Radix(bytes), c) == Get(x, c)
  {
    RadixIsPow2(bytes);
    var h := Remainder(x, Radix(bytes));
    SameLowBits(x, x % Radix(bytes), h, 8 * bytes);
    LowBitsKeepChannel(x, x % Radix(bytes), c, 8 * bytes);
  }

  lemma SameLowBits(x: nat, low: nat, h: nat, n: nat)
    requires x == low + h * Pow2(n)
    ensures forall k: nat :: k < n ==> Bit(low, k) == Bit(x, k)
  {
    forall k: nat | k < n ensures Bit(low, k) == Bit(x, k) { AddHigh(low, h, k, n); }
  }

  lemma LowBitsKeepChannel(x: uint32, low: uint32, c: Channel, n: nat)
    requires RegularChannel(c) && InBits(c, n)
    requires forall k: nat :: k < n ==> Bit(low, k) == Bit(x, k)
    ensures Get(low, c) == Get(x, c)
  {
    forall k: nat | k < 32 && Bit(Mask(c), k) ensures Bit(low, k) == Bit(x, k) { MaskBit(c, k); }
    SameChannel(low, x, c);
  }

  lemma CutKeepsColours(pixel: uint32, pf1: PixelFormat, x: uint32, pf2: PixelFormat, bytes: nat)
    requires Regular(pf2) && ColoursInBytes(pf2, bytes) && ColoursScaled(pixel, pf1, x, pf2)
    ensures 0 <= x % Radix(bytes) <= x && ColoursScaled(pixel, pf1, x % Radix(bytes), pf2)
  {
    assert forall i :: 0 <= i < 4 ==> RegularChannel(pf2.Channels()[i]);
    assert pf2.red == pf2.Channels()[1] && pf2.green == pf2.Channels()[2] && pf2.blue == pf2.Channels()[3];
    CutKeepsChannel(x, pf2.red, bytes);
    CutKeepsChannel(x, pf2.green, bytes);
    CutKeepsChannel(x, pf2.blue, bytes);
  }
}
