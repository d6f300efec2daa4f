/** Bitwise operations on unsigned 32-bit integers, characterised bit by bit. */
module Bits {
  import opened MachineInts

  function Bit(x: nat, i: nat): bool
  {
    if i == 0 then x % 2 == 1 else Bit(x / 2, i - 1)
  }

  function And(x: nat, y: nat): (r: nat)
    ensures r <= x && r <= y
  {
    if x == 0 || y == 0 then 0 else 2 * And(x / 2, y / 2) + (x % 2) * (y % 2)
  }

  function Or(x: nat, y: nat): nat
  {
    if x == 0 then y else if y == 0 then x
    else 2 * Or(x / 2, y / 2) + if x % 2 == 1 || y % 2 == 1 then 1 else 0
  }

  function Shr(x: nat, s: nat): (r: nat)
    ensures r <= x
    decreases s
  {
    if s == 0 then x else Shr(x / 2, s - 1)
  }

  /** Left shift; bits pushed beyond the 32nd are lost. */
  function Shl(x: uint32, s: nat): uint32
    decreases s
  {
    if s == 0 then x else Shl((2 * x) % TWO_32, s - 1)
  }

  function Not(x: uint32): uint32 { TWO_32 - 1 - x }

  /** k ones: 2^k - 1. */
  function Ones(k: nat): nat { if k == 0 then 0 else 2 * Ones(k - 1) + 1 }

  /** No bit at position n or above. */
  predicate Below(x: nat, n: nat)
    decreases n
  {
    if n == 0 then x == 0 else Below(x / 2, n - 1)
  }

  lemma {:induction false} ZeroBit(i: nat)
    ensures !Bit(0, i)
  {
    if i > 0 { ZeroBit(i - 1); }
  }

  /** A number from its lowest bit and the rest. */
  lemma HalfOf(x: nat, h: nat, low: bool)
    requires x == 2 * h + if low then 1 else 0
    ensures x / 2 == h && (Bit(x, 0) <==> low)
  {
  }

  lemma {:induction false} AndBit(x: nat, y: nat, i: nat)
    ensures Bit(And(x, y), i) <==> Bit(x, i) && Bit(y, i)
    decreases i
  {
    if x == 0 || y == 0 {
      ZeroBit(i);
    } else {
      assert x % 2 == 0 || x % 2 == 1;
      HalfOf(And(x, y), And(x / 2, y / 2), x % 2 == 1 && y % 2 == 1);
      if i > 0 { AndBit(x / 2, y / 2, i - 1); }
    }
  }

  lemma {:induction false} OrBit(x: nat, y: nat, i: nat)
    ensures Bit(Or(x, y), i) <==> Bit(x, i) || Bit(y, i)
    decreases i
  {
    if x == 0 || y == 0 {
      ZeroBit(i);
    } else {
      HalfOf(Or(x, y), Or(x / 2, y / 2), x % 2 == 1 || y % 2 == 1);
      if i > 0 { OrBit(x / 2, y / 2, i - 1); }
    }
  }

  lemma {:induction false} ShrBit(x: nat, s: nat, i: nat)
    ensures Bit(Shr(x, s), i) <==> Bit(x, i + s)
    decreases s
  {
    if s > 0 { ShrBit(x / 2, s - 1, i); }
  }

  lemma {:induction false} BelowBit(x: nat, n: nat, i: nat)
    requires Below(x, n) && i >= n
    ensures !Bit(x, i)
  {
    if n > 0 { BelowBit(x / 2, n - 1, i - 1); } else { ZeroBit(i); }
  }

  lemma {:induction false} BelowMono(x: nat, n: nat, m: nat)
    requires Below(x, n) && n <= m
    ensures Below(x, m)
    decreases m
  {
    if n > 0 { BelowMono(x / 2, n - 1, m - 1); } else if m > 0 { BelowMono(0, 0, m - 1); }
  }

  /** A number is below 2^n exactly when it has no bit at n or above. */
  lemma {:induction false} BelowOnes(x: nat, n: nat)
    ensures Below(x, n) <==> x <= Ones(n)
  {
    if n > 0 { BelowOnes(x / 2, n - 1); }
  }

  lemma {:induction false} OnesBit(k: nat, i: nat)
    ensures Bit(Ones(k), i) <==> i < k
  {
    if k == 0 { ZeroBit(i); } else if i > 0 { OnesBit(k - 1, i - 1); assert Ones(k) / 2 == Ones(k - 1); }
  }

  /** Two numbers below 2^n with the same n low bits are equal. */
  lemma {:induction false} SameBits(x: nat, y: nat, n: nat)
    requires Below(x, n) && Below(y, n)
    requires forall i: nat :: i < n ==> Bit(x, i) == Bit(y, i)
    ensures x == y
    decreases n
  {
    if n > 0 {
      assert Bit(x, 0) == Bit(y, 0);
      forall i: nat | i < n - 1 ensures Bit(x / 2, i) == Bit(y / 2, i) {
        assert Bit(x, i + 1) == Bit(y, i + 1);
      }
      SameBits(x / 2, y / 2, n - 1);
    }
  }

  lemma Word(x: nat)
    ensures Below(x, 32) <==> x < TWO_32
  {
    BelowOnes(x, 32);
    assert Ones(32) == TWO_32 - 1 by { OnesValue(); }
  }

  lemma OnesValue()
    ensures Ones(8) == 0xFF && Ones(16) == 0xFFFF && Ones(31) == 0x7FFF_FFFF && Ones(32) == TWO_32 - 1
  {
    OnesAdd(0, 0);
    OnesAdd(8, 0xFF);
    OnesAdd(16, 0xFFFF);
    OnesAdd(23, 0x7F_FFFF);
  }

  /** Eight ones more. */
  lemma OnesAdd(k: nat, v: nat)
    requires Ones(k) == v
    ensures Ones(k + 8) == 256 * v + 255 && Ones(k + 7) == 128 * v + 127
  {
    assert Ones(k + 1) == 2 * v + 1 && Ones(k + 2) == 4 * v + 3 && Ones(k + 3) == 8 * v + 7;
    assert Ones(k + 4) == 16 * v + 15 && Ones(k + 5) == 32 * v + 31 && Ones(k + 6) == 64 * v + 63;
  }

  lemma {:induction false} DoubleBit(x: uint32, i: nat)
    requires i < 32
    ensures Bit((2 * x) % TWO_32, i) <==> i > 0 && Bit(x, i - 1)
  {
    var y := (2 * x) % TWO_32;
    assert y % 2 == 0;
    if i > 0 {
      assert y / 2 == x % 0x8000_0000;
      LowBits(x, i - 1);
    }
  }

  lemma LowBits(x: uint32, i: nat)
    requires i < 31
    ensures Bit(x % 0x8000_0000, i) <==> Bit(x, i)
  {
    var low, h := x % 0x8000_0000, x / 0x8000_0000;
    assert Pow2(31) == 0x8000_0000 by { OnesValue(); }
    assert x == low + h * Pow2(31);
    AddHigh(low, h, i, 31);
  }

  ghost function Pow2(n: nat): (r: nat)
    ensures r == Ones(n) + 1
  {
    if n == 0 then 1 else 2 * Pow2(n - 1)
  }

  /** A multiple of 2^n does not touch the n low bits. */
  lemma {:induction false} AddHigh(x: nat, h: nat, i: nat, n: nat)
    requires i < n
    ensures Bit(x + h * Pow2(n), i) <==> Bit(x, i)
    decreases i
  {
    assert h * Pow2(n) == 2 * (h * Pow2(n - 1));
    if i > 0 {
      assert (x + h * Pow2(n)) / 2 == x / 2 + h * Pow2(n - 1);
      AddHigh(x / 2, h, i - 1, n - 1);
    }
  }

  lemma {:induction false} ShlBit(x: uint32, s: nat, i: nat)
    requires i < 32
    ensures Bit(Shl(x, s), i) <==> i >= s && Bit(x, i - s)
    decreases s
  {
    if s > 0 {
      ShlBit((2 * x) % TWO_32, s - 1, i);
      if i >= s - 1 { DoubleBit(x, i - (s - 1)); }
    }
  }

  lemma {:induction false} NotBit(x: uint32, i: nat)
    requires i < 32
    ensures Bit(Not(x), i) <==> !Bit(x, i)
  {
    OnesValue();
    ComplementBit(x, 32, i);
  }

  lemma {:induction false} ComplementBit(x: nat, n: nat, i: nat)
    requires x <= Ones(n) && i < n
    ensures Bit(Ones(n) - x, i) <==> !Bit(x, i)
    decreases n
  {
    if i > 0 {
      assert (Ones(n) - x) / 2 == Ones(n - 1) - x / 2;
      ComplementBit(x / 2, n - 1, i - 1);
    }
  }

  lemma OrWord(x: uint32, y: uint32)
    ensures Or(x, y) < TWO_32
  {
    Word(x); Word(y);
    OrBelow(x, y, 32);
    Word(Or(x, y));
  }

  lemma {:induction false} OrBelow(x: nat, y: nat, n: nat)
    requires Below(x, n) && Below(y, n)
    ensures Below(Or(x, y), n)
    decreases n
  {
    if n > 0 && x > 0 && y > 0 {
      OrBelow(x / 2, y / 2, n - 1);
      assert Or(x, y) / 2 == Or(x / 2, y / 2);
    }
  }
}
