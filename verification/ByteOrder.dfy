/** ByteOrderInterface of src/common/ltsm_streambuf.cpp on a little-endian
    machine: integers go through memory images and byte swaps. */
module ByteOrder {
  import opened MachineInts
  import opened Arithmetic

  /** 256 to the power n. */
  function Radix(n: nat): (r: nat)
    ensures r >= 1
  {
    if n == 0 then 1 else TWO_8 * Radix(n - 1)
  }

  /** The n bytes of an unsigned integer in memory, lowest first. */
  function Image(v: nat, n: nat): (r: seq<byte>)
    ensures |r| == n
  {
    seq(n, k requires 0 <= k < n => v / Radix(k) % TWO_8)
  }

  /** The integer a memory image stands for. */
  function Load(raw: seq<byte>): nat
  {
    if raw == [] then 0 else raw[0] + TWO_8 * Load(raw[1..])
  }

  function Reversed(s: seq<byte>): (r: seq<byte>)
    ensures |r| == |s|
  {
    seq(|s|, k requires 0 <= k < |s| => s[|s| - 1 - k])
  }

  /** swap16, swap32 and swap64. */
  function Swap(v: nat, n: nat): nat { Load(Reversed(Image(v, n))) }

  function PutLE(v: nat, n: nat): seq<byte> { Image(v, n) }

  function GetLE(raw: seq<byte>): nat { Load(raw) }

  function PutBE(v: nat, n: nat): seq<byte> { Image(Swap(v, n), n) }

  function GetBE(raw: seq<byte>): nat { Swap(Load(raw), |raw|) }

  lemma ImageStep(v: nat, n: nat)
    requires n > 0
    ensures Image(v, n) == [v % TWO_8] + Image(v / TWO_8, n - 1)
  {
    forall k | 0 < k < n ensures Image(v, n)[k] == Image(v / TWO_8, n - 1)[k - 1] {
      DivDiv(v, TWO_8, Radix(k - 1));
    }
  }

  lemma {:induction false} ImageOfLoad(raw: seq<byte>)
    ensures Load(raw) < Radix(|raw|)
    ensures Image(Load(raw), |raw|) == raw
  {
    if raw != [] {
      ImageOfLoad(raw[1..]);
      assert Load(raw) % TWO_8 == raw[0] && Load(raw) / TWO_8 == Load(raw[1..]);
      assert raw == [raw[0]] + raw[1..];
      ImageStep(Load(raw), |raw|);
    }
  }

  lemma {:induction false} LoadOfImage(v: nat, n: nat)
    ensures v < Radix(n) <==> Load(Image(v, n)) == v
  {
    if n > 0 {
      ImageStep(v, n);
      LoadOfImage(v / TWO_8, n - 1);
      ImageOfLoad(Image(v / TWO_8, n - 1));
      assert Image(v, n)[1..] == Image(v / TWO_8, n - 1);
    }
  }

  /** What does not fit the n bytes is cut off. */
  lemma {:induction false} LoadOfImageIsCut(v: nat, n: nat)
    ensures Load(Image(v, n)) == v % Radix(n)
  {
    if n > 0 {
      ImageStep(v, n);
      LoadOfImageIsCut(v / TWO_8, n - 1);
      assert Image(v, n)[1..] == Image(v / TWO_8, n - 1);
      CutStep(v, Radix(n - 1));
    }
  }

  lemma CutStep(v: nat, m: nat)
    requires m > 0
    ensures v % (TWO_8 * m) == v % TWO_8 + TWO_8 * (v / TWO_8 % m)
  {
    var w, low := v / TWO_8, v % TWO_8;
    var q, r := w / m, w % m;
    Scaled(q, m, r, low);
    DivUnique(v, TWO_8 * m, q, low + TWO_8 * r);
  }

  lemma Scaled(q: nat, m: nat, r: nat, low: byte)
    requires r < m
    ensures TWO_8 * (q * m + r) + low == q * (TWO_8 * m) + (low + TWO_8 * r)
    ensures low + TWO_8 * r < TWO_8 * m
  {
    assert TWO_8 * (q * m) == q * (TWO_8 * m);
  }

  /** Big-endian bytes are the little-endian ones in reverse: highest first. */
  lemma BigIsReversed(v: nat, n: nat)
    ensures PutBE(v, n) == Reversed(PutLE(v, n))
  {
    ImageOfLoad(Reversed(Image(v, n)));
  }

  /** What was put is got back exactly when it fits the n bytes. */
  lemma EndianRoundTripIff(v: nat, n: nat)
    ensures GetLE(PutLE(v, n)) == v <==> v < Radix(n)
    ensures GetBE(PutBE(v, n)) == v <==> v < Radix(n)
  {
    LoadOfImage(v, n);
    BigIsReversed(v, n);
    var image := Image(v, n);
    ImageOfLoad(Reversed(image));
    assert Reversed(Reversed(image)) == image;
  }

  /** Bytes that were read come back unchanged when the integer is put again. */
  lemma PutOfGet(raw: seq<byte>)
    ensures PutBE(GetBE(raw), |raw|) == raw && GetBE(raw) < Radix(|raw|)
  {
    ImageOfLoad(raw);
    ImageOfLoad(Reversed(raw));
    BigIsReversed(GetBE(raw), |raw|);
    assert Reversed(Reversed(raw)) == raw;
  }

  /** Reading a big-endian integer: each byte counts 256 times the one after it. */
  lemma {:induction false} BigEndianValue(raw: seq<byte>)
    ensures GetBE(raw) == if raw == [] then 0 else raw[0] * Radix(|raw| - 1) + GetBE(raw[1..])
  {
    ImageOfLoad(raw);
    if raw != [] {
      ImageOfLoad(raw[1..]);
      var rest := Reversed(raw[1..]);
      assert Reversed(raw) == rest + [raw[0]];
      LoadAppend(rest, raw[0]);
    }
  }

  lemma {:induction false} LoadAppend(s: seq<byte>, b: byte)
    ensures Load(s + [b]) == Load(s) + b * Radix(|s|)
  {
    if s == [] {
      assert Load([b]) == b + TWO_8 * Load([b][1..]);
    } else {
      LoadAppend(s[1..], b);
      assert (s + [b])[0] == s[0] && (s + [b])[1..] == s[1..] + [b];
      assert TWO_8 * (b * Radix(|s| - 1)) == b * Radix(|s|);
    }
  }
}
