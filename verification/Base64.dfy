/** base64Encode and base64Decode of src/common/ltsm_tools.cpp. */
module Base64 {
  import opened MachineInts
  import opened Wrappers

  const PAD: byte := 61  // '='

  /** The alphabet of section 4 of RFC 4648: A-Z, a-z, 0-9, '+' and '/'. */
  function Letter(v: nat): (r: byte)
    requires v < 64
    ensures r != PAD
  {
    (seq(26, i requires 0 <= i < 26 => (65 + i) as byte) + seq(26, i requires 0 <= i < 26 => (97 + i) as byte)
     + seq(10, i requires 0 <= i < 10 => (48 + i) as byte) + [43, 47])[v]
  }

  function EncodeChar(v: byte): byte
  {
    if v <= 25 then v + 65           // 'A'
    else if v <= 51 then v + 97 - 26 // 'a'
    else if v <= 61 then v + 48 - 52 // '0'
    else if v == 62 then 43          // '+'
    else if v == 63 then 47          // '/'
    else 0
  }

  function DecodeChar(v: byte): (r: byte)
    ensures r < 64
  {
    if v == 43 then 62
    else if v == 47 then 63
    else if 48 <= v <= 57 then v - 48 + 52
    else if 65 <= v <= 90 then v - 65
    else if 97 <= v <= 122 then v - 97 + 26
    else 0
  }

  /** Both tables are those of the RFC, and '=' is not in it. */
  lemma CharTables(v: byte)
    requires v < 64
    ensures EncodeChar(v) == Letter(v) && DecodeChar(EncodeChar(v)) == v && EncodeChar(v) != PAD
  {
  }

  /** A character that is no letter of the alphabet counts as 0. */
  lemma OtherCharacters(ch: byte)
    ensures (exists v: byte :: v < 64 && Letter(v) == ch) ==> Letter(DecodeChar(ch)) == ch
    ensures !(exists v: byte :: v < 64 && Letter(v) == ch) ==> DecodeChar(ch) == 0
  {
    if DecodeChar(ch) != 0 || ch == 65 {
      assert EncodeChar(DecodeChar(ch)) == ch;
      CharTables(DecodeChar(ch));
    }
    if v: byte :| v < 64 && Letter(v) == ch { CharTables(v); }
  }

  lemma GroupIndex(group: nat, p: nat, size: nat)
    requires p < size && (size == 3 || size == 4)
    ensures (size * group + p) / size == group && (size * group + p) % size == p
  {
  }

  // ---- encoding ----

  function ByteAt(data: seq<byte>, i: nat): int { if i < |data| then data[i] else 0 }

  /** The 24-bit input group that starts at byte i, completed with zeros. */
  function Triple(data: seq<byte>, i: nat): int
  {
    ByteAt(data, i) * 0x10000 + ByteAt(data, i + 1) * 0x100 + ByteAt(data, i + 2)
  }

  /** The six bits of a group that character p of the group stands for. */
  function Sextet(triple: nat, p: nat): (r: byte)
    requires p < 4
    ensures r < 64
  {
    if p == 0 then triple / 0x40000 % 64
    else if p == 1 then triple / 0x1000 % 64
    else if p == 2 then triple / 0x40 % 64
    else triple % 64
  }

  /** Character k of the encoding. */
  function EncodedChar(data: seq<byte>, k: nat): byte
  {
    var group, p := k / 4, k % 4;
    if p >= 2 && 3 * group + p - 1 >= |data| then PAD
    else EncodeChar(Sextet(Triple(data, 3 * group), p))
  }

  function EncodePrefix(data: seq<byte>, n: nat): (r: seq<byte>)
    ensures |r| == n
  {
    seq(n, k requires 0 <= k < n => EncodedChar(data, k))
  }

  /** Four characters for every three bytes or part of three bytes. */
  function Encode(data: seq<byte>): seq<byte> { EncodePrefix(data, 4 * ((|data| + 2) / 3)) }

  /** The four characters of one group. */
  lemma NextGroup(data: seq<byte>, group: nat)
    requires 3 * group < |data|
    ensures var n, t := 4 * group, Triple(data, 3 * group);
            EncodePrefix(data, n + 4) == EncodePrefix(data, n) +
                                         [EncodeChar(Sextet(t, 0)), EncodeChar(Sextet(t, 1)),
                                          if 3 * group + 1 < |data| then EncodeChar(Sextet(t, 2)) else PAD,
                                          if 3 * group + 2 < |data| then EncodeChar(Sextet(t, 3)) else PAD]
  {
    GroupIndex(group, 0, 4);
    GroupIndex(group, 1, 4);
    GroupIndex(group, 2, 4);
    GroupIndex(group, 3, 4);
  }

  method Base64Encode(arr: seq<byte>) returns (res: seq<byte>)
    ensures res == Encode(arr)
  {
    res := [];
    var beg := 0;
    ghost var group := 0;
    while beg < |arr|
      invariant 0 <= beg <= |arr| + 2 && beg == 3 * group
      invariant res == EncodePrefix(arr, 4 * group)
    {
      NextGroup(arr, group);
      var next1, next2 := beg + 1, beg + 2;
      var b1: int := arr[beg];
      var b2: int := if next1 < |arr| then arr[next1] else 0;
      var b3: int := if next2 < |arr| then arr[next2] else 0;
      var triple := b1 * 0x10000 + b2 * 0x100 + b3;
      res := res + [EncodeChar(Sextet(triple, 0)), EncodeChar(Sextet(triple, 1)),
                    if next1 < |arr| then EncodeChar(Sextet(triple, 2)) else PAD,
                    if next2 < |arr| then EncodeChar(Sextet(triple, 3)) else PAD];
      beg := next2 + 1;
      group := group + 1;
    }
  }

  /** Length and padding as section 4 of RFC 4648 requires. */
  lemma EncodedShape(data: seq<byte>, k: nat)
    requires k < |Encode(data)|
    ensures |Encode(data)| == 4 * ((|data| + 2) / 3)
    ensures Encode(data)[k] == PAD <==>
              (k == |Encode(data)| - 1 && |data| % 3 != 0) || (k == |Encode(data)| - 2 && |data| % 3 == 1)
  {
    CharTables(Sextet(Triple(data, 3 * (k / 4)), k % 4));
  }

  /** Every other character is the letter of the RFC's alphabet for its six bits. */
  lemma EncodedLetter(data: seq<byte>, k: nat)
    requires k < |Encode(data)| && Encode(data)[k] != PAD
    ensures Encode(data)[k] == Letter(Sextet(Triple(data, 3 * (k / 4)), k % 4))
  {
    CharTables(Sextet(Triple(data, 3 * (k / 4)), k % 4));
  }

  // ---- decoding ----

  function DecodedTriple(str: seq<byte>, i: nat): nat
    requires i + 4 <= |str|
  {
    DecodeChar(str[i]) as int * 0x40000 + DecodeChar(str[i + 1]) as int * 0x1000
    + DecodeChar(str[i + 2]) as int * 0x40 + DecodeChar(str[i + 3]) as int
  }

  /** Byte p of a decoded group. */
  function Octet(triple: nat, p: nat): byte
    requires p < 3
  {
    if p == 0 then triple / 0x10000 % 256
    else if p == 1 then triple / 0x100 % 256
    else triple % 256
  }

  function DecodePrefix(str: seq<byte>, n: nat): (r: seq<byte>)
    requires |str| % 4 == 0 && 4 * n <= 3 * |str|
    ensures |r| == n
  {
    seq(n, k requires 0 <= k < n => Octet(DecodedTriple(str, 4 * (k / 3)), k % 3))
  }

  /** The number of bytes the decoder keeps: one less for each of the two final
      places that holds a padding character. */
  function DecodedLength(str: seq<byte>): nat
    requires str != [] && |str| % 4 == 0
  {
    3 * |str| / 4 - (if str[|str| - 1] == PAD then 1 else 0) - (if str[|str| - 2] == PAD then 1 else 0)
  }

  function Decode(str: seq<byte>): Result<seq<byte>>
  {
    if str == [] || |str| % 4 != 0 then Throws else Ok(DecodePrefix(str, DecodedLength(str)))
  }

  /** One more byte of a group. */
  lemma NextByte(str: seq<byte>, groups: nat, group: nat, p: nat)
    requires |str| == 4 * groups && group < groups && p < 3
    ensures DecodePrefix(str, 3 * group + p + 1) == DecodePrefix(str, 3 * group + p) + [Octet(DecodedTriple(str, 4 * group), p)]
  {
    var n := 3 * group + p;
    GroupIndex(group, p, 3);
    assert n / 3 == group && n % 3 == p;
    PrefixGrows(str, n, Octet(DecodedTriple(str, 4 * group), p));
  }

  lemma PrefixGrows(str: seq<byte>, n: nat, b: byte)
    requires |str| % 4 == 0 && 4 * (n + 1) <= 3 * |str|
    requires b == Octet(DecodedTriple(str, 4 * (n / 3)), n % 3)
    ensures DecodePrefix(str, n + 1) == DecodePrefix(str, n) + [b]
  {
  }

  /** One of the three guarded push_back calls. */
  method PushByte(res: seq<byte>, len: nat, triple: nat, p: nat, ghost str: seq<byte>, ghost group: nat) returns (r: seq<byte>)
    requires |str| % 4 == 0 && 4 * group < |str| && p < 3 && len <= 3 * |str| / 4
    requires triple == DecodedTriple(str, 4 * group)
    requires res == DecodePrefix(str, Min(len, 3 * group + p))
    ensures r == DecodePrefix(str, Min(len, 3 * group + p + 1))
  {
    r := res;
    if |r| < len {
      NextByte(str, |str| / 4, group, p);
      r := r + [Octet(triple, p)];
    }
  }

  method Base64Decode(str: seq<byte>) returns (r: Result<seq<byte>>)
    ensures r == Decode(str)
  {
    if str == [] || |str| % 4 != 0 { return Throws; }
    var len := 3 * |str| / 4;
    if str[|str| - 1] == PAD { len := len - 1; }
    if str[|str| - 2] == PAD { len := len - 1; }
    var res := [];
    var ii := 0;
    ghost var group := 0;
    while ii < |str|
      invariant 0 <= ii <= |str| && ii == 4 * group
      invariant res == DecodePrefix(str, Min(len, 3 * group))
    {
      var triple := DecodedTriple(str, ii);
      res := PushByte(res, len, triple, 0, str, group);
      res := PushByte(res, len, triple, 1, str, group);
      res := PushByte(res, len, triple, 2, str, group);
      ii := ii + 4;
      group := group + 1;
    }
    return Ok(res);
  }

  /** An input of no characters, or whose length is no multiple of four, throws;
      any other gives three bytes for four characters, less one for each of the last
      two that is a padding character. */
  lemma DecodeThrowsIff(str: seq<byte>)
    ensures Decode(str).Throws? <==> |str| == 0 || |str| % 4 != 0
    ensures Decode(str).Ok? ==>
              var n := |str|;
              4 * (|Decode(str).value| + (if str[n - 1] == PAD then 1 else 0) + (if str[n - 2] == PAD then 1 else 0)) == 3 * n
  {
    if str != [] && |str| % 4 == 0 { assert |str| == 4 * (|str| / 4); }
  }

  // ---- round trip ----

  lemma SextetsOf(triple: nat)
    requires triple < 0x100_0000
    ensures Sextet(triple, 0) as int * 0x40000 + Sextet(triple, 1) as int * 0x1000
            + Sextet(triple, 2) as int * 0x40 + Sextet(triple, 3) as int == triple
  {
    var t1 := triple / 64;
    var t2 := t1 / 64;
    var t3 := t2 / 64;
    assert triple / 0x1000 == t2 && triple / 0x40000 == t3 && t3 % 64 == t3;
    assert triple == 64 * t1 + triple % 64 && t1 == 64 * t2 + t1 % 64 && t2 == 64 * t3 + t2 % 64;
  }

  lemma OctetsOf(data: seq<byte>, i: nat, p: nat)
    requires p < 3
    ensures Octet(Triple(data, i), p) == ByteAt(data, i + p)
  {
    OctetsOfBytes(ByteAt(data, i), ByteAt(data, i + 1), ByteAt(data, i + 2));
  }

  lemma OctetsOfBytes(a: byte, b: byte, c: byte)
    ensures var triple := a * 0x10000 + b * 0x100 + c;
            triple / 0x10000 % 256 == a && triple / 0x100 % 256 == b && triple % 256 == c
  {
    var triple := a * 0x10000 + b * 0x100 + c;
    assert triple / 0x100 == a * 0x100 + b;
  }

  /** The sextets of missing bytes are zero, as a padding character decodes. */
  lemma PaddedSextet(data: seq<byte>, i: nat, p: nat)
    requires i < |data| && 2 <= p < 4 && i + p - 1 >= |data|
    ensures Sextet(Triple(data, i), p) == 0 == DecodeChar(PAD)
  {
    assert Triple(data, i) % 0x100 == 0;
  }

  lemma CharRoundTrip(data: seq<byte>, group: nat, p: nat)
    requires 3 * group < |data| && p < 4
    ensures 4 * group + p < |Encode(data)|
    ensures DecodeChar(Encode(data)[4 * group + p]) == Sextet(Triple(data, 3 * group), p)
  {
    GroupIndex(group, p, 4);
    assert Encode(data)[4 * group + p] == EncodedChar(data, 4 * group + p);
    if p >= 2 && 3 * group + p - 1 >= |data| {
      PaddedSextet(data, 3 * group, p);
    } else {
      CharTables(Sextet(Triple(data, 3 * group), p));
    }
  }

  /** A group decodes to the 24 bits it was made from. */
  lemma GroupRoundTrip(data: seq<byte>, group: nat)
    requires 3 * group < |data|
    ensures 4 * group + 4 <= |Encode(data)|
    ensures DecodedTriple(Encode(data), 4 * group) == Triple(data, 3 * group)
  {
    CharRoundTrip(data, group, 0);
    CharRoundTrip(data, group, 1);
    CharRoundTrip(data, group, 2);
    CharRoundTrip(data, group, 3);
    SextetsOf(Triple(data, 3 * group));
  }

  lemma ByteRoundTrip(data: seq<byte>, k: nat)
    requires k < |data|
    ensures DecodePrefix(Encode(data), |data|)[k] == data[k]
  {
    GroupRoundTrip(data, k / 3);
    OctetsOf(data, 3 * (k / 3), k % 3);
  }

  lemma KeptLength(data: seq<byte>)
    requires data != []
    ensures Encode(data) != [] && |Encode(data)| % 4 == 0 && DecodedLength(Encode(data)) == |data|
  {
    var n := 4 * ((|data| + 2) / 3);
    assert |Encode(data)| == n;
    EncodedShape(data, n - 1);
    EncodedShape(data, n - 2);
  }

  /** Decoding an encoding gives the bytes back; only the empty input, whose
      encoding is empty, is refused. */
  lemma RoundTrip(data: seq<byte>)
    ensures Decode(Encode(data)) == if data == [] then Throws else Ok(data)
  {
    if data != [] {
      KeptLength(data);
      var decoded := DecodePrefix(Encode(data), |data|);
      forall k: nat | k < |data| ensures decoded[k] == data[k] { ByteRoundTrip(data, k); }
      assert decoded == data;
    }
  }
}
