/** escaped and unescaped of src/common/ltsm_tools.cpp.  Characters are bytes;
    byte 0 is what unescaped uses as its erase mark. */
module Escaping {
  import opened MachineInts
  import opened Sequences

  const BACKSLASH: byte := 92
  const QUOTE: byte := 34

  /** The letter written after a backslash for this character, or 0. */
  function EscapeLetter(ch: byte): byte
  {
    if ch == BACKSLASH then BACKSLASH
    else if ch == QUOTE then QUOTE
    else if ch == 47 then 47   // '/'
    else if ch == 9 then 116   // '\t'
    else if ch == 10 then 110  // '\n'
    else if ch == 13 then 114  // '\r'
    else if ch == 12 then 102  // '\f'
    else if ch == 8 then 98    // '\b'
    else 0
  }

  /** The character a letter after a backslash stands for, or 0. */
  function UnescapeLetter(ch: byte): byte
  {
    if ch == BACKSLASH then BACKSLASH
    else if ch == QUOTE then QUOTE
    else if ch == 47 then 47
    else if ch == 116 then 9
    else if ch == 110 then 10
    else if ch == 114 then 13
    else if ch == 102 then 12
    else if ch == 98 then 8
    else 0
  }

  function EscapeChar(ch: byte): seq<byte>
  {
    if EscapeLetter(ch) == 0 then [ch] else [BACKSLASH, EscapeLetter(ch)]
  }

  function Escape(s: seq<byte>): seq<byte>
  {
    if s == [] then [] else EscapeChar(s[0]) + Escape(s[1..])
  }

  method Escaped(str: seq<byte>, quote: bool) returns (r: seq<byte>)
    ensures r == if quote then [QUOTE] + Escape(str) + [QUOTE] else Escape(str)
  {
    r := if quote then [QUOTE] else [];
    assert str[0..] == str;
    for i := 0 to |str|
      invariant r + Escape(str[i..]) == (if quote then [QUOTE] else []) + Escape(str)
    {
      assert str[i..][0] == str[i] && str[i..][1..] == str[i + 1..];
      assert (r + EscapeChar(str[i])) + Escape(str[i + 1..]) == r + Escape(str[i..]);
      r := r + EscapeChar(str[i]);
    }
    assert r + Escape(str[|str|..]) == r;
    if quote { r := r + [QUOTE]; }
  }

  /** What is left of a string once the zero characters are erased. */
  function NonZero(s: seq<byte>): seq<byte>
  {
    if s == [] then [] else (if s[0] == 0 then [] else [s[0]]) + NonZero(s[1..])
  }

  lemma {:induction false} NonZeroAppend(a: seq<byte>, b: seq<byte>)
    ensures NonZero(a + b) == NonZero(a) + NonZero(b)
  {
    if a == [] {
      assert a + b == b;
    } else {
      NonZeroAppend(a[1..], b);
      assert (a + b)[0] == a[0] && (a + b)[1..] == a[1..] + b;
      Regroup(if a[0] == 0 then [] else [a[0]], NonZero(a[1..]), NonZero(b));
    }
  }

  /** Left-to-right decoder.  A backslash with a known letter is one character;
      any other backslash stands for itself.  On input without zeros the last
      two rules about zeros never apply. */
  function Decode(s: seq<byte>): seq<byte>
  {
    if s == [] then []
    else if s[0] == BACKSLASH && |s| > 1 && UnescapeLetter(s[1]) != 0 then [UnescapeLetter(s[1])] + Decode(s[2..])
    else if s[0] == BACKSLASH && |s| > 1 && s[1] == 0 then [BACKSLASH] + Decode(s[2..])
    else (if s[0] == 0 then [] else [s[0]]) + Decode(s[1..])
  }

  /** A stretch without backslashes decodes to its nonzero characters. */
  lemma {:induction false} DecodePlain(a: seq<byte>, b: seq<byte>)
    requires BACKSLASH !in a
    ensures Decode(a + b) == NonZero(a) + Decode(b)
  {
    if a == [] {
      assert a + b == b;
    } else {
      DecodePlain(a[1..], b);
      assert a[0] != BACKSLASH;
      assert (a + b)[0] == a[0] && (a + b)[1..] == a[1..] + b;
      Regroup(if a[0] == 0 then [] else [a[0]], NonZero(a[1..]), Decode(b));
    }
  }

  function Unescape(s: seq<byte>): seq<byte> { if |s| < 2 then s else Decode(s) }

  /** std::string::find from a position: the first backslash, or the length. */
  method Find(a: array<byte>, from: nat) returns (pos: nat)
    requires from <= a.Length
    ensures from <= pos <= a.Length
    ensures BACKSLASH !in a[from..pos]
    ensures pos < a.Length ==> a[pos] == BACKSLASH
  {
    pos := from;
    while pos < a.Length && a[pos] != BACKSLASH
      invariant from <= pos <= a.Length
      invariant BACKSLASH !in a[from..pos]
    {
      pos := pos + 1;
    }
  }

  /** std::erase(str, 0). */
  method EraseZeros(a: array<byte>) returns (r: seq<byte>)
    ensures r == NonZero(a[..])
  {
    r := [];
    for i := 0 to a.Length
      invariant r == NonZero(a[..i])
    {
      NonZeroAppend(a[..i], [a[i]]);
      assert a[..i + 1] == a[..i] + [a[i]];
      if a[i] != 0 { r := r + [a[i]]; }
    }
    assert a[..a.Length] == a[..];
  }

  /** One turn of the marking loop keeps what will come out. */
  lemma MarkStep(done: seq<byte>, rest: seq<byte>, plain: seq<byte>, mark: seq<byte>, n: nat, total: seq<byte>)
    requires NonZero(done) + Decode(rest) == total
    requires |plain| + n <= |rest| && plain == rest[..|plain|] && BACKSLASH !in plain
    requires NonZero(mark) + Decode(rest[|plain| + n..]) == Decode(rest[|plain|..])
    ensures NonZero(done + plain + mark) + Decode(rest[|plain| + n..]) == total
  {
    var after := Decode(rest[|plain| + n..]);
    assert plain + rest[|plain|..] == rest;
    DecodePlain(plain, rest[|plain|..]);
    NonZeroAppend(done + plain, mark);
    NonZeroAppend(done, plain);
    RegroupFour(NonZero(done), NonZero(plain), NonZero(mark), after);
  }

  /** What the loop turns the characters at a backslash into. */
  function Marked(at: seq<byte>): seq<byte>
    requires |at| > 1
  {
    if UnescapeLetter(at[1]) != 0 then [UnescapeLetter(at[1]), 0] else if at[1] == 0 then [BACKSLASH, 0] else [BACKSLASH]
  }

  lemma MarkedDecodes(at: seq<byte>)
    requires |at| > 1 && at[0] == BACKSLASH
    ensures NonZero(Marked(at)) + Decode(at[|Marked(at)|..]) == Decode(at)
  {
    var m := Marked(at);
    NonZeroAppend([m[0]], m[1..]);
    assert m == [m[0]] + m[1..];
    assert NonZero(m[1..]) == [];
    assert NonZero([m[0]]) == [m[0]];
  }

  /** The switch of the loop, at a backslash that is not the last character. */
  method Mark(a: array<byte>, pos: nat) returns (n: nat)
    requires pos + 1 < a.Length && a[pos] == BACKSLASH
    modifies a
    ensures n == |Marked(old(a[pos..]))|
    ensures a[..] == old(a[..pos]) + Marked(old(a[pos..])) + old(a[pos + n..])
  {
    var ch2 := a[pos + 1];
    if UnescapeLetter(ch2) != 0 {
      a[pos] := UnescapeLetter(ch2);
      a[pos + 1] := 0;
    }
    n := if a[pos + 1] == 0 then 2 else 1;
  }

  /** The string while the loop is at pos: a marked part, then untouched input. */
  ghost predicate Marking(str: seq<byte>, val: seq<byte>, done: seq<byte>, pos: nat)
  {
    && |done| == pos <= |val|
    && str == done + val[pos..]
    && NonZero(done) + Decode(val[pos..]) == Decode(val)
  }

  lemma MarkingStep(val: seq<byte>, done: seq<byte>, start: nat, pos: nat)
    requires start <= pos < |val| - 1 && Marking(done + val[start..], val, done, start)
    requires val[pos] == BACKSLASH && BACKSLASH !in val[start..pos]
    ensures var mark := Marked(val[pos..]);
            var done' := done + val[start..pos] + mark;
            Marking(done' + val[pos + |mark|..], val, done', pos + |mark|)
  {
    var at, rest, plain := val[pos..], val[start..], val[start..pos];
    var k := |Marked(at)|;
    MarkedDecodes(at);
    assert at[k..] == val[pos + k..] == rest[|plain| + k..];
    assert rest[|plain|..] == at && rest[..|plain|] == plain;
    MarkStep(done, rest, plain, Marked(at), k, Decode(val));
  }

  /** What the string looks like around a later position. */
  lemma AroundMark(str: seq<byte>, val: seq<byte>, done: seq<byte>, pos: nat, at: nat)
    requires Marking(str, val, done, pos) && pos <= at <= |str|
    ensures |str| == |val| && str[pos..at] == val[pos..at] && str[..at] == done + val[pos..at]
    ensures forall k :: at <= k <= |str| ==> str[k..] == val[k..]
    ensures at < |str| ==> str[at] == val[at]
  {
    assert val[pos..at] + val[at..] == val[pos..];
  }

  /** The turn at a backslash that is not the last character. */
  method MarkHere(a: array<byte>, ghost val: seq<byte>, ghost pos: nat, ghost done: seq<byte>, at: nat)
    returns (n: nat, ghost done': seq<byte>)
    requires Marking(a[..], val, done, pos) && pos <= at < a.Length - 1
    requires val[at] == BACKSLASH && BACKSLASH !in val[pos..at]
    modifies a
    ensures n > 0 && Marking(a[..], val, done', at + n)
  {
    AroundMark(a[..], val, done, pos, at);
    MarkingStep(val, done, pos, at);
    ghost var was := a[..];
    assert was[..at] == a[..at] && was[at..] == a[at..];
    n := Mark(a, at);
    assert was[at + n..] == val[at + n..];
    done' := done + val[pos..at] + Marked(val[at..]);
  }

  /** One turn of the loop; no more when the last escape has been handled. */
  method Turn(a: array<byte>, ghost val: seq<byte>, pos: nat, ghost done: seq<byte>)
    returns (next: nat, ghost done': seq<byte>, more: bool)
    requires Marking(a[..], val, done, pos)
    modifies a
    ensures more ==> pos < next && Marking(a[..], val, done', next)
    ensures !more ==> NonZero(a[..]) == Decode(val)
  {
    var at := Find(a, pos);
    AroundMark(a[..], val, done, pos, at);
    assert a[..][pos..at] == a[pos..at];
    if at == a.Length || at + 1 == a.Length {
      FinishMarking(done, val[pos..], val[pos..at]);
      return at, done, false;
    }
    var n;
    n, done' := MarkHere(a, val, pos, done, at);
    next, more := at + n, true;
  }

  /** Overwrites the two characters of an escape by the decoded one and a zero,
      and erases the zeros at the end. */
  method Unescaped(val: seq<byte>) returns (r: seq<byte>)
    ensures r == Unescape(val)
  {
    if |val| < 2 { return val; }
    var str := new byte[|val|](i requires 0 <= i < |val| => val[i]);
    assert str[..] == val;
    ghost var done: seq<byte> := [];
    var pos, more := 0, true;
    while more
      invariant more ==> Marking(str[..], val, done, pos)
      invariant !more ==> NonZero(str[..]) == Decode(val)
      decreases more, |val| - pos
    {
      pos, done, more := Turn(str, val, pos, done);
    }
    r := EraseZeros(str);
  }

  /** No more escapes: the rest decodes to its nonzero characters. */
  lemma FinishMarking(done: seq<byte>, rest: seq<byte>, plain: seq<byte>)
    requires plain <= rest && BACKSLASH !in plain
    requires |rest| == |plain| || (|rest| == |plain| + 1 && rest[|plain|] == BACKSLASH)
    ensures NonZero(done + rest) == NonZero(done) + Decode(rest)
  {
    var last := rest[|plain|..];
    assert rest == plain + last;
    DecodePlain(plain, last);
    NonZeroAppend(done, rest);
    NonZeroAppend(plain, last);
  }

  // ---- round trip ----

  lemma {:induction false} DecodeEscape(s: seq<byte>)
    ensures Decode(Escape(s)) == NonZero(s)
  {
    if s != [] {
      DecodeEscape(s[1..]);
      var head, tail := EscapeChar(s[0]), Escape(s[1..]);
      assert (head + tail)[|head|..] == tail;
    }
  }

  lemma {:induction false} NonZeroIdentity(s: seq<byte>)
    ensures NonZero(s) == s <==> 0 !in s
    ensures |NonZero(s)| <= |s| && 0 !in NonZero(s)
  {
    if s != [] {
      NonZeroIdentity(s[1..]);
      if s[0] == 0 {
        assert |NonZero(s)| < |s|;
      } else {
        assert NonZero(s)[1..] == NonZero(s[1..]);
        assert s == [s[0]] + s[1..];
      }
    }
  }

  lemma {:induction false} EscapeLength(s: seq<byte>)
    ensures |Escape(s)| >= |s|
  {
    if s != [] { EscapeLength(s[1..]); }
  }

  /** Unescaping an escaped string restores it exactly when it has no zero
      character, or is the single zero character that the length test skips. */
  lemma RoundTripIff(s: seq<byte>)
    ensures Unescape(Escape(s)) == s <==> 0 !in s || s == [0]
  {
    DecodeEscape(s);
    NonZeroIdentity(s);
    EscapeLength(s);
    if |Escape(s)| < 2 && s != [] {
      assert s == [s[0]] && s[1..] == [] && Escape(s) == EscapeChar(s[0]);
    }
  }

  /** The string of a zero and an A comes back as A alone. */
  lemma ZeroIsLost(s: seq<byte>)
    requires s == [0, 65]
    ensures Escape(s) == s && Unescape(Escape(s)) == [65]
  {
    assert s[1..] == [65] && [65][1..] == [] && Escape([65]) == [65];
    assert Decode([65]) == [65];
  }
}
