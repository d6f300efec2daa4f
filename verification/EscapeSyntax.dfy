/** The two-character escapes of section 7 of RFC 8259, and what escaped and
    unescaped of src/common/ltsm_tools.cpp owe to a reader of JSON text. */
module EscapeSyntax {
  import opened MachineInts
  import opened Sequences
  import opened Escaping

  /** A character and the letter that stands for it after a backslash. */
  const NAMED: seq<(byte, byte)> :=
    [(34, 34), (92, 92), (47, 47), (8, 98), (12, 102), (10, 110), (13, 114), (9, 116)]

  predicate IsNamed(ch: byte, letter: byte) { (ch, letter) in NAMED }

  predicate HasName(ch: byte) { exists i :: 0 <= i < |NAMED| && NAMED[i].0 == ch }

  predicate IsLetter(letter: byte) { exists i :: 0 <= i < |NAMED| && NAMED[i].1 == letter }

  /** Both switches follow the table, and have no other cases. */
  lemma TablesAgree(ch: byte, letter: byte)
    ensures letter != 0 ==> (EscapeLetter(ch) == letter <==> IsNamed(ch, letter))
    ensures ch != 0 ==> (UnescapeLetter(letter) == ch <==> IsNamed(ch, letter))
    ensures EscapeLetter(ch) == 0 <==> !HasName(ch)
    ensures UnescapeLetter(letter) == 0 <==> !IsLetter(letter)
  {
    assert NAMED[0] == (34, 34) && NAMED[1] == (92, 92) && NAMED[2] == (47, 47) && NAMED[3] == (8, 98);
    assert NAMED[4] == (12, 102) && NAMED[5] == (10, 110) && NAMED[6] == (13, 114) && NAMED[7] == (9, 116);
  }

  // ---- escaping ----

  /** A character with a name is written as a backslash and the letter, any other
      as it is. */
  lemma EscapedCharacter(ch: byte)
    ensures forall letter: byte :: IsNamed(ch, letter) ==> Escape([ch]) == [BACKSLASH, letter]
    ensures !HasName(ch) ==> Escape([ch]) == [ch]
  {
    assert [ch][1..] == [] && Escape([]) == [];
    assert Escape([ch]) == EscapeChar(ch);
    forall letter: byte | IsNamed(ch, letter) ensures Escape([ch]) == [BACKSLASH, letter] {
      TablesAgree(ch, letter);
      assert letter != 0;
    }
    TablesAgree(ch, 0);
  }

  /** Strings are escaped character by character. */
  lemma {:induction false} EscapeAppend(a: seq<byte>, b: seq<byte>)
    ensures Escape(a + b) == Escape(a) + Escape(b)
  {
    if a == [] {
      assert a + b == b;
    } else {
      EscapeAppend(a[1..], b);
      assert (a + b)[0] == a[0] && (a + b)[1..] == a[1..] + b;
      Regroup(EscapeChar(a[0]), Escape(a[1..]), Escape(b));
    }
  }

  /** The first quotation mark from i on that no backslash escapes, as a reader of
      JSON text looks for the end of a string. */
  function FindQuote(text: seq<byte>, i: nat): nat
    decreases |text| - i
  {
    if i >= |text| then |text|
    else if text[i] == QUOTE then i
    else if text[i] == BACKSLASH then FindQuote(text, i + 2)
    else FindQuote(text, i + 1)
  }

  /** One escaped character never ends the string. */
  lemma SkipsCharacter(text: seq<byte>, i: nat, ch: byte)
    requires i + |EscapeChar(ch)| < |text| && text[i..i + |EscapeChar(ch)|] == EscapeChar(ch)
    ensures FindQuote(text, i) == FindQuote(text, i + |EscapeChar(ch)|)
  {
    assert text[i] == text[i..i + |EscapeChar(ch)|][0] == EscapeChar(ch)[0];
    TablesAgree(ch, EscapeLetter(ch));
    assert NAMED[0] == (34, 34) && NAMED[1] == (92, 92);
  }

  lemma {:induction false} SkipsEscaped(text: seq<byte>, i: nat, s: seq<byte>)
    requires i + |Escape(s)| < |text| && text[i..i + |Escape(s)|] == Escape(s)
    ensures FindQuote(text, i) == FindQuote(text, i + |Escape(s)|)
    decreases |s|
  {
    if s != [] {
      var head, tail := EscapeChar(s[0]), Escape(s[1..]);
      assert Escape(s) == head + tail && |Escape(s)| == |head| + |tail|;
      SplitSlice(text, i, head, tail);
      SkipsCharacter(text, i, s[0]);
      SkipsEscaped(text, i + |head|, s[1..]);
      assert i + |head| + |tail| == i + |Escape(s)|;
    }
  }

  /** A quoted string ends where it was meant to, whatever it holds and whatever
      follows it, and what stands between the marks unescapes to the string
      without its zero characters. */
  lemma QuotedStringIsRead(s: seq<byte>, after: seq<byte>)
    ensures var text := [QUOTE] + Escape(s) + [QUOTE] + after;
            var end := FindQuote(text, 1);
            end == |Escape(s)| + 1 && text[1..end] == Escape(s) && Decode(text[1..end]) == NonZero(s)
  {
    var text, n := [QUOTE] + Escape(s) + [QUOTE] + after, |Escape(s)|;
    assert text[1..1 + n] == Escape(s) && text[1 + n] == QUOTE;
    SkipsEscaped(text, 1, s);
    DecodeEscape(s);
  }

  /** Backspace, tab, newline, form feed and carriage return never stand in an
      escaped string as themselves. */
  lemma {:induction false} NoRawControls(s: seq<byte>, c: byte)
    requires c == 8 || c == 9 || c == 10 || c == 12 || c == 13
    ensures c !in Escape(s)
  {
    if s != [] {
      NoRawControls(s[1..], c);
      assert c !in EscapeChar(s[0]);
    }
  }

  // ---- unescaping ----

  /** What unescaped makes of the beginning of any text of two or more characters. */
  lemma UnescapingRules(ch: byte, letter: byte, rest: seq<byte>)
    ensures IsNamed(ch, letter) ==> Decode([BACKSLASH, letter] + rest) == [ch] + Decode(rest)
    ensures !IsLetter(letter) && letter != 0 ==> Decode([BACKSLASH, letter] + rest) == [BACKSLASH, letter] + Decode(rest)
    ensures Decode([BACKSLASH, 0] + rest) == [BACKSLASH] + Decode(rest)
    ensures ch != BACKSLASH && ch != 0 ==> Decode([ch] + rest) == [ch] + Decode(rest)
    ensures Decode([0] + rest) == Decode(rest)
    ensures Decode([BACKSLASH]) == [BACKSLASH] && Decode([]) == []
  {
    TablesAgree(ch, letter);
    assert NAMED[1] == (92, 92);
    if IsNamed(ch, letter) {
      assert ch != 0;
      assert ([BACKSLASH, letter] + rest)[2..] == rest;
    }
    if !IsLetter(letter) && letter != 0 {
      UnknownEscape(letter, rest);
    }
    assert ([BACKSLASH, 0] + rest)[2..] == rest && UnescapeLetter(0) == 0;
    assert ([ch] + rest)[1..] == rest && ([0] + rest)[1..] == rest;
    assert [BACKSLASH][1..] == [];
  }

  /** A backslash before any other letter stays, and so does the letter. */
  lemma UnknownEscape(letter: byte, rest: seq<byte>)
    requires UnescapeLetter(letter) == 0 && letter != 0
    ensures Decode([BACKSLASH, letter] + rest) == [BACKSLASH, letter] + Decode(rest)
  {
    var text := [BACKSLASH, letter] + rest;
    assert text[1..] == [letter] + rest && text[1..][1..] == rest;
    assert letter != BACKSLASH;
    assert Decode(text[1..]) == [letter] + Decode(rest);
    Regroup([BACKSLASH], [letter], Decode(rest));
    assert [BACKSLASH] + [letter] == [BACKSLASH, letter];
  }

  /** A string without backslashes and zero characters is left alone. */
  lemma {:induction false} PlainStays(s: seq<byte>)
    requires BACKSLASH !in s && 0 !in s
    ensures Unescape(s) == s
  {
    DecodePlain(s, []);
    NonZeroIdentity(s);
    assert s + [] == s && NonZero(s) + [] == NonZero(s);
  }
}
