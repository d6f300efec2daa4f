/** The decoder from a token list to a value tree: JsonContent of
    src/common/ltsm_json_wrapper.cpp.

    A token carries the text that stringToken gives for it; primitives keep
    their text.  Flatten is the order in which jsmn emits tokens. */
module JsonDecoder {
  import opened MachineInts
  import opened Wrappers
  import opened Sequences
  import opened Escaping

  type String = seq<byte>

  /** How strings are escaped in a document, or read back. */
  type Codec = String -> String

  datatype Kind = KObject | KArray | KString | KPrimitive

  datatype Token = Token(kind: Kind, text: String, counts: nat)

  datatype Value =
    | VPrimitive(text: String)
    | VString(s: String)
    | VArray(items: seq<Value>)
    | VObject(members: map<String, Value>)

  datatype Entry = Entry(key: String, value: Value)

  /** The map that inserting these entries in order leaves: a repeated key is
      overwritten. */
  function Collect(entries: seq<Entry>): map<String, Value>
  {
    if entries == [] then map[]
    else
      var last := entries[|entries| - 1];
      Collect(entries[..|entries| - 1])[last.key := last.value]
  }

  lemma CollectOne(entries: seq<Entry>, e: Entry)
    ensures Collect(entries + [e]) == Collect(entries)[e.key := e.value]
  {
    assert (entries + [e])[..|entries|] == entries;
  }

  // ---- the decoder ----

  /** getValueFromIter at token i: the value and the number of tokens it took. */
  function GetValue(unescape: Codec, toks: seq<Token>, i: nat): (r: (Value, nat))
    requires i < |toks|
    ensures r.1 >= 1
    decreases |toks| - i, 0
  {
    var tok := toks[i];
    match tok.kind
    case KArray => var (items, n) := ReadItems(unescape, toks, i + 1, tok.counts); (VArray(items), 1 + n)
    case KObject => var (entries, n) := ReadMembers(unescape, toks, i + 1, tok.counts); (VObject(Collect(entries)), 1 + n)
    case KPrimitive => (VPrimitive(tok.text), 1)
    case KString => (VString(unescape(tok.text)), 1)
  }

  /** Up to `counts` values from token `at` on. */
  function ReadItems(unescape: Codec, toks: seq<Token>, at: nat, counts: nat): (seq<Value>, nat)
    decreases |toks| - at, 1
  {
    if counts == 0 || at >= |toks| then ([], 0)
    else
      var (v, n) := GetValue(unescape, toks, at);
      var (rest, m) := ReadItems(unescape, toks, at + n, counts - 1);
      ([v] + rest, n + m)
  }

  /** The key at token `at` with the value after it. */
  function ReadPair(unescape: Codec, toks: seq<Token>, at: nat): (r: (Entry, nat))
    requires at + 1 < |toks|
    ensures r.1 >= 2
    decreases |toks| - at, 0
  {
    var (v, n) := GetValue(unescape, toks, at + 1);
    (Entry(unescape(toks[at].text), v), 1 + n)
  }

  /** Up to `counts` pairs of a key and a value. */
  function ReadMembers(unescape: Codec, toks: seq<Token>, at: nat, counts: nat): (seq<Entry>, nat)
    decreases |toks| - at, 1
  {
    if counts == 0 || at + 1 >= |toks| then ([], 0)
    else
      var (e, n) := ReadPair(unescape, toks, at);
      var (rest, m) := ReadMembers(unescape, toks, at + n, counts - 1);
      ([e] + rest, n + m)
  }

  /** One round of the array loop: `done` has been read before token i. */
  lemma ReadItem(unescape: Codec, toks: seq<Token>, i: nat, counts: nat, v: Value, n: nat, done: seq<Value>)
    requires i < |toks| && counts > 0 && GetValue(unescape, toks, i) == (v, n)
    ensures ReadItems(unescape, toks, i, counts).1 == n + ReadItems(unescape, toks, i + n, counts - 1).1
    ensures done + ReadItems(unescape, toks, i, counts).0 == done + [v] + ReadItems(unescape, toks, i + n, counts - 1).0
  {
    var rest := ReadItems(unescape, toks, i + n, counts - 1).0;
    assert ReadItems(unescape, toks, i, counts).0 == [v] + rest;
    assert done + ([v] + rest) == done + [v] + rest;
  }

  /** One round of the object loop. */
  lemma ReadMember(unescape: Codec, toks: seq<Token>, i: nat, counts: nat, e: Entry, n: nat, done: seq<Entry>)
    requires i + 1 < |toks| && counts > 0 && ReadPair(unescape, toks, i) == (e, n)
    ensures ReadMembers(unescape, toks, i, counts).1 == n + ReadMembers(unescape, toks, i + n, counts - 1).1
    ensures done + ReadMembers(unescape, toks, i, counts).0 == done + [e] + ReadMembers(unescape, toks, i + n, counts - 1).0
  {
    var rest := ReadMembers(unescape, toks, i + n, counts - 1).0;
    assert ReadMembers(unescape, toks, i, counts).0 == [e] + rest;
    assert done + ([e] + rest) == done + [e] + rest;
  }

  /** rangesNext: an iterator advanced, but not past the end. */
  function RangesNext(it: nat, n: nat, end: nat): nat { Min(it + n, end) }

  method PushValuesToArray(unescape: Codec, toks: seq<Token>, it: nat) returns (arr: seq<Value>, skip: nat)
    requires it < |toks|
    ensures (arr, skip) == (ReadItems(unescape, toks, it + 1, toks[it].counts).0, 1 + ReadItems(unescape, toks, it + 1, toks[it].counts).1)
    decreases |toks| - it, 1
  {
    ghost var all := ReadItems(unescape, toks, it + 1, toks[it].counts);
    var counts := toks[it].counts;
    arr, skip := [], 1;
    var itval := RangesNext(it, skip, |toks|);
    while counts > 0 && itval != |toks|
      invariant skip >= 1 && itval == RangesNext(it, skip, |toks|)
      invariant arr + ReadItems(unescape, toks, it + skip, counts).0 == all.0
      invariant skip + ReadItems(unescape, toks, it + skip, counts).1 == 1 + all.1
      decreases counts
    {
      var v, count := GetValueFromIter(unescape, toks, itval);
      ReadItem(unescape, toks, itval, counts, v, count, arr);
      arr := arr + [v];
      skip := skip + count;
      counts := counts - 1;
      itval := RangesNext(it, skip, |toks|);
    }
    assert arr + [] == arr;
  }

  /** The object loop so far: the entries read, how many tokens they took, and
      that reading on gives all of them. */
  ghost predicate ReadingObject(unescape: Codec, toks: seq<Token>, it: nat, entries: seq<Entry>, skip: nat, counts: nat,
                                all: (seq<Entry>, nat))
  {
    && skip >= 1
    && entries + ReadMembers(unescape, toks, it + skip, counts).0 == all.0
    && skip + ReadMembers(unescape, toks, it + skip, counts).1 == 1 + all.1
  }

  lemma ReadingOn(unescape: Codec, toks: seq<Token>, it: nat, entries: seq<Entry>, skip: nat, counts: nat,
                  all: (seq<Entry>, nat), e: Entry, n: nat)
    requires ReadingObject(unescape, toks, it, entries, skip, counts, all)
    requires it + skip + 1 < |toks| && counts > 0 && ReadPair(unescape, toks, it + skip) == (e, n)
    ensures ReadingObject(unescape, toks, it, entries + [e], skip + n, counts - 1, all)
  {
    ReadMember(unescape, toks, it + skip, counts, e, n, entries);
  }

  lemma ReadingDone(unescape: Codec, toks: seq<Token>, it: nat, entries: seq<Entry>, skip: nat, counts: nat, all: (seq<Entry>, nat))
    requires ReadingObject(unescape, toks, it, entries, skip, counts, all)
    requires counts == 0 || it + skip + 1 >= |toks|
    ensures entries == all.0 && skip == 1 + all.1
  {
    assert entries + [] == entries;
  }

  method PushValuesToObject(unescape: Codec, toks: seq<Token>, it: nat) returns (obj: map<String, Value>, skip: nat)
    requires it < |toks|
    ensures (obj, skip) == (Collect(ReadMembers(unescape, toks, it + 1, toks[it].counts).0),
                            1 + ReadMembers(unescape, toks, it + 1, toks[it].counts).1)
    decreases |toks| - it, 1
  {
    ghost var all := ReadMembers(unescape, toks, it + 1, toks[it].counts);
    ghost var entries: seq<Entry> := [];
    var counts := toks[it].counts;
    obj, skip := map[], 1;
    var itkey := RangesNext(it, skip, |toks|);
    var itval := RangesNext(itkey, 1, |toks|);
    while counts > 0 && itval != |toks|
      invariant skip >= 1 && itkey == RangesNext(it, skip, |toks|) && itval == RangesNext(itkey, 1, |toks|)
      invariant obj == Collect(entries) && ReadingObject(unescape, toks, it, entries, skip, counts, all)
      decreases counts
    {
      var e, count := PairFromIter(unescape, toks, itkey);
      ReadingOn(unescape, toks, it, entries, skip, counts, all, e, count);
      CollectOne(entries, e);
      entries := entries + [e];
      obj := obj[e.key := e.value];
      skip := skip + count;
      counts := counts - 1;
      itkey := RangesNext(it, skip, |toks|);
      itval := RangesNext(itkey, 1, |toks|);
    }
    ReadingDone(unescape, toks, it, entries, skip, counts, all);
  }

  /** The key and the value that one turn of the object loop reads. */
  method PairFromIter(unescape: Codec, toks: seq<Token>, itkey: nat) returns (e: Entry, count: nat)
    requires itkey + 1 < |toks|
    ensures (e, count) == ReadPair(unescape, toks, itkey)
    decreases |toks| - itkey, 0
  {
    var key := unescape(toks[itkey].text);
    var v, n := GetValueFromIter(unescape, toks, itkey + 1);
    return Entry(key, v), 1 + n;
  }

  method GetValueFromIter(unescape: Codec, toks: seq<Token>, it: nat) returns (v: Value, count: nat)
    requires it < |toks|
    ensures (v, count) == GetValue(unescape, toks, it)
    decreases |toks| - it, 2
  {
    match toks[it].kind
    case KArray =>
      var items, skip := PushValuesToArray(unescape, toks, it);
      return VArray(items), skip;
    case KObject =>
      var members, skip := PushValuesToObject(unescape, toks, it);
      return VObject(members), skip;
    case KPrimitive => return VPrimitive(toks[it].text), 1;
    case KString => return VString(unescape(toks[it].text)), 1;
  }

  /** toObject. */
  function ToObject(unescape: Codec, toks: seq<Token>): Result<map<String, Value>>
  {
    if toks == [] || !toks[0].kind.KObject? then Throws else Ok(Collect(ReadMembers(unescape, toks, 1, toks[0].counts).0))
  }

  // ---- documents ----

  /** A JSON document: object members in order, keys possibly repeated. */
  datatype Json =
    | Primitive(text: String)
    | Str(s: String)
    | Arr(items: seq<Json>)
    | Obj(members: seq<Member>)

  datatype Member = Member(key: String, value: Json)

  function Flatten(escape: Codec, j: Json): (r: seq<Token>)
    ensures |r| >= 1
    decreases j, 0
  {
    match j
    case Primitive(text) => [Token(KPrimitive, text, 0)]
    case Str(s) => [Token(KString, escape(s), 0)]
    case Arr(items) => [Token(KArray, [], |items|)] + FlattenItems(escape, items)
    case Obj(members) => [Token(KObject, [], |members|)] + FlattenMembers(escape, members)
  }

  function FlattenItems(escape: Codec, items: seq<Json>): seq<Token>
    decreases items, 1
  {
    if items == [] then [] else Flatten(escape, items[0]) + FlattenItems(escape, items[1..])
  }

  function KeyToken(escape: Codec, key: String): Token { Token(KString, escape(key), 1) }

  function FlattenMember(escape: Codec, m: Member): seq<Token>
    decreases m, 1
  {
    [KeyToken(escape, m.key)] + Flatten(escape, m.value)
  }

  function FlattenMembers(escape: Codec, members: seq<Member>): seq<Token>
    decreases members, 2
  {
    if members == [] then [] else FlattenMember(escape, members[0]) + FlattenMembers(escape, members[1..])
  }

  /** The value of a document whose strings go through `via` on their way; the
      last of several equal keys counts. */
  function Meaning(via: Codec, j: Json): Value
    decreases j, 0
  {
    match j
    case Primitive(text) => VPrimitive(text)
    case Str(s) => VString(via(s))
    case Arr(items) => VArray(MeaningItems(via, items))
    case Obj(members) => VObject(Collect(MeaningMembers(via, members)))
  }

  function MeaningItems(via: Codec, items: seq<Json>): (r: seq<Value>)
    ensures |r| == |items|
    decreases items, 1
  {
    if items == [] then [] else [Meaning(via, items[0])] + MeaningItems(via, items[1..])
  }

  function MeaningMembers(via: Codec, members: seq<Member>): (r: seq<Entry>)
    ensures |r| == |members|
    decreases members, 1
  {
    if members == [] then []
    else [Entry(via(members[0].key), Meaning(via, members[0].value))] + MeaningMembers(via, members[1..])
  }

  // ---- decoding inverts flattening ----

  /** `part` stands in `toks` from position `i` on. */
  predicate StandsAt(toks: seq<Token>, i: nat, part: seq<Token>) {
    i + |part| <= |toks| && toks[i..i + |part|] == part
  }

  lemma SplitAt(toks: seq<Token>, i: nat, left: seq<Token>, right: seq<Token>)
    requires StandsAt(toks, i, left + right)
    ensures StandsAt(toks, i, left) && StandsAt(toks, i + |left|, right)
  {
    assert |left + right| == |left| + |right|;
    SplitSlice(toks, i, left, right);
  }

  /** `via` is a string escaped and read back. */
  ghost predicate Through(escape: Codec, unescape: Codec, via: Codec) {
    forall s :: via(s) == unescape(escape(s))
  }

  /** Decoding the tokens of a document, wherever they stand and whatever
      follows, gives its value and takes exactly its tokens. */
  lemma {:induction false} DecodeInverts(escape: Codec, unescape: Codec, via: Codec, j: Json, toks: seq<Token>, i: nat)
    requires Through(escape, unescape, via) && StandsAt(toks, i, Flatten(escape, j))
    ensures i < |toks| && GetValue(unescape, toks, i) == (Meaning(via, j), |Flatten(escape, j)|)
    decreases j, 0
  {
    match j
    case Primitive(_) => FirstStands(toks, i, Flatten(escape, j));
    case Str(s) =>
      FirstStands(toks, i, Flatten(escape, j));
      assert via(s) == unescape(escape(s));
    case Arr(items) =>
      HeadStands(toks, i, Token(KArray, [], |items|), FlattenItems(escape, items));
      DecodeInvertsItems(escape, unescape, via, items, toks, i + 1);
    case Obj(members) =>
      HeadStands(toks, i, Token(KObject, [], |members|), FlattenMembers(escape, members));
      DecodeInvertsMembers(escape, unescape, via, members, toks, i + 1);
  }

  lemma FirstStands(toks: seq<Token>, i: nat, part: seq<Token>)
    requires StandsAt(toks, i, part) && part != []
    ensures i < |toks| && toks[i] == part[0]
  {
    assert toks[i] == toks[i..i + |part|][0];
  }

  lemma HeadStands(toks: seq<Token>, i: nat, head: Token, rest: seq<Token>)
    requires StandsAt(toks, i, [head] + rest)
    ensures i < |toks| && toks[i] == head && StandsAt(toks, i + 1, rest)
  {
    FirstStands(toks, i, [head] + rest);
    SplitAt(toks, i, [head], rest);
  }

  lemma {:induction false} DecodeInvertsItems(escape: Codec, unescape: Codec, via: Codec, items: seq<Json>, toks: seq<Token>, i: nat)
    requires Through(escape, unescape, via) && StandsAt(toks, i, FlattenItems(escape, items))
    ensures ReadItems(unescape, toks, i, |items|) == (MeaningItems(via, items), |FlattenItems(escape, items)|)
    decreases items, 2
  {
    if items != [] {
      SplitAt(toks, i, Flatten(escape, items[0]), FlattenItems(escape, items[1..]));
      DecodeInvertsItem(escape, unescape, via, items[0], toks, i, |items|);
      DecodeInvertsItems(escape, unescape, via, items[1..], toks, i + |Flatten(escape, items[0])|);
    }
  }

  lemma {:induction false} DecodeInvertsItem(escape: Codec, unescape: Codec, via: Codec, j: Json, toks: seq<Token>, i: nat, counts: nat)
    requires Through(escape, unescape, via) && StandsAt(toks, i, Flatten(escape, j)) && counts > 0
    ensures var n := |Flatten(escape, j)|;
            && ReadItems(unescape, toks, i, counts).0 == [Meaning(via, j)] + ReadItems(unescape, toks, i + n, counts - 1).0
            && ReadItems(unescape, toks, i, counts).1 == n + ReadItems(unescape, toks, i + n, counts - 1).1
    decreases j, 1
  {
    DecodeInverts(escape, unescape, via, j, toks, i);
    ReadItem(unescape, toks, i, counts, Meaning(via, j), |Flatten(escape, j)|, []);
  }

  lemma {:induction false} DecodeInvertsPair(escape: Codec, unescape: Codec, via: Codec, m: Member, toks: seq<Token>, i: nat)
    requires Through(escape, unescape, via) && StandsAt(toks, i, FlattenMember(escape, m))
    ensures i + 1 < |toks|
    ensures ReadPair(unescape, toks, i) == (Entry(via(m.key), Meaning(via, m.value)), |FlattenMember(escape, m)|)
    decreases m, 1
  {
    SplitAt(toks, i, [KeyToken(escape, m.key)], Flatten(escape, m.value));
    assert toks[i] == toks[i..i + 1][0];
    DecodeInverts(escape, unescape, via, m.value, toks, i + 1);
  }

  lemma {:induction false} DecodeInvertsMember(escape: Codec, unescape: Codec, via: Codec, m: Member, toks: seq<Token>, i: nat, counts: nat)
    requires Through(escape, unescape, via) && StandsAt(toks, i, FlattenMember(escape, m)) && counts > 0
    ensures var n, e := |FlattenMember(escape, m)|, Entry(via(m.key), Meaning(via, m.value));
            && ReadMembers(unescape, toks, i, counts).0 == [e] + ReadMembers(unescape, toks, i + n, counts - 1).0
            && ReadMembers(unescape, toks, i, counts).1 == n + ReadMembers(unescape, toks, i + n, counts - 1).1
    decreases m, 2
  {
    DecodeInvertsPair(escape, unescape, via, m, toks, i);
    ReadMember(unescape, toks, i, counts, Entry(via(m.key), Meaning(via, m.value)), |FlattenMember(escape, m)|, []);
  }

  lemma {:induction false} DecodeInvertsFirst(escape: Codec, unescape: Codec, via: Codec, members: seq<Member>, toks: seq<Token>, i: nat)
    returns (n: nat)
    requires Through(escape, unescape, via) && StandsAt(toks, i, FlattenMembers(escape, members)) && members != []
    ensures n == |FlattenMember(escape, members[0])| && StandsAt(toks, i + n, FlattenMembers(escape, members[1..]))
    ensures var e := Entry(via(members[0].key), Meaning(via, members[0].value));
            && ReadMembers(unescape, toks, i, |members|).0 == [e] + ReadMembers(unescape, toks, i + n, |members| - 1).0
            && ReadMembers(unescape, toks, i, |members|).1 == n + ReadMembers(unescape, toks, i + n, |members| - 1).1
    decreases members, 1
  {
    n := |FlattenMember(escape, members[0])|;
    SplitAt(toks, i, FlattenMember(escape, members[0]), FlattenMembers(escape, members[1..]));
    DecodeInvertsMember(escape, unescape, via, members[0], toks, i, |members|);
  }

  lemma {:induction false} DecodeInvertsMembers(escape: Codec, unescape: Codec, via: Codec, members: seq<Member>, toks: seq<Token>, i: nat)
    requires Through(escape, unescape, via) && StandsAt(toks, i, FlattenMembers(escape, members))
    ensures ReadMembers(unescape, toks, i, |members|) == (MeaningMembers(via, members), |FlattenMembers(escape, members)|)
    decreases members, 2
  {
    if members != [] {
      var n := DecodeInvertsFirst(escape, unescape, via, members, toks, i);
      DecodeInvertsMembers(escape, unescape, via, members[1..], toks, i + n);
    }
  }

  /** escaped and unescaped together restore exactly these strings (Escaping.RoundTripIff). */
  predicate Intact(s: String) { 0 !in s || s == [0] }

  /** Every key and string of the document is one of those. */
  predicate Restorable(j: Json)
    decreases j, 0
  {
    match j
    case Primitive(_) => true
    case Str(s) => Intact(s)
    case Arr(items) => forall i :: 0 <= i < |items| ==> Restorable(items[i])
    case Obj(members) => forall i :: 0 <= i < |members| ==> Intact(members[i].key) && Restorable(members[i].value)
  }

  /** Documents of intact strings mean the same with or without escaping. */
  lemma {:induction false} SameMeaning(f: Codec, g: Codec, j: Json)
    requires Restorable(j) && forall s :: Intact(s) ==> f(s) == g(s)
    ensures Meaning(f, j) == Meaning(g, j)
    decreases j, 0
  {
    match j
    case Primitive(_) =>
    case Str(_) =>
    case Arr(items) => SameItems(f, g, items);
    case Obj(members) => SameMembers(f, g, members);
  }

  lemma {:induction false} SameItems(f: Codec, g: Codec, items: seq<Json>)
    requires forall i :: 0 <= i < |items| ==> Restorable(items[i])
    requires forall s :: Intact(s) ==> f(s) == g(s)
    ensures MeaningItems(f, items) == MeaningItems(g, items)
    decreases items, 1
  {
    if items != [] {
      SameMeaning(f, g, items[0]);
      SameItems(f, g, items[1..]);
    }
  }

  lemma {:induction false} SameMembers(f: Codec, g: Codec, members: seq<Member>)
    requires forall i :: 0 <= i < |members| ==> Intact(members[i].key) && Restorable(members[i].value)
    requires forall s :: Intact(s) ==> f(s) == g(s)
    ensures MeaningMembers(f, members) == MeaningMembers(g, members)
    decreases members, 1
  {
    if members != [] {
      SameMeaning(f, g, members[0].value);
      SameMembers(f, g, members[1..]);
    }
  }

  function Itself(s: String): String { s }

  function RoundTrip(s: String): String { Unescape(Escape(s)) }

  /** The program's own escaping restores intact strings. */
  lemma ProgramCodec(via: Codec)
    requires forall s :: via(s) == RoundTrip(s)
    ensures Through(Escape, Unescape, via) && forall s :: Intact(s) ==> via(s) == Itself(s)
  {
    forall s | Intact(s) ensures via(s) == Itself(s) { RoundTripIff(s); }
  }

  lemma RestoredBy(escape: Codec, unescape: Codec, via: Codec, j: Json, toks: seq<Token>, i: nat)
    requires Restorable(j) && StandsAt(toks, i, Flatten(escape, j))
    requires Through(escape, unescape, via) && forall s :: Intact(s) ==> via(s) == Itself(s)
    ensures i < |toks| && GetValue(unescape, toks, i) == (Meaning(Itself, j), |Flatten(escape, j)|)
  {
    DecodeInverts(escape, unescape, via, j, toks, i);
    SameMeaning(via, Itself, j);
  }

  /** The decoder as the program runs it restores every document of intact
      strings, whatever tokens follow it. */
  lemma DocumentRestored(j: Json, toks: seq<Token>, i: nat)
    requires Restorable(j) && StandsAt(toks, i, Flatten(Escape, j))
    ensures i < |toks| && GetValue(Unescape, toks, i) == (Meaning(Itself, j), |Flatten(Escape, j)|)
  {
    var via: Codec := s => RoundTrip(s);
    ProgramCodec(via);
    RestoredBy(Escape, Unescape, via, j, toks, i);
  }

  /** toObject of an object document, whatever tokens follow it. */
  lemma ToObjectInverts(members: seq<Member>, post: seq<Token>)
    requires Restorable(Obj(members))
    ensures ToObject(Unescape, Flatten(Escape, Obj(members)) + post) == Ok(Collect(MeaningMembers(Itself, members)))
  {
    var toks := Flatten(Escape, Obj(members)) + post;
    DocumentRestored(Obj(members), toks, 0);
    assert toks[0] == Flatten(Escape, Obj(members))[0];
  }

  /** toObject throws exactly when the document is no object. */
  lemma ToObjectThrowsIff(j: Json, post: seq<Token>)
    ensures ToObject(Unescape, Flatten(Escape, j) + post).Throws? <==> !j.Obj?
    ensures ToObject(Unescape, []).Throws?
  {
    assert (Flatten(Escape, j) + post)[0] == Flatten(Escape, j)[0];
    match j
    case Primitive(_) =>
    case Str(_) =>
    case Arr(_) =>
    case Obj(_) =>
  }

  /** On any list of tokens the array loop reads no more values than were
      announced, and fewer only when the tokens run out. */
  lemma {:induction false} ItemsRunOut(unescape: Codec, toks: seq<Token>, at: nat, counts: nat)
    ensures var (items, n) := ReadItems(unescape, toks, at, counts);
            && |items| <= counts && |items| <= n
            && (at <= |toks| ==> at + n <= |toks|)
            && (|items| < counts ==> at + n >= |toks|)
    decreases |toks| - at, 1
  {
    if counts > 0 && at < |toks| {
      ValueRunsOut(unescape, toks, at);
      ItemsRunOut(unescape, toks, at + GetValue(unescape, toks, at).1, counts - 1);
    }
  }

  /** So does the object loop, which also needs a token after the key. */
  lemma {:induction false} MembersRunOut(unescape: Codec, toks: seq<Token>, at: nat, counts: nat)
    ensures var (entries, n) := ReadMembers(unescape, toks, at, counts);
            && |entries| <= counts && 2 * |entries| <= n
            && (at <= |toks| ==> at + n <= |toks|)
            && (|entries| < counts ==> at + n + 1 >= |toks|)
    decreases |toks| - at, 1
  {
    if counts > 0 && at + 1 < |toks| {
      ValueRunsOut(unescape, toks, at + 1);
      MembersRunOut(unescape, toks, at + ReadPair(unescape, toks, at).1, counts - 1);
    }
  }

  /** No value takes tokens that are not there. */
  lemma {:induction false} ValueRunsOut(unescape: Codec, toks: seq<Token>, i: nat)
    requires i < |toks|
    ensures i + GetValue(unescape, toks, i).1 <= |toks|
    decreases |toks| - i, 0
  {
    match toks[i].kind
    case KArray => ItemsRunOut(unescape, toks, i + 1, toks[i].counts);
    case KObject => MembersRunOut(unescape, toks, i + 1, toks[i].counts);
    case KPrimitive =>
    case KString =>
  }

  /** Of equal keys the last one counts, and no other key appears. */
  lemma {:induction false} LastOccurrenceWins(entries: seq<Entry>, key: String)
    ensures key in Collect(entries) <==> exists i :: 0 <= i < |entries| && entries[i].key == key
    ensures forall i :: 0 <= i < |entries| && entries[i].key == key && (forall k :: i < k < |entries| ==> entries[k].key != key)
              ==> key in Collect(entries) && Collect(entries)[key] == entries[i].value
  {
    if entries != [] {
      var front, last := entries[..|entries| - 1], entries[|entries| - 1];
      LastOccurrenceWins(front, key);
      assert key in Collect(entries) <==> key == last.key || key in Collect(front);
      assert forall i :: 0 <= i < |front| ==> entries[i] == front[i];
      assert (exists i :: 0 <= i < |entries| && entries[i].key == key) <==>
             key == last.key || exists i :: 0 <= i < |front| && front[i].key == key;
    }
  }

  lemma {:induction false} MeaningMemberAt(members: seq<Member>, i: nat)
    requires i < |members|
    ensures MeaningMembers(Itself, members)[i] == Entry(members[i].key, Meaning(Itself, members[i].value))
    decreases |members|
  {
    if i > 0 { MeaningMemberAt(members[1..], i - 1); }
  }

  /** Without repeated keys nothing is lost: the decoded object has exactly the
      keys of the document, each with its own value. */
  lemma DistinctKeysKept(members: seq<Member>, key: String)
    requires forall i, k :: 0 <= i < k < |members| ==> members[i].key != members[k].key
    ensures var obj := Collect(MeaningMembers(Itself, members));
            && (key in obj <==> exists i :: 0 <= i < |members| && members[i].key == key)
            && forall i :: 0 <= i < |members| && members[i].key == key
                 ==> key in obj && obj[key] == Meaning(Itself, members[i].value)
  {
    var entries := MeaningMembers(Itself, members);
    forall i | 0 <= i < |members|
      ensures entries[i] == Entry(members[i].key, Meaning(Itself, members[i].value))
    {
      MeaningMemberAt(members, i);
    }
    LastOccurrenceWins(entries, key);
  }
}
