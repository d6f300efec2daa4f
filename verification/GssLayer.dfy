/** GssApi::BaseLayer of src/common/ltsm_sockets.cpp: a byte stream cut into
    length-prefixed frames and put together again.

    The layer below is an ordered byte stream: `wire` is what was handed to it,
    `input` what has arrived and was not read yet.  A receiving call that has
    to wait for more input answers None. */
module GssLayer {
  import opened MachineInts
  import opened Sequences
  import opened Wrappers
  import opened ByteOrder
  import opened StreamBuffers

  type Bytes = seq<byte>

  // ---- frames ----

  /** sendLayer: the length is cut to 32 bits. */
  function Frame(payload: Bytes): Bytes { PutBE(ToUint32(|payload|), 4) + payload }

  /** recvLayer: the next payload and the input after it. */
  function Parse(input: Bytes): Option<(Bytes, Bytes)>
  {
    if |input| < 4 then None
    else
      var len := GetBE(input[..4]);
      if |input| - 4 < len then None else Some((input[4..4 + len], input[4 + len..]))
  }

  function Flat(frames: seq<Bytes>): Bytes
  {
    if frames == [] then [] else Flat(frames[..|frames| - 1]) + frames[|frames| - 1]
  }

  function Framed(frames: seq<Bytes>): (r: seq<Bytes>)
    ensures |r| == |frames|
  {
    seq(|frames|, i requires 0 <= i < |frames| => Frame(frames[i]))
  }

  /** The frames as they go over the wire. */
  function WireOf(frames: seq<Bytes>): Bytes { Flat(Framed(frames)) }

  predicate Short(frames: seq<Bytes>) { forall i :: 0 <= i < |frames| ==> |frames[i]| < TWO_32 }

  lemma RadixFour()
    ensures Radix(4) == TWO_32
  {
    assert Radix(1) == TWO_8 && Radix(2) == TWO_16 && Radix(3) == TWO_8 * TWO_16;
  }

  lemma HeaderValue(payload: Bytes)
    ensures |Frame(payload)| == 4 + |payload| && GetBE(Frame(payload)[..4]) == ToUint32(|payload|)
    ensures Frame(payload) == Frame(payload)[..4] + payload
  {
    RadixFour();
    EndianRoundTripIff(ToUint32(|payload|), 4);
    assert Frame(payload)[..4] == PutBE(ToUint32(|payload|), 4);
  }

  /** A frame is parsed back exactly when its length fits the header. */
  lemma FrameRoundTripIff(payload: Bytes, rest: Bytes)
    ensures Parse(Frame(payload) + rest) == Some((payload, rest)) <==> |payload| < TWO_32
  {
    HeaderValue(payload);
    FrameParses(Frame(payload), Frame(payload)[..4], payload, rest, ToUint32(|payload|));
  }

  /** A payload of 2^32 bytes is announced as empty: what parses is the empty
      payload, and its bytes are taken for the next header. */
  lemma HugeFrameIsCut(payload: Bytes)
    requires payload == seq(TWO_32, _ => 0)
    ensures Parse(Frame(payload)) == Some(([], payload))
  {
    HeaderValue(payload);
    ParseAfterHeader(Frame(payload)[..4], payload, 0);
    assert payload[..0] == [] && payload[0..] == payload;
  }

  lemma FrameParses(frame: Bytes, head: Bytes, payload: Bytes, rest: Bytes, len: nat)
    requires frame == head + payload && |head| == 4 && GetBE(head) == len <= |payload|
    ensures Parse(frame + rest) == Some((payload, rest)) <==> len == |payload|
  {
    var body := payload + rest;
    assert frame + rest == head + body;
    ParseAfterHeader(head, body, len);
    assert body[..|payload|] == payload && body[|payload|..] == rest;
  }

  lemma ParseAfterHeader(head: Bytes, body: Bytes, len: nat)
    requires |head| == 4 && GetBE(head) == len
    ensures Parse(head + body) == if |body| < len then None else Some((body[..len], body[len..]))
  {
    var input := head + body;
    assert input[..4] == head;
    if |body| >= len {
      assert input[4..4 + len] == body[..len] && input[4 + len..] == body[len..];
    }
  }

  lemma HeaderIsFrame(head: Bytes, payload: Bytes)
    requires |head| == 4 && GetBE(head) == |payload|
    ensures |payload| < TWO_32 && Frame(payload) == head + payload
  {
    HeaderBack(head, GetBE(head));
    HeaderIsWritten(head, payload);
  }

  lemma HeaderBack(head: Bytes, len: nat)
    requires |head| == 4 && GetBE(head) == len
    ensures len < TWO_32 && PutBE(len, 4) == head
  {
    RadixFour();
    PutOfGet(head);
  }

  lemma HeaderIsWritten(head: Bytes, payload: Bytes)
    requires |payload| < TWO_32 && PutBE(|payload|, 4) == head
    ensures Frame(payload) == head + payload
  {
    assert ToUint32(|payload|) == |payload|;
  }

  /** What was parsed is a frame of that payload followed by the rest. */
  lemma ParseIsFrame(input: Bytes)
    requires Parse(input).Some?
    ensures var (payload, rest) := Parse(input).value; |payload| < TWO_32 && Frame(payload) + rest == input
  {
    var head, len := input[..4], GetBE(input[..4]);
    HeaderIsFrame(head, input[4..4 + len]);
    SliceThree(input, 4, 4 + len);
  }

  lemma SliceThree(s: Bytes, i: nat, k: nat)
    requires i <= k <= |s|
    ensures s[..i] + s[i..k] + s[k..] == s
  {
  }

  lemma {:induction false} FlatAppend(a: seq<Bytes>, b: seq<Bytes>)
    ensures Flat(a + b) == Flat(a) + Flat(b)
  {
    if b == [] {
      assert a + b == a && Flat(a) + [] == Flat(a);
    } else {
      var front, last := b[..|b| - 1], b[|b| - 1];
      FlatAppend(a, front);
      assert (a + b)[..|a + b| - 1] == a + front;
      Regroup(Flat(a), Flat(front), last);
    }
  }

  lemma FlatOne(a: Bytes)
    ensures Flat([a]) == a
  {
    assert [a][..0] == [] && Flat([]) + a == a;
  }

  lemma WireOfAppend(a: seq<Bytes>, b: seq<Bytes>)
    ensures WireOf(a + b) == WireOf(a) + WireOf(b) && Flat(a + b) == Flat(a) + Flat(b)
  {
    assert Framed(a + b) == Framed(a) + Framed(b);
    FlatAppend(Framed(a), Framed(b));
    FlatAppend(a, b);
  }

  lemma WireOfOne(a: Bytes)
    ensures WireOf([a]) == Frame(a)
  {
    assert Framed([a]) == [Frame(a)];
    FlatOne(Frame(a));
  }

  lemma WireOfFirst(frames: seq<Bytes>)
    requires frames != []
    ensures WireOf(frames) == Frame(frames[0]) + WireOf(frames[1..]) && Flat(frames) == frames[0] + Flat(frames[1..])
  {
    assert frames == [frames[0]] + frames[1..];
    WireOfAppend([frames[0]], frames[1..]);
    WireOfOne(frames[0]);
    FlatOne(frames[0]);
  }

  /** The first frame of a wire is found again whatever follows on the wire. */
  lemma FirstFrame(frames: seq<Bytes>, after: Bytes)
    requires frames != [] && |frames[0]| < TWO_32
    ensures Parse(WireOf(frames) + after) == Some((frames[0], WireOf(frames[1..]) + after))
  {
    WireOfFirst(frames);
    FrameRoundTripIff(frames[0], WireOf(frames[1..]) + after);
    Regroup(Frame(frames[0]), WireOf(frames[1..]), after);
  }

  /** Frames read off the start of a wire are the frames written to it; when
      the wire is read out and nothing more parses, they are all of them. */
  lemma {:induction false} FramesAgree(sent: seq<Bytes>, taken: seq<Bytes>, input: Bytes, after: Bytes)
    requires Short(sent) && Short(taken)
    requires WireOf(taken) + (input + after) == WireOf(sent)
    ensures taken <= sent
    ensures after == [] && Parse(input) == None ==> taken == sent
    decreases |taken|
  {
    assert WireOf(sent) + [] == WireOf(sent) && input + [] == input;
    if taken == [] {
      assert WireOf(sent) == input + after;
      if sent != [] { FirstFrame(sent, []); }
    } else {
      FirstFrame(taken, input + after);
      assert sent != [] by {
        if sent == [] { assert false; }
      }
      FirstFrame(sent, []);
      assert WireOf(sent[1..]) + [] == WireOf(sent[1..]);
      FramesAgree(sent[1..], taken[1..], input, after);
      assert taken == [taken[0]] + taken[1..] && sent == [sent[0]] + sent[1..];
    }
  }

  lemma TakenStep(taken: seq<Bytes>, payload: Bytes, rest: Bytes)
    ensures WireOf(taken + [payload]) + rest == WireOf(taken) + (Frame(payload) + rest)
    ensures Flat(taken + [payload]) == Flat(taken) + payload
  {
    WireOfAppend(taken, [payload]);
    WireOfOne(payload);
    FlatOne(payload);
    Regroup(WireOf(taken), Frame(payload), rest);
  }

  lemma SentStep(frames: seq<Bytes>, payload: Bytes)
    ensures WireOf(frames + [payload]) == WireOf(frames) + Frame(payload)
    ensures Flat(frames + [payload]) + [] == Flat(frames) + payload
  {
    WireOfAppend(frames, [payload]);
    WireOfOne(payload);
    FlatOne(payload);
  }

  // ---- the layer ----

  class BaseLayer {
    var sndbuf: Bytes
    var capacity: nat
    const rcvbuf: StreamBuf
    var wire: Bytes
    var input: Bytes
    ghost var sent: Bytes
    ghost var frames: seq<Bytes>
    ghost var arrived: Bytes
    ghost var taken: seq<Bytes>
    ghost var received: Bytes

    /** Everything given to sendRaw is in the frames sent or still buffered. */
    ghost predicate Sends()
      reads this
    {
      && wire == WireOf(frames)
      && sent == Flat(frames) + sndbuf
      && |sndbuf| <= capacity
    }

    /** Everything that arrived is in frames taken or still unread, and every
        byte of those frames was received or is buffered. */
    ghost predicate Receives()
      reads this, rcvbuf
    {
      && rcvbuf.Valid()
      && arrived == WireOf(taken) + input
      && received + rcvbuf.Remaining() == Flat(taken)
      && Short(taken)
    }

    constructor (capacity: nat)
      ensures Sends() && Receives() && fresh(rcvbuf)
      ensures this.capacity == capacity && sent == [] && wire == [] && arrived == [] && received == []
    {
      sndbuf, wire, input := [], [], [];
      this.capacity := capacity;
      rcvbuf := new StreamBuf();
      sent, frames, arrived, taken, received := [], [], [], [], [];
    }

    // ---- sending ----

    /** vector::insert: the capacity grows, by an amount of the library's choice,
        only when the bytes do not fit. */
    method Append(data: Bytes)
      requires |sndbuf| <= capacity
      modifies this`sndbuf, this`capacity
      ensures sndbuf == old(sndbuf) + data && |sndbuf| <= capacity
      ensures |sndbuf| <= old(capacity) ==> capacity == old(capacity)
    {
      sndbuf := sndbuf + data;
      if |sndbuf| > capacity {
        var grown :| grown >= |sndbuf|;
        capacity := grown;
      }
    }

    method SendLayer(payload: Bytes)
      modifies this`wire
      ensures wire == old(wire) + Frame(payload)
    {
      wire := wire + PutBE(ToUint32(|payload|), 4);
      wire := wire + payload;
      assert old(wire) + PutBE(ToUint32(|payload|), 4) + payload == old(wire) + Frame(payload);
    }

    method SendFlush()
      requires Sends()
      modifies this`sndbuf, this`wire, this`frames
      ensures Sends() && sndbuf == []
      ensures frames == old(frames) + [old(sndbuf)]
    {
      SendLayer(sndbuf);
      SentStep(frames, sndbuf);
      frames := frames + [sndbuf];
      sndbuf := [];
    }

    /** A piece that does not fit the buffer fills it up and sends it as one
        frame; the rest of the piece is buffered, however long it is. */
    method SendRaw(data: Bytes)
      requires Sends()
      modifies this`sndbuf, this`capacity, this`wire, this`frames, this`sent
      ensures Sends() && sent == old(sent) + data
      ensures |old(sndbuf)| + |data| <= old(capacity) ==> frames == old(frames) && sndbuf == old(sndbuf) + data
      ensures |old(sndbuf)| + |data| > old(capacity) ==>
                && frames == old(frames) + [old(sndbuf) + data[..old(capacity) - |old(sndbuf)|]]
                && sndbuf == data[old(capacity) - |old(sndbuf)|..]
    {
      if capacity < |sndbuf| + |data| {
        var last := capacity - |sndbuf|;
        Buffer(data[..last]);
        SendFlush();
        Buffer(data[last..]);
        Regroup(old(sent), data[..last], data[last..]);
        assert data[..last] + data[last..] == data;
      } else {
        Buffer(data);
      }
    }

    method Buffer(data: Bytes)
      requires Sends()
      modifies this`sndbuf, this`capacity, this`sent
      ensures Sends() && sent == old(sent) + data && sndbuf == old(sndbuf) + data
      ensures |sndbuf| <= old(capacity) ==> capacity == old(capacity)
    {
      Regroup(Flat(frames), sndbuf, data);
      Append(data);
      sent := sent + data;
    }

    // ---- receiving ----

    /** More bytes come in below. */
    method Arrive(data: Bytes)
      requires Receives()
      modifies this`input, this`arrived
      ensures Receives() && arrived == old(arrived) + data && input == old(input) + data
    {
      assert WireOf(taken) + (input + data) == WireOf(taken) + input + data;
      input, arrived := input + data, arrived + data;
    }

    /** recvLayer, and the append of its result to rcvbuf. */
    method TakeFrame() returns (ok: bool)
      requires Receives()
      modifies this`input, this`taken, rcvbuf
      ensures Receives()
      ensures ok == Parse(old(input)).Some?
      ensures !ok ==> input == old(input) && taken == old(taken) && rcvbuf.Remaining() == old(rcvbuf.Remaining())
      ensures ok ==> (
                var (payload, rest) := Parse(old(input)).value;
                && input == rest && |input| < |old(input)| && taken == old(taken) + [payload]
                && rcvbuf.Remaining() == old(rcvbuf.Remaining()) + payload)
    {
      if |input| < 4 { return false; }
      var len := GetBE(input[..4]);
      if |input| - 4 < len { return false; }
      var payload := input[4..4 + len];
      ParseIsFrame(input);
      Regroup(received, rcvbuf.Remaining(), payload);
      TakenStep(taken, payload, input[4 + len..]);
      rcvbuf.PutRaw(payload);
      taken := taken + [payload];
      input := input[4 + len..];
      ok := true;
    }

    method HasInput() returns (r: Option<bool>)
      requires Receives()
      modifies this`input, this`taken, rcvbuf
      ensures Receives()
      ensures r == if old(rcvbuf.Remaining()) != [] then Some(true)
                   else if old(input) == [] then Some(false)
                   else if Parse(old(input)).Some? then Some(true) else None
      ensures taken == if old(rcvbuf.Remaining()) == [] && Parse(old(input)).Some?
                       then old(taken) + [Parse(old(input)).value.0] else old(taken)
    {
      if rcvbuf.Last() != 0 { return Some(true); }
      if input != [] {
        var ok := TakeFrame();
        return if ok then Some(true) else None;
      }
      r := Some(false);
    }

    method HasData() returns (r: Option<nat>)
      requires Receives()
      modifies this`input, this`taken, rcvbuf
      ensures Receives()
      ensures r.Some? ==> r.value == |rcvbuf.Remaining()|
      ensures r == None <==> old(input) != [] && Parse(old(input)) == None
      ensures taken == if Parse(old(input)).Some? then old(taken) + [Parse(old(input)).value.0] else old(taken)
    {
      if input != [] {
        var ok := TakeFrame();
        if !ok { return None; }
      }
      r := Some(rcvbuf.Last());
    }

    /** The loop of recvRaw: frames are taken until `len` bytes are buffered, and
        no frame that is not needed. */
    method TakeFrames(len: nat) returns (ok: bool)
      requires Receives()
      modifies this`input, this`taken, rcvbuf
      ensures Receives() && arrived == old(arrived) && received == old(received)
      ensures if ok then |rcvbuf.Remaining()| >= len else Parse(input) == None && |rcvbuf.Remaining()| < len
      ensures old(taken) <= taken && (taken != old(taken) ==> |Flat(taken[..|taken| - 1])| < |old(received)| + len)
    {
      while rcvbuf.Last() < len
        invariant Receives() && old(taken) <= taken
        invariant taken != old(taken) ==> |Flat(taken[..|taken| - 1])| < |old(received)| + len
        decreases |input|
      {
        ghost var enough := taken;
        ok := TakeFrame();
        if !ok { return; }
        assert taken[..|taken| - 1] == enough;
      }
      ok := true;
    }

    /** The next `len` bytes, or None while not enough whole frames are there;
        frames taken while waiting stay buffered, and no frame is taken that is
        not needed. */
    method RecvRaw(len: nat) returns (r: Option<Bytes>)
      requires Receives()
      modifies this`input, this`taken, this`received, rcvbuf
      ensures Receives() && arrived == old(arrived)
      ensures r.Some? ==> |r.value| == len && received == old(received) + r.value
      ensures r == None ==> received == old(received) && Parse(input) == None && |rcvbuf.Remaining()| < len
      ensures old(taken) <= taken && (taken != old(taken) ==> |Flat(taken[..|taken| - 1])| < |old(received)| + len)
    {
      var ok := TakeFrames(len);
      if !ok { return None; }
      var data := rcvbuf.GetRaw(len);
      if data.Throws? { assert false; return None; }
      Regroup(received, data.value, rcvbuf.Remaining());
      received := received + data.value;
      r := Some(data.value);
    }
  }

  /** The framing cannot be seen: whatever calls both sides made, the bytes one
      side received are the first bytes that the other side sent and flushed. */
  lemma Transparent(a: BaseLayer, b: BaseLayer)
    requires a.Sends() && b.Receives() && Short(a.frames)
    requires b.arrived <= a.wire
    ensures b.received + b.rcvbuf.Remaining() <= Flat(a.frames)
    ensures b.received <= a.sent
  {
    var after := a.wire[|b.arrived|..];
    Regroup(WireOf(b.taken), b.input, after);
    FramesAgree(a.frames, b.taken, b.input, after);
    WireOfAppend(b.taken, a.frames[|b.taken|..]);
    assert b.taken + a.frames[|b.taken|..] == a.frames;
    assert b.received == Flat(b.taken)[..|b.received|];
  }

  /** Nothing is lost either: once all that was flushed has arrived, a receiver
      that waits for more has been given every byte. */
  lemma Complete(a: BaseLayer, b: BaseLayer)
    requires a.Sends() && b.Receives() && Short(a.frames)
    requires b.arrived == a.wire && Parse(b.input) == None
    ensures b.received + b.rcvbuf.Remaining() == Flat(a.frames)
    ensures a.sent == b.received + b.rcvbuf.Remaining() + a.sndbuf
  {
    assert b.input + [] == b.input;
    FramesAgree(a.frames, b.taken, b.input, []);
  }
}
