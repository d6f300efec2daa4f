/** The worker threads of one connector (loopReader and loopWriter of
    src/channels/channel_system.cpp) under every interleaving with each other,
    with the threads that push received buffers, and with whoever stops the
    connector.

    A system call is a step whose outcome is arbitrary.  Each access to the
    shared flag, to the queue, to a descriptor or to the outgoing stream is a
    separate step. */
module ConnectorThreads {
  import opened MachineInts
  import opened Sequences
  import opened ChannelSystem

  type Bytes = seq<byte>

  /** zlib, as far as the channels rely on it. */
  datatype Codec = Codec(deflate: Bytes -> Bytes, inflate: Bytes -> Bytes)

  ghost predicate InflateUndoesDeflate(z: Codec)
  {
    z.inflate([]) == [] && forall b: Bytes :: z.inflate(z.deflate(b)) == b
  }

  datatype Frame = DataFrame(payload: Bytes) | ErrorFrame | CloseFrame

  /** Positions of loopWriter; `last` marks the draining loop after it. */
  datatype WriterPc =
    | WTop(error: bool)                          // isRunning is next
    | WTest                                      // isEmpty is next
    | WPop(last: bool)                           // popData is next
    | WWrite(buf: Bytes, pos: nat, last: bool)   // writeDataFrom is next
    | WStop                                      // setRunning(false) after a failed write
    | WDrain                                     // isEmpty of the draining loop is next
    | WReport                                    // sendSystemChannelError is next
    | WClose                                     // the close test is next
    | WDone

  /** Positions of loopReader. */
  datatype ReaderPc =
    | RTop(error: bool)
    | RRead
    | RStop(buf: Bytes)                          // setRunning(false) after a failed read
    | RSend(buf: Bytes, error: bool)
    | RReport
    | RClose
    | RDone

  datatype Writer = Writer(
    pc: WriterPc,
    queue: seq<Bytes>,
    transfer1: nat,
    transfer2: nat,
    pushed: seq<Bytes>,     // every buffer given to pushData
    accepted: Bytes,        // every byte the descriptor took
    failed: bool,           // some writeDataFrom failed for good
    seenEmpty: nat)         // |pushed| at the last emptiness test of the draining loop

  datatype Reader = Reader(
    pc: ReaderPc,
    taken: Bytes,           // every byte readDataTo delivered
    failed: bool,           // some read failed or reached the end of the file
    left: Bytes)            // what that read left in the buffer

  datatype Threads = Threads(mode: Mode, running: bool, w: Writer, r: Reader, trace: seq<Frame>)

  datatype WriteResult = Wrote(count: nat) | NotWritten(retry: bool)

  /** A failed read leaves whatever the buffer held; loopReader still sends it. */
  datatype ReadResult = NoInput | Got(bytes: Bytes) | ReadFailed(leftover: Bytes)

  datatype Op =
    | Push(buf: Bytes)
    | Stop
    | WriterStep(wr: WriteResult)
    | ReaderStep(rr: ReadResult)

  /** A connector right after its constructor started the threads of its mode. */
  function Fresh(mode: Mode): Threads
  {
    Threads(mode, true,
              Writer(if mode == ReadOnly then WDone else WTop(false), [], 0, 0, [], [], false, 0),
              Reader(if mode == WriteOnly then RDone else RTop(false), [], false, []), [])
  }

  /** What writeData makes of a popped buffer: the empty one is skipped. */
  function Inflated(z: Codec, buf: Bytes): Bytes { if buf == [] then [] else z.inflate(buf) }

  predicate Enabled(c: Threads, op: Op)
  {
    match op
    case Push(_) => c.mode != ReadOnly
    case Stop => true
    case WriterStep(res) =>
      c.w.pc != WDone && (c.w.pc.WWrite? && res.Wrote? ==>
                            c.w.pc.pos < |c.w.pc.buf| && 0 < res.count <= |c.w.pc.buf| - c.w.pc.pos)
    case ReaderStep(res) => c.r.pc != RDone && (res.Got? ==> res.bytes != [])
  }

  function StepWriter(z: Codec, c: Threads, res: WriteResult): Threads
    requires Enabled(c, WriterStep(res))
  {
    var w := c.w;
    match w.pc
    case WTop(error) =>
      c.(w := w.(pc := if c.running then WTest else if error then WReport else WDrain))
    case WTest => c.(w := w.(pc := if w.queue == [] then WTop(false) else WPop(false)))
    case WPop(last) =>
      var next := if last then WDrain else WTop(false);
      if w.queue == [] then c.(w := w.(pc := next))
      else
        var buf := w.queue[0];
        c.(w := w.(queue := w.queue[1..], transfer1 := w.transfer1 + |buf|,
                   pc := if buf == [] then next else WWrite(z.inflate(buf), 0, last)))
    case WWrite(buf, pos, last) =>
      if pos >= |buf| then c.(w := w.(pc := if last then WDrain else WTop(false)))
      else (match res
            case Wrote(n) =>
              c.(w := w.(pc := WWrite(buf, pos + n, last), transfer2 := w.transfer2 + n,
                         accepted := w.accepted + buf[pos..pos + n]))
            case NotWritten(retry) =>
              if retry then c else c.(w := w.(pc := if last then WClose else WStop, failed := true)))
    case WStop => c.(running := false, w := w.(pc := WTop(true)))
    case WDrain => c.(w := w.(pc := if w.queue == [] then WClose else WPop(true), seenEmpty := |w.pushed|))
    case WReport => c.(w := w.(pc := WClose), trace := c.trace + [ErrorFrame])
    case WClose =>
      c.(w := w.(pc := WDone),
         trace := c.trace + if c.mode != ReadWrite || c.mode == WriteOnly then [CloseFrame] else [])
  }

  function StepReader(z: Codec, c: Threads, res: ReadResult): Threads
    requires Enabled(c, ReaderStep(res))
  {
    var r := c.r;
    match r.pc
    case RTop(error) => c.(r := r.(pc := if c.running then RRead else if error then RReport else RClose))
    case RRead =>
      (match res
       case NoInput => c.(r := r.(pc := RTop(false)))
       case Got(bytes) => c.(r := r.(pc := RSend(z.deflate(bytes), false), taken := r.taken + bytes))
       case ReadFailed(leftover) => c.(r := r.(pc := RStop(leftover), failed := true, left := leftover)))
    case RStop(buf) => c.(running := false, r := r.(pc := RSend(buf, true)))
    case RSend(buf, error) =>
      c.(r := r.(pc := RTop(error)), trace := c.trace + if buf == [] then [] else [DataFrame(buf)])
    case RReport => c.(r := r.(pc := RClose), trace := c.trace + [ErrorFrame])
    case RClose =>
      c.(r := r.(pc := RDone),
         trace := c.trace + if c.mode == ReadWrite || c.mode == ReadOnly then [CloseFrame] else [])
  }

  function Step(z: Codec, c: Threads, op: Op): Threads
    requires Enabled(c, op)
  {
    match op
    case Push(buf) => c.(w := c.w.(queue := c.w.queue + [buf], pushed := c.w.pushed + [buf]))
    case Stop => c.(running := false)
    case WriterStep(res) => StepWriter(z, c, res)
    case ReaderStep(res) => StepReader(z, c, res)
  }

  ghost predicate IsRun(z: Codec, mode: Mode, run: seq<Threads>, ops: seq<Op>)
  {
    && (mode == ReadOnly || mode == WriteOnly || mode == ReadWrite)
    && |run| == |ops| + 1
    && run[0] == Fresh(mode)
    && forall i :: 0 <= i < |ops| ==> Enabled(run[i], ops[i]) && run[i + 1] == Step(z, run[i], ops[i])
  }

  // ---- the writer loses, repeats and reorders nothing ----

  /** The bytes the queued buffers stand for, in order. */
  function Flat(z: Codec, bufs: seq<Bytes>): Bytes
  {
    if bufs == [] then [] else Inflated(z, bufs[0]) + Flat(z, bufs[1..])
  }

  function TotalSize(bufs: seq<Bytes>): nat
  {
    if bufs == [] then 0 else |bufs[0]| + TotalSize(bufs[1..])
  }

  lemma {:induction false} FlatAppend(z: Codec, a: seq<Bytes>, b: seq<Bytes>)
    ensures Flat(z, a + b) == Flat(z, a) + Flat(z, b)
    ensures TotalSize(a + b) == TotalSize(a) + TotalSize(b)
  {
    if a == [] {
      assert a + b == b;
    } else {
      FlatAppend(z, a[1..], b);
      assert (a + b)[0] == a[0] && (a + b)[1..] == a[1..] + b;
      Regroup(Inflated(z, a[0]), Flat(z, a[1..]), Flat(z, b));
    }
  }

  lemma FlatOne(z: Codec, buf: Bytes)
    ensures Flat(z, [buf]) == Inflated(z, buf) && TotalSize([buf]) == |buf|
  {}

  /** Bytes popped but not yet handed over. */
  function Pending(w: Writer): Bytes
  {
    if w.pc.WWrite? && w.pc.pos <= |w.pc.buf| then w.pc.buf[w.pc.pos..] else []
  }

  predicate AfterFailure(pc: WriterPc) { pc == WStop || pc == WTop(true) || pc == WReport || pc == WClose || pc == WDone }

  /** Both byte counters are exact. */
  predicate Counters(w: Writer)
  {
    w.transfer2 == |w.accepted| && w.transfer1 + TotalSize(w.queue) == TotalSize(w.pushed)
  }

  /** Accepted, half-written and queued bytes make up all that was pushed; after
      a failed write the accepted ones are still its beginning. */
  predicate Conserved(z: Codec, w: Writer)
  {
    if w.failed then w.accepted <= Flat(z, w.pushed)
    else w.accepted + Pending(w) + Flat(z, w.queue) == Flat(z, w.pushed)
  }

  /** Where the writer can be, and what it saw when it stopped draining. */
  predicate WriterPlace(z: Codec, c: Threads)
  {
    var w := c.w;
    && (w.failed ==> AfterFailure(w.pc))
    && (w.pc.WWrite? ==> w.pc.pos <= |w.pc.buf|)
    && (w.pc == WTop(true) || w.pc == WReport || w.pc == WStop ==> w.failed)
    && (w.pc == WTop(true) ==> !c.running)
    && w.seenEmpty <= |w.pushed|
    && (!w.failed && (w.pc == WClose || (w.pc == WDone && c.mode != ReadOnly)) ==>
          w.accepted == Flat(z, w.pushed[..w.seenEmpty]))
  }

  lemma PushConserves(z: Codec, w: Writer, buf: Bytes)
    requires Counters(w) && Conserved(z, w)
    ensures var w' := w.(queue := w.queue + [buf], pushed := w.pushed + [buf]);
            Counters(w') && Conserved(z, w')
  {
    FlatAppend(z, w.pushed, [buf]);
    FlatAppend(z, w.queue, [buf]);
    FlatOne(z, buf);
    assert w.accepted + Pending(w) + (Flat(z, w.queue) + Inflated(z, buf)) ==
           (w.accepted + Pending(w) + Flat(z, w.queue)) + Inflated(z, buf);
  }

  lemma PopConserves(z: Codec, w: Writer, pc: WriterPc)
    requires Counters(w) && Conserved(z, w) && !w.failed && Pending(w) == [] && w.queue != []
    requires Pending(w.(pc := pc)) == Inflated(z, w.queue[0])
    ensures var w' := w.(queue := w.queue[1..], transfer1 := w.transfer1 + |w.queue[0]|, pc := pc);
            Counters(w') && Conserved(z, w')
  {
    var w' := w.(queue := w.queue[1..], transfer1 := w.transfer1 + |w.queue[0]|, pc := pc);
    assert Flat(z, w.queue) == Inflated(z, w.queue[0]) + Flat(z, w'.queue);
    assert w.accepted + [] + (Inflated(z, w.queue[0]) + Flat(z, w'.queue)) == w.accepted + Inflated(z, w.queue[0]) + Flat(z, w'.queue);
  }

  lemma WriteConserves(z: Codec, w: Writer, n: nat)
    requires Counters(w) && Conserved(z, w) && !w.failed && w.pc.WWrite?
    requires w.pc.pos + n <= |w.pc.buf|
    ensures var w' := w.(pc := w.pc.(pos := w.pc.pos + n), transfer2 := w.transfer2 + n,
                         accepted := w.accepted + w.pc.buf[w.pc.pos..w.pc.pos + n]);
            Counters(w') && Conserved(z, w')
  {
    HalfWritten(w.accepted, w.pc.buf, w.pc.pos, n, Flat(z, w.queue));
  }

  lemma HalfWritten(accepted: Bytes, buf: Bytes, pos: nat, n: nat, queued: Bytes)
    requires pos + n <= |buf|
    ensures (accepted + buf[pos..pos + n]) + buf[pos + n..] + queued == accepted + buf[pos..] + queued
  {
    assert buf[pos..] == buf[pos..pos + n] + buf[pos + n..];
    Regroup(accepted, buf[pos..pos + n], buf[pos + n..]);
  }

  /** A step that leaves the data alone. */
  lemma MoveConserves(z: Codec, w: Writer, pc: WriterPc, seenEmpty: nat, failed: bool)
    requires Counters(w) && Conserved(z, w)
    requires w.failed ==> failed
    requires failed || Pending(w.(pc := pc)) == Pending(w)
    ensures Counters(w.(pc := pc, seenEmpty := seenEmpty, failed := failed))
    ensures Conserved(z, w.(pc := pc, seenEmpty := seenEmpty, failed := failed))
  {
  }

  predicate MovesData(w: Writer, res: WriteResult)
  {
    (w.pc.WPop? && w.queue != []) || (w.pc.WWrite? && w.pc.pos < |w.pc.buf| && res.Wrote?)
  }

  predicate Moved(w: Writer, w': Writer)
  {
    && w' == w.(pc := w'.pc, seenEmpty := w'.seenEmpty, failed := w'.failed)
    && (w.failed ==> w'.failed)
    && (w'.failed || Pending(w') == Pending(w))
  }

  predicate Popped(z: Codec, w: Writer, w': Writer)
  {
    && w.queue != [] && !w.failed && Pending(w) == [] && Pending(w.(pc := w'.pc)) == Inflated(z, w.queue[0])
    && w' == w.(queue := w.queue[1..], transfer1 := w.transfer1 + |w.queue[0]|, pc := w'.pc)
  }

  predicate WroteSome(w: Writer, w': Writer, n: nat)
  {
    && !w.failed && w.pc.WWrite? && w.pc.pos + n <= |w.pc.buf|
    && w' == w.(pc := w.pc.(pos := w.pc.pos + n), transfer2 := w.transfer2 + n,
                accepted := w.accepted + w.pc.buf[w.pc.pos..w.pc.pos + n])
  }

  /** Each step of the writer moves on, pops a buffer, or writes some bytes. */
  lemma OtherStepShape(z: Codec, c: Threads, res: WriteResult)
    requires WriterPlace(z, c) && Enabled(c, WriterStep(res)) && !MovesData(c.w, res)
    ensures Moved(c.w, Step(z, c, WriterStep(res)).w)
  {
  }

  lemma PopShape(z: Codec, c: Threads, res: WriteResult)
    requires WriterPlace(z, c) && Enabled(c, WriterStep(res)) && c.w.pc.WPop? && c.w.queue != []
    ensures Popped(z, c.w, Step(z, c, WriterStep(res)).w)
  {
  }

  lemma WriteShape(z: Codec, c: Threads, n: nat)
    requires WriterPlace(z, c) && Enabled(c, WriterStep(Wrote(n))) && c.w.pc.WWrite? && c.w.pc.pos < |c.w.pc.buf|
    ensures WroteSome(c.w, Step(z, c, WriterStep(Wrote(n))).w, n)
  {
  }

  predicate Sound(z: Codec, w: Writer) { Counters(w) && Conserved(z, w) }

  lemma MovedSound(z: Codec, w: Writer, w': Writer)
    requires Sound(z, w) && Moved(w, w')
    ensures Sound(z, w')
  {
    MoveConserves(z, w, w'.pc, w'.seenEmpty, w'.failed);
  }

  lemma PoppedSound(z: Codec, w: Writer, w': Writer)
    requires Sound(z, w) && Popped(z, w, w')
    ensures Sound(z, w')
  {
    PopConserves(z, w, w'.pc);
  }

  lemma WroteSound(z: Codec, w: Writer, w': Writer, n: nat)
    requires Sound(z, w) && WroteSome(w, w', n)
    ensures Sound(z, w')
  {
    WriteConserves(z, w, n);
  }

  lemma WriterStepConserves(z: Codec, c: Threads, res: WriteResult)
    requires Counters(c.w) && Conserved(z, c.w) && WriterPlace(z, c) && Enabled(c, WriterStep(res))
    ensures Counters(Step(z, c, WriterStep(res)).w) && Conserved(z, Step(z, c, WriterStep(res)).w)
  {
    var w' := Step(z, c, WriterStep(res)).w;
    if !MovesData(c.w, res) {
      OtherStepShape(z, c, res);
      MovedSound(z, c.w, w');
    } else if c.w.pc.WPop? {
      PopShape(z, c, res);
      PoppedSound(z, c.w, w');
    } else {
      WriteShape(z, c, res.count);
      WroteSound(z, c.w, w', res.count);
    }
  }

  lemma WriterStepPlace(z: Codec, c: Threads, res: WriteResult)
    requires Counters(c.w) && Conserved(z, c.w) && WriterPlace(z, c) && Enabled(c, WriterStep(res))
    ensures WriterPlace(z, Step(z, c, WriterStep(res)))
  {
    var w := c.w;
    if w.pc == WDrain {
      assert w.pushed[..|w.pushed|] == w.pushed;
    }
  }

  lemma PushPlace(z: Codec, c: Threads, buf: Bytes)
    requires WriterPlace(z, c) && Enabled(c, Push(buf))
    ensures WriterPlace(z, Step(z, c, Push(buf)))
  {
    assert (c.w.pushed + [buf])[..c.w.seenEmpty] == c.w.pushed[..c.w.seenEmpty];
  }

  // ---- the reader ----

  function Payloads(trace: seq<Frame>): seq<Bytes>
  {
    if trace == [] then []
    else (if trace[0].DataFrame? then [trace[0].payload] else []) + Payloads(trace[1..])
  }

  lemma {:induction false} PayloadsAppend(a: seq<Frame>, b: seq<Frame>)
    ensures Payloads(a + b) == Payloads(a) + Payloads(b)
  {
    if a == [] {
      assert a + b == b;
    } else {
      PayloadsAppend(a[1..], b);
      assert (a + b)[0] == a[0] && (a + b)[1..] == a[1..] + b;
      Regroup(if a[0].DataFrame? then [a[0].payload] else [], Payloads(a[1..]), Payloads(b));
    }
  }

  /** Bytes read but not yet sent. */
  function Unsent(z: Codec, pc: ReaderPc): Bytes { if pc.RSend? && !pc.error then Inflated(z, pc.buf) else [] }

  /** Payloads that inflate to what was read, and then at most one more: the
      buffer that the failed read left behind. */
  predicate ReadThenLeft(z: Codec, payloads: seq<Bytes>, taken: Bytes, left: Bytes)
  {
    var n := |payloads|;
    if left == [] then Flat(z, payloads) == taken
    else n > 0 && payloads[n - 1] == left && Flat(z, payloads[..n - 1]) == taken
  }

  /** What the payloads sent so far stand for, and where the reader can be. */
  predicate ReaderLaw(z: Codec, running: bool, r: Reader, payloads: seq<Bytes>)
  {
    match r.pc
    case RTop(error) =>
      && r.failed == error
      && (if error then !running && ReadThenLeft(z, payloads, r.taken, r.left) else Flat(z, payloads) == r.taken)
    case RRead => !r.failed && Flat(z, payloads) == r.taken
    case RStop(buf) => r.failed && buf == r.left && Flat(z, payloads) == r.taken
    case RSend(buf, error) =>
      && r.failed == error
      && (if error then !running && buf == r.left && Flat(z, payloads) == r.taken
          else Flat(z, payloads) + Inflated(z, buf) == r.taken)
    case _ => if r.failed then !running && ReadThenLeft(z, payloads, r.taken, r.left) else Flat(z, payloads) == r.taken
  }

  predicate ReaderInv(z: Codec, c: Threads) { ReaderLaw(z, c.running, c.r, Payloads(c.trace)) && (!c.r.failed ==> c.r.left == []) }

  predicate ReaderCloses(mode: Mode) { mode == ReadWrite || mode == ReadOnly }

  /** The frames one step adds to the outgoing stream. */
  function Added(c: Threads, op: Op): seq<Frame>
  {
    match op
    case Push(_) => []
    case Stop => []
    case WriterStep(_) =>
      if c.w.pc == WReport then [ErrorFrame]
      else if c.w.pc == WClose && c.mode != ReadWrite then [CloseFrame]
      else []
    case ReaderStep(_) =>
      if c.r.pc.RSend? && c.r.pc.buf != [] then [DataFrame(c.r.pc.buf)]
      else if c.r.pc == RReport then [ErrorFrame]
      else if c.r.pc == RClose && ReaderCloses(c.mode) then [CloseFrame]
      else []
  }

  lemma StepTrace(z: Codec, c: Threads, op: Op)
    requires Enabled(c, op)
    ensures Step(z, c, op).trace == c.trace + Added(c, op)
  {
    assert c.trace + [] == c.trace;
  }

  /** The payload one step adds. */
  function NewPayload(c: Threads, op: Op): seq<Bytes>
  {
    if op.ReaderStep? && c.r.pc.RSend? && c.r.pc.buf != [] then [c.r.pc.buf] else []
  }

  lemma PayloadsGrow(z: Codec, c: Threads, op: Op)
    requires Enabled(c, op)
    ensures Payloads(Step(z, c, op).trace) == Payloads(c.trace) + NewPayload(c, op)
  {
    StepTrace(z, c, op);
    PayloadsAppend(c.trace, Added(c, op));
  }

  /** Sending a buffer, or skipping the empty one. */
  lemma OneMoreSent(z: Codec, payloads: seq<Bytes>, buf: Bytes, more: seq<Bytes>)
    requires more == if buf == [] then payloads + [] else payloads + [buf]
    ensures Flat(z, more) == Flat(z, payloads) + Inflated(z, buf)
    ensures buf != [] ==> more[|more| - 1] == buf && more[..|more| - 1] == payloads
  {
    FlatAppend(z, payloads, [buf]);
    FlatOne(z, buf);
    assert payloads + [] == payloads && Flat(z, payloads) + [] == Flat(z, payloads);
  }

  lemma SendStep(z: Codec, c: Threads, op: Op, payloads: seq<Bytes>, more: seq<Bytes>)
    requires Enabled(c, op) && op.ReaderStep? && c.r.pc.RSend?
    requires ReaderLaw(z, c.running, c.r, payloads) && (!c.r.failed ==> c.r.left == [])
    requires more == if c.r.pc.buf == [] then payloads + [] else payloads + [c.r.pc.buf]
    ensures ReaderLaw(z, Step(z, c, op).running, Step(z, c, op).r, more)
  {
    OneMoreSent(z, payloads, c.r.pc.buf, more);
  }

  lemma OtherReaderStep(z: Codec, c: Threads, op: Op, payloads: seq<Bytes>)
    requires InflateUndoesDeflate(z) && Enabled(c, op) && op.ReaderStep? && !c.r.pc.RSend?
    requires ReaderLaw(z, c.running, c.r, payloads) && (!c.r.failed ==> c.r.left == [])
    ensures var c' := Step(z, c, op); ReaderLaw(z, c'.running, c'.r, payloads) && (!c'.r.failed ==> c'.r.left == [])
  {
    if c.r.pc == RRead && op.rr.Got? { assert z.inflate(z.deflate(op.rr.bytes)) == op.rr.bytes; }
  }

  /** The other threads leave the reader alone, and nobody starts it again. */
  lemma OthersLeaveReader(z: Codec, c: Threads, op: Op)
    requires Enabled(c, op) && !op.ReaderStep?
    ensures var c' := Step(z, c, op); c'.r == c.r && (c'.running ==> c.running)
  {
  }

  lemma StoppingKeepsLaw(z: Codec, running: bool, running': bool, r: Reader, payloads: seq<Bytes>)
    requires ReaderLaw(z, running, r, payloads) && (running' ==> running)
    ensures ReaderLaw(z, running', r, payloads)
  {
  }

  lemma ReaderStepInv(z: Codec, c: Threads, op: Op)
    requires InflateUndoesDeflate(z) && ReaderInv(z, c) && Enabled(c, op)
    ensures ReaderInv(z, Step(z, c, op))
  {
    var c' := Step(z, c, op);
    var payloads := Payloads(c.trace);
    PayloadsGrow(z, c, op);
    assert payloads + [] == payloads;
    if !op.ReaderStep? {
      OthersLeaveReader(z, c, op);
      StoppingKeepsLaw(z, c.running, c'.running, c.r, payloads);
    } else if c.r.pc.RSend? {
      SendStep(z, c, op, payloads, Payloads(c'.trace));
    } else {
      OtherReaderStep(z, c, op, payloads);
    }
  }

  // ---- closing ----

  function CloseCount(trace: seq<Frame>): nat
  {
    if trace == [] then 0
    else CloseCount(trace[..|trace| - 1]) + if trace[|trace| - 1] == CloseFrame then 1 else 0
  }

  /** No data frame follows a close frame. */
  predicate Orderly(trace: seq<Frame>)
  {
    forall i, j :: 0 <= i < j < |trace| && trace[i] == CloseFrame ==> !trace[j].DataFrame?
  }

  predicate ClosingIsOver(c: Threads)
  {
    if c.mode == WriteOnly then c.w.pc == WDone else c.r.pc == RDone
  }

  predicate CloseInv(c: Threads)
  {
    && (c.mode == ReadOnly || c.mode == WriteOnly || c.mode == ReadWrite)
    && (c.mode == ReadOnly ==> c.w.pc == WDone)
    && (c.mode == WriteOnly ==> c.r.pc == RDone && forall i :: 0 <= i < |c.trace| ==> !c.trace[i].DataFrame?)
    && CloseCount(c.trace) == (if ClosingIsOver(c) then 1 else 0)
    && Orderly(c.trace)
  }

  lemma {:induction false} NoClose(trace: seq<Frame>)
    requires CloseCount(trace) == 0
    ensures forall i :: 0 <= i < |trace| ==> trace[i] != CloseFrame
  {
    if trace != [] {
      var front := trace[..|trace| - 1];
      NoClose(front);
      forall i | 0 <= i < |trace| ensures trace[i] != CloseFrame {
        assert i < |trace| - 1 ==> trace[i] == front[i];
      }
    }
  }

  lemma CloseStep(z: Codec, c: Threads, op: Op)
    requires CloseInv(c) && Enabled(c, op)
    ensures CloseInv(Step(z, c, op))
  {
    StepTrace(z, c, op);
    ClosingMoves(z, c, op);
    var added := Added(c, op);
    if added == [] {
      assert c.trace + [] == c.trace;
    } else {
      assert added == [added[0]];
      FrameAdded(c, Step(z, c, op), added[0]);
    }
  }

  lemma FrameAdded(c: Threads, c': Threads, f: Frame)
    requires CloseInv(c) && c'.mode == c.mode && c'.trace == c.trace + [f]
    requires ClosingIsOver(c') <==> ClosingIsOver(c) || f == CloseFrame
    requires f == CloseFrame ==> !ClosingIsOver(c)
    requires c.mode == ReadOnly ==> c'.w.pc == WDone
    requires c.mode == WriteOnly ==> c'.r.pc == RDone
    requires f.DataFrame? ==> c.mode != WriteOnly && !ClosingIsOver(c)
    ensures CloseInv(c')
  {
    OneMore(c.trace, f);
    if !ClosingIsOver(c) { NoClose(c.trace); }
  }

  lemma OneMore(trace: seq<Frame>, f: Frame)
    ensures CloseCount(trace + [f]) == CloseCount(trace) + if f == CloseFrame then 1 else 0
    ensures Orderly(trace + [f]) <==> Orderly(trace) && (f.DataFrame? ==> forall i :: 0 <= i < |trace| ==> trace[i] != CloseFrame)
  {
    var longer := trace + [f];
    assert longer[..|trace|] == trace;
    if Orderly(longer) {
      assert forall i :: 0 <= i < |trace| ==> longer[i] == trace[i];
      assert longer[|trace|] == f;
    }
  }

  lemma ClosingMoves(z: Codec, c: Threads, op: Op)
    requires CloseInv(c) && Enabled(c, op)
    ensures var c' := Step(z, c, op);
            && c'.mode == c.mode
            && (ClosingIsOver(c') <==> ClosingIsOver(c) || Added(c, op) == [CloseFrame])
            && (Added(c, op) == [CloseFrame] ==> !ClosingIsOver(c))
            && (c.mode == ReadOnly ==> c'.w.pc == WDone)
            && (c.mode == WriteOnly ==> c'.r.pc == RDone)
            && (|Added(c, op)| == 1 && Added(c, op)[0].DataFrame? ==> c.mode != WriteOnly && !ClosingIsOver(c))
  {
  }

  // ---- what holds in every run ----

  predicate Inv(z: Codec, c: Threads)
  {
    Counters(c.w) && Conserved(z, c.w) && WriterPlace(z, c) && CloseInv(c)
  }

  lemma StepInv(z: Codec, c: Threads, op: Op)
    requires Inv(z, c) && Enabled(c, op)
    ensures Inv(z, Step(z, c, op))
  {
    CloseStep(z, c, op);
    match op
    case Push(buf) =>
      PushConserves(z, c.w, buf);
      PushPlace(z, c, buf);
    case WriterStep(res) =>
      WriterStepConserves(z, c, res);
      WriterStepPlace(z, c, res);
    case Stop =>
    case ReaderStep(_) => ReaderLeavesWriter(z, c, op);
  }

  lemma ReaderLeavesWriter(z: Codec, c: Threads, op: Op)
    requires Enabled(c, op) && op.ReaderStep?
    ensures var c' := Step(z, c, op); c'.w == c.w && c'.mode == c.mode && (c'.running ==> c.running)
  {
  }

  /** Before anything happened. */
  predicate IsFresh(c: Threads)
  {
    && c.running && c.trace == []
    && c.w == Writer(c.w.pc, [], 0, 0, [], [], false, 0) && c.w.pc == (if c.mode == ReadOnly then WDone else WTop(false))
    && c.r == Reader(c.r.pc, [], false, []) && c.r.pc == (if c.mode == WriteOnly then RDone else RTop(false))
  }

  lemma FreshInv(z: Codec, c: Threads)
    requires IsFresh(c) && c.mode != Unknown
    ensures Inv(z, c)
  {
    assert c.w.pushed[..0] == [];
  }

  lemma FreshReader(z: Codec, c: Threads)
    requires IsFresh(c)
    ensures ReaderInv(z, c)
  {
  }

  lemma {:induction false} RunInv(z: Codec, mode: Mode, run: seq<Threads>, ops: seq<Op>, i: nat)
    requires IsRun(z, mode, run, ops) && i < |run|
    ensures Inv(z, run[i]) && run[i].mode == mode
  {
    if i > 0 {
      RunInv(z, mode, run, ops, i - 1);
      assert Enabled(run[i - 1], ops[i - 1]) && run[i - 1 + 1] == Step(z, run[i - 1], ops[i - 1]);
      StepInv(z, run[i - 1], ops[i - 1]);
      ClosingMoves(z, run[i - 1], ops[i - 1]);
    }
  }

  lemma {:induction false} RunReaderInv(z: Codec, mode: Mode, run: seq<Threads>, ops: seq<Op>, i: nat)
    requires InflateUndoesDeflate(z) && IsRun(z, mode, run, ops) && i < |run|
    ensures ReaderInv(z, run[i])
  {
    if i > 0 {
      RunReaderInv(z, mode, run, ops, i - 1);
      assert Enabled(run[i - 1], ops[i - 1]) && run[i - 1 + 1] == Step(z, run[i - 1], ops[i - 1]);
      ReaderStepInv(z, run[i - 1], ops[i - 1]);
    }
  }

  lemma ConservedIsPrefix(z: Codec, w: Writer)
    requires Conserved(z, w)
    ensures w.accepted <= Flat(z, w.pushed)
  {
    Regroup(w.accepted, Pending(w), Flat(z, w.queue));
  }

  /** Whatever the pattern of short writes, retries and errors, the descriptor
      has taken a prefix of the pushed buffers in order, and transfer2 counts it. */
  lemma AcceptedIsPrefix(z: Codec, mode: Mode, run: seq<Threads>, ops: seq<Op>, i: nat)
    requires IsRun(z, mode, run, ops) && i < |run|
    ensures run[i].w.accepted <= Flat(z, run[i].w.pushed)
    ensures run[i].w.transfer2 == |run[i].w.accepted|
  {
    RunInv(z, mode, run, ops, i);
    ConservedIsPrefix(z, run[i].w);
  }

  /** When loopWriter has ended without a failed write, the descriptor has taken
      exactly what had been pushed by its last emptiness test. */
  lemma WriterDrains(z: Codec, mode: Mode, run: seq<Threads>, ops: seq<Op>, i: nat)
    requires IsRun(z, mode, run, ops) && i < |run| && mode != ReadOnly
    requires run[i].w.pc == WDone && !run[i].w.failed
    ensures run[i].w.seenEmpty <= |run[i].w.pushed|
    ensures run[i].w.accepted == Flat(z, run[i].w.pushed[..run[i].w.seenEmpty])
  {
    RunInv(z, mode, run, ops, i);
  }

  /** While no read has failed, the payloads of the data frames (and the one
      about to be sent) inflate to exactly the bytes read.  Afterwards they are
      followed by at most one more, the buffer that the failed read left. */
  lemma SentIsRead(z: Codec, mode: Mode, run: seq<Threads>, ops: seq<Op>, i: nat)
    requires InflateUndoesDeflate(z) && IsRun(z, mode, run, ops) && i < |run|
    ensures var r, payloads := run[i].r, Payloads(run[i].trace);
            if !r.failed then Flat(z, payloads) + Unsent(z, r.pc) == r.taken
            else if r.pc.RStop? || r.pc.RSend? then Flat(z, payloads) == r.taken
            else ReadThenLeft(z, payloads, r.taken, r.left)
  {
    RunReaderInv(z, mode, run, ops, i);
    assert Flat(z, Payloads(run[i].trace)) + [] == Flat(z, Payloads(run[i].trace));
  }

  /** The payloads stand for a beginning of what was read followed by what the
      failed read left. */
  lemma SentIsBounded(z: Codec, c: Threads)
    requires ReaderInv(z, c)
    ensures Flat(z, Payloads(c.trace)) <= c.r.taken + Inflated(z, c.r.left)
  {
    var payloads, left := Payloads(c.trace), c.r.left;
    if ReadThenLeft(z, payloads, c.r.taken, left) && left != [] {
      OneMoreSent(z, payloads[..|payloads| - 1], left, payloads);
    }
  }

  predicate NoneEmpty(trace: seq<Frame>) { forall i :: 0 <= i < |trace| && trace[i].DataFrame? ==> trace[i].payload != [] }

  /** The empty buffer is never sent. */
  lemma {:induction false} NoEmptyFrames(z: Codec, mode: Mode, run: seq<Threads>, ops: seq<Op>, i: nat)
    requires IsRun(z, mode, run, ops) && i < |run|
    ensures NoneEmpty(run[i].trace)
  {
    if i > 0 {
      NoEmptyFrames(z, mode, run, ops, i - 1);
      assert Enabled(run[i - 1], ops[i - 1]) && run[i - 1 + 1] == Step(z, run[i - 1], ops[i - 1]);
      StepTrace(z, run[i - 1], ops[i - 1]);
      AddedNotEmpty(run[i - 1].trace, Added(run[i - 1], ops[i - 1]));
    }
  }

  lemma AddedNotEmpty(trace: seq<Frame>, added: seq<Frame>)
    requires NoneEmpty(trace) && NoneEmpty(added)
    ensures NoneEmpty(trace + added)
  {
  }

  /** Once all threads of the connector have ended exactly one close frame was
      sent, in each mode, and no data frame follows it. */
  lemma ClosesOnce(z: Codec, mode: Mode, run: seq<Threads>, ops: seq<Op>, i: nat)
    requires IsRun(z, mode, run, ops) && i < |run|
    ensures CloseCount(run[i].trace) <= 1 && Orderly(run[i].trace)
    ensures run[i].w.pc == WDone && run[i].r.pc == RDone ==> CloseCount(run[i].trace) == 1
  {
    RunInv(z, mode, run, ops, i);
  }

  lemma {:induction false} FlatPrefix(z: Codec, a: seq<Bytes>, b: seq<Bytes>)
    requires a <= b
    ensures Flat(z, a) <= Flat(z, b)
  {
    assert b == a + b[|a|..];
    FlatAppend(z, a, b[|a|..]);
  }
}
