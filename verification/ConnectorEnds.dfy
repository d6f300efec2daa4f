/** How the threads of a connector end once it has been stopped. */
module ConnectorEnds {
  import opened MachineInts
  import opened ChannelSystem
  import opened ConnectorThreads

  /** The flag of a running connector is cleared by a stop, and by a thread after
      its read or write failed; by nothing else, and nothing sets it again. */
  lemma FlagIsCleared(z: Codec, c: Threads, op: Op)
    requires Enabled(c, op)
    ensures Step(z, c, op).running <==>
            c.running && !op.Stop? && !(op.WriterStep? && c.w.pc == WStop) && !(op.ReaderStep? && c.r.pc.RStop?)
  {
  }

  /** Steps of the reader that are still to come, at most. */
  function ReaderRank(pc: ReaderPc): nat
  {
    match pc
    case RRead => 6
    case RStop(_) => 5
    case RSend(_, _) => 4
    case RTop(_) => 3
    case RReport => 2
    case RClose => 1
    case RDone => 0
  }

  /** Once the flag is cleared each step of the reader brings it closer to its end,
      whatever its reads give, and no step of another thread sets it back. */
  lemma StoppedReaderEnds(z: Codec, c: Threads, op: Op)
    requires !c.running && Enabled(c, op)
    ensures var c' := Step(z, c, op);
            && !c'.running
            && (if op.ReaderStep? then ReaderRank(c'.r.pc) < ReaderRank(c.r.pc) else c'.r == c.r)
  {
  }

  /** Work that the writer has left in its queue. */
  function QueueWork(z: Codec, queue: seq<Bytes>): nat
  {
    if queue == [] then 0 else 4 + |Inflated(z, queue[0])| + QueueWork(z, queue[1..])
  }

  function WriterRank(w: Writer): nat
  {
    match w.pc
    case WStop => 5
    case WTest => 5
    case WWrite(buf, pos, _) => 5 + if pos <= |buf| then |buf| - pos else 0
    case WTop(_) => 4
    case WDrain => 3
    case WPop(_) => if w.queue == [] then 5 else 2
    case WReport => 2
    case WClose => 1
    case WDone => 0
  }

  function WriterWork(z: Codec, w: Writer): nat { QueueWork(z, w.queue) + WriterRank(w) }

  /** Once the flag is cleared and nothing more is pushed, each step of the writer
      leaves less work, unless it only tries a write again. */
  lemma StoppedWriterEnds(z: Codec, c: Threads, res: WriteResult)
    requires !c.running && Enabled(c, WriterStep(res))
    ensures var c' := Step(z, c, WriterStep(res));
            && !c'.running
            && (WriterWork(z, c'.w) < WriterWork(z, c.w) || (c.w.pc.WWrite? && res == NotWritten(true) && c' == c))
  {
    var w := c.w;
    if w.pc.WPop? && w.queue != [] {
      assert QueueWork(z, w.queue) == 4 + |Inflated(z, w.queue[0])| + QueueWork(z, w.queue[1..]);
    }
  }

  /** Reading and stopping do not add to it. */
  lemma OthersAddNoWork(z: Codec, c: Threads, op: Op)
    requires Enabled(c, op) && !op.Push? && !op.WriterStep?
    ensures Step(z, c, op).w == c.w
  {
  }

  // ---- over whole runs ----

  function ReaderSteps(ops: seq<Op>): nat
  {
    if ops == [] then 0 else ReaderSteps(ops[..|ops| - 1]) + if ops[|ops| - 1].ReaderStep? then 1 else 0
  }

  /** Steps of the writer that do not merely repeat a write. */
  function WriterSteps(ops: seq<Op>): nat
  {
    if ops == [] then 0
    else WriterSteps(ops[..|ops| - 1]) + if ops[|ops| - 1].WriterStep? && ops[|ops| - 1].wr != NotWritten(true) then 1 else 0
  }

  ghost predicate Continues(z: Codec, run: seq<Threads>, ops: seq<Op>)
  {
    |run| == |ops| + 1 && forall i :: 0 <= i < |ops| ==> Enabled(run[i], ops[i]) && run[i + 1] == Step(z, run[i], ops[i])
  }

  lemma Shorter(z: Codec, run: seq<Threads>, ops: seq<Op>)
    requires Continues(z, run, ops) && ops != []
    ensures Continues(z, run[..|run| - 1], ops[..|ops| - 1])
    ensures var n := |ops| - 1; Enabled(run[n], ops[n]) && run[n + 1] == Step(z, run[n], ops[n])
  {
    var n := |ops| - 1;
    assert Enabled(run[n], ops[n]);
  }

  /** However the threads take turns, a stopped connector's reader takes at most six
      more steps, and it is at its end when it has taken as many as it can. */
  lemma {:induction false} ReaderIsBounded(z: Codec, run: seq<Threads>, ops: seq<Op>)
    requires Continues(z, run, ops) && !run[0].running
    ensures !run[|ops|].running
    ensures ReaderSteps(ops) + ReaderRank(run[|ops|].r.pc) <= ReaderRank(run[0].r.pc) <= 6
  {
    if ops != [] {
      var n := |ops| - 1;
      Shorter(z, run, ops);
      ReaderIsBounded(z, run[..n + 1], ops[..n]);
      StoppedReaderEnds(z, run[n], ops[n]);
    }
  }

  /** Without further pushes its writer takes no more steps than there is work,
      besides repeated writes. */
  lemma {:induction false} WriterIsBounded(z: Codec, run: seq<Threads>, ops: seq<Op>)
    requires Continues(z, run, ops) && !run[0].running && forall i :: 0 <= i < |ops| ==> !ops[i].Push?
    ensures !run[|ops|].running
    ensures WriterSteps(ops) + WriterWork(z, run[|ops|].w) <= WriterWork(z, run[0].w)
  {
    if ops != [] {
      var n := |ops| - 1;
      Shorter(z, run, ops);
      WriterIsBounded(z, run[..n + 1], ops[..n]);
      StoppedReaderEnds(z, run[n], ops[n]);
      if ops[n].WriterStep? { StoppedWriterEnds(z, run[n], ops[n].wr); } else { OthersAddNoWork(z, run[n], ops[n]); }
    }
  }
}
