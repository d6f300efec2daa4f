/** The error reports of a connector's threads (sendSystemChannelError in
    loopReader and loopWriter of src/channels/channel_system.cpp). */
module ConnectorErrors {
  import opened MachineInts
  import opened ChannelSystem
  import opened ConnectorThreads

  function ErrorCount(trace: seq<Frame>): nat
  {
    if trace == [] then 0
    else ErrorCount(trace[..|trace| - 1]) + if trace[|trace| - 1] == ErrorFrame then 1 else 0
  }

  lemma OneMoreFrame(trace: seq<Frame>, f: Frame)
    ensures ErrorCount(trace + [f]) == ErrorCount(trace) + if f == ErrorFrame then 1 else 0
  {
    assert (trace + [f])[..|trace|] == trace;
  }

  /** A step in which a read fails, or a write outside the draining loop. */
  function Failing(c: Threads, op: Op): nat
  {
    match op
    case WriterStep(res) =>
      if c.w.pc.WWrite? && c.w.pc.pos < |c.w.pc.buf| && !c.w.pc.last && res == NotWritten(false) then 1 else 0
    case ReaderStep(res) => if c.r.pc == RRead && res.ReadFailed? then 1 else 0
    case _ => 0
  }

  /** The writer's and the reader's failures that are not reported yet. */
  function OwedByWriter(pc: WriterPc): nat { if pc == WStop || pc == WTop(true) || pc == WReport then 1 else 0 }

  function OwedByReader(pc: ReaderPc): nat
  {
    if pc.RStop? || pc == RReport || ((pc.RSend? || pc.RTop?) && pc.error) then 1 else 0
  }

  /** A thread that goes back to its loop with an error finds it stopped. */
  predicate StopsOnError(c: Threads)
  {
    (c.w.pc == WTop(true) ==> !c.running) && ((c.r.pc.RSend? || c.r.pc.RTop?) && c.r.pc.error ==> !c.running)
  }

  lemma WriterStepOwes(z: Codec, c: Threads, res: WriteResult)
    requires StopsOnError(c) && Enabled(c, WriterStep(res))
    ensures var c' := Step(z, c, WriterStep(res));
            && StopsOnError(c')
            && OwedByWriter(c'.w.pc) + (if c.w.pc == WReport then 1 else 0) == OwedByWriter(c.w.pc) + Failing(c, WriterStep(res))
            && c'.r == c.r
  {
  }

  lemma ReaderStepOwes(z: Codec, c: Threads, res: ReadResult)
    requires StopsOnError(c) && Enabled(c, ReaderStep(res))
    ensures var c' := Step(z, c, ReaderStep(res));
            && StopsOnError(c')
            && OwedByReader(c'.r.pc) + (if c.r.pc == RReport then 1 else 0) == OwedByReader(c.r.pc) + Failing(c, ReaderStep(res))
            && c'.w == c.w
  {
  }

  lemma OtherStepOwes(z: Codec, c: Threads, op: Op)
    requires StopsOnError(c) && Enabled(c, op) && (op.Push? || op.Stop?)
    ensures var c' := Step(z, c, op); StopsOnError(c') && c'.w.pc == c.w.pc && c'.r == c.r
  {
  }

  lemma AddedErrors(z: Codec, c: Threads, op: Op)
    requires Enabled(c, op)
    ensures ErrorCount(Step(z, c, op).trace) ==
            ErrorCount(c.trace) + if (op.WriterStep? && c.w.pc == WReport) || (op.ReaderStep? && c.r.pc == RReport) then 1 else 0
  {
    StepTrace(z, c, op);
    var added := Added(c, op);
    if added == [] {
      assert c.trace + [] == c.trace;
    } else {
      assert added == [added[0]];
      OneMoreFrame(c.trace, added[0]);
    }
  }

  function Owed(c: Threads): nat { OwedByWriter(c.w.pc) + OwedByReader(c.r.pc) }

  /** Failures are reported once: each step moves one from owed to sent, or adds one. */
  lemma StepReports(z: Codec, c: Threads, op: Op)
    requires StopsOnError(c) && Enabled(c, op)
    ensures var c' := Step(z, c, op);
            && StopsOnError(c')
            && ErrorCount(c'.trace) + Owed(c') == ErrorCount(c.trace) + Owed(c) + Failing(c, op)
  {
    AddedErrors(z, c, op);
    match op
    case WriterStep(res) => WriterStepOwes(z, c, res);
    case ReaderStep(res) => ReaderStepOwes(z, c, res);
    case _ => OtherStepOwes(z, c, op);
  }

  /** The failures of the first n steps of a run. */
  ghost function Failures(z: Codec, mode: Mode, run: seq<Threads>, ops: seq<Op>, n: nat): nat
    requires IsRun(z, mode, run, ops) && n <= |ops|
  {
    if n == 0 then 0 else Failures(z, mode, run, ops, n - 1) + Failing(run[n - 1], ops[n - 1])
  }

  lemma {:induction false} ReportsAddUp(z: Codec, mode: Mode, run: seq<Threads>, ops: seq<Op>, n: nat)
    requires IsRun(z, mode, run, ops) && n <= |ops|
    ensures StopsOnError(run[n]) && ErrorCount(run[n].trace) + Owed(run[n]) == Failures(z, mode, run, ops, n)
  {
    if n > 0 {
      ReportsAddUp(z, mode, run, ops, n - 1);
      assert Enabled(run[n - 1], ops[n - 1]) && run[n - 1 + 1] == Step(z, run[n - 1], ops[n - 1]);
      StepReports(z, run[n - 1], ops[n - 1]);
    }
  }

  /** In every run at most as many errors were reported as reads failed, and
      writes outside the draining loop; once both threads have ended, exactly as
      many. */
  lemma FailuresAreReported(z: Codec, mode: Mode, run: seq<Threads>, ops: seq<Op>, n: nat)
    requires IsRun(z, mode, run, ops) && n <= |ops|
    ensures ErrorCount(run[n].trace) <= Failures(z, mode, run, ops, n)
    ensures run[n].w.pc == WDone && run[n].r.pc == RDone ==> ErrorCount(run[n].trace) == Failures(z, mode, run, ops, n)
  {
    ReportsAddUp(z, mode, run, ops, n);
  }
}
