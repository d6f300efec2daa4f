/** Remote2Local and Local2Remote of src/channels/channel_system.cpp: the two
    byte streams of a connector, with their retry loops.

    The outcomes of the system calls a method makes are given to it as a finite
    script; a write that has not finished when the script ends has not returned
    yet, and the stream stands where it is. */
module ChannelStreams {
  import opened MachineInts
  import opened Sequences
  import opened Wrappers
  import opened ConnectorThreads

  datatype WriteStatus = Finished | Failed | Pending

  /** What one readDataTo call answers. */
  datatype SysRead = Bytes(data: seq<byte>) | EndOfFile | Error(retry: bool)

  /** How far the writing loop gets with these outcomes, from pos on. */
  function WriteFrom(len: nat, pos: nat, script: seq<WriteResult>): (r: (WriteStatus, nat))
    requires pos <= len
    ensures pos <= r.1 <= len && (r.0 == Finished <==> r.1 == len)
    ensures r.0 == Failed ==> NotWritten(false) in script
    decreases |script|
  {
    if pos == len then (Finished, pos)
    else if script == [] then (Pending, pos)
    else
      match script[0]
      case Wrote(count) => WriteFrom(len, pos + Min(count, len - pos), script[1..])
      case NotWritten(retry) => if retry then WriteFrom(len, pos, script[1..]) else (Failed, pos)
  }

  /** Where the writer stands after a call with this outcome. */
  function PcAfter(data: seq<byte>, n: nat, status: WriteStatus): WriterPc
  {
    if status == Pending then WWrite(data, n, false) else WTop(false)
  }

  /** The stream after the front buffer was popped and n of its bytes taken. */
  function Written(z: Codec, w: Writer, n: nat, status: WriteStatus): Writer
    requires w.queue != [] && n <= |Inflated(z, w.queue[0])|
  {
    var data := Inflated(z, w.queue[0]);
    w.(queue := w.queue[1..], transfer1 := w.transfer1 + |w.queue[0]|, transfer2 := w.transfer2 + n,
       accepted := w.accepted + data[..n], failed := status == Failed, pc := PcAfter(data, n, status))
  }

  lemma WrittenConserves(z: Codec, w: Writer, n: nat, status: WriteStatus)
    requires Counters(w) && Conserved(z, w) && !w.failed && w.pc == WTop(false)
    requires w.queue != [] && n <= |Inflated(z, w.queue[0])|
    requires status == Finished ==> n == |Inflated(z, w.queue[0])|
    ensures Counters(Written(z, w, n, status)) && Conserved(z, Written(z, w, n, status))
  {
    var data := Inflated(z, w.queue[0]);
    PopConserves(z, w, WWrite(data, 0, false));
    var w1 := w.(queue := w.queue[1..], transfer1 := w.transfer1 + |w.queue[0]|, pc := WWrite(data, 0, false));
    assert data[0..n] == data[..n];
    WriteConserves(z, w1, n);
    var w2 := w1.(pc := WWrite(data, n, false), transfer2 := w.transfer2 + n, accepted := w.accepted + data[..n]);
    MoveConserves(z, w2, PcAfter(data, n, status), w.seenEmpty, status == Failed);
    assert Written(z, w, n, status) == w2.(pc := PcAfter(data, n, status), failed := status == Failed);
  }

  /** An empty front buffer is dropped, and nothing is written. */
  lemma EmptyConserves(z: Codec, w: Writer)
    requires Counters(w) && Conserved(z, w) && !w.failed && w.pc == WTop(false) && w.queue != [] && w.queue[0] == []
    ensures w.(queue := w.queue[1..]) == Written(z, w, 0, Finished)
    ensures Counters(w.(queue := w.queue[1..])) && Conserved(z, w.(queue := w.queue[1..]))
  {
    WrittenConserves(z, w, 0, Finished);
    assert w.accepted + [] == w.accepted;
  }

  /** An entry takes at most the bytes that are left. */
  function Clipped(w: Writer, res: WriteResult): WriteResult
    requires w.pc.WWrite? && w.pc.pos < |w.pc.buf|
  {
    if res.Wrote? then Wrote(Min(res.count, |w.pc.buf| - w.pc.pos)) else res
  }

  predicate Writing(w: Writer) { w.pc.WWrite? && w.pc.pos < |w.pc.buf| && !w.pc.last }

  /** One step of loopWriter in its thread while it writes. */
  ghost predicate WriteStep(z: Codec, c: Threads, c': Threads, res: WriteResult)
  {
    if !Writing(c.w) then c' == c
    else
      var op := WriterStep(Clipped(c.w, res));
      Enabled(c, op) && c' == Step(z, c, op)
  }

  /** The states it goes through with these outcomes. */
  ghost predicate WriteSteps(z: Codec, cs: seq<Threads>, script: seq<WriteResult>)
  {
    |cs| == |script| + 1 && forall i :: 0 <= i < |script| ==> WriteStep(z, cs[i], cs[i + 1], script[i])
  }

  /** A writer that has written up to n. */
  function WrittenUpTo(w: Writer, n: nat, failed: bool): Writer
    requires w.pc.WWrite? && w.pc.pos <= n <= |w.pc.buf|
  {
    w.(pc := if failed then WStop else w.pc.(pos := n), failed := w.failed || failed,
       transfer2 := w.transfer2 + (n - w.pc.pos), accepted := w.accepted + w.pc.buf[w.pc.pos..n])
  }

  /** A stream that has written up to where this outcome says. */
  predicate HasWritten(w': Writer, w: Writer, outcome: (WriteStatus, nat))
  {
    w.pc.WWrite? && w.pc.pos <= outcome.1 <= |w.pc.buf| && w' == WrittenUpTo(w, outcome.1, outcome.0 == Failed)
  }

  lemma WrittenNothing(w: Writer, status: WriteStatus)
    requires w.pc.WWrite? && w.pc.pos <= |w.pc.buf| && status != Failed
    ensures HasWritten(w, w, (status, w.pc.pos))
  {
    assert w.accepted + [] == w.accepted;
  }

  lemma WrittenMore(w': Writer, mid: Writer, w: Writer, m: nat, outcome: (WriteStatus, nat))
    requires w.pc.WWrite? && w.pc.pos <= m <= |w.pc.buf| && mid == WrittenUpTo(w, m, false) && HasWritten(w', mid, outcome)
    ensures HasWritten(w', w, outcome)
  {
    SliceSum(w.accepted, w.pc.buf, w.pc.pos, m, outcome.1);
  }

  /** One outcome: the loop goes on from the new position, or ends. */
  lemma OneStep(z: Codec, c: Threads, c': Threads, res: WriteResult) returns (m: nat)
    requires Writing(c.w) && WriteStep(z, c, c', res)
    ensures c.w.pc.pos + m <= |c.w.pc.buf| && c'.w == WrittenUpTo(c.w, c.w.pc.pos + m, res == NotWritten(false))
    ensures m == if res.Wrote? then Min(res.count, |c.w.pc.buf| - c.w.pc.pos) else 0
  {
    m := if res.Wrote? then Min(res.count, |c.w.pc.buf| - c.w.pc.pos) else 0;
    assert c.w.accepted + [] == c.w.accepted;
  }

  lemma {:induction false} NoSteps(z: Codec, cs: seq<Threads>, script: seq<WriteResult>)
    requires WriteSteps(z, cs, script) && !Writing(cs[0].w)
    ensures cs[|script|] == cs[0]
  {
    if script != [] {
      assert WriteStep(z, cs[0], cs[0 + 1], script[0]);
      NoSteps(z, cs[1..], script[1..]);
    }
  }

  lemma TailOfSteps(z: Codec, cs: seq<Threads>, script: seq<WriteResult>)
    requires WriteSteps(z, cs, script) && script != []
    ensures WriteStep(z, cs[0], cs[1], script[0]) && WriteSteps(z, cs[1..], script[1..])
  {
    assert WriteStep(z, cs[0], cs[0 + 1], script[0]);
    forall i | 0 <= i < |script| - 1 ensures WriteStep(z, cs[1..][i], cs[1..][i + 1], script[1..][i]) {
      assert WriteStep(z, cs[i + 1], cs[i + 1 + 1], script[i + 1]);
    }
  }

  /** The loop inside one writeData call and the single steps of the thread have
      the same effect on the stream. */
  lemma {:induction false} StepsAreOneCall(z: Codec, cs: seq<Threads>, script: seq<WriteResult>)
    requires WriteSteps(z, cs, script)
    requires var pc := cs[0].w.pc; pc.WWrite? && pc.pos <= |pc.buf| && !pc.last
    ensures HasWritten(cs[|script|].w, cs[0].w, WriteFrom(|cs[0].w.pc.buf|, cs[0].w.pc.pos, script))
    decreases |script|
  {
    var w := cs[0].w;
    var (len, pos) := (|w.pc.buf|, w.pc.pos);
    if script == [] || pos == len {
      if script != [] { NoSteps(z, cs, script); }
      WrittenNothing(w, WriteFrom(len, pos, script).0);
    } else {
      TailOfSteps(z, cs, script);
      var m := OneStep(z, cs[0], cs[1], script[0]);
      if script[0] == NotWritten(false) {
        NoSteps(z, cs[1..], script[1..]);
      } else {
        StepsAreOneCall(z, cs[1..], script[1..]);
        WrittenMore(cs[|script|].w, cs[1].w, w, pos + m, WriteFrom(len, pos + m, script[1..]));
      }
    }
  }

  lemma SliceSum(front: seq<byte>, buf: seq<byte>, i: nat, j: nat, k: nat)
    requires i <= j <= k <= |buf|
    ensures front + buf[i..j] + buf[j..k] == front + buf[i..k]
  {
    assert buf[i..j] + buf[j..k] == buf[i..k];
    Regroup(front, buf[i..j], buf[j..k]);
  }

  lemma FreshConserves(z: Codec)
    ensures Counters(Writer(WTop(false), [], 0, 0, [], [], false, 0))
    ensures Conserved(z, Writer(WTop(false), [], 0, 0, [], [], false, 0))
  {
  }

  class Remote2Local {
    var queueBufs: seq<seq<byte>>
    var delay: nat
    var transfer1: nat
    var transfer2: nat
    var error: bool
    const codec: Codec
    ghost var pushed: seq<seq<byte>>
    ghost var accepted: seq<byte>
    /** Where a writeData call that has not returned stands. */
    ghost var pc: WriterPc

    /** The stream as loopWriter sees it. */
    ghost function View(): Writer
      reads this
    {
      Writer(pc, queueBufs, transfer1, transfer2, pushed, accepted, error, 0)
    }

    ghost predicate Valid()
      reads this
    {
      Counters(View()) && Conserved(codec, View())
    }

    constructor (codec: Codec, delay: nat)
      ensures View() == Writer(WTop(false), [], 0, 0, [], [], false, 0)
      ensures this.codec == codec && this.delay == delay && Valid()
    {
      this.codec := codec;
      this.delay := delay;
      queueBufs, transfer1, transfer2, error := [], 0, 0, false;
      pushed, accepted, pc := [], [], WTop(false);
      new;
      FreshConserves(this.codec);
    }

    method IsEmpty() returns (r: bool)
      ensures r <==> queueBufs == []
    {
      r := queueBufs == [];
    }

    method PushData(buf: seq<byte>)
      requires Valid()
      modifies this
      ensures Valid()
      ensures queueBufs == old(queueBufs) + [buf] && pushed == old(pushed) + [buf]
      ensures accepted == old(accepted) && error == old(error) && pc == old(pc)
    {
      PushConserves(codec, View(), buf);
      queueBufs := queueBufs + [buf];
      pushed := pushed + [buf];
    }

    /** The front buffer, or the empty one.  A long queue shortens the delay. */
    method PopData() returns (buf: seq<byte>)
      modifies this`queueBufs, this`delay
      ensures old(queueBufs) == [] ==> buf == [] && queueBufs == [] && delay == old(delay)
      ensures old(queueBufs) != [] ==>
                && [buf] + queueBufs == old(queueBufs)
                && delay == if |old(queueBufs)| > 10 && old(delay) > 10 then old(delay) - 10 else old(delay)
    {
      if queueBufs == [] { return []; }
      if |queueBufs| > 10 {
        if delay > 10 { delay := delay - 10; }
      }
      buf := queueBufs[0];
      queueBufs := queueBufs[1..];
    }

    /** The writing loop.  A script entry takes at most what is left; taking
        nothing is NotWritten. */
    method HandOver(data: seq<byte>, script: seq<WriteResult>) returns (status: WriteStatus, ghost n: nat)
      modifies this`transfer2, this`accepted
      ensures (status, n) == WriteFrom(|data|, 0, script)
      ensures transfer2 == old(transfer2) + n && accepted == old(accepted) + data[..n]
    {
      var writesz, i := 0, 0;
      assert script[0..] == script;
      while writesz < |data|
        invariant 0 <= writesz <= |data| && 0 <= i <= |script|
        invariant WriteFrom(|data|, writesz, script[i..]) == WriteFrom(|data|, 0, script)
        invariant transfer2 == old(transfer2) + writesz && accepted == old(accepted) + data[..writesz]
        decreases |script| - i
      {
        if i == |script| { return Pending, writesz; }
        assert script[i..][1..] == script[i + 1..];
        match script[i] {
          case Wrote(count) =>
            var m := Min(count, |data| - writesz);
            SliceSum(old(accepted), data, 0, writesz, writesz + m);
            assert data[0..writesz] == data[..writesz] && data[0..writesz + m] == data[..writesz + m];
            accepted := accepted + data[writesz..writesz + m];
            writesz := writesz + m;
            transfer2 := transfer2 + m;
          case NotWritten(retry) =>
            if !retry { return Failed, writesz; }
        }
        i := i + 1;
      }
      return Finished, writesz;
    }

    /** Hands the front buffer, inflated, to the descriptor: all of it when the
        call succeeds, a beginning of it otherwise. */
    method WriteData(script: seq<WriteResult>) returns (status: WriteStatus, ghost n: nat)
      requires Valid() && !error && pc == WTop(false)
      modifies this
      ensures Valid()
      ensures old(queueBufs) == [] ==> status == Finished && View() == old(View())
      ensures old(queueBufs) != [] ==>
                && (status, n) == WriteFrom(|Inflated(codec, old(queueBufs)[0])|, 0, script)
                && View() == Written(codec, old(View()), n, status)
    {
      ghost var before := View();
      var buf := PopData();
      if buf == [] {
        if before.queue != [] { EmptyConserves(codec, before); }
        return Finished, 0;
      }
      transfer1 := transfer1 + |buf|;
      var data := codec.inflate(buf);
      status, n := HandOver(data, script);
      error := status == Failed;
      pc := PcAfter(data, n, status);
      WrittenConserves(codec, before, n, status);
    }
  }

  function Resize(buf: seq<byte>, n: nat): (r: seq<byte>)
    ensures |r| == n
  {
    if n <= |buf| then buf[..n] else buf + seq(n - |buf|, _ => 0)
  }

  class Local2Remote {
    var buf: seq<byte>
    var transfer1: nat
    var transfer2: nat
    var blocksz: nat
    const codec: Codec
    ghost var taken: seq<byte>

    constructor (codec: Codec, blocksz: nat)
      ensures buf == [] && transfer1 == 0 && transfer2 == 0 && taken == []
      ensures this.codec == codec && this.blocksz == blocksz
    {
      buf, transfer1, transfer2, taken := [], 0, 0, [];
      this.codec := codec;
      this.blocksz := blocksz;
    }

    /** One chunk from the descriptor.  `input` is the number of bytes that can
        be read, or None when asking for it threw. */
    method ReadData(input: Option<nat>, res: SysRead) returns (ok: bool)
      requires blocksz > 0
      requires input.Some? && res.Bytes? ==> |res.data| <= Min(input.value, blocksz)
      modifies this
      ensures blocksz == old(blocksz)
      ensures ok && input != Some(0) && res.Bytes? ==> res.data != [] && buf == codec.deflate(res.data) && taken == old(taken) + res.data
      ensures ok && (input == Some(0) || !res.Bytes?) ==> buf == [] && taken == old(taken)
      ensures ok <==> input == Some(0) || (input.Some? && ((res.Bytes? && res.data != []) || (res.Error? && res.retry)))
      ensures !ok ==> taken == old(taken) && buf == (if input.None? then old(buf) else Resize(old(buf), Min(input.value, blocksz)))
      ensures transfer1 - old(transfer1) == |taken| - |old(taken)|
      ensures transfer2 - old(transfer2) == if ok then |buf| else 0
    {
      if input.None? { return false; }
      var dtsz := input.value;
      if dtsz == 0 {
        buf := [];
        return true;
      }
      buf := Resize(buf, Min(dtsz, blocksz));
      match res {
        case Bytes(data) =>
          if data == [] { return false; }
          transfer1 := transfer1 + |data|;
          taken := taken + data;
          buf := codec.deflate(data);
          transfer2 := transfer2 + |buf|;
          return true;
        case EndOfFile => return false;
        case Error(retry) =>
          if retry {
            buf := [];
            return true;
          }
          return false;
      }
    }
  }
}
