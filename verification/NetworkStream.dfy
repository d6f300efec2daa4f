/** The retry loops sendTo and recvFrom of src/common/ltsm_sockets.cpp.

    A call answers with the number of bytes it moved, or with a negative number
    and whether errno asks for another try.  The answers come as a finite
    script; a loop still trying when the script ends is pending. */
module NetworkStream {

  datatype Answer = Answer(moved: int, retry: bool)

  datatype Outcome = Done | Thrown | Pending

  /** How many of `left` bytes are moved, and how the loop ends. */
  function Transfer(left: nat, script: seq<Answer>): (r: (nat, Outcome))
    ensures r.0 <= left && (r.1 == Done ==> r.0 == left) && (r.1 != Done && left > 0 ==> r.0 < left)
  {
    if script == [] then (0, Pending)
    else
      var a := script[0];
      if a.moved == left then (left, Done)
      else if 0 < a.moved < left then
        var (n, end) := Transfer(left - a.moved, script[1..]);
        (a.moved + n, end)
      else if a.moved == 0 then (0, Thrown)
      else if a.retry then Transfer(left, script[1..])
      else (0, Thrown)
  }

  /** Bytes moved by the answers of a script that move any. */
  function Moved(script: seq<Answer>): nat
  {
    if script == [] then 0 else (if script[0].moved > 0 then script[0].moved else 0) + Moved(script[1..])
  }

  /** Interruptions do not matter: a script of positive answers and retries
      that moves `left` bytes in all completes the transfer. */
  lemma {:induction false} TransferCompletes(left: nat, script: seq<Answer>)
    requires left > 0 && Moved(script) == left
    requires forall i :: 0 <= i < |script| ==> script[i].moved > 0 || (script[i].moved < 0 && script[i].retry)
    ensures Transfer(left, script) == (left, Done)
  {
    var a := script[0];
    if a.moved != left {
      TransferCompletes(if a.moved > 0 then left - a.moved else left, script[1..]);
    }
  }

  /** An answer after which the loop tries again, when `left` bytes are missing. */
  predicate GoesOn(a: Answer, left: int) { 0 < a.moved < left || ((a.moved < 0 || left < a.moved) && a.retry) }

  /** All answers of a script do. */
  predicate AllGoOn(left: int, script: seq<Answer>)
    decreases |script|
  {
    script == [] || (GoesOn(script[0], left) && AllGoOn(if 0 < script[0].moved < left then left - script[0].moved else left, script[1..]))
  }

  /** Bytes that they move. */
  function Progress(left: int, script: seq<Answer>): nat
    decreases |script|
  {
    if script == [] then 0
    else if 0 < script[0].moved < left then script[0].moved + Progress(left - script[0].moved, script[1..])
    else Progress(left, script[1..])
  }

  /** How the loop ends: on the first answer after which it does not try again, it
      is done when that answer moves what is missing, and throws otherwise (no
      bytes, or an error that is no interruption); it is pending without one. */
  lemma {:induction false} TransferEnds(left: nat, before: seq<Answer>, rest: seq<Answer>)
    requires AllGoOn(left, before)
    ensures Progress(left, before) <= left
    ensures rest == [] ==> Transfer(left, before + rest) == (Progress(left, before), Pending)
    ensures rest != [] && rest[0].moved == left - Progress(left, before) ==> Transfer(left, before + rest) == (left, Done)
    ensures rest != [] && rest[0].moved != left - Progress(left, before) && !GoesOn(rest[0], left - Progress(left, before)) ==>
              Transfer(left, before + rest) == (Progress(left, before), Thrown)
    decreases |before|
  {
    if before == [] {
      assert before + rest == rest;
    } else {
      var a := before[0];
      assert (before + rest)[0] == a && (before + rest)[1..] == before[1..] + rest;
      TransferEnds(if 0 < a.moved < left then left - a.moved else left, before[1..], rest);
    }
  }

  /** The end of the stream throws, whatever was moved before. */
  lemma EndOfStreamThrows(left: nat, after: seq<Answer>, retry: bool)
    requires left > 0
    ensures Transfer(left, [Answer(0, retry)] + after) == (0, Thrown)
  {
    TransferEnds(left, [], [Answer(0, retry)] + after);
    assert [] + ([Answer(0, retry)] + after) == [Answer(0, retry)] + after;
  }

  /** The bytes the peer was given are the first bytes of the data, in order. */
  method SendTo(data: seq<int>, script: seq<Answer>) returns (sent: seq<int>, end: Outcome)
    ensures sent == data[..Transfer(|data|, script).0] && end == Transfer(|data|, script).1
  {
    var ptr, len, i := 0, |data|, 0;
    sent := [];
    assert script[0..] == script;
    while i < |script|
      invariant i <= |script| && 0 <= ptr <= |data| && len == |data| - ptr && sent == data[..ptr]
      invariant Transfer(|data|, script) ==
                (ptr + Transfer(len, script[i..]).0, Transfer(len, script[i..]).1)
    {
      var a := script[i];
      assert script[i..][0] == a && script[i..][1..] == script[i + 1..];
      i := i + 1;
      if a.moved == len {
        return data, Done;
      }
      if 0 < a.moved < len {
        sent := sent + data[ptr..ptr + a.moved];
        ptr, len := ptr + a.moved, len - a.moved;
        continue;
      }
      if a.moved == 0 { return sent, Thrown; }
      if a.retry { continue; }
      return sent, Thrown;
    }
    end := Pending;
  }

  /** The buffer is filled from its start with the peer's bytes, in order; what
      was not reached keeps its value. */
  method RecvFrom(buf: array<int>, incoming: seq<int>, script: seq<Answer>) returns (got: nat, end: Outcome)
    requires |incoming| >= buf.Length
    modifies buf
    ensures (got, end) == Transfer(buf.Length, script)
    ensures got <= buf.Length && forall k :: 0 <= k < buf.Length ==> buf[k] == if k < got then incoming[k] else old(buf[k])
  {
    ghost var before := buf[..];
    var len, i := buf.Length, 0;
    got := 0;
    assert script[0..] == script;
    while i < |script|
      invariant i <= |script| && got <= buf.Length && len == buf.Length - got
      invariant forall k :: 0 <= k < buf.Length ==> buf[k] == if k < got then incoming[k] else before[k]
      invariant Transfer(buf.Length, script) ==
                (got + Transfer(len, script[i..]).0, Transfer(len, script[i..]).1)
    {
      var a := script[i];
      assert script[i..][0] == a && script[i..][1..] == script[i + 1..];
      i := i + 1;
      if a.moved == len {
        CopyIn(buf, got, len, incoming, before);
        got := got + len;
        return got, Done;
      }
      if 0 < a.moved < len {
        CopyIn(buf, got, a.moved, incoming, before);
        got, len := got + a.moved, len - a.moved;
        continue;
      }
      if a.moved == 0 { return got, Thrown; }
      if a.retry { continue; }
      return got, Thrown;
    }
    end := Pending;
  }

  /** The kernel writes the peer's next n bytes at the pointer. */
  method CopyIn(buf: array<int>, got: nat, n: nat, incoming: seq<int>, ghost before: seq<int>)
    requires got + n <= buf.Length == |before| && |incoming| >= buf.Length
    requires forall k :: 0 <= k < buf.Length ==> buf[k] == if k < got then incoming[k] else before[k]
    modifies buf
    ensures forall k :: 0 <= k < buf.Length ==> buf[k] == if k < got + n then incoming[k] else before[k]
  {
    forall k | got <= k < got + n { buf[k] := incoming[k]; }
  }
}
