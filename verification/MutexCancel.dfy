/** What cancel does to the tasks of the coroutine mutex. */
module MutexCancel {
  import opened MachineInts
  import opened Sequences
  import opened AsyncMutex

  /** The timer's cancel wakes every waiting task and touches no other; queue and
      histories stay, and nobody waits any more. */
  lemma CancelWakesAll(s: State, t: nat)
    requires ValidWaiters(s) && s.cancelled && t < |s.pcs|
    ensures var s' := Step(s, CancelTimer);
            && |s'.pcs| == |s.pcs| && s'.waiters == []
            && s'.pcs[t] == (if s.pcs[t] == Waiting then Woken else s.pcs[t])
            && s'.queue == s.queue && s'.registered == s.registered && s'.woken == s.woken && s'.passed == s.passed
  {
  }

  /** Whoever looks at the flag afterwards gives up. */
  lemma CancelledGiveUp(s: State, t: nat)
    requires ValidWaiters(s) && s.cancelled
    ensures At(s, t, Outside) ==> At(Step(s, LoadCancelled(t)), t, Aborted)
    ensures At(s, t, Woken) ==> At(Step(s, Resume(t)), t, Aborted)
    ensures At(s, t, Releasing) ==> At(Step(s, ReloadCancelled(t)), t, Outside)
  {
  }

  /** After cancel nobody takes the lock out of a wait. */
  lemma {:induction false} NobodyPassesAfterCancel(n: nat, run: seq<State>, i: nat, j: nat)
    requires IsRun(n, run) && i <= j < |run| && run[i].cancelled
    ensures run[j].cancelled && run[j].passed == run[i].passed
  {
    if i < j {
      NobodyPassesAfterCancel(n, run, i, j - 1);
      assert Next(run[j - 1], run[j]);
    }
  }

  // ---- the task that comes too late ----

  /** Cancelled, nobody in the loop of unlock, and t waits. */
  predicate Stranded(s: State, t: nat)
  {
    ValidWaiters(s) && s.cancelled && At(s, t, Waiting) && forall u: nat :: u < |s.pcs| ==> s.pcs[u] != Spinning
  }

  ghost predicate NextWithoutCancel(s: State, s': State)
  {
    ValidWaiters(s) && exists op :: Enabled(s, op) && op != CancelTimer && s' == Step(s, op)
  }

  lemma StrandedStep(s: State, op: Op, t: nat)
    requires Stranded(s, t) && Enabled(s, op) && op != CancelTimer
    ensures Stranded(Step(s, op), t)
  {
    var s' := Step(s, op);
    if !op.SetCancelled? && !op.ClearQueue? {
      forall u: nat | u < |s'.pcs| ensures s'.pcs[u] != Spinning { assert s.pcs[u] != Spinning; }
    }
  }

  /** Such a task waits for ever unless cancel is called once more. */
  lemma {:induction false} StrandedForever(run: seq<State>, t: nat, i: nat)
    requires i < |run| && Stranded(run[0], t)
    requires forall k :: 0 < k < |run| ==> NextWithoutCancel(run[k - 1], run[k])
    ensures Stranded(run[i], t)
  {
    if i > 0 {
      StrandedForever(run, t, i - 1);
      assert NextWithoutCancel(run[i - 1], run[i]);
      var op :| Enabled(run[i - 1], op) && op != CancelTimer && run[i] == Step(run[i - 1], op);
      StrandedStep(run[i - 1], op, t);
    }
  }

  /** A task that has joined the queue but not yet registered its wait when cancel
      runs is one: registering then, with nobody in the loop of unlock, strands it. */
  lemma LateWaiterIsStranded(s: State, t: nat)
    requires ValidWaiters(s) && s.cancelled && At(s, t, AboutToWait) && forall u: nat :: u < |s.pcs| ==> s.pcs[u] != Spinning
    ensures Stranded(Step(s, AsyncWait(t)), t)
  {
  }

  /** The state of two tasks of which the first holds the lock and the second has
      joined the queue. */
  predicate HolderAndComer(s: State)
  {
    !s.cancelled && s.queue == 2 && s.waiters == [] && s.pcs == [Holding, AboutToWait]
  }

  lemma TwoTasks() returns (run: seq<State>)
    ensures IsRun(2, run) && HolderAndComer(run[|run| - 1])
  {
    var s0 := Init(2);
    assert s0.pcs == [Outside, Outside];
    var s1 := Step(s0, LoadCancelled(0));
    assert s1.pcs == [Admitted, Outside];
    var s2 := Step(s1, FetchAdd(0));
    assert s2.pcs == [Holding, Outside] && s2.queue == 1;
    var s3 := Step(s2, LoadCancelled(1));
    assert s3.pcs == [Holding, Admitted];
    var s4 := Step(s3, FetchAdd(1));
    assert s4.pcs == [Holding, AboutToWait];
    run := [s0, s1, s2, s3, s4];
    assert Next(s0, s1) && Next(s1, s2) && Next(s2, s3) && Next(s3, s4);
  }

  /** A whole cancel, and then the second task registers its wait. */
  lemma CancelTooEarly(s: State) returns (more: seq<State>)
    requires HolderAndComer(s)
    ensures more != [] && more[0] == s && (forall k :: 0 < k < |more| ==> Next(more[k - 1], more[k]))
    ensures Stranded(more[|more| - 1], 1)
  {
    var s1 := Step(s, SetCancelled);
    var s2 := Step(s1, CancelTimer);
    assert s2.pcs == s.pcs;
    var s3 := Step(s2, ClearQueue);
    var s4 := Step(s3, AsyncWait(1));
    LateWaiterIsStranded(s3, 1);
    more := [s, s1, s2, s3, s4];
    assert Next(s, s1) && Next(s1, s2) && Next(s2, s3) && Next(s3, s4);
  }
}
