/** Progress of the coroutine mutex: when every task that can take a step takes
    it some day, and every holder unlocks, nobody waits for ever. */
module MutexProgress {
  import opened MachineInts
  import opened Wrappers
  import opened AsyncMutex

  /** An endless run of n tasks; at None nothing happens. */
  datatype Execution = Execution(n: nat, state: nat -> State, op: nat -> Option<Op>)

  ghost predicate StepsAt(x: Execution, i: nat)
  {
    var s := x.state(i);
    && ValidWaiters(s)
    && (match x.op(i)
        case None => x.state(i + 1) == s
        case Some(op) => !op.SetCancelled? && Enabled(s, op) && x.state(i + 1) == Step(s, op))
  }

  /** The mutex is never cancelled. */
  ghost predicate IsExecution(x: Execution)
  {
    x.n < TWO_32 && x.state(0) == Init(x.n) && forall i: nat :: StepsAt(x, i)
  }

  /** Steps that are not put off for ever.  A task may stay away from the mutex,
      but a call of async_lock or unlock goes on, and so does a holder. */
  predicate GoesOn(op: Op)
  {
    !op.LoadCancelled? && !op.SetCancelled? && !op.CancelTimer? && !op.ClearQueue?
  }

  ghost predicate Honoured(x: Execution, i: nat, op: Op)
  {
    exists j: nat :: i <= j && (x.op(j) == Some(op) || !Enabled(x.state(j), op))
  }

  /** Weak fairness: no such step stays possible for ever without being taken. */
  ghost predicate Fair(x: Execution)
  {
    forall i: nat, op: Op :: GoesOn(op) && Enabled(x.state(i), op) ==> Honoured(x, i, op)
  }

  lemma {:induction false} StateInv(x: Execution, i: nat)
    requires IsExecution(x)
    ensures Inv(x.n, x.state(i)) && !x.state(i).cancelled
  {
    if i == 0 {
      InitInv(x.n);
    } else {
      StateInv(x, i - 1);
      assert StepsAt(x, i - 1);
      if x.op(i - 1).Some? { StepInv(x.n, x.state(i - 1), x.op(i - 1).value); }
    }
  }

  lemma {:induction false} StateLater(x: Execution, i: nat, j: nat)
    requires IsExecution(x) && i <= j
    ensures Later(x.state(i), x.state(j))
  {
    if i < j {
      StateLater(x, i, j - 1);
      assert StepsAt(x, j - 1);
      if x.op(j - 1).Some? { StepLater(x.state(j - 1), x.op(j - 1).value); }
      LaterTrans(x.state(i), x.state(j - 1), x.state(j));
    }
  }

  /** A task's next step stays possible whatever the others do. */
  lemma OthersDoNotDisable(n: nat, s: State, other: Op, op: Op)
    requires Inv(n, s) && !s.cancelled && Enabled(s, other) && !other.SetCancelled?
    requires GoesOn(op) && Enabled(s, op) && other != op
    ensures Enabled(Step(s, other), op)
  {
    if other.CancelOne? && s.waiters != [] { assert s.waiters[0] in s.waiters; }
  }

  lemma StaysEnabled(x: Execution, i: nat, op: Op)
    requires IsExecution(x) && GoesOn(op) && Enabled(x.state(i), op) && x.op(i) != Some(op)
    ensures Enabled(x.state(i + 1), op)
  {
    StateInv(x, i);
    assert StepsAt(x, i);
    if x.op(i).Some? { OthersDoNotDisable(x.n, x.state(i), x.op(i).value, op); }
  }

  /** The step stays possible, and is not taken, from i until j. */
  ghost predicate WaitsUntil(x: Execution, i: nat, j: nat, op: Op)
  {
    && i <= j
    && (forall m: nat :: i <= m <= j ==> Enabled(x.state(m), op))
    && (forall m: nat :: i <= m < j ==> x.op(m) != Some(op))
  }

  lemma {:induction false} TakenBy(x: Execution, i: nat, last: nat, op: Op) returns (j: nat)
    requires IsExecution(x) && GoesOn(op) && Enabled(x.state(i), op) && i <= last
    requires x.op(last) == Some(op) || !Enabled(x.state(last), op)
    ensures WaitsUntil(x, i, j, op) && x.op(j) == Some(op)
    decreases last - i
  {
    if x.op(i) == Some(op) { return i; }
    StaysEnabled(x, i, op);
    j := TakenBy(x, i + 1, last, op);
  }

  /** The next time the step is taken; until then it stays possible. */
  lemma Taken(x: Execution, i: nat, op: Op) returns (j: nat)
    requires IsExecution(x) && Fair(x) && GoesOn(op) && Enabled(x.state(i), op)
    ensures WaitsUntil(x, i, j, op) && x.op(j) == Some(op) && Enabled(x.state(j), op)
  {
    assert Honoured(x, i, op);
    var last: nat :| i <= last && (x.op(last) == Some(op) || !Enabled(x.state(last), op));
    j := TakenBy(x, i, last, op);
  }

  // ---- a hand-over happens ----

  /** What the holder, or the carrier of a hand-over, does next. */
  function TokenOp(pc: Pc, t: nat): Op
    requires HasToken(pc)
  {
    match pc
    case Woken => Resume(t)
    case Holding => FetchSub(t)
    case Releasing => ReloadCancelled(t)
    case Spinning => CancelOne(t)
  }

  function Rank(pc: Pc): nat
  {
    match pc
    case Woken => 3
    case Holding => 2
    case Releasing => 1
    case _ => 0
  }

  /** While somebody waits, the token comes closer to cancel_one step by step. */
  lemma TokenAdvances(n: nat, s: State, u: nat)
    requires Inv(n, s) && !s.cancelled && s.waiters != [] && Carries(s, u)
    ensures Enabled(s, TokenOp(s.pcs[u], u))
    ensures var s' := Step(s, TokenOp(s.pcs[u], u));
            if s.pcs[u] == Spinning then |s'.woken| == |s.woken| + 1
            else Carries(s', u) && Rank(s'.pcs[u]) < Rank(s.pcs[u]) && s'.waiters == s.waiters && s'.woken == s.woken
  {
    var w := s.waiters[0];
    assert w in s.waiters && At(s, w, Waiting);
    if s.pcs[u] == Holding {
      assert {u, w} <= Contenders(s);
      SubsetSize({u, w}, Contenders(s));
    }
  }

  lemma HandOverFrom(x: Execution, i: nat, u: nat) returns (j: nat)
    requires IsExecution(x) && Fair(x) && x.state(i).waiters != [] && Carries(x.state(i), u)
    ensures i <= j && HandOvers(x.state(i), x.state(j)) > 0
    decreases Rank(x.state(i).pcs[u])
  {
    StateInv(x, i);
    TokenAdvances(x.n, x.state(i), u);
    var pc := x.state(i).pcs[u];
    var m := Taken(x, i, TokenOp(pc, u));
    StateInv(x, m);
    StateLater(x, i, m);
    assert At(x.state(m), u, pc);
    if HandOvers(x.state(i), x.state(m)) > 0 { return m; }
    PlaceLater(x.state(i), x.state(m), 0);
    TokenAdvances(x.n, x.state(m), u);
    assert StepsAt(x, m);
    if pc == Spinning { return m + 1; }
    j := HandOverFrom(x, m + 1, u);
  }

  lemma NextHandOver(x: Execution, i: nat) returns (j: nat)
    requires IsExecution(x) && Fair(x) && x.state(i).waiters != []
    ensures i <= j && HandOvers(x.state(i), x.state(j)) > 0
  {
    StateInv(x, i);
    var s := x.state(i);
    assert s.waiters[0] in s.waiters && s.waiters[0] in Contenders(s);
    var u :| u in Tokens(s);
    j := HandOverFrom(x, i, u);
  }

  // ---- everybody who registered is woken, and takes the lock ----

  lemma WokenUpTo(x: Execution, i: nat, p: nat) returns (j: nat)
    requires IsExecution(x) && Fair(x) && p < |x.state(i).registered|
    ensures i <= j && p < |x.state(j).woken|
    decreases p - |x.state(i).woken|
  {
    StateInv(x, i);
    if p < |x.state(i).woken| { return i; }
    var m := NextHandOver(x, i);
    StateLater(x, i, m);
    j := WokenUpTo(x, m, p);
  }

  lemma PassedUpTo(x: Execution, i: nat, p: nat) returns (j: nat)
    requires IsExecution(x) && Fair(x) && p < |x.state(i).registered|
    ensures i <= j && p < |x.state(j).passed|
  {
    j := WokenUpTo(x, i, p);
    var s := x.state(j);
    StateInv(x, j);
    if |s.passed| <= p {
      var v := s.woken[|s.woken| - 1];
      var m := Taken(x, j, Resume(v));
      StateInv(x, m);
      StateLater(x, j, m);
      assert At(x.state(m), v, Woken) && StepsAt(x, m);
      j := m + 1;
    }
  }

  /** The moment at which the task at place p of the history took the lock. */
  lemma {:induction false} TookTheLock(x: Execution, i: nat, j: nat, p: nat) returns (m: nat)
    requires IsExecution(x) && i <= j && |x.state(i).passed| <= p < |x.state(j).passed|
    ensures i <= m <= j && At(x.state(m), x.state(j).passed[p], Holding)
    decreases j
  {
    assert StepsAt(x, j - 1);
    if p < |x.state(j - 1).passed| {
      m := TookTheLock(x, i, j - 1, p);
      StateLater(x, j - 1, j);
    } else {
      m := j;
    }
  }

  lemma WaiterGetsLock(x: Execution, i: nat, t: nat) returns (m: nat)
    requires IsExecution(x) && Fair(x) && At(x.state(i), t, Waiting)
    ensures i <= m && At(x.state(m), t, Holding)
  {
    StateInv(x, i);
    var s := x.state(i);
    assert t in s.waiters;
    var k :| 0 <= k < |s.waiters| && s.waiters[k] == t;
    var p := |s.woken| + k;
    var j := PassedUpTo(x, i, p);
    StateInv(x, j);
    StateLater(x, i, j);
    PassedIsRegistered(x.n, s);
    PassedIsRegistered(x.n, x.state(j));
    assert x.state(j).passed[p] == x.state(j).registered[p] == s.registered[p] == t;
    m := TookTheLock(x, i, j, p);
  }

  lemma PassedIsRegistered(n: nat, s: State)
    requires Inv(n, s) && !s.cancelled
    ensures s.passed <= s.woken <= s.registered
  {
    if s.woken != s.passed { assert s.woken == s.passed + [s.woken[|s.woken| - 1]]; }
  }

  /** No starvation: a call of async_lock that found the mutex not cancelled ends
      with the lock, wherever it stands. */
  lemma NoStarvation(x: Execution, i: nat, t: nat)
    requires IsExecution(x) && Fair(x) && t < |x.state(i).pcs|
    requires At(x.state(i), t, Admitted) || At(x.state(i), t, AboutToWait) || At(x.state(i), t, Waiting) || At(x.state(i), t, Woken)
    ensures exists j: nat :: i <= j && At(x.state(j), t, Holding)
  {
    if At(x.state(i), t, Waiting) {
      var j := WaiterGetsLock(x, i, t);
    } else {
      var pc := x.state(i).pcs[t];
      var op := if pc == Admitted then FetchAdd(t) else if pc == AboutToWait then AsyncWait(t) else Resume(t);
      var m := Taken(x, i, op);
      StateInv(x, m);
      assert At(x.state(m), t, pc) && StepsAt(x, m);
      if !At(x.state(m + 1), t, Holding) { NoStarvationFrom(x, m + 1, t); }
    }
  }

  lemma NoStarvationFrom(x: Execution, i: nat, t: nat)
    requires IsExecution(x) && Fair(x) && (At(x.state(i), t, AboutToWait) || At(x.state(i), t, Waiting))
    ensures exists j: nat :: i <= j && At(x.state(j), t, Holding)
  {
    var m := i;
    if At(x.state(i), t, AboutToWait) {
      m := Taken(x, i, AsyncWait(t));
      assert At(x.state(m), t, AboutToWait) && StepsAt(x, m);
      m := m + 1;
    }
    var j := WaiterGetsLock(x, m, t);
  }

  // ---- the loop of unlock ends ----

  /** Step j is the cancel_one that ends the loop: it wakes the oldest waiter. */
  ghost predicate EndsLoop(x: Execution, j: nat, t: nat)
  {
    && x.op(j) == Some(CancelOne(t)) && x.state(j).waiters != []
    && At(x.state(j + 1), t, Outside) && At(x.state(j + 1), x.state(j).waiters[0], Woken)
  }

  lemma CancelOneEnds(x: Execution, j: nat, t: nat)
    requires IsExecution(x) && x.op(j) == Some(CancelOne(t)) && x.state(j).waiters != []
    ensures EndsLoop(x, j, t)
  {
    StateInv(x, j);
    assert StepsAt(x, j);
    assert x.state(j).waiters[0] in x.state(j).waiters;
  }

  /** A task that no longer spins has woken somebody. */
  lemma {:induction false} SpinEnded(x: Execution, i: nat, j: nat, t: nat) returns (m: nat)
    requires IsExecution(x) && i <= j && At(x.state(i), t, Spinning) && !At(x.state(j), t, Spinning)
    ensures i <= m < j && EndsLoop(x, m, t)
    decreases j
  {
    if At(x.state(j - 1), t, Spinning) {
      m := j - 1;
      StateInv(x, m);
      assert StepsAt(x, m);
      if x.op(m) != Some(CancelOne(t)) && x.op(m).Some? {
        OthersDoNotDisable(x.n, x.state(m), x.op(m).value, CancelOne(t));
      }
      CancelOneEnds(x, m, t);
    } else {
      m := SpinEnded(x, i, j - 1, t);
    }
  }

  lemma QueueStaysOnce(n: nat, s: State, op: Op, t: nat)
    requires Inv(n, s) && !s.cancelled && Enabled(s, op) && !op.SetCancelled? && At(s, t, Spinning) && op != CancelOne(t)
    requires s.waiters != []
    ensures Step(s, op).waiters != []
  {
    if op.CancelOne? { OnlyToken(s, t, op.t); }
  }

  /** As long as the unlocker has not called cancel_one, nobody leaves the queue. */
  lemma {:induction false} QueueStays(x: Execution, i: nat, j: nat, t: nat)
    requires IsExecution(x) && WaitsUntil(x, i, j, CancelOne(t)) && x.state(i).waiters != []
    ensures x.state(j).waiters != []
    decreases j
  {
    if i < j {
      QueueStays(x, i, j - 1, t);
      StateInv(x, j - 1);
      assert StepsAt(x, j - 1) && Enabled(x.state(j - 1), CancelOne(t));
      if x.op(j - 1).Some? { QueueStaysOnce(x.n, x.state(j - 1), x.op(j - 1).value, t); }
    }
  }

  /** The loop of unlock ends, and it ends with a hand-over. */
  lemma UnlockEnds(x: Execution, i: nat, t: nat)
    requires IsExecution(x) && Fair(x) && At(x.state(i), t, Spinning)
    ensures exists j: nat :: i <= j && EndsLoop(x, j, t)
  {
    var m := i;
    StateInv(x, i);
    var u := UnlockerHasCompany(x.n, x.state(i), t);
    if At(x.state(i), u, AboutToWait) {
      m := Taken(x, i, AsyncWait(u));
      assert At(x.state(m), u, AboutToWait) && StepsAt(x, m);
      m := m + 1;
    }
    StateInv(x, m);
    assert u in x.state(m).waiters;
    if At(x.state(m), t, Spinning) {
      var j := Taken(x, m, CancelOne(t));
      QueueStays(x, m, j, t);
      CancelOneEnds(x, j, t);
    } else {
      var j := SpinEnded(x, i, m, t);
    }
  }
}
