/** The coroutine mutex of src/common/ltsm_async_mutex.h.

    Every atomic access of async_lock, unlock and cancel is one step, taken by
    any task at any moment.  The timer's wait queue is FIFO, as asio documents
    for cancel_one. */
module AsyncMutex {
  import opened MachineInts
  import opened Sequences

  /** Where a task stands between two atomic accesses. */
  datatype Pc =
    | Outside      // not in async_lock, does not hold the lock
    | Admitted     // saw cancelled_ == false, fetch_add is next
    | AboutToWait  // counted in queue_, async_wait is next
    | Waiting      // registered with the timer
    | Woken        // its wait was cancelled, re-check of cancelled_ is next
    | Holding      // async_lock returned
    | Releasing    // fetch_sub saw other tasks, read of cancelled_ is next
    | Spinning     // in the cancel_one loop of unlock
    | Aborted      // async_lock threw operation_aborted

  datatype Op =
    | LoadCancelled(t: nat)
    | FetchAdd(t: nat)
    | AsyncWait(t: nat)
    | Resume(t: nat)
    | FetchSub(t: nat)
    | ReloadCancelled(t: nat)
    | CancelOne(t: nat)
    | SetCancelled
    | CancelTimer
    | ClearQueue

  /** The shared words, the task positions, and three histories: who registered
      with the timer, whom cancel_one woke, and who took the lock after a wait. */
  datatype State = State(
    queue: uint32,
    cancelled: bool,
    waiters: seq<nat>,
    pcs: seq<Pc>,
    registered: seq<nat>,
    woken: seq<nat>,
    passed: seq<nat>)

  predicate At(s: State, t: nat, pc: Pc) { t < |s.pcs| && s.pcs[t] == pc }

  predicate ValidWaiters(s: State) { forall i :: 0 <= i < |s.waiters| ==> s.waiters[i] < |s.pcs| }

  predicate Enabled(s: State, op: Op)
  {
    match op
    case LoadCancelled(t) => At(s, t, Outside)
    case FetchAdd(t) => At(s, t, Admitted)
    case AsyncWait(t) => At(s, t, AboutToWait)
    case Resume(t) => At(s, t, Woken)
    case FetchSub(t) => At(s, t, Holding)
    case ReloadCancelled(t) => At(s, t, Releasing)
    case CancelOne(t) => At(s, t, Spinning)
    case SetCancelled => true
    case CancelTimer => s.cancelled
    case ClearQueue => s.cancelled
  }

  function WakeAll(pcs: seq<Pc>): (r: seq<Pc>)
    ensures |r| == |pcs|
  {
    seq(|pcs|, i requires 0 <= i < |pcs| => if pcs[i] == Waiting then Woken else pcs[i])
  }

  function Step(s: State, op: Op): State
    requires ValidWaiters(s) && Enabled(s, op)
  {
    match op
    case LoadCancelled(t) => s.(pcs := s.pcs[t := if s.cancelled then Aborted else Admitted])
    case FetchAdd(t) =>
      s.(queue := ToUint32(s.queue + 1), pcs := s.pcs[t := if 0 < s.queue then AboutToWait else Holding])
    case AsyncWait(t) =>
      s.(waiters := s.waiters + [t], registered := s.registered + [t], pcs := s.pcs[t := Waiting])
    case Resume(t) =>
      if s.cancelled then s.(pcs := s.pcs[t := Aborted])
      else s.(pcs := s.pcs[t := Holding], passed := s.passed + [t])
    case FetchSub(t) =>
      s.(queue := ToUint32(s.queue - 1), pcs := s.pcs[t := if 1 < s.queue then Releasing else Outside])
    case ReloadCancelled(t) => s.(pcs := s.pcs[t := if s.cancelled then Outside else Spinning])
    case CancelOne(t) =>
      if s.waiters == [] then s
      else s.(waiters := s.waiters[1..], woken := s.woken + [s.waiters[0]],
              pcs := s.pcs[t := Outside][s.waiters[0] := Woken])
    case SetCancelled => s.(cancelled := true)
    case CancelTimer => s.(waiters := [], pcs := WakeAll(s.pcs))
    case ClearQueue => s.(queue := 0)
  }

  /** n tasks, none of which has started. */
  function Init(n: nat): State { State(0, false, [], seq(n, _ => Outside), [], [], []) }

  ghost predicate Next(s: State, s': State)
  {
    ValidWaiters(s) && exists op :: Enabled(s, op) && s' == Step(s, op)
  }

  ghost predicate IsRun(n: nat, run: seq<State>)
  {
    && |run| > 0
    && run[0] == Init(n)
    && forall i :: 0 < i < |run| ==> Next(run[i - 1], run[i])
  }

  // ---- the token invariant ----

  /** Tasks that queue_ counts. */
  predicate Counted(pc: Pc) { pc == AboutToWait || pc == Waiting || pc == Woken || pc == Holding }

  /** The holder, or the party that carries the hand-over. */
  predicate HasToken(pc: Pc) { pc == Woken || pc == Holding || pc == Releasing || pc == Spinning }

  predicate Carries(s: State, t: nat) { t < |s.pcs| && HasToken(s.pcs[t]) }

  ghost function Contenders(s: State): set<nat> { set t: nat | t < |s.pcs| && Counted(s.pcs[t]) }

  ghost function Tokens(s: State): set<nat> { set t: nat | t < |s.pcs| && HasToken(s.pcs[t]) }

  /** At most one token, and one exactly when queue_ is positive. */
  ghost predicate TokenLaw(s: State)
  {
    |Tokens(s)| == if s.queue > 0 then 1 else 0
  }

  ghost predicate QueueLaw(s: State)
  {
    && Distinct(s.waiters)
    && (forall t: nat :: t in s.waiters <==> At(s, t, Waiting))
  }

  /** Registration order is wake order is acquisition order. */
  ghost predicate OrderLaw(s: State)
  {
    && s.registered == s.woken + s.waiters
    && (forall t: nat :: At(s, t, Woken) ==> s.woken == s.passed + [t])
    && (s.woken != s.passed ==> |s.woken| > 0 && At(s, s.woken[|s.woken| - 1], Woken))
  }

  /** queue_ counts the contenders, and there is one token when it is positive. */
  ghost predicate CountLaw(s: State)
  {
    s.queue == |Contenders(s)| && TokenLaw(s)
  }

  ghost predicate Inv(n: nat, s: State)
  {
    && |s.pcs| == n < TWO_32
    && ValidWaiters(s)
    && (!s.cancelled ==> CountLaw(s) && QueueLaw(s) && OrderLaw(s))
  }

  // ---- every step keeps the invariant ----

  function Bit(b: bool): nat { if b then 1 else 0 }

  /** Effect of moving one task on the two counts. */
  lemma MoveTask(s: State, s': State, t: nat)
    requires t < |s.pcs| == |s'.pcs| && s'.pcs == s.pcs[t := s'.pcs[t]]
    ensures |Contenders(s')| == |Contenders(s)| - Bit(Counted(s.pcs[t])) + Bit(Counted(s'.pcs[t]))
    ensures |Tokens(s')| == |Tokens(s)| - Bit(HasToken(s.pcs[t])) + Bit(HasToken(s'.pcs[t]))
  {
    forall u: nat | u < |s.pcs| && u != t ensures s'.pcs[u] == s.pcs[u] {}
    SameButOne(Contenders(s), Contenders(s'), t);
    SameButOne(Tokens(s), Tokens(s'), t);
  }

  lemma SameButOne(a: set<nat>, b: set<nat>, t: nat)
    requires forall u: nat :: u != t ==> (u in a <==> u in b)
    ensures |b| == |a| - Bit(t in a) + Bit(t in b)
  {
    assert a - {t} == b - {t};
    RemoveSize(a, t);
    RemoveSize(b, t);
  }

  lemma RemoveSize(a: set<nat>, t: nat)
    ensures |a| == |a - {t}| + Bit(t in a)
  {
    if t in a { assert a == (a - {t}) + {t}; } else { assert a == a - {t}; }
  }

  lemma OnlyToken(s: State, t: nat, u: nat)
    requires TokenLaw(s) && t < |s.pcs| && u < |s.pcs| && HasToken(s.pcs[t]) && HasToken(s.pcs[u])
    ensures t == u && s.queue > 0
  {
    assert t in Tokens(s);
    if t != u {
      assert {t, u} <= Tokens(s);
      SubsetSize({t, u}, Tokens(s));
    }
  }

  lemma SubsetSize<T>(a: set<T>, b: set<T>)
    requires a <= b
    ensures |a| <= |b|
  {
    assert b == a + (b - a);
  }

  /** A task that is not counted leaves room in the 32-bit counter. */
  lemma {:induction false} ContendersBound(s: State, t: nat)
    requires t < |s.pcs| && t !in Contenders(s)
    ensures |Contenders(s)| < |s.pcs|
  {
    var all := Indices(|s.pcs|);
    SubsetSize(Contenders(s) + {t}, all);
  }

  ghost function Indices(n: nat): (r: set<nat>)
    ensures |r| == n
    ensures forall u: nat :: u in r <==> u < n
  {
    if n == 0 then {} else Indices(n - 1) + {n - 1}
  }

  lemma InitInv(n: nat)
    requires n < TWO_32
    ensures Inv(n, Init(n))
  {
    assert Contenders(Init(n)) == {} && Tokens(Init(n)) == {};
  }

  lemma CountStep(s: State, op: Op)
    requires |s.pcs| < TWO_32 && ValidWaiters(s) && Enabled(s, op)
    requires !s.cancelled && !op.SetCancelled? && CountLaw(s) && QueueLaw(s)
    ensures CountLaw(Step(s, op))
  {
    var s' := Step(s, op);
    var t := op.t;
    if op.CancelOne? {
      if s.waiters != [] { CountCancelOne(s, t); }
    } else {
      MoveTask(s, s', t);
      if HasToken(s.pcs[t]) { OnlyToken(s, t, t); }
      if op.FetchAdd? { ContendersBound(s, t); }
    }
  }

  lemma CountCancelOne(s: State, t: nat)
    requires ValidWaiters(s) && At(s, t, Spinning) && s.waiters != [] && CountLaw(s) && QueueLaw(s)
    ensures CountLaw(Step(s, CancelOne(t)))
  {
    var u := s.waiters[0];
    assert u in s.waiters && At(s, u, Waiting);
    var mid := s.(pcs := s.pcs[t := Outside]);
    MoveTask(s, mid, t);
    MoveTask(mid, Step(s, CancelOne(t)), u);
    OnlyToken(s, t, t);
  }

  /** Positions of the other tasks do not change. */
  lemma MoveAt(s: State, s': State, t: nat)
    requires t < |s.pcs| == |s'.pcs| && s'.pcs == s.pcs[t := s'.pcs[t]]
    ensures forall u: nat, pc {:trigger At(s', u, pc)} :: At(s', u, pc) <==> if u == t then s'.pcs[t] == pc else At(s, u, pc)
  {}

  lemma OrderStep(s: State, op: Op)
    requires ValidWaiters(s) && Enabled(s, op)
    requires !s.cancelled && !op.SetCancelled? && TokenLaw(s) && QueueLaw(s) && OrderLaw(s)
    ensures QueueLaw(Step(s, op)) && OrderLaw(Step(s, op))
  {
    if op.CancelOne? {
      if s.waiters != [] { OrderCancelOne(s, op.t); }
    } else if op.Resume? {
      OrderResume(s, op.t);
    } else if op.AsyncWait? {
      OrderAsyncWait(s, op.t);
    } else {
      MoveAt(s, Step(s, op), op.t);
    }
  }

  lemma OrderAsyncWait(s: State, t: nat)
    requires ValidWaiters(s) && At(s, t, AboutToWait) && QueueLaw(s) && OrderLaw(s)
    ensures QueueLaw(Step(s, AsyncWait(t))) && OrderLaw(Step(s, AsyncWait(t)))
  {
    MoveAt(s, Step(s, AsyncWait(t)), t);
    assert t !in s.waiters;
    assert s.registered + [t] == s.woken + (s.waiters + [t]);
  }

  lemma OrderResume(s: State, t: nat)
    requires ValidWaiters(s) && At(s, t, Woken) && !s.cancelled && TokenLaw(s) && QueueLaw(s) && OrderLaw(s)
    ensures QueueLaw(Step(s, Resume(t))) && OrderLaw(Step(s, Resume(t)))
  {
    MoveAt(s, Step(s, Resume(t)), t);
    forall u: nat | At(s, u, Woken) ensures u == t { OnlyToken(s, t, u); }
  }

  lemma OrderCancelOne(s: State, t: nat)
    requires ValidWaiters(s) && At(s, t, Spinning) && s.waiters != [] && TokenLaw(s) && QueueLaw(s) && OrderLaw(s)
    ensures QueueLaw(Step(s, CancelOne(t))) && OrderLaw(Step(s, CancelOne(t)))
  {
    var u := s.waiters[0];
    assert u in s.waiters && At(s, u, Waiting);
    var mid := s.(pcs := s.pcs[t := Outside]);
    var s' := Step(s, CancelOne(t));
    MoveAt(s, mid, t);
    MoveAt(mid, s', u);
    forall v: nat | At(s, v, Woken) ensures false { OnlyToken(s, t, v); }
    PopFront(s.waiters, s.woken);
    forall v: nat ensures v in s'.waiters <==> At(s', v, Waiting) {
      assert v in s.waiters <==> v == u || v in s'.waiters;
    }
  }

  /** The first of a queue of distinct tasks moves to the end of a history. */
  lemma PopFront(q: seq<nat>, history: seq<nat>)
    requires q != [] && Distinct(q)
    ensures Distinct(q[1..]) && q[0] !in q[1..]
    ensures forall v: nat :: v in q <==> v == q[0] || v in q[1..]
    ensures history + [q[0]] + q[1..] == history + q
  {
    assert q == [q[0]] + q[1..];
  }

  lemma StepInv(n: nat, s: State, op: Op)
    requires Inv(n, s) && Enabled(s, op)
    ensures Inv(n, Step(s, op))
  {
    if !s.cancelled && !op.SetCancelled? {
      CountStep(s, op);
      OrderStep(s, op);
    }
  }

  // ---- what holds in every run ----

  /** Every state of every run satisfies the invariant. */
  lemma {:induction false} RunInv(n: nat, run: seq<State>, i: nat)
    requires n < TWO_32 && IsRun(n, run) && i < |run|
    ensures Inv(n, run[i])
  {
    if i == 0 {
      InitInv(n);
    } else {
      RunInv(n, run, i - 1);
      assert Next(run[i - 1], run[i]);
      var op :| Enabled(run[i - 1], op) && run[i] == Step(run[i - 1], op);
      StepInv(n, run[i - 1], op);
    }
  }

  /** Until cancel, no two tasks hold the lock or carry a hand-over at once,
      and somebody does exactly while queue_ is positive. */
  lemma MutualExclusion(n: nat, run: seq<State>, i: nat)
    requires n < TWO_32 && IsRun(n, run) && i < |run| && !run[i].cancelled
    ensures forall t: nat, u: nat :: Carries(run[i], t) && Carries(run[i], u) ==> t == u
    ensures run[i].queue > 0 <==> exists t: nat :: Carries(run[i], t)
  {
    RunInv(n, run, i);
    var s := run[i];
    forall t: nat, u: nat | Carries(s, t) && Carries(s, u) ensures t == u { OnlyToken(s, t, u); }
    if s.queue > 0 {
      var t :| t in Tokens(s);
      assert Carries(s, t);
    } else {
      forall t: nat | Carries(s, t) ensures false { OnlyToken(s, t, t); }
    }
  }

  /** Until cancel, queue_ is the number of tasks that hold, wait or are about
      to wait: the 32-bit counter never wraps. */
  lemma QueueIsExact(n: nat, run: seq<State>, i: nat)
    requires n < TWO_32 && IsRun(n, run) && i < |run| && !run[i].cancelled
    ensures run[i].queue == |Contenders(run[i])| <= n
  {
    RunInv(n, run, i);
    SubsetSize(Contenders(run[i]), Indices(n));
  }

  /** An unlocker that looks for somebody to wake is not alone. */
  lemma UnlockerHasCompany(n: nat, s: State, t: nat) returns (u: nat)
    requires Inv(n, s) && !s.cancelled && (At(s, t, Releasing) || At(s, t, Spinning))
    ensures u != t && (At(s, u, Waiting) || At(s, u, AboutToWait))
  {
    OnlyToken(s, t, t);
    u :| u in Contenders(s);
    if At(s, u, Holding) || At(s, u, Woken) { OnlyToken(s, t, u); }
  }

  /** No lost wake-up: an unlocker that looks for somebody to wake always has a
      task that waits or will wait, so the loop of unlock can end. */
  lemma NoLostWakeUp(n: nat, run: seq<State>, i: nat, t: nat)
    requires n < TWO_32 && IsRun(n, run) && i < |run| && !run[i].cancelled
    requires At(run[i], t, Releasing) || At(run[i], t, Spinning)
    ensures exists u: nat :: u != t && (At(run[i], u, Waiting) || At(run[i], u, AboutToWait))
  {
    RunInv(n, run, i);
    var u := UnlockerHasCompany(n, run[i], t);
  }

  /** The lock passes in wait-registration order: the tasks that took the lock
      after a wait are, in order, the first ones that registered. */
  lemma FifoHandOver(n: nat, run: seq<State>, i: nat)
    requires n < TWO_32 && IsRun(n, run) && i < |run| && !run[i].cancelled
    ensures run[i].passed <= run[i].woken <= run[i].registered
    ensures |run[i].woken| <= |run[i].passed| + 1
    ensures run[i].registered == run[i].woken + run[i].waiters
  {
    RunInv(n, run, i);
    var s := run[i];
    if s.woken != s.passed {
      assert s.woken == s.passed + [s.woken[|s.woken| - 1]];
    }
  }

  /** Histories only grow, and cancel is for good. */
  predicate Later(s: State, s': State)
  {
    s.woken <= s'.woken && s.registered <= s'.registered && s.passed <= s'.passed && (s.cancelled ==> s'.cancelled)
  }

  lemma StepLater(s: State, op: Op)
    requires ValidWaiters(s) && Enabled(s, op)
    ensures Later(s, Step(s, op))
  {
  }

  lemma LaterTrans(a: State, b: State, c: State)
    requires Later(a, b) && Later(b, c)
    ensures Later(a, c)
  {
  }

  lemma {:induction false} RunLater(n: nat, run: seq<State>, i: nat, j: nat)
    requires IsRun(n, run) && i <= j < |run|
    ensures Later(run[i], run[j])
  {
    if i < j {
      RunLater(n, run, i, j - 1);
      assert Next(run[j - 1], run[j]);
      var op :| Enabled(run[j - 1], op) && run[j] == Step(run[j - 1], op);
      StepLater(run[j - 1], op);
      LaterTrans(run[i], run[j - 1], run[j]);
    }
  }

  /** Hand-overs between two states. */
  function HandOvers(s: State, s': State): int { |s'.woken| - |s.woken| }

  /** The task at place k of the queue, some hand-overs later. */
  predicate Bypassed(s: State, s': State, k: nat)
    requires k < |s.waiters|
  {
    var d := HandOvers(s, s');
    && d >= 0
    && (d <= k ==> k - d < |s'.waiters| && s'.waiters[k - d] == s.waiters[k])
    && (d > k ==> s'.woken[|s.woken| + k] == s.waiters[k])
  }

  lemma PlaceLater(s: State, s': State, k: nat)
    requires Later(s, s') && s.registered == s.woken + s.waiters && s'.registered == s'.woken + s'.waiters && k < |s.waiters|
    ensures Bypassed(s, s', k)
  {
    assert s'.registered[|s.woken| + k] == s.registered[|s.woken| + k] == s.waiters[k];
  }

  /** A waiting task is overtaken by nobody: over any stretch of a run without
      cancel each hand-over moves it one place forward, and the task at place k
      (from 0) is the one that the hand-over number k + 1 wakes. */
  lemma BoundedBypass(n: nat, run: seq<State>, i: nat, j: nat, k: nat)
    requires n < TWO_32 && IsRun(n, run) && i <= j < |run| && !run[j].cancelled && k < |run[i].waiters|
    ensures Bypassed(run[i], run[j], k)
  {
    RunInv(n, run, i);
    RunInv(n, run, j);
    RunLater(n, run, i, j);
    PlaceLater(run[i], run[j], k);
  }

  // ---- the class itself ----

  /** The mutex object.  Each method is one atomic access made by task t. */
  class Mutex {
    var queue: uint32
    var cancelled: bool
    var waiters: seq<nat>
    var pcs: seq<Pc>
    ghost var registered: seq<nat>
    ghost var woken: seq<nat>
    ghost var passed: seq<nat>

    ghost function View(): State
      reads this
    {
      State(queue, cancelled, waiters, pcs, registered, woken, passed)
    }

    ghost predicate Valid()
      reads this
    {
      Inv(|pcs|, View())
    }

    constructor (n: nat)
      requires n < TWO_32
      ensures Valid() && View() == Init(n)
    {
      queue, cancelled, waiters := 0, false, [];
      pcs := seq(n, _ => Outside);
      registered, woken, passed := [], [], [];
      new;
      InitInv(n);
    }

    /** async_lock: the test of the cancelled flag. */
    method CheckCancelled(t: nat)
      requires Valid() && Enabled(View(), LoadCancelled(t))
      modifies this
      ensures Valid() && View() == Step(old(View()), LoadCancelled(t))
    {
      StepInv(|pcs|, View(), LoadCancelled(t));
      if cancelled {
        pcs := pcs[t := Aborted];
      } else {
        pcs := pcs[t := Admitted];
      }
    }

    /** async_lock: the increment; true when the task has the lock at once. */
    method JoinQueue(t: nat) returns (acquired: bool)
      requires Valid() && Enabled(View(), FetchAdd(t))
      modifies this
      ensures Valid() && View() == Step(old(View()), FetchAdd(t))
      ensures acquired <==> old(queue) == 0
    {
      StepInv(|pcs|, View(), FetchAdd(t));
      var before := queue;
      queue := ToUint32(queue + 1);
      acquired := !(0 < before);
      pcs := pcs[t := if acquired then Holding else AboutToWait];
    }

    /** async_lock: the wait on the timer is registered. */
    method Wait(t: nat)
      requires Valid() && Enabled(View(), AsyncWait(t))
      modifies this
      ensures Valid() && View() == Step(old(View()), AsyncWait(t))
    {
      StepInv(|pcs|, View(), AsyncWait(t));
      waiters := waiters + [t];
      pcs := pcs[t := Waiting];
      registered := registered + [t];
    }

    /** async_lock: the task runs again after its wait. */
    method ResumeAfterWait(t: nat)
      requires Valid() && Enabled(View(), Resume(t))
      modifies this
      ensures Valid() && View() == Step(old(View()), Resume(t))
    {
      StepInv(|pcs|, View(), Resume(t));
      if cancelled {
        pcs := pcs[t := Aborted];
      } else {
        pcs := pcs[t := Holding];
        passed := passed + [t];
      }
    }

    /** unlock: the decrement; true when somebody else must be woken. */
    method LeaveQueue(t: nat) returns (mustWake: bool)
      requires Valid() && Enabled(View(), FetchSub(t))
      modifies this
      ensures Valid() && View() == Step(old(View()), FetchSub(t))
      ensures mustWake <==> 1 < old(queue)
    {
      StepInv(|pcs|, View(), FetchSub(t));
      var before := queue;
      queue := ToUint32(queue - 1);
      mustWake := 1 < before;
      pcs := pcs[t := if mustWake then Releasing else Outside];
    }

    /** unlock: the second test of the cancelled flag. */
    method RecheckCancelled(t: nat)
      requires Valid() && Enabled(View(), ReloadCancelled(t))
      modifies this
      ensures Valid() && View() == Step(old(View()), ReloadCancelled(t))
    {
      StepInv(|pcs|, View(), ReloadCancelled(t));
      pcs := pcs[t := if cancelled then Outside else Spinning];
    }

    /** unlock: one cancel_one; the number of waits cancelled, 0 or 1. */
    method WakeOne(t: nat) returns (count: nat)
      requires Valid() && Enabled(View(), CancelOne(t))
      modifies this
      ensures Valid() && View() == Step(old(View()), CancelOne(t))
      ensures count == if old(waiters) == [] then 0 else 1
    {
      StepInv(|pcs|, View(), CancelOne(t));
      count := 0;
      if waiters != [] {
        var u := waiters[0];
        waiters := waiters[1..];
        pcs := pcs[t := Outside][u := Woken];
        woken := woken + [u];
        count := 1;
      }
    }

    /** cancel: the flag, the timer and the counter. */
    method Cancel()
      requires Valid()
      modifies this
      ensures Valid() && cancelled && waiters == [] && queue == 0
      ensures View() == Step(Step(Step(old(View()), SetCancelled), CancelTimer), ClearQueue)
    {
      cancelled := true;
      pcs := WakeAll(pcs);
      waiters := [];
      queue := 0;
    }
  }
}
