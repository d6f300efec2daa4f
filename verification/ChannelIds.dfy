/** Id allocation on the server: which ids the two tables can hold, and when the
    search for a free one succeeds. */
module ChannelIds {
  import opened MachineInts
  import opened Sequences
  import opened Wrappers
  import opened ChannelSystem

  /** What can happen to the server's tables.  Ids in messages are whatever the
      peer wrote. */
  datatype ServerOp =
    | DoCreate(clientMode: Mode, serverMode: Mode, typesKnown: bool, flags: int)
    | OnConnected(id: int, connectedFlags: int, error: bool, made: Made)
    | OnClose(closedId: int)

  function ServerStep(e: Endpoint, op: ServerOp): Endpoint
  {
    match op
    case DoCreate(cm, sm, known, flags) => Create(e, cm, sm, known, flags).0
    case OnConnected(id, flags, error, made) => HandleConnected(e, id, flags, error, made).0
    case OnClose(id) => Destroy(e, id)
  }

  function RunServer(ops: seq<ServerOp>): Endpoint
  {
    if ops == [] then Endpoint([], [], [])
    else ServerStep(RunServer(ops[..|ops| - 1]), ops[|ops| - 1])
  }

  /** All ids in use, channels first. */
  function UsedIds(e: Endpoint): (r: seq<int>)
    ensures |r| == |e.channels| + |e.planned|
  {
    seq(|e.channels|, i requires 0 <= i < |e.channels| => e.channels[i].id) +
    seq(|e.planned|, i requires 0 <= i < |e.planned| => e.planned[i].id)
  }

  ghost predicate AllocInv(e: Endpoint)
  {
    Distinct(UsedIds(e)) && forall x <- UsedIds(e) :: ValidId(x)
  }

  lemma UsedMember(e: Endpoint, id: int)
    ensures Used(e, id) <==> id in UsedIds(e)
  {
    var ids := UsedIds(e);
    if Used(e, id) {
      if i: nat :| i < |e.channels| && e.channels[i].id == id {
        assert ids[i] == id;
      } else {
        var i: nat :| i < |e.planned| && e.planned[i].id == id;
        assert ids[|e.channels| + i] == id;
      }
    } else {
      forall k: nat | k < |ids| ensures ids[k] != id {
        if k < |e.channels| { assert ids[k] == e.channels[k].id; } else { assert ids[k] == e.planned[k - |e.channels|].id; }
      }
    }
  }

  // ---- every operation keeps the ids distinct and in range ----

  lemma CreateKeepsIds(e: Endpoint, cm: Mode, sm: Mode, known: bool, flags: int)
    requires AllocInv(e)
    ensures AllocInv(Create(e, cm, sm, known, flags).0)
  {
    var (e', ok) := Create(e, cm, sm, known, flags);
    if ok {
      var id := FirstFree(e, 1);
      UsedMember(e, id);
      assert UsedIds(e') == UsedIds(e) + [id];
    }
  }

  lemma ErasePlanned(e: Endpoint, i: nat)
    requires AllocInv(e) && i < |e.planned|
    ensures var e1 := e.(planned := e.planned[..i] + e.planned[i + 1..]);
            AllocInv(e1) && !Used(e1, e.planned[i].id)
  {
    var e1 := e.(planned := e.planned[..i] + e.planned[i + 1..]);
    var k := |e.channels| + i;
    assert UsedIds(e1) == Without(UsedIds(e), k);
    WithoutDistinct(UsedIds(e), k);
    UsedMember(e1, e.planned[i].id);
  }

  lemma EraseChannel(e: Endpoint, i: nat)
    requires AllocInv(e) && i < |e.channels|
    ensures AllocInv(e.(channels := e.channels[..i] + e.channels[i + 1..]))
  {
    assert UsedIds(e.(channels := e.channels[..i] + e.channels[i + 1..])) == Without(UsedIds(e), i);
    WithoutDistinct(UsedIds(e), i);
  }

  lemma ConstructKeepsIds(e: Endpoint, id: uint8, mode: Mode, flags: int)
    requires AllocInv(e) && ValidId(id) && !Used(e, id)
    ensures AllocInv(Construct(e, id, mode, flags))
  {
    var n := |e.channels|;
    var ids, ids' := UsedIds(e), UsedIds(Construct(e, id, mode, flags));
    UsedMember(e, id);
    assert ids' == ids[..n] + [id] + ids[n..];
    forall i, j | 0 <= i < j < |ids'| ensures ids'[i] != ids'[j] {
      assert i < n ==> ids'[i] == ids[i];
      assert n < j ==> ids'[j] == ids[j - 1];
    }
  }

  lemma MarkKeepsIds(e: Endpoint, id: int)
    requires AllocInv(e)
    ensures AllocInv(MarkConnected(e, id))
  {
    assert UsedIds(MarkConnected(e, id)) == UsedIds(e);
  }

  lemma StepKeepsIds(e: Endpoint, op: ServerOp)
    requires AllocInv(e)
    ensures AllocInv(ServerStep(e, op))
  {
    match op
    case DoCreate(cm, sm, known, flags) => CreateKeepsIds(e, cm, sm, known, flags);
    case OnClose(id) =>
      var i := FindChannel(e.channels, ToUint8(id));
      if i.Some? { EraseChannel(e, i.value); }
    case OnConnected(id, flags, error, made) =>
      var i := FindPlanned(e.planned, id);
      if i.None? {
        MarkKeepsIds(e, id);
      } else {
        ErasePlanned(e, i.value);
        var e1 := e.(planned := e.planned[..i.value] + e.planned[i.value + 1..]);
        var job := e.planned[i.value];
        if !error && ValidId(job.id) && FindChannel(e.channels, job.id).None? {
          if made.Built? {
            ConstructKeepsIds(e1, job.id, job.serverMode, flags);
            MarkKeepsIds(Construct(e1, job.id, job.serverMode, flags), id);
          } else {
            MarkKeepsIds(e1, id);
          }
        }
      }
  }

  /** In every reachable state of the server the ids of both tables together
      are pairwise distinct and in 1..254. */
  lemma {:induction false} IdsDistinctAndValid(ops: seq<ServerOp>)
    ensures AllocInv(RunServer(ops))
  {
    if ops != [] {
      IdsDistinctAndValid(ops[..|ops| - 1]);
      StepKeepsIds(RunServer(ops[..|ops| - 1]), ops[|ops| - 1]);
    }
  }

  // ---- pigeonhole ----

  ghost function ValidIds(n: nat): (r: set<int>)
    ensures |r| == n && forall x :: x in r <==> 0 < x <= n
  {
    if n == 0 then {} else ValidIds(n - 1) + {n}
  }

  lemma {:induction false} DistinctSize(s: seq<int>)
    requires Distinct(s)
    ensures |set x | x in s| == |s|
  {
    if s != [] {
      DistinctSize(s[1..]);
      assert (set x | x in s) == (set x | x in s[1..]) + {s[0]};
    }
  }

  lemma SubsetEqual(a: set<int>, b: set<int>)
    requires a <= b
    ensures |a| <= |b| && (|a| == |b| ==> a == b)
  {
    assert b == a + (b - a);
  }

  /** Distinct ids out of 1..n: at most n of them, and n only when all occur. */
  lemma Pigeonhole(ids: seq<int>, n: nat)
    requires Distinct(ids) && forall x <- ids :: 0 < x <= n
    ensures |ids| <= n
    ensures |ids| == n <==> forall x :: 0 < x <= n ==> x in ids
  {
    var used := set x | x in ids;
    DistinctSize(ids);
    SubsetEqual(used, ValidIds(n));
    if |ids| == n {
      forall x | 0 < x <= n ensures x in ids { assert x in ValidIds(n); }
    }
    if forall x :: 0 < x <= n ==> x in ids {
      assert used == ValidIds(n);
    }
  }

  /** The number of ids that are really free. */
  function TrueFree(e: Endpoint): int { 254 - |e.channels| - |e.planned| }

  /** The search fails exactly when all 254 ids are in use. */
  lemma SearchFailsIffFull(e: Endpoint)
    requires AllocInv(e)
    ensures TrueFree(e) >= 0
    ensures FirstFree(e, 1) == RESERVED_ID <==> TrueFree(e) == 0
  {
    Pigeonhole(UsedIds(e), 254);
    forall x: int ensures Used(e, x) <==> x in UsedIds(e) { UsedMember(e, x); }
  }

  /** createChannel refuses acceptable requests only when the table is full, and
      otherwise plans an id that was unused. */
  lemma AllocationSucceedsIffRoom(ops: seq<ServerOp>, cm: Mode, sm: Mode, flags: int)
    requires ModesAccepted(cm, sm)
    ensures var e := RunServer(ops);
            var (e', ok) := Create(e, cm, sm, true, flags);
            && (ok <==> |e.channels| + |e.planned| < 254)
            && (ok ==> |e'.planned| == |e.planned| + 1 && !Used(e, e'.planned[|e.planned|].id))
  {
    IdsDistinctAndValid(ops);
    SearchFailsIffFull(RunServer(ops));
  }

  /** countFreeChannels throws exactly when no id is free, and otherwise reports
      one less than the true number: a positive count guarantees a free id. */
  lemma CountFreeIsSafe(ops: seq<ServerOp>)
    ensures var e := RunServer(ops);
            && (CountFree(e).Throws? <==> FirstFree(e, 1) == RESERVED_ID)
            && (CountFree(e).Ok? ==> CountFree(e).value == TrueFree(e) - 1)
            && (CountFree(e).Ok? && CountFree(e).value > 0 ==> !Used(e, FirstFree(e, 1)))
  {
    IdsDistinctAndValid(ops);
    SearchFailsIffFull(RunServer(ops));
  }
}
