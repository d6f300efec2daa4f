/** What the handlers of ChannelClient do to the tables and to the outgoing
    stream, said for each id and each outcome. */
module ChannelLaws {
  import opened MachineInts
  import opened Wrappers
  import opened Sequences
  import opened ChannelSystem
  import opened ChannelIds

  // ---- how the lookups react to the updates ----

  lemma {:induction false} ConnAppend(cs: seq<Connector>, c: Connector, id: int)
    ensures ConnAt(cs + [c], id) == if ConnAt(cs, id).Some? then ConnAt(cs, id) else if c.id == id then Some(c) else None
  {
    if cs != [] {
      ConnAppend(cs[1..], c, id);
      assert (cs + [c])[1..] == cs[1..] + [c];
    }
  }

  lemma PlanAppend(ps: seq<Planned>, p: Planned, id: int)
    ensures PlanAt(ps + [p], id) == if PlanAt(ps, id).Some? then PlanAt(ps, id) else if p.id == id then Some(p) else None
  {
    if ps != [] {
      PlanAppend(ps[1..], p, id);
      assert (ps + [p])[1..] == ps[1..] + [p];
    }
  }

  lemma ConnUpdate(cs: seq<Connector>, i: nat, c: Connector, id: int)
    requires i < |cs| && c.id == cs[i].id && FindChannel(cs, c.id) == Some(i)
    ensures ConnAt(cs[i := c], id) == if id == c.id then Some(c) else ConnAt(cs, id)
  {
    var cs' := cs[i := c];
    forall k: nat | k < |cs| ensures cs'[k].id == cs[k].id {}
    var a, b := FindChannel(cs, id), FindChannel(cs', id);
    if a.Some? && b.Some? { assert a == b; }
  }

  lemma PlanErase(ps: seq<Planned>, i: nat, id: int)
    requires i < |ps| && FindPlanned(ps, ps[i].id) == Some(i)
    requires id == ps[i].id ==> FindPlanned(ps[..i] + ps[i + 1..], id).None?
    ensures PlanAt(ps[..i] + ps[i + 1..], id) == if id == ps[i].id then None else PlanAt(ps, id)
  {
    if id != ps[i].id {
      var ps' := ps[..i] + ps[i + 1..];
      var a, b := FindPlanned(ps, id), FindPlanned(ps', id);
      assert forall k: nat :: k < |ps'| ==> ps'[k] == ps[if k < i then k else k + 1];
      if a.Some? {
        var j := if a.value < i then a.value else a.value - 1;
        assert ps'[j] == ps[a.value];
        assert b.Some?;
        var j' := if b.value < i then b.value else b.value + 1;
        assert ps[j'] == ps'[b.value];
        assert j == b.value;
      }
    }
  }

  lemma ConnErase(cs: seq<Connector>, i: nat, id: int)
    requires i < |cs| && id != cs[i].id
    ensures ConnAt(cs[..i] + cs[i + 1..], id) == ConnAt(cs, id)
  {
    var cs' := cs[..i] + cs[i + 1..];
    var a, b := FindChannel(cs, id), FindChannel(cs', id);
    assert forall k: nat :: k < |cs'| ==> cs'[k] == cs[if k < i then k else k + 1];
    if a.Some? {
      var j := if a.value < i then a.value else a.value - 1;
      assert cs'[j] == cs[a.value];
      assert b.Some?;
      var j' := if b.value < i then b.value else b.value + 1;
      assert cs[j'] == cs'[b.value];
      assert j == b.value;
    }
  }

  lemma MarkAt(e: Endpoint, id: uint8, k: int)
    ensures var e' := MarkConnected(e, id);
            && e'.out == e.out && e'.planned == e.planned
            && ConnAt(e'.channels, k) ==
               if k == id && ConnAt(e.channels, id).Some? then Some(ConnAt(e.channels, id).value.(remoteConnected := true))
               else ConnAt(e.channels, k)
  {
    var i := FindChannel(e.channels, id);
    if i.Some? {
      ConnUpdate(e.channels, i.value, e.channels[i.value].(remoteConnected := true), k);
    }
  }

  // ---- the answer to a planned channel ----

  /** The table without its first entry for the id. */
  ghost predicate LosesPlanned(before: seq<Planned>, after: seq<Planned>, id: int)
  {
    exists i: nat :: i < |before| && before[i].id == id && (forall k :: 0 <= k < i ==> before[k].id != id) && after == Without(before, i)
  }

  ghost predicate LosesConnector(before: seq<Connector>, after: seq<Connector>, id: int)
  {
    exists i: nat :: i < |before| && before[i].id == id && (forall k :: 0 <= k < i ==> before[k].id != id) && after == Without(before, i)
  }

  lemma PlannedIsLost(e: Endpoint, id: int, flags: int, error: bool, made: Made)
    requires PlanAt(e.planned, id).Some?
    ensures LosesPlanned(e.planned, HandleConnected(e, id, flags, error, made).0.planned, id)
  {
    var i := FindPlanned(e.planned, id).value;
    assert HandleConnected(e, id, flags, error, made).0.planned == Without(e.planned, i);
  }

  /** A planned channel that the client could not open: the planned entry goes,
      nothing is built or sent, and the answer is false. */
  lemma RefusalBuildsNothing(e: Endpoint, id: int, flags: int, made: Made)
    requires PlanAt(e.planned, id).Some?
    ensures var (e', ok) := HandleConnected(e, id, flags, true, made);
            ok == Ok(false) && e'.channels == e.channels && e'.out == e.out && LosesPlanned(e.planned, e'.planned, id)
  {
    PlannedIsLost(e, id, flags, true, made);
  }

  /** In a consistent table a planned id has no connector yet. */
  lemma PlannedHasNone(e: Endpoint, i: nat)
    requires AllocInv(e) && i < |e.planned|
    ensures ConnAt(e.channels, e.planned[i].id).None? && ValidId(e.planned[i].id)
  {
    var id := e.planned[i].id;
    var ids := UsedIds(e);
    assert ids[|e.channels| + i] == id;
    forall j: nat | j < |e.channels| ensures e.channels[j].id != id { assert ids[j] == e.channels[j].id; }
  }

  /** A planned channel that the client opened.  When the factory builds its
      connector, it has the mode planned for the server, runs, is remote-connected
      and was announced; nothing else changes but the planned entry.  Otherwise
      only the planned entry goes, and the answer depends on why. */
  lemma AcceptanceBuilds(e: Endpoint, id: int, flags: int, made: Made, k: int)
    requires AllocInv(e) && PlanAt(e.planned, id).Some?
    ensures ValidId(id)
    ensures var (e', ok) := HandleConnected(e, id, flags, false, made);
            var job := PlanAt(e.planned, id).value;
            && LosesPlanned(e.planned, e'.planned, id)
            && (made == Built ==>
                  && ok == Ok(true) && e'.out == e.out + [Connected(id, flags, false)] && |e'.channels| == |e.channels| + 1
                  && ConnAt(e'.channels, k) == if k == id then Some(Connector(id, job.serverMode, flags, true, true)) else ConnAt(e.channels, k))
            && (made != Built ==>
                  && e'.out == e.out && e'.channels == e.channels
                  && ok == if made == Thrown then Throws else Ok(made == NotBuilt))
  {
    var i := FindPlanned(e.planned, id).value;
    PlannedIsLost(e, id, flags, false, made);
    PlannedHasNone(e, i);
    var e1 := e.(planned := e.planned[..i] + e.planned[i + 1..]);
    var c := Connector(id, e.planned[i].serverMode, flags, true, false);
    if made == Built {
      ConnAppend(e.channels, c, k);
      ConnAppend(e.channels, c, id);
      MarkAt(Construct(e1, id, e.planned[i].serverMode, flags), id, k);
    }
  }

  /** Without a planned entry the message only marks the connector of its id. */
  lemma AnswerOnlyMarks(e: Endpoint, id: uint8, flags: int, error: bool, made: Made, k: int)
    requires PlanAt(e.planned, id).None?
    ensures var (e', ok) := HandleConnected(e, id, flags, error, made);
            && ok == Ok(true) && e'.planned == e.planned && e'.out == e.out && |e'.channels| == |e.channels|
            && ConnAt(e'.channels, k) ==
               if k == id && ConnAt(e.channels, k).Some? then Some(ConnAt(e.channels, k).value.(remoteConnected := true))
               else ConnAt(e.channels, k)
  {
    MarkAt(e, id, k);
  }

  // ---- opening on the client ----

  predicate IsKnown(mode: Mode) { mode == ReadOnly || mode == ReadWrite || mode == WriteOnly }

  /** A request the client accepts: in a user session, with a valid id that is
      not taken and a known mode, and a factory that builds the connector. */
  predicate OpenAccepted(e: Endpoint, userSession: bool, id: int, mode: Mode, created: bool)
  {
    userSession && 0 < id < 255 && IsKnown(mode) && ConnAt(e.channels, id).None? && created
  }

  /** The answer to an Open frame: a running connector of the mode asked for, which
      announces itself, or else nothing but one frame that reports the error. */
  lemma OpenAnswer(e: Endpoint, userSession: bool, id: int, mode: Mode, flags: int, created: bool, k: int)
    ensures var e' := HandleOpen(e, userSession, id, mode, flags, created);
            if OpenAccepted(e, userSession, id, mode, created) then
              && e'.planned == e.planned && e'.out == e.out + [Connected(id, flags, false)] && |e'.channels| == |e.channels| + 1
              && ConnAt(e'.channels, k) == if k == id then Some(Connector(id, mode, flags, true, false)) else ConnAt(e.channels, k)
            else e' == e.(out := e.out + [Connected(id % 256, flags, true)])
  {
    if OpenAccepted(e, userSession, id, mode, created) { ConnAppend(e.channels, Connector(id, mode, flags, true, false), k); }
  }

  // ---- creating on the server ----

  /** At least one side writes and at least one reads. */
  predicate Useful(clientMode: Mode, serverMode: Mode)
  {
    && IsKnown(clientMode) && IsKnown(serverMode)
    && !(clientMode == ReadOnly && serverMode == ReadOnly) && !(clientMode == WriteOnly && serverMode == WriteOnly)
  }

  predicate LeastFree(e: Endpoint, id: int)
  {
    0 < id < 255 && !Used(e, id) && forall k :: 0 < k < id ==> Used(e, k)
  }

  /** createChannel succeeds exactly for useful modes and known types when an id
      is free.  It then plans the server's mode and asks the client for the
      client's mode, both under the least free id; otherwise nothing happens. */
  lemma CreateAnswer(e: Endpoint, clientMode: Mode, serverMode: Mode, known: bool, flags: int)
    ensures var (e', ok) := Create(e, clientMode, serverMode, known, flags);
            && (ok <==> Useful(clientMode, serverMode) && known && exists id :: LeastFree(e, id))
            && (!ok ==> e' == e)
            && (ok ==> forall id :: LeastFree(e, id) ==>
                         e' == Endpoint(e.channels, e.planned + [Planned(id, serverMode, flags)], e.out + [Open(id, clientMode, flags)]))
  {
    var n := FirstFree(e, 1);
    if n < RESERVED_ID {
      assert LeastFree(e, n);
      forall id | LeastFree(e, id) ensures id == n {
        assert id < n ==> Used(e, id);
      }
    } else {
      assert forall id :: 0 < id < 255 ==> Used(e, id);
    }
  }

  // ---- receiving data ----

  /** The session is the kind of session that the flags are for. */
  predicate SessionFits(flags: int, userSession: bool) { AllowLogin(flags) <==> !userSession }

  /** A data frame is delivered exactly to a connector that is there, runs and is
      remote-connected, on the server only in a session of its kind; otherwise the
      first of these that fails decides which exception is thrown. */
  lemma DataAnswer(e: Endpoint, clientBuild: bool, userSession: bool, id: int)
    ensures var r := ReceiveData(e, clientBuild, userSession, id);
            match ConnAt(e.channels, id)
            case None => r == NotFound
            case Some(c) =>
              && (r == SessionMismatch <==> !clientBuild && !SessionFits(c.flags, userSession))
              && (r == NotConnected <==> (clientBuild || SessionFits(c.flags, userSession)) && !c.remoteConnected)
              && (r == NotRunning <==> (clientBuild || SessionFits(c.flags, userSession)) && c.remoteConnected && !c.running)
              && (r == Delivered <==> (clientBuild || SessionFits(c.flags, userSession)) && c.remoteConnected && c.running)
  {
  }

  // ---- closing ----

  /** Closing an id: during the pause and afterwards every other id has the same
      connector as before, exactly one connector leaves when the id has one and
      none otherwise, and planned entries and frames stay. */
  lemma CloseTouchesOne(e: Endpoint, id: uint8, k: int)
    ensures var (during, after) := (Stopped(e, id), Destroy(e, id));
            && during.planned == after.planned == e.planned && during.out == after.out == e.out
            && |during.channels| == |e.channels|
            && (ConnAt(e.channels, id).Some? ==> LosesConnector(e.channels, after.channels, id))
            && (ConnAt(e.channels, id).None? ==> after == e && during == e)
            && (k != id ==> ConnAt(during.channels, k) == ConnAt(after.channels, k) == ConnAt(e.channels, k))
            && (ConnAt(e.channels, id).Some? ==> ConnAt(during.channels, id) == Some(ConnAt(e.channels, id).value.(running := false)))
  {
    var i := FindChannel(e.channels, id);
    if i.Some? {
      assert Destroy(e, id).channels == Without(e.channels, i.value);
      ConnUpdate(e.channels, i.value, e.channels[i.value].(running := false), k);
      ConnUpdate(e.channels, i.value, e.channels[i.value].(running := false), id);
      if k != id { ConnErase(e.channels, i.value, k); }
    }
  }

  /** In a consistent table the closed id has no connector left. */
  lemma ClosedIsGone(e: Endpoint, id: uint8)
    requires AllocInv(e)
    ensures ConnAt(Destroy(e, id).channels, id).None?
  {
    var i := FindChannel(e.channels, id);
    if i.Some? {
      var cs := Destroy(e, id).channels;
      var ids := UsedIds(e);
      forall k: nat | k < |cs| ensures cs[k].id != id {
        var j := if k < i.value then k else k + 1;
        assert cs[k] == e.channels[j];
        assert ids[j] == e.channels[j].id && ids[i.value] == id;
      }
    }
  }

  // ---- over server runs ----

  /** The connector of an id through one operation of the server. */
  lemma ConnectorThrough(e: Endpoint, op: ServerOp, k: int)
    requires AllocInv(e) && ConnAt(e.channels, k).Some?
    ensures var c, c' := ConnAt(e.channels, k).value, ConnAt(ServerStep(e, op).channels, k);
            if op.OnClose? && ToUint8(op.closedId) == k then c'.None?
            else c' == Some(c) || c' == Some(c.(remoteConnected := true))
  {
    match op
    case DoCreate(_, _, _, _) =>
    case OnClose(id) =>
      CloseTouchesOne(e, ToUint8(id), k);
      ClosedIsGone(e, ToUint8(id));
      assert Destroy(e, id) == Destroy(e, ToUint8(id));
    case OnConnected(id, flags, error, made) =>
      if PlanAt(e.planned, id).None? {
        MarkAt(e, ToUint8(id), k);
        assert MarkConnected(e, id) == MarkConnected(e, ToUint8(id));
      } else if error {
        RefusalBuildsNothing(e, id, flags, made);
      } else {
        AcceptanceBuilds(e, id, flags, made, k);
        PlannedHasNone(e, FindPlanned(e.planned, id).value);
      }
  }

  /** In every server history a connector leaves its id only when that id is
      closed, and then it does. */
  lemma OnlyClosingRemoves(ops: seq<ServerOp>, op: ServerOp, k: int)
    requires ConnAt(RunServer(ops).channels, k).Some?
    ensures ConnAt(RunServer(ops + [op]).channels, k).None? <==> op.OnClose? && ToUint8(op.closedId) == k
    ensures var c, c' := ConnAt(RunServer(ops).channels, k).value, ConnAt(RunServer(ops + [op]).channels, k);
            c'.Some? ==> c'.value.mode == c.mode && c'.value.flags == c.flags && c'.value.running == c.running
  {
    assert (ops + [op])[..|ops|] == ops;
    IdsDistinctAndValid(ops);
    ConnectorThrough(RunServer(ops), op, k);
  }
}
