/** The channel handshake between a server and a client joined by two ordered
    links.

    A link is the `out` sequence of its sender.  The server's factories succeed and
    nothing is closed; everything else (when channels are created, with what
    flags and modes, whether the client's factory builds the connector, how data
    and control frames interleave) is arbitrary. */
module Handshake {
  import opened MachineInts
  import opened Sequences
  import opened Wrappers
  import opened ChannelSystem
  import opened ChannelIds
  import opened ChannelLaws

  /** What createChannel was asked for. */
  datatype Request = Request(clientMode: Mode, serverMode: Mode, flags: int)

  /** `asked` remembers for each id in use what it was created for. */
  datatype System = System(server: Endpoint, client: Endpoint, asked: map<int, Request>)

  datatype Event =
    | ServerCreates(clientMode: Mode, serverMode: Mode, typesKnown: bool, flags: int)
    | ServerSends(id: uint8, payload: seq<byte>)
    | ClientSends(id: uint8, payload: seq<byte>)
    | ServerReceives
    | ClientReceives(built: bool)   // what a factory answers, if one is called

  /** loopReader sends while its connector runs, whether or not the peer has
      answered; the empty buffer is never sent. */
  predicate CanSend(e: Endpoint, id: int, payload: seq<byte>)
  {
    var c := ConnAt(e.channels, id);
    c.Some? && c.value.running && (c.value.mode == ReadOnly || c.value.mode == ReadWrite) && payload != []
  }

  predicate Enabled(sys: System, ev: Event)
  {
    match ev
    case ServerCreates(_, _, _, _) => true
    case ServerSends(id, payload) => CanSend(sys.server, id, payload)
    case ClientSends(id, payload) => CanSend(sys.client, id, payload)
    case ServerReceives => sys.client.out != []
    case ClientReceives(_) => sys.server.out != []
  }

  /** The server's dispatch; an Open frame is an unknown command for it. */
  function ServerHandles(e: Endpoint, m: Message): Endpoint
  {
    match m
    case Connected(id, flags, error) => HandleConnected(e, id, flags, error, Built).0
    case Open(_, _, _) => e
    case Data(_, _) => e
  }

  /** The client's dispatch; its session always counts as a user session. */
  function ClientHandles(e: Endpoint, m: Message, built: bool): Endpoint
  {
    match m
    case Connected(id, flags, error) => HandleConnected(e, id, flags, error, Built).0
    case Open(id, mode, flags) => HandleOpen(e, true, id, mode, flags, built)
    case Data(_, _) => e
  }

  function Pop(e: Endpoint): Endpoint
    requires e.out != []
  {
    e.(out := e.out[1..])
  }

  function Step(sys: System, ev: Event): System
    requires Enabled(sys, ev)
  {
    match ev
    case ServerCreates(cm, sm, known, flags) =>
      var (e, ok) := Create(sys.server, cm, sm, known, flags);
      sys.(server := e, asked := if ok then sys.asked[FirstFree(sys.server, 1) := Request(cm, sm, flags)] else sys.asked)
    case ServerSends(id, payload) => sys.(server := sys.server.(out := sys.server.out + [Data(id, payload)]))
    case ClientSends(id, payload) => sys.(client := sys.client.(out := sys.client.out + [Data(id, payload)]))
    case ServerReceives =>
      var m := sys.client.out[0];
      System(ServerHandles(sys.server, m), Pop(sys.client), if m.Connected? && m.error then sys.asked - {m.id} else sys.asked)
    case ClientReceives(built) => sys.(client := ClientHandles(sys.client, sys.server.out[0], built), server := Pop(sys.server))
  }

  const Start: System := System(Endpoint([], [], []), Endpoint([], [], []), map[])

  ghost predicate Next(sys: System, sys': System) { exists ev :: Enabled(sys, ev) && sys' == Step(sys, ev) }

  ghost predicate IsRun(run: seq<System>)
  {
    && |run| > 0
    && run[0] == Start
    && forall i :: 0 < i < |run| ==> Next(run[i - 1], run[i])
  }

  // ---- what one id looks like ----

  /** The frames of a link that are about this id. */
  function For(q: seq<Message>, id: int): seq<Message>
  {
    if q == [] then []
    else (if q[0].id == id then [q[0]] else []) + For(q[1..], id)
  }

  /** Everything both sides and both links know about one id. */
  datatype Local = Local(
    planned: Option<Planned>,
    srv: Option<Connector>,
    cli: Option<Connector>,
    down: seq<Message>,
    up: seq<Message>)

  function At(sys: System, id: int): Local
  {
    Local(PlanAt(sys.server.planned, id), ConnAt(sys.server.channels, id), ConnAt(sys.client.channels, id),
          For(sys.server.out, id), For(sys.client.out, id))
  }

  predicate DataOnly(q: seq<Message>) { forall i :: 0 <= i < |q| ==> q[i].Data? }

  predicate ConnectedThenData(q: seq<Message>, id: int, flags: int)
  {
    |q| > 0 && q[0] == Connected(id, flags, false) && DataOnly(q[1..])
  }

  predicate Unused(l: Local) { l == Local(None, None, None, [], []) }

  /** A planned entry as it was asked for. */
  predicate IsPlanned(l: Local, r: Request)
  {
    l.planned.Some? && l.planned.value.flags == r.flags && l.planned.value.serverMode == r.serverMode
  }

  /** A running connector of this mode and these flags. */
  predicate Runs(c: Option<Connector>, mode: Mode, flags: int, remote: bool)
  {
    c.Some? && c.value.running && c.value.mode == mode && c.value.flags == flags && c.value.remoteConnected == remote
  }

  /** Planned; the Open frame is on its way. */
  predicate Opening(l: Local, id: int, r: Request)
  {
    IsPlanned(l, r) && l.srv.None? && l.cli.None? && l.down == [Open(id, r.clientMode, r.flags)] && l.up == []
  }

  /** The client could not open it; its answer is on its way. */
  predicate Refused(l: Local, id: int, r: Request)
  {
    IsPlanned(l, r) && l.srv.None? && l.cli.None? && l.down == [] && l.up == [Connected(id, r.flags, true)]
  }

  /** The client's connector runs; its announcement precedes all its data. */
  predicate Accepted(l: Local, id: int, r: Request)
  {
    && IsPlanned(l, r) && l.srv.None? && Runs(l.cli, r.clientMode, r.flags, false)
    && l.down == [] && ConnectedThenData(l.up, id, r.flags)
  }

  /** The server's connector runs; its announcement precedes all its data. */
  predicate Answered(l: Local, id: int, r: Request)
  {
    && l.planned.None?
    && Runs(l.srv, r.serverMode, r.flags, true) && Runs(l.cli, r.clientMode, r.flags, false)
    && ConnectedThenData(l.down, id, r.flags) && DataOnly(l.up)
  }

  predicate Established(l: Local, r: Request)
  {
    && l.planned.None?
    && Runs(l.srv, r.serverMode, r.flags, true) && Runs(l.cli, r.clientMode, r.flags, true)
    && DataOnly(l.down) && DataOnly(l.up)
  }

  /** An id is in one phase of the handshake. */
  predicate InPhase(l: Local, id: int, r: Request)
  {
    && ValidId(id) && Useful(r.clientMode, r.serverMode)
    && (Opening(l, id, r) || Refused(l, id, r) || Accepted(l, id, r) || Answered(l, id, r) || Established(l, r))
  }

  predicate Phase(sys: System, id: int)
  {
    if id in sys.asked then InPhase(At(sys, id), id, sys.asked[id]) else Unused(At(sys, id))
  }

  ghost predicate Inv(sys: System)
  {
    && AllocInv(sys.server)
    && sys.client.planned == []
    && forall id: int :: Phase(sys, id)
  }

  // ---- how the lookups react to the updates ----

  lemma {:induction false} ForAppend(q: seq<Message>, m: Message, id: int)
    ensures For(q + [m], id) == For(q, id) + if m.id == id then [m] else []
  {
    if q != [] {
      ForAppend(q[1..], m, id);
      assert (q + [m])[1..] == q[1..] + [m];
    }
  }

  lemma ConstructAt(e: Endpoint, id: uint8, mode: Mode, flags: int, k: int)
    requires ConnAt(e.channels, id).None?
    ensures var e' := Construct(e, id, mode, flags);
            && ConnAt(e'.channels, k) == (if k == id then Some(Connector(id, mode, flags, true, false)) else ConnAt(e.channels, k))
            && For(e'.out, k) == For(e.out, k) + (if k == id then [Connected(id, flags, false)] else [])
  {
    ConnAppend(e.channels, Connector(id, mode, flags, true, false), k);
    ForAppend(e.out, Connected(id, flags, false), k);
  }

  // ---- every event keeps every id in a phase ----

  lemma CreateAt(sys: System, ev: Event, id: int, k: int)
    requires Inv(sys) && ev.ServerCreates? && LeastFree(sys.server, id)
    requires Create(sys.server, ev.clientMode, ev.serverMode, ev.typesKnown, ev.flags).1
    ensures id !in sys.asked && Step(sys, ev).asked == sys.asked[id := Request(ev.clientMode, ev.serverMode, ev.flags)]
    ensures At(Step(sys, ev), k) ==
            if k == id then Local(Some(Planned(id, ev.serverMode, ev.flags)), None, None, [Open(id, ev.clientMode, ev.flags)], [])
            else At(sys, k)
  {
    CreateAnswer(sys.server, ev.clientMode, ev.serverMode, ev.typesKnown, ev.flags);
    assert FirstFree(sys.server, 1) == id;
    PlanAppend(sys.server.planned, Planned(id, ev.serverMode, ev.flags), k);
    ForAppend(sys.server.out, Open(id, ev.clientMode, ev.flags), k);
    assert For(sys.server.out, k) + [] == For(sys.server.out, k);
    assert Phase(sys, id) && !Used(sys.server, id);
  }

  lemma CreatePhase(sys: System, ev: Event, k: int)
    requires Inv(sys) && ev.ServerCreates?
    ensures Phase(Step(sys, ev), k)
  {
    CreateAnswer(sys.server, ev.clientMode, ev.serverMode, ev.typesKnown, ev.flags);
    assert Phase(sys, k);
    if Create(sys.server, ev.clientMode, ev.serverMode, ev.typesKnown, ev.flags).1 {
      var id :| LeastFree(sys.server, id);
      CreateAt(sys, ev, id, k);
    }
  }

  lemma SendPhase(sys: System, ev: Event, k: int)
    requires Inv(sys) && (ev.ServerSends? || ev.ClientSends?) && Enabled(sys, ev)
    ensures Phase(Step(sys, ev), k)
  {
    var l, m := At(sys, k), Data(ev.id, ev.payload);
    assert Phase(sys, k);
    if ev.ServerSends? {
      ForAppend(sys.server.out, m, k);
      assert At(Step(sys, ev), k) == l.(down := if k == ev.id then l.down + [m] else l.down + []);
      if k == ev.id { DataDown(l, k, sys.asked[k], m); } else { assert l.down + [] == l.down; }
    } else {
      ForAppend(sys.client.out, m, k);
      assert At(Step(sys, ev), k) == l.(up := if k == ev.id then l.up + [m] else l.up + []);
      if k == ev.id { DataUp(l, k, sys.asked[k], m); } else { assert l.up + [] == l.up; }
    }
  }

  /** Data sent by a running connector keeps the id in its phase. */
  lemma DataDown(l: Local, id: int, r: Request, m: Message)
    requires InPhase(l, id, r) && m.Data? && l.srv.Some?
    ensures InPhase(l.(down := l.down + [m]), id, r)
  {
    assert l.down != [] ==> (l.down + [m])[1..] == l.down[1..] + [m];
  }

  lemma DataUp(l: Local, id: int, r: Request, m: Message)
    requires InPhase(l, id, r) && m.Data? && l.cli.Some?
    ensures InPhase(l.(up := l.up + [m]), id, r)
  {
    assert l.up != [] ==> (l.up + [m])[1..] == l.up[1..] + [m];
  }

  /** The frame at the head of a link is the first one about its id. */
  lemma HeadOf(q: seq<Message>, k: int)
    requires q != []
    ensures q[0].id != k ==> For(q, k) == For(q[1..], k)
    ensures q[0].id == k ==> For(q, k) != [] && For(q, k)[0] == q[0] && For(q, k)[1..] == For(q[1..], k)
  {}

  /** A frame in a link is about an id that was created. */
  lemma HeadIsKnown(sys: System, m: Message)
    requires Inv(sys)
    requires (sys.server.out != [] && m == sys.server.out[0]) || (sys.client.out != [] && m == sys.client.out[0])
    ensures m.id in sys.asked && ValidId(m.id)
  {
    assert Phase(sys, m.id);
    if sys.server.out != [] { HeadOf(sys.server.out, m.id); }
    if sys.client.out != [] { HeadOf(sys.client.out, m.id); }
  }

  /** What the client does with a frame, seen from one id. */
  function ClientLocal(l: Local, m: Message, built: bool): Local
    requires l.down != []
  {
    match m
    case Open(id, mode, flags) =>
      if !(0 <= id < TWO_8) then l
      else if built then
        l.(down := l.down[1..], cli := Some(Connector(id, mode, flags, true, false)), up := l.up + [Connected(id, flags, false)])
      else l.(down := l.down[1..], up := l.up + [Connected(id, flags, true)])
    case Connected(_, _, _) =>
      l.(down := l.down[1..], cli := if l.cli.Some? then Some(l.cli.value.(remoteConnected := true)) else None)
    case Data(_, _) => l.(down := l.down[1..])
  }

  /** An Open frame at the head is for a valid id that the client does not have. */
  lemma OpenIsFresh(sys: System)
    requires Inv(sys) && sys.server.out != [] && sys.server.out[0].Open?
    ensures var m := sys.server.out[0];
            ValidId(m.id) && ConnAt(sys.client.channels, m.id).None? && IsKnown(m.mode)
  {
    var m := sys.server.out[0];
    HeadOf(sys.server.out, m.id);
    HeadIsKnown(sys, m);
    assert Phase(sys, m.id);
  }

  lemma ClientOpensAt(sys: System, built: bool, k: int)
    requires Inv(sys) && sys.server.out != [] && sys.server.out[0].Open?
    ensures var m := sys.server.out[0];
            At(Step(sys, ClientReceives(built)), k) ==
            if k == m.id && At(sys, k).down != [] then ClientLocal(At(sys, k), m, built) else At(sys, k)
  {
    var m := sys.server.out[0];
    OpenIsFresh(sys);
    HeadOf(sys.server.out, k);
    OpenAnswer(sys.client, true, m.id, m.mode, m.flags, built, k);
    if built {
      ForAppend(sys.client.out, Connected(m.id, m.flags, false), k);
    } else {
      ForAppend(sys.client.out, Connected(m.id, m.flags, true), k);
    }
    assert For(sys.client.out, k) + [] == For(sys.client.out, k);
  }

  lemma ClientReceivesAt(sys: System, built: bool, k: int)
    requires Inv(sys) && sys.server.out != []
    ensures var m := sys.server.out[0];
            At(Step(sys, ClientReceives(built)), k) ==
            if k == m.id && At(sys, k).down != [] then ClientLocal(At(sys, k), m, built) else At(sys, k)
  {
    var m := sys.server.out[0];
    if m.Open? {
      ClientOpensAt(sys, built, k);
    } else {
      HeadOf(sys.server.out, k);
      HeadIsKnown(sys, m);
      if m.Connected? {
        assert ClientHandles(sys.client, m, built) == MarkConnected(sys.client, m.id);
        MarkAt(sys.client, m.id, k);
      }
    }
  }

  /** The client's dispatch moves an id from one phase to the next. */
  lemma ClientLocalPhase(l: Local, id: int, r: Request, built: bool)
    requires InPhase(l, id, r) && l.down != []
    ensures InPhase(ClientLocal(l, l.down[0], built), id, r)
  {
  }

  lemma ClientReceivesPhase(sys: System, built: bool, k: int)
    requires Inv(sys) && sys.server.out != []
    ensures Phase(Step(sys, ClientReceives(built)), k)
  {
    var m := sys.server.out[0];
    ClientReceivesAt(sys, built, k);
    HeadOf(sys.server.out, k);
    HeadIsKnown(sys, m);
    assert Phase(sys, k);
    if k == m.id && At(sys, k).down != [] { ClientLocalPhase(At(sys, k), k, sys.asked[k], built); }
  }

  /** What the server does with a frame, seen from one id. */
  function ServerLocal(l: Local, m: Message): Local
    requires l.up != []
  {
    if m.Connected? && l.planned.Some? && m.error then l.(up := l.up[1..], planned := None)
    else if m.Connected? && l.planned.Some? then
      l.(up := l.up[1..], planned := None,
         srv := Some(Connector(l.planned.value.id, l.planned.value.serverMode, m.flags, true, true)),
         down := l.down + [Connected(m.id, m.flags, false)])
    else l.(up := l.up[1..])
  }

  /** The answer of a client at the head is for a planned id. */
  lemma AnswerIsPlanned(sys: System)
    requires Inv(sys) && sys.client.out != [] && sys.client.out[0].Connected?
    ensures var m := sys.client.out[0];
            ValidId(m.id) && PlanAt(sys.server.planned, m.id).Some? && ConnAt(sys.server.channels, m.id).None?
  {
    var m := sys.client.out[0];
    HeadOf(sys.client.out, m.id);
    HeadIsKnown(sys, m);
    assert Phase(sys, m.id);
  }

  /** The announcement of a planned id: the planned entry becomes a running
      connector that is marked at once. */
  lemma ServerBuilds(e: Endpoint, m: Message, i: nat) returns (e1: Endpoint, e2: Endpoint)
    requires AllocInv(e) && m.Connected? && !m.error && ValidId(m.id) && FindPlanned(e.planned, m.id) == Some(i)
    ensures e1 == e.(planned := e.planned[..i] + e.planned[i + 1..]) && FindPlanned(e1.planned, m.id).None?
    ensures ConnAt(e1.channels, m.id).None? && e2 == Construct(e1, m.id, e.planned[i].serverMode, m.flags)
    ensures ServerHandles(e, m) == MarkConnected(e2, m.id)
  {
    e1 := e.(planned := e.planned[..i] + e.planned[i + 1..]);
    e2 := Construct(e1, m.id, e.planned[i].serverMode, m.flags);
    ErasePlanned(e, i);
  }

  lemma ServerConnectsAt(sys: System, k: int)
    requires Inv(sys) && sys.client.out != [] && sys.client.out[0].Connected? && !sys.client.out[0].error
    ensures var m := sys.client.out[0];
            At(Step(sys, ServerReceives), k) == if k == m.id && At(sys, k).up != [] then ServerLocal(At(sys, k), m) else At(sys, k)
  {
    var m, e := sys.client.out[0], sys.server;
    HeadOf(sys.client.out, k);
    HeadOf(sys.client.out, m.id);
    AnswerIsPlanned(sys);
    var i := FindPlanned(e.planned, m.id).value;
    var e1, e2 := ServerBuilds(e, m, i);
    PlanErase(e.planned, i, k);
    ConstructAt(e1, m.id, e.planned[i].serverMode, m.flags, k);
    MarkAt(e2, m.id, k);
    if k != m.id { assert For(e.out, k) + [] == For(e.out, k); }
  }

  /** The refusal of a planned id: only its entry goes. */
  lemma ServerForgetsAt(sys: System, k: int)
    requires Inv(sys) && sys.client.out != [] && sys.client.out[0].Connected? && sys.client.out[0].error
    ensures var m := sys.client.out[0];
            At(Step(sys, ServerReceives), k) == if k == m.id && At(sys, k).up != [] then ServerLocal(At(sys, k), m) else At(sys, k)
  {
    var m, e := sys.client.out[0], sys.server;
    HeadOf(sys.client.out, k);
    HeadOf(sys.client.out, m.id);
    AnswerIsPlanned(sys);
    var i := FindPlanned(e.planned, m.id).value;
    ErasePlanned(e, i);
    PlanErase(e.planned, i, k);
  }

  /** The server's dispatch moves an id from one phase to the next; a refusal
      leaves nothing of it. */
  lemma ServerLocalPhase(l: Local, id: int, r: Request)
    requires InPhase(l, id, r) && l.up != []
    ensures var m := l.up[0];
            if m.Connected? && m.error then Refused(l, id, r) && Unused(ServerLocal(l, m)) else InPhase(ServerLocal(l, m), id, r)
  {
  }

  lemma ServerDataAt(sys: System, k: int)
    requires Inv(sys) && sys.client.out != [] && !sys.client.out[0].Connected?
    ensures var m := sys.client.out[0];
            At(Step(sys, ServerReceives), k) == if k == m.id && At(sys, k).up != [] then ServerLocal(At(sys, k), m) else At(sys, k)
  {
    HeadOf(sys.client.out, k);
  }

  lemma ServerReceivesAt(sys: System, k: int)
    requires Inv(sys) && sys.client.out != []
    ensures var m := sys.client.out[0];
            At(Step(sys, ServerReceives), k) == if k == m.id && At(sys, k).up != [] then ServerLocal(At(sys, k), m) else At(sys, k)
  {
    var m := sys.client.out[0];
    if !m.Connected? { ServerDataAt(sys, k); } else if m.error { ServerForgetsAt(sys, k); } else { ServerConnectsAt(sys, k); }
  }

  lemma ServerReceivesPhase(sys: System, k: int)
    requires Inv(sys) && sys.client.out != []
    ensures Phase(Step(sys, ServerReceives), k)
  {
    ServerReceivesAt(sys, k);
    HeadOf(sys.client.out, k);
    HeadIsKnown(sys, sys.client.out[0]);
    assert Phase(sys, k);
    if k == sys.client.out[0].id && At(sys, k).up != [] { ServerLocalPhase(At(sys, k), k, sys.asked[k]); }
  }

  lemma StepIds(sys: System, ev: Event)
    requires Inv(sys) && Enabled(sys, ev)
    ensures AllocInv(Step(sys, ev).server) && Step(sys, ev).client.planned == []
  {
    match ev
    case ServerCreates(cm, sm, known, flags) => StepKeepsIds(sys.server, DoCreate(cm, sm, known, flags));
    case ServerReceives =>
      var m := sys.client.out[0];
      if m.Connected? { StepKeepsIds(sys.server, OnConnected(m.id, m.flags, m.error, Built)); }
    case ServerSends(_, _) =>
      assert UsedIds(Step(sys, ev).server) == UsedIds(sys.server);
    case ClientReceives(_) =>
      assert UsedIds(Step(sys, ev).server) == UsedIds(sys.server);
    case ClientSends(_, _) =>
  }

  lemma StepInv(sys: System, ev: Event)
    requires Inv(sys) && Enabled(sys, ev)
    ensures Inv(Step(sys, ev))
  {
    StepIds(sys, ev);
    forall k: int ensures Phase(Step(sys, ev), k) {
      match ev
      case ServerCreates(_, _, _, _) => CreatePhase(sys, ev, k);
      case ServerSends(_, _) => SendPhase(sys, ev, k);
      case ClientSends(_, _) => SendPhase(sys, ev, k);
      case ServerReceives => ServerReceivesPhase(sys, k);
      case ClientReceives(built) => ClientReceivesPhase(sys, built, k);
    }
  }

  // ---- what holds in every run ----

  lemma StartInv(sys: System)
    requires sys == Start
    ensures Inv(sys)
  {
    assert forall k: int :: Unused(At(sys, k));
  }

  lemma {:induction false} RunInv(run: seq<System>, i: nat)
    requires IsRun(run) && i < |run|
    ensures Inv(run[i])
  {
    if i == 0 {
      StartInv(run[0]);
    } else {
      RunInv(run, i - 1);
      assert Next(run[i - 1], run[i]);
      var ev :| Enabled(run[i - 1], ev) && run[i] == Step(run[i - 1], ev);
      StepInv(run[i - 1], ev);
    }
  }

  /** The client takes a data frame at the head of its link. */
  lemma ClientDelivers(sys: System)
    requires Inv(sys) && sys.server.out != [] && sys.server.out[0].Data?
    ensures ReceiveData(sys.client, true, true, sys.server.out[0].id) == Delivered
  {
    var m := sys.server.out[0];
    HeadIsKnown(sys, m);
    HeadOf(sys.server.out, m.id);
    assert Phase(sys, m.id);
  }

  lemma ServerDelivers(sys: System, userSession: bool)
    requires Inv(sys) && sys.client.out != [] && sys.client.out[0].Data?
    ensures var id := sys.client.out[0].id;
            && id in sys.asked
            && ReceiveData(sys.server, false, userSession, id) ==
               if AllowSessionFor(sys.asked[id].flags, userSession) then Delivered else SessionMismatch
  {
    var m := sys.client.out[0];
    HeadIsKnown(sys, m);
    HeadOf(sys.client.out, m.id);
    assert Phase(sys, m.id);
  }

  /** Whenever the next frame for the client is data, its connector is present,
      remote-connected and running: recvChannelData does not throw. */
  lemma ClientAcceptsData(run: seq<System>, i: nat)
    requires IsRun(run) && i < |run| && run[i].server.out != [] && run[i].server.out[0].Data?
    ensures ReceiveData(run[i].client, true, true, run[i].server.out[0].id) == Delivered
  {
    RunInv(run, i);
    ClientDelivers(run[i]);
  }

  /** Whenever the next frame for the server is data, its connector is present,
      remote-connected and running; the frame is accepted if and only if the
      flags the channel was created with admit the server's kind of session. */
  lemma ServerAcceptsDataIff(run: seq<System>, i: nat, userSession: bool)
    requires IsRun(run) && i < |run| && run[i].client.out != [] && run[i].client.out[0].Data?
    ensures var id := run[i].client.out[0].id;
            && id in run[i].asked
            && ReceiveData(run[i].server, false, userSession, id) ==
               if AllowSessionFor(run[i].asked[id].flags, userSession) then Delivered else SessionMismatch
  {
    RunInv(run, i);
    ServerDelivers(run[i], userSession);
  }

  /** In a user session without login-session channels no data frame is ever
      refused, on either side. */
  lemma HandshakeSafety(run: seq<System>, i: nat)
    requires IsRun(run) && i < |run|
    requires forall id :: id in run[i].asked ==> !AllowLogin(run[i].asked[id].flags)
    ensures run[i].server.out != [] && run[i].server.out[0].Data? ==>
              ReceiveData(run[i].client, true, true, run[i].server.out[0].id) == Delivered
    ensures run[i].client.out != [] && run[i].client.out[0].Data? ==>
              ReceiveData(run[i].server, false, true, run[i].client.out[0].id) == Delivered
  {
    if run[i].server.out != [] && run[i].server.out[0].Data? { ClientAcceptsData(run, i); }
    if run[i].client.out != [] && run[i].client.out[0].Data? { ServerAcceptsDataIff(run, i, true); }
  }

  // ---- the links keep the order of data ----

  /** The link from the client to the server, or the one back. */
  function Link(sys: System, up: bool): seq<Message> { if up then sys.client.out else sys.server.out }

  /** The payload of a frame, if it is data of this id. */
  function PayloadOf(m: Message, id: int): (r: seq<seq<byte>>)
    ensures |r| <= 1
  {
    if m.Data? && m.id == id then [m.payload] else []
  }

  /** The payloads of the data frames of one id, in order. */
  function DataOf(q: seq<Message>, id: int): seq<seq<byte>>
  {
    if q == [] then []
    else PayloadOf(q[0], id) + DataOf(q[1..], id)
  }

  /** What an event puts on a link, and what it takes from it. */
  function Put(ev: Event, up: bool, id: int): seq<seq<byte>>
  {
    if up then (if ev.ClientSends? && ev.id == id then [ev.payload] else [])
    else if ev.ServerSends? && ev.id == id then [ev.payload] else []
  }

  function Taken(sys: System, ev: Event, up: bool, id: int): seq<seq<byte>>
    requires Enabled(sys, ev)
  {
    if (if up then ev.ServerReceives? else ev.ClientReceives?) then PayloadOf(Link(sys, up)[0], id) else []
  }

  /** Without data frames of the id there is nothing. */
  lemma {:induction false} NoDataOf(q: seq<Message>, id: int)
    requires forall i :: 0 <= i < |For(q, id)| ==> !For(q, id)[i].Data?
    ensures DataOf(q, id) == []
  {
    if q != [] {
      HeadOf(q, id);
      forall i | 0 <= i < |For(q[1..], id)| ensures !For(q[1..], id)[i].Data? {
        assert For(q[1..], id)[i] == For(q, id)[if q[0].id == id then i + 1 else i];
      }
      NoDataOf(q[1..], id);
      if q[0].id == id { assert !For(q, id)[0].Data?; }
    }
  }

  lemma {:induction false} DataAppend(q: seq<Message>, m: Message, id: int)
    ensures DataOf(q + [m], id) == DataOf(q, id) + PayloadOf(m, id)
  {
    if q == [] {
      assert q + [m] == [m];
    } else {
      DataAppend(q[1..], m, id);
      assert (q + [m])[1..] == q[1..] + [m];
      Regroup(PayloadOf(q[0], id), DataOf(q[1..], id), PayloadOf(m, id));
    }
  }

  /** Handling a frame adds at most one control frame. */
  lemma ControlOnly(e: Endpoint, e': Endpoint, m: Message, id: int)
    requires e' == ServerHandles(e, m) || e' == ClientHandles(e, m, true) || e' == ClientHandles(e, m, false) || exists cm, sm, k, f :: e' == Create(e, cm, sm, k, f).0
    ensures DataOf(e'.out, id) == DataOf(e.out, id)
  {
    if e'.out != e.out {
      assert e'.out == e.out + [e'.out[|e.out|]] && !e'.out[|e.out|].Data?;
      DataAppend(e.out, e'.out[|e.out|], id);
    }
  }

  /** An event appends what it puts on a link and takes from the front. */
  lemma LinkStep(sys: System, ev: Event, up: bool, id: int)
    requires Enabled(sys, ev)
    ensures Taken(sys, ev, up, id) + DataOf(Link(Step(sys, ev), up), id) == DataOf(Link(sys, up), id) + Put(ev, up, id)
  {
    var q := Link(sys, up);
    assert DataOf(q, id) + [] == DataOf(q, id) && [] + DataOf(q, id) == DataOf(q, id);
    match ev
    case ServerCreates(cm, sm, known, flags) =>
      if !up { ControlOnly(sys.server, Create(sys.server, cm, sm, known, flags).0, Data(0, []), id); }
    case ServerSends(k, payload) => DataAppend(q, Data(k, payload), id);
    case ClientSends(k, payload) => DataAppend(q, Data(k, payload), id);
    case ServerReceives =>
      if !up { ControlOnly(sys.server, ServerHandles(sys.server, sys.client.out[0]), sys.client.out[0], id); }
    case ClientReceives(built) =>
      if up { ControlOnly(sys.client, ClientHandles(sys.client, sys.server.out[0], built), sys.server.out[0], id); }
  }

  ghost predicate IsHistory(run: seq<System>, evs: seq<Event>)
  {
    && |run| == |evs| + 1 && run[0] == Start
    && forall i :: 0 <= i < |evs| ==> Enabled(run[i], evs[i]) && run[i + 1] == Step(run[i], evs[i])
  }

  function AllPut(evs: seq<Event>, n: nat, up: bool, id: int): seq<seq<byte>>
    requires n <= |evs|
  {
    if n == 0 then [] else AllPut(evs, n - 1, up, id) + Put(evs[n - 1], up, id)
  }

  ghost function AllTaken(run: seq<System>, evs: seq<Event>, n: nat, up: bool, id: int): seq<seq<byte>>
    requires IsHistory(run, evs) && n <= |evs|
  {
    if n == 0 then [] else AllTaken(run, evs, n - 1, up, id) + Taken(run[n - 1], evs[n - 1], up, id)
  }

  /** In every run the data frames of an id that were taken from a link are the
      first of those put on it, and the link holds the rest. */
  lemma {:induction false} LinkIsFifo(run: seq<System>, evs: seq<Event>, n: nat, up: bool, id: int)
    requires IsHistory(run, evs) && n <= |evs|
    ensures AllTaken(run, evs, n, up, id) + DataOf(Link(run[n], up), id) == AllPut(evs, n, up, id)
  {
    if n > 0 {
      LinkIsFifo(run, evs, n - 1, up, id);
      assert Enabled(run[n - 1], evs[n - 1]) && run[n - 1 + 1] == Step(run[n - 1], evs[n - 1]);
      LinkStep(run[n - 1], evs[n - 1], up, id);
      Regroup(AllTaken(run, evs, n - 1, up, id), Taken(run[n - 1], evs[n - 1], up, id), DataOf(Link(run[n], up), id));
      Regroup(AllTaken(run, evs, n - 1, up, id), DataOf(Link(run[n - 1], up), id), Put(evs[n - 1], up, id));
    }
  }

  /** What an id was created for stays with it, until the server hears that the
      client refused it; then there is nothing of the id left anywhere. */
  lemma RequestStays(sys: System, ev: Event, id: int)
    requires Inv(sys) && Enabled(sys, ev) && id in sys.asked
    ensures var sys' := Step(sys, ev);
            || (id in sys'.asked && sys'.asked[id] == sys.asked[id])
            || (ev == ServerReceives && Refused(At(sys, id), id, sys.asked[id])
                && id !in sys'.asked && Unused(At(sys', id)) && !Used(sys'.server, id))
  {
    if ev.ServerCreates? {
      var k := FirstFree(sys.server, 1);
      assert Phase(sys, k);
      assert k < RESERVED_ID ==> !Used(sys.server, k);
    } else if ev == ServerReceives {
      var m := sys.client.out[0];
      assert Phase(sys, id);
      HeadOf(sys.client.out, id);
      if m.id == id && m.Connected? && m.error {
        ServerLocalPhase(At(sys, id), id, sys.asked[id]);
        ServerReceivesAt(sys, id);
      }
    }
  }

  /** A connector, once built, stays with its mode. */
  lemma ConnectorsStay(sys: System, ev: Event, id: int)
    requires Inv(sys) && Enabled(sys, ev)
    ensures var (l, l') := (At(sys, id), At(Step(sys, ev), id));
            && (l.srv.Some? ==> l'.srv.Some? && l'.srv.value.mode == l.srv.value.mode)
            && (l.cli.Some? ==> l'.cli.Some? && l'.cli.value.mode == l.cli.value.mode)
  {
    assert Phase(sys, id);
    match ev
    case ServerCreates(_, _, _, _) =>
    case ServerSends(_, _) =>
    case ClientSends(_, _) =>
    case ServerReceives =>
      HeadOf(sys.client.out, id);
      ServerReceivesAt(sys, id);
    case ClientReceives(built) =>
      HeadOf(sys.server.out, id);
      ClientReceivesAt(sys, built, id);
  }

  /** A request that the client refused is never established: it stays refused
      until the server takes the answer, and then the id is free again. */
  lemma RefusalFreesId(sys: System, ev: Event, id: int)
    requires Inv(sys) && Enabled(sys, ev) && id in sys.asked && Refused(At(sys, id), id, sys.asked[id])
    ensures var sys' := Step(sys, ev);
            || (id in sys'.asked && Refused(At(sys', id), id, sys'.asked[id]))
            || (id !in sys'.asked && Unused(At(sys', id)) && LeastFree(sys'.server, FirstFree(sys'.server, 1)) && FirstFree(sys'.server, 1) <= id)
  {
    RequestStays(sys, ev, id);
    StepInv(sys, ev);
    var sys' := Step(sys, ev);
    assert Phase(sys, id) && Phase(sys', id);
    if id in sys'.asked {
      RefusedStays(sys, ev, id);
    } else {
      var n := FirstFree(sys'.server, 1);
      assert id < n ==> Used(sys'.server, id);
    }
  }

  lemma RefusedStays(sys: System, ev: Event, id: int)
    requires Inv(sys) && Enabled(sys, ev) && id in sys.asked && Refused(At(sys, id), id, sys.asked[id])
    requires id in Step(sys, ev).asked && Step(sys, ev).asked[id] == sys.asked[id]
    ensures Refused(At(Step(sys, ev), id), id, sys.asked[id])
  {
    var l := At(sys, id);
    match ev
    case ServerCreates(cm, sm, known, flags) =>
      var k := FirstFree(sys.server, 1);
      assert Phase(sys, k);
      PlanAppend(sys.server.planned, Planned(k, sm, flags), id);
      ForAppend(sys.server.out, Open(k, cm, flags), id);
      assert k < RESERVED_ID ==> !Used(sys.server, k);
    case ServerSends(k, payload) => ForAppend(sys.server.out, Data(k, payload), id);
    case ClientSends(k, payload) => ForAppend(sys.client.out, Data(k, payload), id);
    case ServerReceives =>
      HeadOf(sys.client.out, id);
      ServerReceivesAt(sys, id);
    case ClientReceives(built) =>
      HeadOf(sys.server.out, id);
      ClientReceivesAt(sys, built, id);
  }

  /** The first id given out is the first one asked for, when it is free. */
  lemma FirstFreeHere(e: Endpoint, from: nat)
    requires from < RESERVED_ID && !Used(e, from)
    ensures FirstFree(e, from) == from
  {
  }

  lemma CreatesOne(r: Request, id: nat) returns (s1: System)
    requires id == 1 && Useful(r.clientMode, r.serverMode)
    ensures Next(Start, s1) && s1.client == Start.client
    ensures s1.server == Endpoint([], [Planned(id, r.serverMode, r.flags)], [Open(id, r.clientMode, r.flags)])
  {
    FirstFreeHere(Start.server, id);
    s1 := Step(Start, ServerCreates(r.clientMode, r.serverMode, true, r.flags));
  }

  /** One channel is created; the client builds it. */
  lemma OpensOnClient(flags: int, id: nat) returns (s1: System, s2: System)
    requires id == 1
    ensures Next(Start, s1) && Next(s1, s2)
    ensures s2.client == Endpoint([Connector(id, ReadWrite, flags, true, false)], [], [Connected(id, flags, false)])
    ensures s2.server == Endpoint([], [Planned(id, ReadWrite, flags)], [])
  {
    s1 := CreatesOne(Request(ReadWrite, ReadWrite, flags), id);
    assert HandleOpen(s1.client, true, id, ReadWrite, flags, true) == Construct(s1.client, id, ReadWrite, flags);
    s2 := Step(s1, ClientReceives(true));
  }

  /** A run that creates one channel, with these flags, and lets the client
      build it, send data at once and the server take the announcement. */
  lemma OneChannelRun(payload: seq<byte>, flags: int, id: nat) returns (run: seq<System>)
    requires payload != [] && id == 1
    ensures IsRun(run) && run[|run| - 1].client.out == [Data(id, payload)]
    ensures run[|run| - 1].server.channels == [Connector(id, ReadWrite, flags, true, true)]
  {
    var s1, s2 := OpensOnClient(flags, id);
    var s3 := Step(s2, ClientSends(id, payload));
    assert s3.client.out == [Connected(id, flags, false), Data(id, payload)];
    var s4 := Step(s3, ServerReceives);
    run := [Start, s1, s2, s3, s4];
    assert Next(s2, s3) && Next(s3, s4);
  }

  /** The restriction is needed: a login-session channel created in a user
      session opens, but its first data frame is refused by the server. */
  lemma LoginChannelIsRefused(payload: seq<byte>) returns (run: seq<System>)
    requires payload != []
    ensures IsRun(run)
    ensures var last := run[|run| - 1];
            && last.client.out != [] && last.client.out[0] == Data(1, payload)
            && ReceiveData(last.server, false, true, 1) == SessionMismatch
  {
    run := OneChannelRun(payload, 2, 1);
  }

  /** Once both links are drained nothing is planned, and every id either has
      running, connected connectors on both sides, of the modes it was asked for on
      each side, at least one of which reads and one writes, or none on either side
      and can be given out. */
  lemma QuietMeansEstablished(run: seq<System>, i: nat, id: int)
    requires IsRun(run) && i < |run| && run[i].server.out == [] && run[i].client.out == []
    ensures PlanAt(run[i].server.planned, id).None?
    ensures var srv, cli := ConnAt(run[i].server.channels, id), ConnAt(run[i].client.channels, id);
            if id in run[i].asked then
              var r := run[i].asked[id];
              && Runs(srv, r.serverMode, r.flags, true) && Runs(cli, r.clientMode, r.flags, true)
              && Useful(cli.value.mode, srv.value.mode)
            else srv.None? && cli.None? && !Used(run[i].server, id)
  {
    RunInv(run, i);
    assert Phase(run[i], id);
  }

  /** The client cannot open the only channel. */
  lemma FailsOnClient(s1: System, r: Request, id: nat) returns (s2: System)
    requires id == 1 && s1.client == Endpoint([], [], []) && s1.server.out == [Open(id, r.clientMode, r.flags)]
    ensures Next(s1, s2) && s2.server == s1.server.(out := []) && s2.client == Endpoint([], [], [Connected(id, r.flags, true)])
  {
    OpenAnswer(s1.client, true, id, r.clientMode, r.flags, false, id);
    s2 := Step(s1, ClientReceives(false));
  }

  lemma ForgetsOnServer(s2: System, p: Planned, r: Request) returns (s3: System)
    requires s2.server == Endpoint([], [p], []) && s2.client == Endpoint([], [], [Connected(p.id, r.flags, true)])
    ensures Next(s2, s3) && s3.server == Endpoint([], [], []) && s3.client == Endpoint([], [], [])
  {
    RefusalBuildsNothing(s2.server, p.id, r.flags, Built);
    s3 := Step(s2, ServerReceives);
  }

  /** A run in which the client cannot open the only channel: once its answer is
      taken, both sides are as they were. */
  lemma RefusedChannelRun(r: Request, id: nat) returns (run: seq<System>)
    requires id == 1 && Useful(r.clientMode, r.serverMode)
    ensures IsRun(run) && |run| == 4 && run[1].server.planned == [Planned(id, r.serverMode, r.flags)]
    ensures run[2].client.out == [Connected(id, r.flags, true)]
    ensures run[3].server == Start.server && run[3].client == Start.client
  {
    var s1 := CreatesOne(r, id);
    var s2 := FailsOnClient(s1, r, id);
    var s3 := ForgetsOnServer(s2, Planned(id, r.serverMode, r.flags), r);
    run := [Start, s1, s2, s3];
  }
}
