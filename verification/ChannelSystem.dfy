/** ChannelClient of src/channels/channel_system.cpp: the table of running
    channels, the list of planned ones, and the handlers that move an id from
    one to the other.

    The handlers are first given as functions on endpoint values; the class
    ChannelClient at the end performs them on its fields. */
module ChannelSystem {
  import opened MachineInts
  import opened Wrappers

  const SYSTEM_ID: int := 0
  const RESERVED_ID: int := 0xFF

  datatype Mode = Unknown | ReadOnly | ReadWrite | WriteOnly

  /** A connector object: constructed running, not yet remote-connected. */
  datatype Connector = Connector(id: uint8, mode: Mode, flags: int, running: bool, remoteConnected: bool)

  datatype Planned = Planned(id: uint8, serverMode: Mode, flags: int)

  datatype Message =
    | Open(id: int, mode: Mode, flags: int)
    | Connected(id: int, flags: int, error: bool)
    | Data(id: int, payload: seq<byte>)

  /** One side: its tables, and the ordered stream of frames it has sent and
      the peer has not yet taken. */
  datatype Endpoint = Endpoint(channels: seq<Connector>, planned: seq<Planned>, out: seq<Message>)

  /** OptsFlags::AllowLoginSession is bit 1 of the flags. */
  predicate AllowLogin(flags: int) { (flags / 2) % 2 == 1 }

  /** isAllowSessionFor. */
  predicate AllowSessionFor(flags: int, user: bool) { if AllowLogin(flags) then !user else user }

  predicate ValidId(id: int) { SYSTEM_ID < id < RESERVED_ID }

  // ---- lookups ----

  /** First connector with this id, as std::find_if gives it. */
  function FindChannel(channels: seq<Connector>, id: int): (r: Option<nat>)
    ensures r.Some? ==> r.value < |channels| && channels[r.value].id == id
                        && forall i :: 0 <= i < r.value ==> channels[i].id != id
    ensures r.None? ==> forall i :: 0 <= i < |channels| ==> channels[i].id != id
  {
    if channels == [] then None
    else if channels[0].id == id then Some(0)
    else
      var r := FindChannel(channels[1..], id);
      if r.Some? then Some(r.value + 1) else None
  }

  function FindPlanned(planned: seq<Planned>, id: int): (r: Option<nat>)
    ensures r.Some? ==> r.value < |planned| && planned[r.value].id == id
                        && forall i :: 0 <= i < r.value ==> planned[i].id != id
    ensures r.None? ==> forall i :: 0 <= i < |planned| ==> planned[i].id != id
  {
    if planned == [] then None
    else if planned[0].id == id then Some(0)
    else
      var r := FindPlanned(planned[1..], id);
      if r.Some? then Some(r.value + 1) else None
  }

  /** The connector an id stands for. */
  function ConnAt(channels: seq<Connector>, id: int): (r: Option<Connector>)
    ensures r.Some? ==> r.value.id == id
  {
    var i := FindChannel(channels, id);
    if i.Some? then Some(channels[i.value]) else None
  }

  function PlanAt(planned: seq<Planned>, id: int): (r: Option<Planned>)
    ensures r.Some? ==> r.value.id == id
  {
    var i := FindPlanned(planned, id);
    if i.Some? then Some(planned[i.value]) else None
  }

  predicate Used(e: Endpoint, id: int) { FindChannel(e.channels, id).Some? || FindPlanned(e.planned, id).Some? }

  /** The search loop of createChannel: least unused id from `from` on, or the
      reserved id when there is none. */
  function FirstFree(e: Endpoint, from: nat): (r: nat)
    requires from <= RESERVED_ID
    ensures from <= r <= RESERVED_ID
    ensures r < RESERVED_ID ==> !Used(e, r)
    ensures forall id :: from <= id < r ==> Used(e, id)
    decreases RESERVED_ID - from
  {
    if from == RESERVED_ID || !Used(e, from) then from else FirstFree(e, from + 1)
  }

  // ---- handlers ----

  predicate ModesAccepted(clientMode: Mode, serverMode: Mode)
  {
    && clientMode != Unknown
    && serverMode != Unknown
    && !(serverMode == clientMode && (serverMode == ReadOnly || serverMode == WriteOnly))
  }

  /** createChannel and createChannelAcceptFd; typesKnown says that no url type
      that the function checks is unknown. */
  function Create(e: Endpoint, clientMode: Mode, serverMode: Mode, typesKnown: bool, flags: int): (Endpoint, bool)
  {
    if !ModesAccepted(clientMode, serverMode) || !typesKnown then (e, false)
    else
      var id := FirstFree(e, 1);
      if id == RESERVED_ID then (e, false)
      else (e.(planned := e.planned + [Planned(id, serverMode, flags)], out := e.out + [Open(id, clientMode, flags)]), true)
  }

  /** A connector constructor: ConnectorBase announces itself, then the object
      joins the table with its threads running. */
  function Construct(e: Endpoint, id: uint8, mode: Mode, flags: int): Endpoint
  {
    e.(channels := e.channels + [Connector(id, mode, flags, true, false)],
       out := e.out + [Connected(id, flags, false)])
  }

  /** systemChannelOpen; `created` is what the factory for the type answered. */
  function HandleOpen(e: Endpoint, userSession: bool, id: int, mode: Mode, flags: int, created: bool): Endpoint
  {
    var refused := !userSession || !ValidId(id) || mode == Unknown || FindChannel(e.channels, ToUint8(id)).Some?;
    if refused || !created then e.(out := e.out + [Connected(ToUint8(id), flags, true)])
    else Construct(e, id, mode, flags)
  }

  /** The last part of systemChannelConnected: mark the connector, if any. */
  function MarkConnected(e: Endpoint, id: int): Endpoint
  {
    var i := FindChannel(e.channels, ToUint8(id));
    if i.Some? then e.(channels := e.channels[i.value := e.channels[i.value].(remoteConnected := true)]) else e
  }

  /** What channelPlannedCreate does: a factory built the connector; a factory
      failed, or there was nothing to build, which goes unnoticed; the server
      type has no factory; it has none for an open descriptor, or one threw. */
  datatype Made = Built | NotBuilt | Unimplemented | Thrown

  /** systemChannelConnected.  The planned entry is gone in every outcome. */
  function HandleConnected(e: Endpoint, id: int, flags: int, error: bool, made: Made): (Endpoint, Result<bool>)
  {
    var i := FindPlanned(e.planned, id);
    if i.None? then (MarkConnected(e, id), Ok(true))
    else
      var job := e.planned[i.value];
      var e1 := e.(planned := e.planned[..i.value] + e.planned[i.value + 1..]);
      if error || !ValidId(job.id) || FindChannel(e.channels, job.id).Some? then (e1, Ok(false))
      else
        match made
        case Built => (MarkConnected(Construct(e1, job.id, job.serverMode, flags), id), Ok(true))
        case NotBuilt => (MarkConnected(e1, id), Ok(true))
        case Unimplemented => (e1, Ok(false))
        case Thrown => (e1, Throws)
  }

  datatype DataOutcome = Delivered | NotFound | SessionMismatch | NotConnected | NotRunning

  /** recvChannelData: every outcome but Delivered is an exception.  The session
      test is compiled out of the client. */
  function ReceiveData(e: Endpoint, clientBuild: bool, userSession: bool, id: int): DataOutcome
  {
    var i := FindChannel(e.channels, id);
    if i.None? then NotFound
    else
      var c := e.channels[i.value];
      if !clientBuild && ((AllowSessionFor(c.flags, true) && !userSession) || (AllowSessionFor(c.flags, false) && userSession))
      then SessionMismatch
      else if !c.remoteConnected then NotConnected
      else if !c.running then NotRunning
      else Delivered
  }

  /** The first half of destroyChannel: the connector's threads are told to end. */
  function Stopped(e: Endpoint, id: int): Endpoint
  {
    var i := FindChannel(e.channels, ToUint8(id));
    if i.Some? then e.(channels := e.channels[i.value := e.channels[i.value].(running := false)]) else e
  }

  /** destroyChannel, once its thread has run. */
  function Destroy(e: Endpoint, id: int): Endpoint
  {
    var i := FindChannel(e.channels, ToUint8(id));
    if i.Some? then e.(channels := e.channels[..i.value] + e.channels[i.value + 1..]) else e
  }

  /** Closing an id refuses its data frames from the first half on: during the
      pause it is not running, and afterwards the next connector with the id, if
      any, is another one. */
  lemma ClosingRefusesData(e: Endpoint, clientBuild: bool, userSession: bool, id: uint8)
    ensures ReceiveData(Stopped(e, id), clientBuild, userSession, id) != Delivered
    ensures (forall i, k :: 0 <= i < k < |e.channels| ==> e.channels[i].id != e.channels[k].id) ==>
              ReceiveData(Destroy(e, id), clientBuild, userSession, id) == NotFound
  {
    var i := FindChannel(e.channels, id);
    if i.Some? {
      var cs := Stopped(e, id).channels;
      var k := FindChannel(cs, id);
      assert cs[i.value].id == id;
      assert forall j :: 0 <= j < i.value ==> cs[j].id != id;
      assert k == i;
    }
  }

  /** countFreeChannels. */
  function CountFree(e: Endpoint): Result<nat>
  {
    var used := 2 + |e.channels| + |e.planned|;
    if used > 0xFF then Throws else Ok(0xFF - used)
  }

  // ---- the class ----

  class ChannelClient {
    var channels: seq<Connector>
    var planned: seq<Planned>
    /** Frames handed to sendLtsmChannelData, which is one ordered stream. */
    var sent: seq<Message>
    const clientBuild: bool

    ghost function View(): Endpoint
      reads this
    {
      Endpoint(channels, planned, sent)
    }

    constructor (clientBuild: bool)
      ensures View() == Endpoint([], [], []) && this.clientBuild == clientBuild
    {
      channels, planned, sent := [], [], [];
      this.clientBuild := clientBuild;
    }

    method LocateChannel(id: int) returns (r: Option<nat>)
      ensures r == FindChannel(channels, id)
    {
      for i := 0 to |channels|
        invariant forall k :: 0 <= k < i ==> channels[k].id != id
      {
        if channels[i].id == id { return Some(i); }
      }
      return None;
    }

    method LocatePlanned(id: int) returns (r: Option<nat>)
      ensures r == FindPlanned(planned, id)
    {
      for i := 0 to |planned|
        invariant forall k :: 0 <= k < i ==> planned[k].id != id
      {
        if planned[i].id == id { return Some(i); }
      }
      return None;
    }

    /** The search for an id. */
    method SearchFree() returns (channel: nat)
      ensures channel == FirstFree(View(), 1)
    {
      channel := 1;
      while channel < RESERVED_ID
        invariant 1 <= channel <= RESERVED_ID
        invariant FirstFree(View(), 1) == FirstFree(View(), channel)
      {
        var running := LocateChannel(channel);
        var waiting := LocatePlanned(channel);
        if running.None? && waiting.None? { break; }
        channel := channel + 1;
      }
    }

    method CreateChannel(clientMode: Mode, serverMode: Mode, typesKnown: bool, flags: int) returns (ok: bool)
      modifies this
      ensures (View(), ok) == Create(old(View()), clientMode, serverMode, typesKnown, flags)
    {
      if clientMode == Unknown || serverMode == Unknown { return false; }
      if serverMode == clientMode && (serverMode == ReadOnly || serverMode == WriteOnly) { return false; }
      if !typesKnown { return false; }
      var channel := SearchFree();
      if channel == RESERVED_ID { return false; }
      planned := planned + [Planned(channel, serverMode, flags)];
      sent := sent + [Open(channel, clientMode, flags)];
      return true;
    }

    /** A factory call that succeeds. */
    method AddConnector(id: uint8, mode: Mode, flags: int)
      modifies this
      ensures View() == Construct(old(View()), id, mode, flags)
    {
      sent := sent + [Connected(id, flags, false)];
      channels := channels + [Connector(id, mode, flags, true, false)];
    }

    method SystemChannelOpen(userSession: bool, id: int, mode: Mode, flags: int, created: bool)
      modifies this
      ensures View() == HandleOpen(old(View()), userSession, id, mode, flags, created)
    {
      var replyError := false;
      if !userSession { replyError := true; }
      if id <= SYSTEM_ID || id >= RESERVED_ID { replyError := true; }
      if mode == Unknown { replyError := true; }
      var busy := LocateChannel(ToUint8(id));
      if busy.Some? { replyError := true; }
      if !replyError {
        if created { AddConnector(id, mode, flags); } else { replyError := true; }
      }
      if replyError { sent := sent + [Connected(ToUint8(id), flags, true)]; }
    }

    /** channelPlannedCreate, as far as the tables show it. */
    method ChannelPlannedCreate(job: Planned, flags: int, made: Made) returns (ok: Result<bool>)
      modifies this
      ensures View() == if made.Built? then Construct(old(View()), job.id, job.serverMode, flags) else old(View())
      ensures ok == if made.Thrown? then Throws else Ok(!made.Unimplemented?)
    {
      match made
      case Built =>
        AddConnector(job.id, job.serverMode, flags);
        ok := Ok(true);
      case NotBuilt => ok := Ok(true);
      case Unimplemented => ok := Ok(false);
      case Thrown => ok := Throws;
    }

    method SystemChannelConnected(id: int, flags: int, error: bool, made: Made) returns (ok: Result<bool>)
      modifies this
      ensures (View(), ok) == HandleConnected(old(View()), id, flags, error, made)
    {
      var it := LocatePlanned(id);
      if it.Some? {
        var job := planned[it.value];
        planned := planned[..it.value] + planned[it.value + 1..];
        if error { return Ok(false); }
        if !ValidId(job.id) { return Ok(false); }
        var busy := LocateChannel(job.id);
        if busy.Some? { return Ok(false); }
        ok := ChannelPlannedCreate(job, flags, made);
        if ok != Ok(true) { return; }
      }
      var conn := LocateChannel(ToUint8(id));
      if conn.Some? {
        channels := channels[conn.value := channels[conn.value].(remoteConnected := true)];
      }
      return Ok(true);
    }

    method RecvChannelData(userSession: bool, id: uint8) returns (r: DataOutcome)
      ensures r == ReceiveData(View(), clientBuild, userSession, id)
    {
      var it := LocateChannel(id);
      if it.None? { return NotFound; }
      var conn := channels[it.value];
      if !clientBuild {
        if (AllowSessionFor(conn.flags, true) && !userSession) || (AllowSessionFor(conn.flags, false) && userSession) {
          return SessionMismatch;
        }
      }
      if !conn.remoteConnected { return NotConnected; }
      if !conn.running { return NotRunning; }
      return Delivered;
    }

    /** `during` is the state of the pause between the two halves. */
    method DestroyChannel(id: int) returns (ghost during: Endpoint)
      modifies this
      ensures during == Stopped(old(View()), id) && View() == Destroy(old(View()), id)
    {
      var it := LocateChannel(ToUint8(id));
      if it.Some? { channels := channels[it.value := channels[it.value].(running := false)]; }
      during := View();
      if it.Some? { channels := channels[..it.value] + channels[it.value + 1..]; }
    }

    method CountFreeChannels() returns (r: Result<nat>)
      ensures r == CountFree(View())
    {
      var used := 2 + |channels| + |planned|;
      if used > 0xFF { return Throws; }
      return Ok(0xFF - used);
    }
  }
}
