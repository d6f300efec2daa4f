/** One channel from the descriptor that is read on one side to the descriptor
    that is written on the other: the threads of both connectors, the two
    endpoints and the links between them, taking turns in any order.  The threads
    of a connector start when an endpoint builds it, in the mode it was given. */
module EndToEnd {
  import opened MachineInts
  import opened Wrappers
  import opened Sequences
  import opened ChannelSystem
  import ChannelLaws
  import Handshake
  import ConnectorThreads

  type Bytes = seq<byte>

  /** Which channel, in which direction, and whether the server's session is a
      user session. */
  datatype Setting = Setting(z: ConnectorThreads.Codec, id: uint8, up: bool, userSession: bool)

  /** The endpoints with their links, and the threads of the connectors at both
      ends once they are built. */
  datatype Joint = Joint(
    sys: Handshake.System,
    near: Option<ConnectorThreads.Threads>,
    far: Option<ConnectorThreads.Threads>)

  const Start: Joint := Joint(Handshake.Start, None, None)

  datatype Move =
    | OnLink(ev: Handshake.Event)
    | OnNear(op: ConnectorThreads.Op)
    | OnFar(farOp: ConnectorThreads.Op)

  /** The connectors of the channel in the endpoints' tables. */
  function NearConn(c: Setting, sys: Handshake.System): Option<Connector>
  {
    ConnAt((if c.up then sys.client else sys.server).channels, c.id)
  }

  function FarConn(c: Setting, sys: Handshake.System): Option<Connector>
  {
    ConnAt((if c.up then sys.server else sys.client).channels, c.id)
  }

  function Sending(c: Setting, payload: Bytes): Handshake.Event
  {
    if c.up then Handshake.ClientSends(c.id, payload) else Handshake.ServerSends(c.id, payload)
  }

  /** The receiving endpoint hands a data frame of the channel to its connector;
      otherwise recvChannelData throws. */
  predicate Delivers(c: Setting, j: Joint)
  {
    && ReceiveData(if c.up then j.sys.server else j.sys.client, !c.up, !c.up || c.userSession, c.id) == Delivered
    && j.far.Some? && j.far.value.running
  }

  /** The connector puts the buffer into its queue, unless it only reads: then
      pushData ignores it. */
  function Pushing(z: ConnectorThreads.Codec, t: ConnectorThreads.Threads, buf: Bytes): ConnectorThreads.Threads
  {
    if t.mode == ReadOnly then t else ConnectorThreads.Step(z, t, ConnectorThreads.Push(buf))
  }

  /** The threads of a connector that has just been built start. */
  function Started(t: Option<ConnectorThreads.Threads>, conn: Option<Connector>): Option<ConnectorThreads.Threads>
  {
    if t.None? && conn.Some? then Some(ConnectorThreads.Fresh(conn.value.mode)) else t
  }

  /** Frames of the channel are put on the link by the reader's thread only, and
      buffers are pushed by the receiving endpoint only. */
  predicate Enabled(c: Setting, j: Joint, m: Move)
  {
    match m
    case OnLink(ev) => Handshake.Enabled(j.sys, ev) && Handshake.Put(ev, c.up, c.id) == []
    case OnNear(op) =>
      && j.near.Some? && ConnectorThreads.Enabled(j.near.value, op)
      && var sent := ConnectorThreads.NewPayload(j.near.value, op);
         sent != [] ==> Handshake.Enabled(j.sys, Sending(c, sent[0]))
    case OnFar(op) => j.far.Some? && ConnectorThreads.Enabled(j.far.value, op) && !op.Push?
  }

  function Received(c: Setting, j: Joint, taken: seq<Bytes>): Option<ConnectorThreads.Threads>
  {
    if taken != [] && Delivers(c, j) then Some(Pushing(c.z, j.far.value, taken[0])) else j.far
  }

  function Step(c: Setting, j: Joint, m: Move): Joint
    requires Enabled(c, j, m)
  {
    match m
    case OnLink(ev) =>
      var sys := Handshake.Step(j.sys, ev);
      Joint(sys, Started(j.near, NearConn(c, sys)),
            Started(Received(c, j, Handshake.Taken(j.sys, ev, c.up, c.id)), FarConn(c, sys)))
    case OnNear(op) =>
      var sent := ConnectorThreads.NewPayload(j.near.value, op);
      Joint(if sent == [] then j.sys else Handshake.Step(j.sys, Sending(c, sent[0])),
            Some(ConnectorThreads.Step(c.z, j.near.value, op)), j.far)
    case OnFar(op) => j.(far := Some(ConnectorThreads.Step(c.z, j.far.value, op)))
  }

  ghost predicate IsRun(c: Setting, run: seq<Joint>, moves: seq<Move>)
  {
    && |run| == |moves| + 1 && run[0] == Start
    && forall i :: 0 <= i < |moves| ==> Enabled(c, run[i], moves[i]) && run[i + 1] == Step(c, run[i], moves[i])
  }

  // ---- what the ends have seen ----

  function Sent(j: Joint): seq<Bytes> { if j.near.None? then [] else ConnectorThreads.Payloads(j.near.value.trace) }

  function Pushed(j: Joint): seq<Bytes> { if j.far.None? then [] else j.far.value.w.pushed }

  /** Bytes read at the near end, and what a failed read there left behind. */
  function BytesRead(j: Joint): Bytes { if j.near.None? then [] else j.near.value.r.taken }

  function LeftOver(z: ConnectorThreads.Codec, j: Joint): Bytes
  {
    if j.near.None? then [] else ConnectorThreads.Inflated(z, j.near.value.r.left)
  }

  /** Bytes the far descriptor has taken. */
  function BytesWritten(j: Joint): Bytes { if j.far.None? then [] else j.far.value.w.accepted }

  function InTransit(c: Setting, sys: Handshake.System): seq<Bytes> { Handshake.DataOf(Handshake.Link(sys, c.up), c.id) }

  /** The flags of the channel admit the receiver's session. */
  predicate Admitted(c: Setting, sys: Handshake.System)
  {
    c.up && c.id in sys.asked ==> AllowSessionFor(sys.asked[c.id].flags, c.userSession)
  }

  /** The far connector, if there is one, runs and writes. */
  predicate Takes(far: Option<ConnectorThreads.Threads>)
  {
    far.Some? ==> far.value.running && far.value.mode != ReadOnly
  }

  // ---- the invariant ----

  predicate Delivery(c: Setting, j: Joint)
  {
    && Pushed(j) <= Sent(j)
    && (Takes(j.far) && Admitted(c, j.sys) ==> Pushed(j) + InTransit(c, j.sys) == Sent(j))
  }

  /** Threads belong to a connector of the table and have its mode. */
  predicate Matches(t: Option<ConnectorThreads.Threads>, conn: Option<Connector>)
  {
    (t.Some? <==> conn.Some?) && (t.Some? ==> t.value.mode == conn.value.mode)
  }

  ghost predicate NearInv(c: Setting, near: Option<ConnectorThreads.Threads>)
  {
    near.Some? ==> ConnectorThreads.Inv(c.z, near.value) && ConnectorThreads.ReaderInv(c.z, near.value)
  }

  ghost predicate FarInv(c: Setting, far: Option<ConnectorThreads.Threads>)
  {
    far.Some? ==> ConnectorThreads.Inv(c.z, far.value) && (far.value.mode == ReadOnly ==> far.value.w.pushed == [])
  }

  ghost predicate Inv(c: Setting, j: Joint)
  {
    && Handshake.Inv(j.sys)
    && Matches(j.near, NearConn(c, j.sys)) && Matches(j.far, FarConn(c, j.sys))
    && NearInv(c, j.near) && FarInv(c, j.far)
    && Delivery(c, j)
  }

  // ---- each move keeps it ----

  /** The connector of the table through an event: it stays, with its mode. */
  lemma ConnThrough(c: Setting, sys: Handshake.System, ev: Handshake.Event)
    requires Handshake.Inv(sys) && Handshake.Enabled(sys, ev)
    ensures var sys' := Handshake.Step(sys, ev);
            && (NearConn(c, sys).Some? ==> NearConn(c, sys').Some? && NearConn(c, sys').value.mode == NearConn(c, sys).value.mode)
            && (FarConn(c, sys).Some? ==> FarConn(c, sys').Some? && FarConn(c, sys').value.mode == FarConn(c, sys).value.mode)
  {
    Handshake.ConnectorsStay(sys, ev, c.id);
  }

  /** Connectors that are built have a mode. */
  lemma BuiltModes(c: Setting, sys: Handshake.System)
    requires Handshake.Inv(sys)
    ensures NearConn(c, sys).Some? ==> NearConn(c, sys).value.mode != Unknown
    ensures FarConn(c, sys).Some? ==> FarConn(c, sys).value.mode != Unknown
  {
    assert Handshake.Phase(sys, c.id);
  }

  /** Before the near connector is built nothing of the channel is on the link. */
  lemma SilentBefore(c: Setting, sys: Handshake.System)
    requires Handshake.Inv(sys) && NearConn(c, sys).None?
    ensures InTransit(c, sys) == []
  {
    assert Handshake.Phase(sys, c.id);
    Handshake.NoDataOf(Handshake.Link(sys, c.up), c.id);
  }

  lemma AdmittedStays(c: Setting, sys: Handshake.System, ev: Handshake.Event)
    requires Handshake.Inv(sys) && Handshake.Enabled(sys, ev) && NearConn(c, sys).Some?
    ensures Admitted(c, Handshake.Step(sys, ev)) <==> Admitted(c, sys)
  {
    assert Handshake.Phase(sys, c.id);
    Handshake.RequestStays(sys, ev, c.id);
  }

  /** A data frame of an admitted channel is not refused by the endpoint; one of
      any other channel is. */
  lemma TakenIsDelivered(c: Setting, sys: Handshake.System, ev: Handshake.Event)
    requires Handshake.Inv(sys) && Handshake.Enabled(sys, ev) && Handshake.Taken(sys, ev, c.up, c.id) != []
    ensures |Handshake.Taken(sys, ev, c.up, c.id)| == 1 && FarConn(c, sys).Some?
    ensures ReceiveData(if c.up then sys.server else sys.client, !c.up, !c.up || c.userSession, c.id) == Delivered <==> Admitted(c, sys)
  {
    if c.up { Handshake.ServerDelivers(sys, c.userSession); } else { Handshake.ClientDelivers(sys); }
  }

  lemma TakeOne(pushed: seq<Bytes>, taken: seq<Bytes>, transit: seq<Bytes>, transit': seq<Bytes>, sent: seq<Bytes>)
    requires taken + transit' == transit + [] && pushed + transit == sent
    ensures (pushed + taken) + transit' == sent && pushed + taken <= sent
  {
    assert transit + [] == transit;
    Regroup(pushed, taken, transit');
  }

  /** What a delivery does to the far connector. */
  lemma ReceivedPushes(c: Setting, j: Joint, taken: seq<Bytes>)
    requires |taken| <= 1
    ensures var far := Received(c, j, taken);
            && (far.Some? <==> j.far.Some?)
            && (far.Some? ==>
                  && far.value.mode == j.far.value.mode && far.value.running == j.far.value.running
                  && far.value.w.pushed == j.far.value.w.pushed + if Delivers(c, j) && j.far.value.mode != ReadOnly then taken else [])
  {
    if j.far.Some? { assert j.far.value.w.pushed + [] == j.far.value.w.pushed; }
    if taken != [] { assert taken == [taken[0]]; }
  }

  lemma ReceivedInv(c: Setting, j: Joint, taken: seq<Bytes>)
    requires FarInv(c, j.far)
    ensures FarInv(c, Received(c, j, taken))
  {
    if taken != [] && Delivers(c, j) && j.far.value.mode != ReadOnly {
      ConnectorThreads.StepInv(c.z, j.far.value, ConnectorThreads.Push(taken[0]));
    }
  }

  /** Threads that start have seen nothing. */
  lemma StartedIsFresh(c: Setting, mode: Mode, t: ConnectorThreads.Threads)
    requires t == ConnectorThreads.Fresh(mode) && mode != Unknown
    ensures NearInv(c, Some(t)) && FarInv(c, Some(t)) && t.trace == [] && t.w.pushed == [] && t.mode == mode && t.running
  {
    ConnectorThreads.FreshInv(c.z, t);
    ConnectorThreads.FreshReader(c.z, t);
  }

  /** After an event threads and connectors still match, and invariants hold. */
  lemma LinkEnds(c: Setting, j: Joint, ev: Handshake.Event)
    requires Inv(c, j) && Enabled(c, j, OnLink(ev))
    ensures var j' := Step(c, j, OnLink(ev));
            && Matches(j'.near, NearConn(c, j'.sys)) && Matches(j'.far, FarConn(c, j'.sys))
            && NearInv(c, j'.near) && FarInv(c, j'.far)
  {
    var sys := Handshake.Step(j.sys, ev);
    var taken := Handshake.Taken(j.sys, ev, c.up, c.id);
    Handshake.StepInv(j.sys, ev);
    ConnThrough(c, j.sys, ev);
    BuiltModes(c, sys);
    ReceivedInv(c, j, taken);
    ReceivedPushes(c, j, taken);
    if j.near.None? && NearConn(c, sys).Some? {
      StartedIsFresh(c, NearConn(c, sys).value.mode, ConnectorThreads.Fresh(NearConn(c, sys).value.mode));
    }
    if j.far.None? && FarConn(c, sys).Some? {
      StartedIsFresh(c, FarConn(c, sys).value.mode, ConnectorThreads.Fresh(FarConn(c, sys).value.mode));
    }
  }

  /** Before the near connector is built nothing happens; the event that builds it
      puts no data on the link. */
  lemma NothingYet(c: Setting, j: Joint, ev: Handshake.Event)
    requires Inv(c, j) && Enabled(c, j, OnLink(ev)) && j.near.None?
    ensures Delivery(c, Step(c, j, OnLink(ev)))
  {
    var j' := Step(c, j, OnLink(ev));
    var taken := Handshake.Taken(j.sys, ev, c.up, c.id);
    SilentBefore(c, j.sys);
    Handshake.LinkStep(j.sys, ev, c.up, c.id);
    assert taken == [] && InTransit(c, j'.sys) == [];
    assert Pushed(j) == [] && Pushed(j') == [] && Sent(j') == [];
  }

  /** An event of the link moves at most one payload from the link to the
      connector. */
  lemma LinkDelivery(c: Setting, j: Joint, ev: Handshake.Event)
    requires Inv(c, j) && Enabled(c, j, OnLink(ev)) && j.near.Some?
    ensures Delivery(c, Step(c, j, OnLink(ev)))
  {
    var j' := Step(c, j, OnLink(ev));
    var taken := Handshake.Taken(j.sys, ev, c.up, c.id);
    AdmittedStays(c, j.sys, ev);
    Handshake.LinkStep(j.sys, ev, c.up, c.id);
    ReceivedPushes(c, j, taken);
    if taken != [] { TakenIsDelivered(c, j.sys, ev); }
    if Admitted(c, j.sys) && Takes(j.far) {
      TakeOne(Pushed(j), taken, InTransit(c, j.sys), InTransit(c, j'.sys), Sent(j));
      assert j.far.None? ==> taken == [] && Pushed(j) + taken == [];
    }
  }

  lemma NearDelivery(c: Setting, j: Joint, op: ConnectorThreads.Op)
    requires Inv(c, j) && Enabled(c, j, OnNear(op))
    ensures Delivery(c, Step(c, j, OnNear(op)))
  {
    var j' := Step(c, j, OnNear(op));
    var sent := ConnectorThreads.NewPayload(j.near.value, op);
    ConnectorThreads.PayloadsGrow(c.z, j.near.value, op);
    assert Sent(j') == Sent(j) + sent;
    if sent != [] {
      assert sent == [sent[0]];
      var ev := Sending(c, sent[0]);
      Handshake.LinkStep(j.sys, ev, c.up, c.id);
      SendingKeepsTables(c, j.sys, sent[0]);
      assert [] + InTransit(c, j'.sys) == InTransit(c, j'.sys);
      Regroup(Pushed(j), InTransit(c, j.sys), sent);
    }
  }

  /** Sending changes no table. */
  lemma SendingKeepsTables(c: Setting, sys: Handshake.System, payload: Bytes)
    requires Handshake.Enabled(sys, Sending(c, payload))
    ensures var sys' := Handshake.Step(sys, Sending(c, payload));
            NearConn(c, sys') == NearConn(c, sys) && FarConn(c, sys') == FarConn(c, sys) && Admitted(c, sys') == Admitted(c, sys)
  {
  }

  lemma NearStepInv(z: ConnectorThreads.Codec, t: ConnectorThreads.Threads, op: ConnectorThreads.Op)
    requires ConnectorThreads.InflateUndoesDeflate(z) && ConnectorThreads.Enabled(t, op)
    requires ConnectorThreads.Inv(z, t) && ConnectorThreads.ReaderInv(z, t)
    ensures var t' := ConnectorThreads.Step(z, t, op);
            ConnectorThreads.Inv(z, t') && ConnectorThreads.ReaderInv(z, t') && t'.mode == t.mode
  {
    ConnectorThreads.StepInv(z, t, op);
    ConnectorThreads.ReaderStepInv(z, t, op);
  }

  lemma NearEnds(c: Setting, j: Joint, op: ConnectorThreads.Op)
    requires ConnectorThreads.InflateUndoesDeflate(c.z) && Inv(c, j) && Enabled(c, j, OnNear(op))
    ensures var j' := Step(c, j, OnNear(op));
            && Handshake.Inv(j'.sys) && NearInv(c, j'.near)
            && Matches(j'.near, NearConn(c, j'.sys)) && Matches(j'.far, FarConn(c, j'.sys))
  {
    var sent := ConnectorThreads.NewPayload(j.near.value, op);
    if sent != [] {
      Handshake.StepInv(j.sys, Sending(c, sent[0]));
      SendingKeepsTables(c, j.sys, sent[0]);
    }
    NearStepInv(c.z, j.near.value, op);
  }

  lemma FarStep(c: Setting, j: Joint, op: ConnectorThreads.Op)
    requires Inv(c, j) && Enabled(c, j, OnFar(op))
    ensures Inv(c, Step(c, j, OnFar(op)))
  {
    ConnectorThreads.StepInv(c.z, j.far.value, op);
    FarKeepsPushed(c.z, j.far.value, op);
  }

  lemma FarKeepsPushed(z: ConnectorThreads.Codec, far: ConnectorThreads.Threads, op: ConnectorThreads.Op)
    requires ConnectorThreads.Enabled(far, op) && !op.Push?
    ensures var far' := ConnectorThreads.Step(z, far, op);
            far'.w.pushed == far.w.pushed && far'.mode == far.mode && (far'.running ==> far.running)
  {
  }

  lemma StepInv(c: Setting, j: Joint, m: Move)
    requires ConnectorThreads.InflateUndoesDeflate(c.z) && Inv(c, j) && Enabled(c, j, m)
    ensures Inv(c, Step(c, j, m))
  {
    match m
    case OnLink(ev) =>
      Handshake.StepInv(j.sys, ev);
      LinkEnds(c, j, ev);
      if j.near.None? { NothingYet(c, j, ev); } else { LinkDelivery(c, j, ev); }
    case OnNear(op) =>
      NearEnds(c, j, op);
      NearDelivery(c, j, op);
    case OnFar(op) => FarStep(c, j, op);
  }

  lemma StartInv(c: Setting, j: Joint)
    requires j == Start
    ensures Inv(c, j)
  {
    Handshake.StartInv(j.sys);
  }

  lemma {:induction false} RunInv(c: Setting, run: seq<Joint>, moves: seq<Move>, i: nat)
    requires ConnectorThreads.InflateUndoesDeflate(c.z) && IsRun(c, run, moves) && i < |run|
    ensures Inv(c, run[i])
  {
    if i == 0 {
      StartInv(c, run[0]);
    } else {
      RunInv(c, run, moves, i - 1);
      assert Enabled(c, run[i - 1], moves[i - 1]) && run[i - 1 + 1] == Step(c, run[i - 1], moves[i - 1]);
      StepInv(c, run[i - 1], moves[i - 1]);
    }
  }

  // ---- what holds in every run ----

  /** The buffers pushed at one end are the first payloads sent at the other;
      while the receiving connector runs and writes and its session is the
      channel's kind, the rest is on the link. */
  lemma DeliveredInOrder(c: Setting, run: seq<Joint>, moves: seq<Move>, i: nat)
    requires ConnectorThreads.InflateUndoesDeflate(c.z) && IsRun(c, run, moves) && i < |run|
    ensures Pushed(run[i]) <= Sent(run[i])
    ensures Takes(run[i].far) && Admitted(c, run[i].sys) ==> Pushed(run[i]) + InTransit(c, run[i].sys) == Sent(run[i])
  {
    RunInv(c, run, moves, i);
  }

  /** Both connectors have the modes that createChannel was asked for, so one of
      them reads and one writes. */
  lemma ModesAreAsked(c: Setting, run: seq<Joint>, moves: seq<Move>, i: nat)
    requires ConnectorThreads.InflateUndoesDeflate(c.z) && IsRun(c, run, moves) && i < |run|
    requires run[i].near.Some? && run[i].far.Some?
    ensures var (near, far) := (run[i].near.value.mode, run[i].far.value.mode);
            && c.id in run[i].sys.asked
            && near == (if c.up then run[i].sys.asked[c.id].clientMode else run[i].sys.asked[c.id].serverMode)
            && far == (if c.up then run[i].sys.asked[c.id].serverMode else run[i].sys.asked[c.id].clientMode)
            && (near == ReadOnly ==> far == WriteOnly || far == ReadWrite)
            && (far == WriteOnly ==> near == ReadOnly || near == ReadWrite)
  {
    RunInv(c, run, moves, i);
    ConnModes(c, run[i].sys);
  }

  lemma ConnModes(c: Setting, sys: Handshake.System)
    requires Handshake.Inv(sys) && NearConn(c, sys).Some? && FarConn(c, sys).Some?
    ensures c.id in sys.asked && ChannelLaws.Useful(sys.asked[c.id].clientMode, sys.asked[c.id].serverMode)
    ensures var r := sys.asked[c.id];
            && NearConn(c, sys).value.mode == (if c.up then r.clientMode else r.serverMode)
            && FarConn(c, sys).value.mode == (if c.up then r.serverMode else r.clientMode)
  {
    assert Handshake.Phase(sys, c.id);
  }

  /** What the far descriptor has taken is a prefix of what was read here; after
      a failed read, of that and what the failed read left in the buffer. */
  lemma AcceptedIsRead(c: Setting, run: seq<Joint>, moves: seq<Move>, i: nat)
    requires ConnectorThreads.InflateUndoesDeflate(c.z) && IsRun(c, run, moves) && i < |run|
    ensures BytesWritten(run[i]) <= BytesRead(run[i]) + LeftOver(c.z, run[i])
    ensures run[i].near.Some? && !run[i].near.value.r.failed ==> BytesWritten(run[i]) <= BytesRead(run[i])
  {
    RunInv(c, run, moves, i);
    var j := run[i];
    if j.far.Some? {
      ConnectorThreads.ConservedIsPrefix(c.z, j.far.value.w);
      ConnectorThreads.FlatPrefix(c.z, Pushed(j), Sent(j));
      if j.near.Some? { ConnectorThreads.SentIsBounded(c.z, j.near.value); }
      PrefixTrans(BytesWritten(j), ConnectorThreads.Flat(c.z, Pushed(j)), ConnectorThreads.Flat(c.z, Sent(j)));
      PrefixTrans(BytesWritten(j), ConnectorThreads.Flat(c.z, Sent(j)), BytesRead(j) + LeftOver(c.z, j));
    }
    assert BytesRead(j) + [] == BytesRead(j);
  }

  /** Nothing is under way: between reads, on the link, or in the far queue. */
  predicate Quiet(c: Setting, j: Joint)
  {
    && (j.near.Some? ==> !j.near.value.r.failed && !j.near.value.r.pc.RSend?)
    && InTransit(c, j.sys) == []
    && (j.far.Some? ==> !j.far.value.w.failed && j.far.value.w.queue == [] && !j.far.value.w.pc.WWrite?)
  }

  /** Nothing is lost: when nothing is under way in an admitted channel whose far
      connector runs and writes, its descriptor has taken exactly what was read
      here. */
  lemma QuietMeansAllArrived(c: Setting, run: seq<Joint>, moves: seq<Move>, i: nat)
    requires ConnectorThreads.InflateUndoesDeflate(c.z) && IsRun(c, run, moves) && i < |run|
    requires Quiet(c, run[i]) && Takes(run[i].far) && Admitted(c, run[i].sys)
    ensures BytesWritten(run[i]) == BytesRead(run[i])
  {
    RunInv(c, run, moves, i);
    var j := run[i];
    assert Pushed(j) + [] == Pushed(j);
    if j.far.Some? { AllWritten(c.z, j.far.value); }
    if j.near.Some? { AllSent(c.z, j.near.value); }
  }

  lemma AllWritten(z: ConnectorThreads.Codec, t: ConnectorThreads.Threads)
    requires ConnectorThreads.Conserved(z, t.w) && !t.w.failed && t.w.queue == [] && !t.w.pc.WWrite?
    ensures t.w.accepted == ConnectorThreads.Flat(z, t.w.pushed)
  {
    assert t.w.accepted + [] + [] == t.w.accepted;
  }

  lemma AllSent(z: ConnectorThreads.Codec, t: ConnectorThreads.Threads)
    requires ConnectorThreads.ReaderInv(z, t) && !t.r.failed && !t.r.pc.RSend?
    ensures t.r.taken == ConnectorThreads.Flat(z, ConnectorThreads.Payloads(t.trace))
  {
  }

  /** A connector that only reads writes nothing, whatever is sent to it; the
      modes ReadWrite and ReadOnly go together all the same. */
  lemma ReaderIgnoresData(c: Setting, run: seq<Joint>, moves: seq<Move>, i: nat)
    requires ConnectorThreads.InflateUndoesDeflate(c.z) && IsRun(c, run, moves) && i < |run|
    requires run[i].far.Some? && run[i].far.value.mode == ReadOnly
    ensures Pushed(run[i]) == [] && BytesWritten(run[i]) == []
    ensures ChannelLaws.Useful(ReadWrite, ReadOnly) && ChannelLaws.Useful(ReadOnly, ReadWrite)
  {
    RunInv(c, run, moves, i);
    ConnectorThreads.ConservedIsPrefix(c.z, run[i].far.value.w);
  }
}
