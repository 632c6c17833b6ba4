/** Two pumps joined by two wrapped byte streams, in every interleaving of their loops and
    watchers with cancellations, failing writes, lossy ends of the streams, and other users of
    the tunnels sending control frames. */
module Network {
  import opened Errors
  import opened Bytes
  import opened Frames
  import Decode
  import opened Wrapper
  import opened Pump

  /** One end: its pump, its wrapper (whose `wire` is what it has put on its outgoing stream), and
      how much of the peer's wire has arrived here and been consumed. `ended` is the error this
      end's reader reports after the bytes that have arrived. */
  datatype Side = Side(pump: State, tun: Tun, arrived: nat, consumed: nat, ended: Option<Error>)

  datatype Move =
    | Local(act: Action)                                  // a step that does not involve the tunnel
    | Send(fault: Option<Fault>)                          // pumpUp's tun.SendFrame
    | RecvCheck                                           // RecvFrame looks at the closed flag
    | RecvDone                                            // ReadFrame returns
    | ShutTunnel(fault: Option<Fault>)                    // the watcher's tun.Close
    | OtherSend(frame: Frame, fault: Option<Fault>)       // another user sends a control frame
    | OtherClose(code: uint32, message: seq<byte>, fault: Option<Fault>)
    | Arrive(n: nat)                                      // n more bytes of the peer's wire get here
    | End(err: Error)                                     // nothing more will

  /** "pump: ctx cancel" */
  const GOODBYE: seq<byte> := [112, 117, 109, 112, 58, 32, 99, 116, 120, 32, 99, 97, 110, 99, 101, 108]

  predicate WithinWire(me: Side, wire: seq<byte>) { me.consumed <= me.arrived <= |wire| }

  /** Bytes that have arrived and not been read. */
  function Unread(me: Side, wire: seq<byte>): seq<byte>
    requires WithinWire(me, wire)
  {
    wire[me.consumed..me.arrived]
  }

  /** What ReadFrame makes of them. */
  function NextRead(me: Side, wire: seq<byte>): Decode.Parse<Frame>
    requires WithinWire(me, wire)
  {
    Decode.ReadFrame(Unread(me, wire), if me.ended.Some? then me.ended.value else EOF)
  }

  /** ReadFrame blocks while the record is incomplete and the stream has not ended. */
  predicate Blocked(me: Side, wire: seq<byte>)
    requires WithinWire(me, wire)
  {
    me.ended.None? && NextRead(me, wire).Bad? && NextRead(me, wire).starved
  }

  function SendCall(me: Side, fault: Option<Fault>): (Tun, Option<Error>)
    requires UpEnabled(me.pump, UpSend(None))
  {
    AfterSend(me.tun, OutgoingFrame(me.pump), fault)
  }

  /** The frame pumpUp builds: the tag, and a slice of the buffer. */
  function OutgoingFrame(s: State): Frame
    requires UpEnabled(s, UpSend(None))
  {
    PacketFrame(s.up.tag, s.pool.mem[s.up.b][..s.up.n])
  }

  predicate Possible(me: Side, wire: seq<byte>, m: Move) {
    match m
    case Local(a) => Enabled(me.pump, a) && !InvolvesTunnel(a)
    case Send(_) => UpEnabled(me.pump, UpSend(None))
    case RecvCheck => me.pump.down.DRecv?
    case RecvDone => me.pump.down.DInRecv? && WithinWire(me, wire) && !Blocked(me, wire)
    case ShutTunnel(_) => me.pump.watch.DeviceShut?
    case OtherSend(f, _) => !IsPacketTag(f.tag)
    case OtherClose(_, _, _) => true
    case Arrive(n) => me.ended.None? && me.arrived + n <= |wire|
    case End(_) => me.ended.None?
  }

  /** The pump step a move amounts to. */
  function ActOf(me: Side, wire: seq<byte>, m: Move): (a: Option<Action>)
    requires Possible(me, wire, m)
    ensures a.Some? ==> Enabled(me.pump, a.value)
  {
    match m
    case Local(a) => Some(a)
    case Send(fault) => Some(UpSend(SendCall(me, fault).1))
    case RecvCheck => Some(if me.tun.closed then DownRecv(Err(TransportClosed)) else DownCall)
    case RecvDone =>
      var r := NextRead(me, wire);
      Some(DownRecv(if r.Ok? then Got(r.value) else Err(r.err)))
    case ShutTunnel(_) => Some(WatchTunnel)
    case _ => None
  }

  function TunAfter(me: Side, wire: seq<byte>, m: Move): Tun
    requires Possible(me, wire, m)
  {
    match m
    case Send(fault) => SendCall(me, fault).0
    case ShutTunnel(fault) => AfterClose(me.tun, 0, GOODBYE, fault).0
    case OtherSend(f, fault) => AfterSend(me.tun, f, fault).0
    case OtherClose(code, message, fault) => AfterClose(me.tun, code, message, fault).0
    case _ => me.tun
  }

  function ConsumedAfter(me: Side, wire: seq<byte>, m: Move): nat
    requires Possible(me, wire, m)
  {
    if m.RecvDone? then
      var r := NextRead(me, wire);
      if r.Ok? && |r.rest| <= me.arrived then me.arrived - |r.rest| else me.arrived
    else me.consumed
  }

  function Step(me: Side, wire: seq<byte>, m: Move): Side
    requires Possible(me, wire, m)
  {
    var a := ActOf(me, wire, m);
    Side(if a.Some? then Apply(me.pump, a.value) else me.pump,
         TunAfter(me, wire, m),
         if m.Arrive? then me.arrived + m.n else me.arrived,
         ConsumedAfter(me, wire, m),
         if m.End? then Some(m.err) else me.ended)
  }

  // ---- two sides ----

  datatype Net = Net(a: Side, b: Side)

  datatype Turn = A(move: Move) | B(move: Move)

  function Start(mtu: int, overhead: int): Side {
    Side(Init(mtu, overhead), FRESH, 0, 0, None)
  }

  predicate CanTurn(n: Net, t: Turn) {
    match t
    case A(m) => Possible(n.a, n.b.tun.wire, m)
    case B(m) => Possible(n.b, n.a.tun.wire, m)
  }

  function After(n: Net, t: Turn): Net
    requires CanTurn(n, t)
  {
    match t
    case A(m) => n.(a := Step(n.a, n.b.tun.wire, m))
    case B(m) => n.(b := Step(n.b, n.a.tun.wire, m))
  }

  function NetExec(n: Net, turns: seq<Turn>): Option<Net>
    decreases turns
  {
    if turns == [] then Some(n)
    else if CanTurn(n, turns[0]) then NetExec(After(n, turns[0]), turns[1..])
    else None
  }

  lemma {:induction false} NetExecConcat(n0: Net, turns: seq<Turn>, n: Net, more: seq<Turn>)
    requires NetExec(n0, turns) == Some(n)
    ensures NetExec(n0, turns + more) == NetExec(n, more)
    decreases turns
  {
    hide CanTurn, After;
    if turns == [] {
      assert turns + more == more;
    } else {
      assert (turns + more)[1..] == turns[1..] + more;
      NetExecConcat(After(n0, turns[0]), turns[1..], n, more);
    }
  }

  lemma NetExecCons(n0: Net, t: Turn, turns: seq<Turn>)
    requires CanTurn(n0, t)
    ensures NetExec(n0, [t] + turns) == NetExec(After(n0, t), turns)
  {
    hide CanTurn, After;
    assert ([t] + turns)[1..] == turns;
  }

  /** Some run of the joined pumps leads from `n0` to `n`. */
  ghost predicate Joined(n0: Net, n: Net) { exists turns :: NetExec(n0, turns) == Some(n) }

  lemma JoinedTransitive(n0: Net, n1: Net, n2: Net)
    requires Joined(n0, n1) && Joined(n1, n2)
    ensures Joined(n0, n2)
  {
    hide NetExec;
    var turns :| NetExec(n0, turns) == Some(n1);
    var more :| NetExec(n1, more) == Some(n2);
    NetExecConcat(n0, turns, n1, more);
  }

  /** The sides are interchangeable. */
  function Flip(n: Net): Net { Net(n.b, n.a) }

  function FlipTurns(turns: seq<Turn>): seq<Turn> {
    if turns == [] then []
    else [match turns[0] case A(m) => B(m) case B(m) => A(m)] + FlipTurns(turns[1..])
  }

  lemma {:induction false} FlippedRun(n0: Net, turns: seq<Turn>, n: Net)
    requires NetExec(n0, turns) == Some(n)
    ensures NetExec(Flip(n0), FlipTurns(turns)) == Some(Flip(n))
    decreases turns
  {
    hide Possible, Step;
    if turns != [] {
      FlippedRun(After(n0, turns[0]), turns[1..], n);
      assert FlipTurns(turns)[1..] == FlipTurns(turns[1..]);
    }
  }

  lemma JoinedFlip(n0: Net, n: Net)
    requires Joined(n0, n)
    ensures Joined(Flip(n0), Flip(n))
  {
    hide NetExec, FlipTurns;
    var turns :| NetExec(n0, turns) == Some(n);
    FlippedRun(n0, turns, n);
  }

  /** The second side makes no move. */
  predicate OnlyA(turns: seq<Turn>) { forall i :: 0 <= i < |turns| ==> turns[i].A? }

  /** A run in which only the first side moves has brought it to `me`. */
  ghost predicate Alone(n0: Net, me: Side) {
    exists turns :: OnlyA(turns) && NetExec(n0, turns) == Some(n0.(a := me))
  }

  lemma StartAlone(n0: Net)
    ensures Alone(n0, n0.a)
  {
    assert n0.(a := n0.a) == n0;
    assert OnlyA([]) && NetExec(n0, []) == Some(n0);
  }

  /** One more move of such a run. */
  lemma NextAlone(n0: Net, me: Side, m: Move) returns (me': Side)
    requires Alone(n0, me) && Possible(me, n0.b.tun.wire, m)
    ensures me' == Step(me, n0.b.tun.wire, m) && Alone(n0, me')
  {
    hide Possible, Step, NetExec;
    var turns :| OnlyA(turns) && NetExec(n0, turns) == Some(n0.(a := me));
    var n := n0.(a := me);
    NetExecConcat(n0, turns, n, [A(m)]);
    NetExecOne(n, A(m));
    me' := Step(me, n0.b.tun.wire, m);
    assert OnlyA(turns + [A(m)]);
  }

  lemma NetExecOne(n: Net, t: Turn)
    requires CanTurn(n, t)
    ensures NetExec(n, [t]) == Some(After(n, t))
  {
    hide CanTurn, After;
    assert NetExec(After(n, t), [t][1..]) == Some(After(n, t));
  }

  lemma AloneIsJoined(n0: Net, me: Side)
    requires Alone(n0, me)
    ensures Joined(n0, n0.(a := me))
  {
  }

  /** Steps of the pump that leave the tunnel alone. */
  lemma {:induction false} LocalAlone(n0: Net, me: Side, acts: seq<Action>, s: State)
    requires Alone(n0, me) && AllLocal(acts) && Exec(me.pump, acts) == Some(s)
    ensures Alone(n0, me.(pump := s))
    decreases acts
  {
    hide Alone, Enabled, Apply, InvolvesTunnel;
    if acts == [] {
      assert me.(pump := s) == me;
    } else {
      var me' := NextAlone(n0, me, Local(acts[0]));
      assert me' == me.(pump := Apply(me.pump, acts[0]));
      LocalAlone(n0, me', acts[1..], s);
    }
  }

  /** A pump whose up loop has just entered dev.Read, on an open device, with its first buffer. */
  function InRead(mtu: int, overhead: int): State {
    var s := Init(mtu, overhead);
    s.(pool := s.pool.(mem := [Zeros(s.pool.size)]), up := UInRead(0), log := s.log.(gets := 1))
  }

  lemma EnterDeviceRead(mtu: int, overhead: int, peer: Side) returns (me: Side)
    ensures Alone(Net(Start(mtu, overhead), peer), me) && me == Start(mtu, overhead).(pump := InRead(mtu, overhead))
  {
    hide Alone, Outcome, Zeros;
    var n0 := Net(Start(mtu, overhead), peer);
    StartAlone(n0);
    me := NextAlone(n0, n0.a, Local(UpCheck));
    me := NextAlone(n0, me, Local(UpGet(None)));
    me := NextAlone(n0, me, Local(UpCall));
    assert [] + [Zeros(me.pump.pool.size)] == [Zeros(me.pump.pool.size)];
  }

  /** Into ReadFrame, leaving all else alone. */
  lemma EnterReadFrame(n0: Net, me: Side) returns (me': Side)
    requires Alone(n0, me) && me.pump.down.DTop? && !me.pump.group.done && !me.tun.closed
    ensures Alone(n0, me') && me' == me.(pump := me.pump.(down := DInRecv))
  {
    hide Alone;
    me' := NextAlone(n0, me, Local(DownCheck));
    me' := NextAlone(n0, me', RecvCheck);
  }
}
