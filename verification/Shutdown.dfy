/** Whether a pump over the wrapper gets to its end: exactly when it is stuck, and runs in which
    the code does not do what its documentation promises. */
module Shutdown {
  import opened Errors
  import opened Bytes
  import opened Frames
  import opened BufferPool
  import opened Encode
  import Decode
  import Codec
  import Format
  import Framing
  import opened Wrapper
  import opened Pump
  import opened Lifecycle
  import opened Ownership
  import opened Network
  import EndToEnd

  /** A move the program makes on its own: not one of the environment. A blocked device read
      returns by itself only once the device is closed, with the error the Device contract
      promises. */
  predicate OwnMove(me: Side, m: Move) {
    match m
    case Local(a) => !IsEnvironment(a) && (a.UpRead? ==> me.pump.devClosed && a.got == ReadErr(DeviceClosed))
    case Send(_) => true
    case RecvCheck => true
    case RecvDone => true
    case ShutTunnel(_) => true
    case _ => false
  }

  ghost predicate Stuck(me: Side, wire: seq<byte>) {
    forall m :: OwnMove(me, m) ==> !Possible(me, wire, m)
  }

  /** The down loop sits in ReadFrame and the peer's bytes have run dry without an end. */
  predicate Parked(me: Side, wire: seq<byte>)
    requires WithinWire(me, wire)
  {
    me.pump.down.DInRecv? && Blocked(me, wire)
  }

  function UpMove(up: Up): Move {
    match up
    case UTop => Local(UpCheck)
    case UGet => Local(UpGet(None))
    case UCall(_) => Local(UpCall)
    case UInRead(_) => Local(UpRead(ReadErr(DeviceClosed)))
    case USend(_, _, _) => Move.Send(None)
    case UPut(_, _) => Local(UpPut)
    case URet(_) => Local(UpExit)
    case UDone(_) => Local(Wait)
  }

  function DownMove(down: Down): Move {
    match down
    case DTop => Local(DownCheck)
    case DRecv => RecvCheck
    case DInRecv => RecvDone
    case DGet(_) => Local(DownGet(None))
    case DCopy(_, _) => Local(DownCopy)
    case DCall(_, _) => Local(DownWriteCall)
    case DInWrite(_, _) => Local(DownWrite(None))
    case DPut(_, _) => Local(DownPut)
    case DRet(_) => Local(DownExit)
    case DDone(_) => Local(Wait)
  }

  lemma UpCanMove(me: Side, wire: seq<byte>)
    requires PoolInv(me.pump) && !me.pump.up.UDone? && (me.pump.up.UInRead? ==> me.pump.devClosed)
    ensures OwnMove(me, UpMove(me.pump.up)) && Possible(me, wire, UpMove(me.pump.up))
  {
    hide Sound, Usable;
  }

  lemma DownCanMove(me: Side, wire: seq<byte>)
    requires PoolInv(me.pump) && WithinWire(me, wire) && !me.pump.down.DDone? && !Parked(me, wire)
    ensures OwnMove(me, DownMove(me.pump.down)) && Possible(me, wire, DownMove(me.pump.down))
  {
    hide Sound, Usable, NextRead;
  }

  /** Nothing is left to do without the environment. Once gCtx is done: everything else has ended and
      the down loop is parked. Before that: each loop has ended or is blocked, pumpUp in dev.Read on
      an open device and pumpDown parked, and at least one of them is still there. */
  predicate Hung(me: Side, wire: seq<byte>)
    requires WithinWire(me, wire)
  {
    if me.pump.group.done then me.pump.watch.TunnelShut? && me.pump.up.UDone? && Parked(me, wire)
    else
      && (me.pump.up.UDone? || (me.pump.up.UInRead? && !me.pump.devClosed))
      && (me.pump.down.DDone? || Parked(me, wire))
      && !(me.pump.up.UDone? && me.pump.down.DDone?)
  }

  /** The exact stuck states of a side until Run has returned. A loop that has ended with nil is no
      reason to move: while gCtx is not done its partner stays blocked. And once gCtx is done, the
      wrapper's Close does not end a ReadFrame that is already running. */
  lemma StuckExactly(me: Side, wire: seq<byte>)
    requires PoolInv(me.pump) && CancelInv(me.pump) && WithinWire(me, wire) && me.pump.group.result.None?
    ensures Stuck(me, wire) <==> Hung(me, wire)
  {
    hide Stuck, Hung, PoolInv, FirstError, ExitsMatch;
    if Hung(me, wire) { HungIsStuck(me, wire); }
    else if me.pump.group.done { EndingCanMove(me, wire); }
    else { RunningCanMove(me, wire); }
  }

  lemma HungIsStuck(me: Side, wire: seq<byte>)
    requires WithinWire(me, wire) && Hung(me, wire) && (me.pump.group.done || me.pump.watch.Waiting?)
    ensures Stuck(me, wire)
  {
    hide Hung, OwnMove, Possible;
    forall m | OwnMove(me, m) ensures !Possible(me, wire, m) { HungCannotMove(me, wire, m); }
  }

  lemma EndingCanMove(me: Side, wire: seq<byte>)
    requires PoolInv(me.pump) && CancelInv(me.pump) && WithinWire(me, wire) && me.pump.group.result.None?
    requires me.pump.group.done && !Hung(me, wire)
    ensures !Stuck(me, wire)
  {
    hide PoolInv, Parked, OwnMove, Possible, FirstError, ExitsMatch;
    if !me.pump.watch.TunnelShut? {
      WatcherCanMove(me, wire);
    } else if !me.pump.up.UDone? {
      UpCanMove(me, wire);
    } else if me.pump.down.DDone? {
      WaitCanMove(me, wire);
    } else {
      DownCanMove(me, wire);
    }
  }

  lemma RunningCanMove(me: Side, wire: seq<byte>)
    requires PoolInv(me.pump) && WithinWire(me, wire) && me.pump.group.result.None?
    requires !me.pump.group.done && !Hung(me, wire)
    ensures !Stuck(me, wire)
  {
    hide PoolInv, Parked, OwnMove, Possible;
    if me.pump.up.UDone? && me.pump.down.DDone? {
      WaitCanMove(me, wire);
    } else if me.pump.down.DDone? || Parked(me, wire) {
      UpCanMove(me, wire);
    } else {
      DownCanMove(me, wire);
    }
  }

  /** The same over every run of the joined pumps, for both sides. */
  lemma StuckExactlyInRuns(mtu: int, overhead: int, mtu': int, overhead': int, turns: seq<Turn>, n: Net)
    requires NetExec(Net(Start(mtu, overhead), Start(mtu', overhead')), turns) == Some(n)
    ensures WithinWire(n.a, n.b.tun.wire) && WithinWire(n.b, n.a.tun.wire)
    ensures n.a.pump.group.result.None? ==> (Stuck(n.a, n.b.tun.wire) <==> Hung(n.a, n.b.tun.wire))
    ensures n.b.pump.group.result.None? ==> (Stuck(n.b, n.a.tun.wire) <==> Hung(n.b, n.a.tun.wire))
  {
    hide NetExec, Stuck, Hung, PoolInv, CancelInv, Reachable;
    var n0 := Net(Start(mtu, overhead), Start(mtu', overhead'));
    EndToEnd.StartOk(mtu, overhead, mtu', overhead');
    EndToEnd.NetRun(n0, turns, n);
    SidesReachable(mtu, overhead, mtu', overhead', turns, n);
    ReachableInvariants(n.a.pump);
    ReachableInvariants(n.b.pump);
    if n.a.pump.group.result.None? { StuckExactly(n.a, n.b.tun.wire); }
    if n.b.pump.group.result.None? { StuckExactly(n.b, n.a.tun.wire); }
  }

  lemma ReachableInvariants(s: State)
    requires Reachable(s)
    ensures PoolInv(s) && CancelInv(s)
  {
    hide Exec, AllFit, Clean;
    var mtu, overhead, acts :| Exec(Init(mtu, overhead), acts) == Some(s);
    LifecycleOfRun(Init(mtu, overhead), acts, s);
    StartOwned(mtu, overhead);
    OwnershipOfRun(Init(mtu, overhead), acts, s);
  }

  /** Each side of a run of the joined pumps is a run of its pump, so that every theorem about one
      pump holds of both. */
  lemma SidesReachable(mtu: int, overhead: int, mtu': int, overhead': int, turns: seq<Turn>, n: Net)
    requires NetExec(Net(Start(mtu, overhead), Start(mtu', overhead')), turns) == Some(n)
    ensures Reachable(n.a.pump) && Reachable(n.b.pump)
  {
    hide NetExec, Reachable;
    StartIsReachable(mtu, overhead);
    StartIsReachable(mtu', overhead');
    SidesStayReachable(Net(Start(mtu, overhead), Start(mtu', overhead')), turns, n);
  }

  lemma {:induction false} SidesStayReachable(n: Net, turns: seq<Turn>, n': Net)
    requires Reachable(n.a.pump) && Reachable(n.b.pump) && NetExec(n, turns) == Some(n')
    ensures Reachable(n'.a.pump) && Reachable(n'.b.pump)
    decreases turns
  {
    hide Reachable, Possible, Step;
    if turns != [] {
      match turns[0] {
        case A(m) => SideStaysReachable(n.a, n.b.tun.wire, m);
        case B(m) => SideStaysReachable(n.b, n.a.tun.wire, m);
      }
      SidesStayReachable(After(n, turns[0]), turns[1..], n');
    }
  }

  lemma SideStaysReachable(me: Side, wire: seq<byte>, m: Move)
    requires Reachable(me.pump) && Possible(me, wire, m)
    ensures Reachable(Step(me, wire, m).pump)
  {
    hide Reachable, ActOf, Possible, TunAfter, ConsumedAfter, Apply, Enabled;
    var a := ActOf(me, wire, m);
    if a.Some? { StepIsReachable(me.pump, a.value); }
  }

  lemma WatcherCanMove(me: Side, wire: seq<byte>)
    requires me.pump.group.done && !me.pump.watch.TunnelShut?
    ensures var m := if me.pump.watch.Waiting? then Local(WatchDevice) else ShutTunnel(None);
            OwnMove(me, m) && Possible(me, wire, m)
  {
  }

  lemma WaitCanMove(me: Side, wire: seq<byte>)
    requires me.pump.up.UDone? && me.pump.down.DDone? && me.pump.group.result.None?
    ensures OwnMove(me, Local(Wait)) && Possible(me, wire, Local(Wait))
  {
  }

  lemma HungCannotMove(me: Side, wire: seq<byte>, m: Move)
    requires WithinWire(me, wire) && Hung(me, wire) && (me.pump.group.done || me.pump.watch.Waiting?) && OwnMove(me, m)
    ensures !Possible(me, wire, m)
  {
    hide NextRead;
  }

  // ---- shutdown ends ----

  /** Turns of the first side that are steps of its program, whatever the device answers. */
  predicate IsProgramTurn(t: Turn) {
    t.A? && (t.move.Send? || t.move.RecvCheck? || t.move.RecvDone? || t.move.ShutTunnel?
             || (t.move.Local? && !IsEnvironment(t.move.act)))
  }

  function ProgramTurns(turns: seq<Turn>): nat {
    if turns == [] then 0 else (if IsProgramTurn(turns[0]) then 1 else 0) + ProgramTurns(turns[1..])
  }

  lemma SideRankFalls(me: Side, wire: seq<byte>, m: Move)
    requires me.pump.group.done && Possible(me, wire, m)
    ensures var t := Step(me, wire, m).pump;
            t.group.done && Rank(t) + (if IsProgramTurn(A(m)) then 1 else 0) <= Rank(me.pump)
  {
    hide Rank, Apply, Enabled, NextRead, TunAfter, ConsumedAfter, SendCall;
    var a := ActOf(me, wire, m);
    if a.Some? { RankFalls(me.pump, a.value); }
  }

  /** Once gCtx is done, a side takes at most 19 more steps in any interleaving with the rest of the
      world: its device, its peer, other users of its tunnel. */
  lemma {:induction false} ShutdownIsShort(n: Net, turns: seq<Turn>, n': Net)
    requires n.a.pump.group.done && NetExec(n, turns) == Some(n')
    ensures n'.a.pump.group.done
    ensures ProgramTurns(turns) + Rank(n'.a.pump) <= Rank(n.a.pump) <= 19
    decreases turns
  {
    hide Possible, Step, IsProgramTurn, UpRank, DownRank, WatchRank;
    RankBounded(n.a.pump);
    if turns != [] {
      if turns[0].A? { SideRankFalls(n.a, n.b.tun.wire, turns[0].move); } else { NotProgram(turns[0]); }
      ShutdownIsShort(After(n, turns[0]), turns[1..], n');
    }
  }

  lemma NotProgram(t: Turn)
    requires t.B?
    ensures !IsProgramTurn(t)
  {
  }

  lemma RankBounded(s: State)
    ensures Rank(s) <= 19
  {
  }

  /** Turns in which the first side moves on its own and nobody else moves. */
  predicate OwnRun(n: Net, turns: seq<Turn>)
    decreases turns
  {
    turns != [] ==>
      && turns[0].A? && OwnMove(n.a, turns[0].move) && CanTurn(n, turns[0])
      && OwnRun(After(n, turns[0]), turns[1..])
  }

  /** A side left to itself once gCtx is done comes to a state in which it cannot move. */
  lemma Drains(n: Net) returns (turns: seq<Turn>, n': Net)
    requires n.a.pump.group.done
    ensures NetExec(n, turns) == Some(n') && OwnRun(n, turns) && |turns| <= Rank(n.a.pump)
    ensures Stuck(n'.a, n'.b.tun.wire) && n'.a.pump.group.done && n'.a.ended == n.a.ended
    decreases Rank(n.a.pump)
  {
    hide OwnMove, Possible, Step, Rank, IsProgramTurn;
    if Stuck(n.a, n.b.tun.wire) {
      turns, n' := [], n;
    } else {
      var m :| OwnMove(n.a, m) && Possible(n.a, n.b.tun.wire, m);
      OwnMoveFalls(n.a, n.b.tun.wire, m);
      var more; more, n' := Drains(After(n, A(m)));
      turns := [A(m)] + more;
      assert turns[1..] == more;
    }
  }

  lemma OwnMoveFalls(me: Side, wire: seq<byte>, m: Move)
    requires me.pump.group.done && OwnMove(me, m) && Possible(me, wire, m)
    ensures var t := Step(me, wire, m);
            t.pump.group.done && Rank(t.pump) < Rank(me.pump) && t.ended == me.ended
  {
    hide Rank, Possible, ActOf, TunAfter, ConsumedAfter, Apply;
    SideRankFalls(me, wire, m);
  }

  /** Shutdown ends. In every run of the joined pumps, once gCtx of a side is done, however the run goes
      on: the side takes at most 19 more steps, and when it can take no more, Run has returned, or
      pumpDown is parked in ReadFrame on a stream that has not ended. */
  lemma ShutdownEnds(mtu: int, overhead: int, mtu': int, overhead': int, turns: seq<Turn>, n: Net,
                     more: seq<Turn>, n': Net)
    requires NetExec(Net(Start(mtu, overhead), Start(mtu', overhead')), turns) == Some(n)
    requires n.a.pump.group.done && NetExec(n, more) == Some(n')
    ensures ProgramTurns(more) <= 19 && WithinWire(n'.a, n'.b.tun.wire)
    ensures Stuck(n'.a, n'.b.tun.wire) ==>
              n'.a.pump.group.result.Some? || (Parked(n'.a, n'.b.tun.wire) && n'.a.ended.None?)
  {
    hide NetExec, Stuck, ProgramTurns, Rank, NextRead;
    ShutdownIsShort(n, more, n');
    NetExecConcat(Net(Start(mtu, overhead), Start(mtu', overhead')), turns, n, more);
    StuckExactlyInRuns(mtu, overhead, mtu', overhead', turns + more, n');
  }

  /** ... and it does come to that on its own: if the peer's stream has ended, Run returns. */
  lemma ShutdownReturns(mtu: int, overhead: int, mtu': int, overhead': int, turns: seq<Turn>, n: Net)
    returns (more: seq<Turn>, n': Net)
    requires NetExec(Net(Start(mtu, overhead), Start(mtu', overhead')), turns) == Some(n)
    requires n.a.pump.group.done
    ensures NetExec(n, more) == Some(n') && OwnRun(n, more) && |more| <= 19
    ensures WithinWire(n'.a, n'.b.tun.wire)
    ensures n'.a.pump.group.result.Some? || Hung(n'.a, n'.b.tun.wire)
    ensures n.a.ended.Some? ==> n'.a.pump.group.result.Some?
  {
    hide NetExec, Stuck, OwnRun, Rank, NextRead;
    more, n' := Drains(n);
    RankBounded(n.a.pump);
    NetExecConcat(Net(Start(mtu, overhead), Start(mtu', overhead')), turns, n, more);
    StuckExactlyInRuns(mtu, overhead, mtu', overhead', turns + more, n');
  }

  // ---- what the end of the stream does ----

  /** The error with which the first side's incoming stream ended, if it did. */
  function EndOf(turns: seq<Turn>): Option<Error> {
    if turns == [] then None
    else if turns[0].A? && turns[0].move.End? then Some(turns[0].move.err)
    else EndOf(turns[1..])
  }

  lemma {:induction false} EndedExactly(n: Net, turns: seq<Turn>, n': Net)
    requires NetExec(n, turns) == Some(n')
    ensures n'.a.ended == if n.a.ended.Some? then n.a.ended else EndOf(turns)
    decreases turns
  {
    hide ActOf, TunAfter, ConsumedAfter, Enabled, Blocked;
    if turns != [] { EndedExactly(After(n, turns[0]), turns[1..], n'); }
  }

  /** What RecvFrame answers once the stream has ended with `e` in the middle of a record or between two:
      in every run, the error that the bytes left over and `e` make, and nothing else. */
  lemma EndIsReported(mtu: int, overhead: int, mtu': int, overhead': int, turns: seq<Turn>, n: Net, e: Error)
    requires NetExec(Net(Start(mtu, overhead), Start(mtu', overhead')), turns) == Some(n)
    requires EndOf(turns) == Some(e) && CanTurn(n, A(RecvDone)) && WithinWire(n.a, n.b.tun.wire)
    requires NextRead(n.a, n.b.tun.wire).Bad?
    ensures After(n, A(RecvDone)).a.pump.log.received
         == n.a.pump.log.received + [Err(Framing.ShortError(Unread(n.a, n.b.tun.wire), e))]
    ensures After(n, A(RecvDone)).a.consumed == n.a.arrived
  {
    hide NetExec, Decode.ReadFrame, EndToEnd.InSync, Framing.ShortError, Framing.FramingError, Framing.Needed;
    EndedExactly(Net(Start(mtu, overhead), Start(mtu', overhead')), turns, n);
    EndToEnd.FramingInSync(mtu, overhead, mtu', overhead', turns, n);
    Starved(n.a, n.b);
    Framing.ReadFrameExactly(Unread(n.a, n.b.tun.wire), e);
    RecvErr(n.a.pump, Framing.ShortError(Unread(n.a, n.b.tun.wire), e));
  }

  lemma Starved(me: Side, peer: Side)
    requires EndToEnd.InSync(me, peer) && NextRead(me, peer.tun.wire).Bad?
    ensures NextRead(me, peer.tun.wire).starved
  {
    hide NextRead, EndToEnd.AtBoundary;
  }

  lemma RecvErr(s: State, e: Error)
    requires DownEnabled(s, DownRecv(Err(e)))
    ensures Apply(s, DownRecv(Err(e))).log.received == s.log.received + [Err(e)]
  {
    hide Outcome;
  }

  // ---- what the watcher puts on the wire ----

  /** The bytes of an ASCII text. */
  function Ascii(text: string): seq<byte>
    requires forall i :: 0 <= i < |text| ==> text[i] < '\U{80}'
  {
    seq(|text|, i requires 0 <= i < |text| => text[i] as int)
  }

  /** The watcher's Close on an open tunnel with a working stream: one Close record with code 0 and the
      text "pump: ctx cancel", behind all that was sent before. */
  lemma GoodbyeRecord(me: Side, wire: seq<byte>)
    requires Possible(me, wire, ShutTunnel(None)) && !me.tun.closed
    ensures var t := Step(me, wire, ShutTunnel(None)).tun;
            && t.closed
            && t.wire == me.tun.wire + [0x14, 0, 0, 0, 0, 16] + Ascii("pump: ctx cancel")
  {
    hide Emit, Verdict, Apply, ConsumedAfter;
    var f := CloseFrame(Close(0, GOODBYE));
    assert GOODBYE == Ascii("pump: ctx cancel");
    Format.CloseLayout(f);
    assert Emit(f) == [0x14, 0, 0, 0, 0, 16] + GOODBYE;
  }

  /** In every run the tunnel is closed once the watcher has been at it. */
  lemma {:induction false} WatcherClosesTunnel(n: Net, turns: seq<Turn>, n': Net)
    requires NetExec(n, turns) == Some(n')
    requires (n.a.pump.watch.TunnelShut? ==> n.a.tun.closed) && (n.b.pump.watch.TunnelShut? ==> n.b.tun.closed)
    ensures (n'.a.pump.watch.TunnelShut? ==> n'.a.tun.closed) && (n'.b.pump.watch.TunnelShut? ==> n'.b.tun.closed)
    decreases turns
  {
    hide Possible, Step;
    if turns != [] {
      match turns[0] {
        case A(m) => ClosedStep(n.a, n.b.tun.wire, m);
        case B(m) => ClosedStep(n.b, n.a.tun.wire, m);
      }
      WatcherClosesTunnel(After(n, turns[0]), turns[1..], n');
    }
  }

  lemma ClosedStep(me: Side, wire: seq<byte>, m: Move)
    requires Possible(me, wire, m) && (me.pump.watch.TunnelShut? ==> me.tun.closed)
    ensures var t := Step(me, wire, m); t.pump.watch.TunnelShut? ==> t.tun.closed
  {
    hide AfterWrite, UpApply, DownApply, ConsumedAfter, NextRead;
  }

  // ---- runs that the documentation rules out ----

  // The first side of a joined run, with any MTUs; the second makes no move, except for the Close
  // frame of PeerCloseHangs.

  /** Cancelling while dev.Read is past the device's closed check: the operating system's own error
      is not tun.ErrClosed, and Run returns a PumpError although nothing but the cancel happened. */
  lemma CancelCanFail(mtu: int, overhead: int, mtu': int, overhead': int, e: Error) returns (me: Side)
    requires !Graceful(Failure(ReadTun, e))
    ensures Alone(Net(Start(mtu, overhead), Start(mtu', overhead')), me)
    ensures me.pump.group.cancelled && me.pump.log.failures == [Failure(ReadTun, e)]
    ensures me.pump.group.result == Some(Some(PumpError(ReadTunFailed, e)))
  {
    hide Alone, Graceful;
    var n0 := Net(Start(mtu, overhead), Start(mtu', overhead'));
    me := CancelledReadFails(mtu, overhead, n0.b, e);
    me := NextAlone(n0, me, Local(UpExit));
    me := NextAlone(n0, me, Local(Wait));
  }

  lemma CancelledReadFails(mtu: int, overhead: int, peer: Side, e: Error) returns (me: Side)
    ensures Alone(Net(Start(mtu, overhead), peer), me) && me.pump.group == Group(true, true, None, None, [None])
    ensures me.pump.up == URet(Outcome(Failure(ReadTun, e))) && me.pump.down == DDone(None)
    ensures me.pump.log.failures == [Failure(ReadTun, e)]
  {
    hide Alone, Outcome, Release;
    var n0 := Net(Start(mtu, overhead), peer);
    me := CancelInRead(mtu, overhead, peer);
    me := NextAlone(n0, me, Local(UpRead(ReadErr(e))));
    me := NextAlone(n0, me, Local(UpPut));
  }

  lemma CancelInRead(mtu: int, overhead: int, peer: Side) returns (me: Side)
    ensures Alone(Net(Start(mtu, overhead), peer), me) && me.pump.group == Group(true, true, None, None, [None])
    ensures me.pump.up == UInRead(0) && me.pump.down == DDone(None) && me.pump.log.failures == []
    ensures me.pump.devClosed
  {
    hide Alone, Zeros;
    var n0 := Net(Start(mtu, overhead), peer);
    me := EnterDeviceRead(mtu, overhead, peer);
    me := NextAlone(n0, me, Local(Cancel));
    me := NextAlone(n0, me, Local(WatchDevice));
    me := NextAlone(n0, me, Local(DownCheck));
    me := NextAlone(n0, me, Local(DownExit));
  }

  predicate AtStart(me: Side) {
    && me.pump.up.UTop? && me.pump.down.DTop? && me.pump.group == Group(false, false, None, None, [])
    && !me.pump.devClosed && me.pump.watch.Waiting? && me.pump.log.received == []
    && me.tun == FRESH && me.arrived == 0 && me.consumed == 0 && me.ended.None?
  }

  lemma SilenceBlocks(me: Side, wire: seq<byte>)
    requires me.arrived == 0 && me.consumed == 0 && me.ended.None?
    ensures WithinWire(me, wire) && Blocked(me, wire)
  {
    Codec.NothingToRead(EOF);
    assert Unread(me, wire) == [];
  }

  /** Cancelled with a silent peer: pumpUp has returned nil, device and tunnel are closed, and Run
      still hangs in ReadFrame. */
  lemma CancelCanHang(mtu: int, overhead: int, mtu': int, overhead': int) returns (me: Side)
    ensures Alone(Net(Start(mtu, overhead), Start(mtu', overhead')), me)
    ensures me.pump.group.cancelled && me.pump.devClosed && me.tun.closed && me.pump.up == UDone(None)
    ensures me.pump.group.result.None? && Stuck(me, [])
  {
    hide Alone, Stuck, AfterWrite, Blocked;
    var n0 := Net(Start(mtu, overhead), Start(mtu', overhead'));
    me := CancelledInReadFrame(n0);
    me := NextAlone(n0, me, Local(WatchDevice));
    me := NextAlone(n0, me, ShutTunnel(None));
    SilenceBlocks(me, []);
    HungIsStuck(me, []);
  }

  lemma CancelledInReadFrame(n0: Net) returns (me: Side)
    requires AtStart(n0.a)
    ensures Alone(n0, me) && me.arrived == 0 && me.consumed == 0 && me.ended.None?
    ensures me.pump.group == Group(true, true, None, None, [None]) && me.pump.watch.Waiting?
    ensures me.pump.up == UDone(None) && me.pump.down.DInRecv? && !me.tun.closed
  {
    hide Alone;
    StartAlone(n0);
    me := EnterReadFrame(n0, n0.a);
    me := NextAlone(n0, me, Local(Cancel));
    me := NextAlone(n0, me, Local(UpCheck));
    me := NextAlone(n0, me, Local(UpExit));
  }

  /** A device closed by its owner: pumpUp ends with nil, nothing is cancelled, the watcher stays
      asleep, and with a silent peer Run does not return. */
  lemma LoneExitHangs(mtu: int, overhead: int, mtu': int, overhead': int) returns (me: Side)
    ensures Alone(Net(Start(mtu, overhead), Start(mtu', overhead')), me)
    ensures me.pump.devClosed && me.pump.up == UDone(None) && !me.pump.group.done
    ensures me.pump.group.result.None? && Stuck(me, [])
  {
    hide Alone, Stuck, Blocked;
    var n0 := Net(Start(mtu, overhead), Start(mtu', overhead'));
    me := ReadOfClosedDevice(n0);
    me := NextAlone(n0, me, Local(UpExit));
    SilenceBlocks(me, []);
    HungIsStuck(me, []);
  }

  lemma ReadOfClosedDevice(n0: Net) returns (me: Side)
    requires AtStart(n0.a)
    ensures Alone(n0, me) && me.pump.devClosed && me.arrived == 0 && me.consumed == 0 && me.ended.None?
    ensures me.pump.up == URet(None) && me.pump.down.DInRecv?
    ensures me.pump.group == Group(false, false, None, None, []) && me.pump.watch.Waiting?
  {
    hide Alone, Obtain;
    me := ClosedDeviceInHand(n0);
    me := NextAlone(n0, me, Local(UpCall));
    me := NextAlone(n0, me, Local(UpPut));
  }

  lemma ClosedDeviceInHand(n0: Net) returns (me: Side)
    requires AtStart(n0.a)
    ensures Alone(n0, me) && me.pump.devClosed && me.arrived == 0 && me.consumed == 0 && me.ended.None?
    ensures me.pump.up.UCall? && me.pump.down.DInRecv?
    ensures me.pump.group == Group(false, false, None, None, []) && me.pump.watch.Waiting?
  {
    hide Alone, Obtain;
    StartAlone(n0);
    me := EnterReadFrame(n0, n0.a);
    me := NextAlone(n0, me, Local(CloseDevice));
    me := NextAlone(n0, me, Local(UpCheck));
    me := NextAlone(n0, me, Local(UpGet(None)));
  }

  /** Nothing is cancelled and pumpUp waits in dev.Read on an open device. */
  predicate InDeviceRead(me: Side) {
    && me.pump.up.UInRead? && !me.pump.devClosed && me.pump.watch.Waiting?
    && !me.pump.group.done && me.pump.group.result.None?
  }

  /** ... where it stays when pumpDown returns nil. */
  lemma DownLeaves(n0: Net, me: Side) returns (me': Side)
    requires Alone(n0, me) && InDeviceRead(me) && me.pump.down == DRet(None) && WithinWire(me, n0.b.tun.wire)
    ensures Alone(n0, me') && InDeviceRead(me') && me'.pump.down == DDone(None) && Stuck(me', n0.b.tun.wire)
    ensures me'.tun == me.tun && me'.ended == me.ended && me'.pump.log == me.pump.log
  {
    hide Alone, Stuck, Blocked;
    me' := NextAlone(n0, me, Local(DownExit));
    HungIsStuck(me', n0.b.tun.wire);
  }

  /** The peer ends the stream cleanly: pumpDown returns nil on io.EOF, and Run does not return. */
  lemma PeerEOFHangs(mtu: int, overhead: int, mtu': int, overhead': int) returns (me: Side)
    ensures Alone(Net(Start(mtu, overhead), Start(mtu', overhead')), me) && me.ended == Some(EOF)
    ensures InDeviceRead(me) && me.pump.down == DDone(None) && Stuck(me, [])
  {
    hide Alone, Stuck;
    var n0 := Net(Start(mtu, overhead), Start(mtu', overhead'));
    me := EnterDeviceRead(mtu, overhead, n0.b);
    me := NextAlone(n0, me, End(EOF));
    me := EnterReadFrame(n0, me);
    me := EOFReceived(n0, me);
    me := DownLeaves(n0, me);
  }

  lemma EOFReceived(n0: Net, me: Side) returns (me': Side)
    requires Alone(n0, me) && InDeviceRead(me) && me.pump.down.DInRecv?
    requires me.arrived == me.consumed <= |n0.b.tun.wire| && me.ended == Some(EOF)
    ensures Alone(n0, me') && InDeviceRead(me') && me'.pump.down == DRet(None)
    ensures me'.ended == Some(EOF) && WithinWire(me', n0.b.tun.wire)
  {
    hide Alone, Decode.ReadBody;
    assert Unread(me, n0.b.tun.wire) == [];
    me' := NextAlone(n0, me, RecvDone);
  }

  /** Another user closes this side's tunnel: pumpDown returns nil on ErrClosed, and Run does not return. */
  lemma TunnelCloseHangs(mtu: int, overhead: int, mtu': int, overhead': int, code: uint32, message: seq<byte>)
    returns (me: Side)
    ensures Alone(Net(Start(mtu, overhead), Start(mtu', overhead')), me) && me.tun.closed
    ensures InDeviceRead(me) && me.pump.down == DDone(None) && Stuck(me, [])
  {
    hide Alone, Stuck, AfterWrite;
    var n0 := Net(Start(mtu, overhead), Start(mtu', overhead'));
    me := EnterDeviceRead(mtu, overhead, n0.b);
    me := NextAlone(n0, me, OtherClose(code, message, None));
    me := ClosedFlagSeen(n0, me);
    me := DownLeaves(n0, me);
  }

  lemma ClosedFlagSeen(n0: Net, me: Side) returns (me': Side)
    requires Alone(n0, me) && InDeviceRead(me) && me.pump.down.DTop? && me.tun.closed && WithinWire(me, n0.b.tun.wire)
    ensures Alone(n0, me') && InDeviceRead(me') && me'.pump.down == DRet(None)
    ensures me'.tun.closed && WithinWire(me', n0.b.tun.wire)
  {
    hide Alone;
    me' := NextAlone(n0, me, Local(DownCheck));
    me' := NextAlone(n0, me', RecvCheck);
  }

  /** The peer's tunnel after its Close: the one record, to be read as it was written. */
  lemma PeerClosed(n0: Net, code: uint32, message: seq<byte>)
    requires n0.b.tun == FRESH && |message| <= MAX_STRING_LEN
    ensures var f, wire := CloseFrame(Close(code, message)), After(n0, B(OtherClose(code, message, None))).b.tun.wire;
            forall end :: Decode.ReadFrame(wire, end) == Decode.Ok(f, [])
  {
    hide Emit, Decode.ReadFrame;
    var f := CloseFrame(Close(code, message));
    assert Readable(f) && Normal(f) == f;
    assert [] + Emit(f) == Emit(f) == Emit(f) + [];
    forall end ensures Decode.ReadFrame(Emit(f), end) == Decode.Ok(f, []) { Codec.FrameRoundTrip(f, [], end); }
  }

  /** The peer's wire arrives in full and is read. */
  lemma CloseFrameReceived(mtu: int, overhead: int, peer: Side, c: Close) returns (me: Side)
    requires forall end :: Decode.ReadFrame(peer.tun.wire, end) == Decode.Ok(CloseFrame(c), [])
    ensures Alone(Net(Start(mtu, overhead), peer), me) && InDeviceRead(me) && me.pump.down == DRet(None)
    ensures WithinWire(me, peer.tun.wire) && me.pump.log.received == [Got(CloseFrame(c))]
  {
    hide Alone, Decode.ReadFrame;
    var n := Net(Start(mtu, overhead), peer);
    me := EnterDeviceRead(mtu, overhead, peer);
    me := NextAlone(n, me, Arrive(|n.b.tun.wire|));
    me := EnterReadFrame(n, me);
    assert Unread(me, n.b.tun.wire) == n.b.tun.wire;
    me := NextAlone(n, me, RecvDone);
  }

  /** The peer closes its tunnel with any Close frame: pumpDown returns nil, and Run does not return. */
  lemma PeerCloseHangs(mtu: int, overhead: int, mtu': int, overhead': int, code: uint32, message: seq<byte>)
    returns (turns: seq<Turn>, n: Net)
    requires |message| <= MAX_STRING_LEN
    ensures NetExec(Net(Start(mtu, overhead), Start(mtu', overhead')), [B(OtherClose(code, message, None))] + turns)
         == Some(n)
    ensures OnlyA(turns) && n.a.pump.log.received == [Got(CloseFrame(Close(code, message)))]
    ensures InDeviceRead(n.a) && n.a.pump.down == DDone(None) && Stuck(n.a, n.b.tun.wire)
  {
    hide Stuck, Decode.ReadFrame, AfterWrite, NetExec, WithinWire, InDeviceRead;
    var n0, t := Net(Start(mtu, overhead), Start(mtu', overhead')), B(OtherClose(code, message, None));
    var n1 := After(n0, t);
    PeerClosed(n0, code, message);
    var me := CloseFrameReceived(mtu, overhead, n1.b, Close(code, message));
    me := DownLeaves(n1, me);
    turns :| OnlyA(turns) && NetExec(n1, turns) == Some(n1.(a := me));
    n := n1.(a := me);
    NetExecCons(n0, t, turns);
  }
}
