/** One Pump.Run as a step machine: the TUN-to-wire loop (up), the wire-to-TUN loop (down), the
    lifecycle watcher and the errgroup, interleaved in any order with the environment.
    What the device and the tunnel answer is part of the action, so every device and every
    tunnel is covered. A step is one access to shared state: a context check, a pool
    operation, entering or leaving a blocking call, a copy into a buffer, a return. */
module Pump {
  import opened Errors
  import opened Bytes
  import opened Frames
  import opened BufferPool

  // ---- the error taxonomy ----

  datatype Operation = ReadTun | TagDispatch | SendFrame | RecvFrame | WriteTun

  /** An operation that ended a loop, and the error it ended with. */
  datatype Failure = Failure(op: Operation, cause: Error)

  function ReasonOf(op: Operation): Reason {
    match op
    case ReadTun => ReadTunFailed
    case TagDispatch => SendFrameFailed
    case SendFrame => SendFrameFailed
    case RecvFrame => RecvFrameFailed
    case WriteTun => WriteTunFailed
  }

  /** The errors that mean an orderly end. */
  predicate Graceful(f: Failure) {
    match f.op
    case TagDispatch => false
    case ReadTun => Is(f.cause, DeviceClosed) || CtxError(f.cause)
    case WriteTun => Is(f.cause, DeviceClosed) || CtxError(f.cause)
    case SendFrame => Is(f.cause, TransportClosed) || Is(f.cause, EOF) || CtxError(f.cause)
    case RecvFrame => Is(f.cause, TransportClosed) || Is(f.cause, EOF) || CtxError(f.cause)
  }

  predicate CtxError(e: Error) { Is(e, Canceled) || Is(e, DeadlineExceeded) }

  /** What the loop returns: nil, or a PumpError around the cause. */
  function Outcome(f: Failure): Option<Error> {
    if Graceful(f) then None else Some(PumpError(ReasonOf(f.op), f.cause))
  }

  // errors.New values of the pump, told apart only by number
  const UNKNOWN_VERSION := Plain(11)
  const NIL_FRAME := Plain(12)

  /** Tag dispatch on the version nibble (section 3.1 of RFC 791, section 3 of RFC 8200). */
  function TagFor(first: byte): Option<byte> {
    if first / 16 == 4 then Some(TAG_IPV4)
    else if first / 16 == 6 then Some(TAG_IPV6)
    else None
  }

  // ---- state ----

  datatype Then = Loop | Return(err: Option<Error>)

  datatype Up =
    | UTop                                  // about to look at ctx.Err()
    | UGet                                  // about to getBuf
    | UCall(b: nat)                         // about to call dev.Read(buf)
    | UInRead(b: nat)                       // past the device's closed check
    | USend(b: nat, n: nat, tag: byte)      // about to call tun.SendFrame on buf[:n]
    | UPut(b: nat, next: Then)              // about to putBuf
    | URet(err: Option<Error>)              // loop left
    | UDone(err: Option<Error>)             // seen by the errgroup

  datatype Down =
    | DTop
    | DRecv                                 // about to call tun.RecvFrame
    | DInRecv                               // past the tunnel's closed check
    | DGet(pkt: seq<byte>)                  // about to getBuf for frame.Packet
    | DCopy(b: nat, pkt: seq<byte>)         // about to copy it into the buffer
    | DCall(b: nat, pkt: seq<byte>)         // about to call dev.Write(buf[:len(frame.Packet)])
    | DInWrite(b: nat, pkt: seq<byte>)      // past the device's closed check
    | DPut(b: nat, next: Then)
    | DRet(err: Option<Error>)
    | DDone(err: Option<Error>)

  datatype Watch = Waiting | DeviceShut | TunnelShut

  /** What RecvFrame returned. */
  datatype Recv = Got(frame: Frame) | NilFrame | Err(err: Error)

  /** The two contexts and the errgroup. */
  datatype Group = Group(
    cancelled: bool,                  // the caller's ctx
    done: bool,                       // gCtx
    first: Option<Error>,             // the errgroup's error
    result: Option<Option<Error>>,    // what Run returned, once it has
    exits: seq<Option<Error>>)        // results of the two loops, in the order the errgroup saw them

  /** What happened so far; no step depends on it. */
  datatype History = History(
    read: seq<seq<byte>>,             // non-empty packets dev.Read delivered
    sends: nat,                       // calls of SendFrame
    received: seq<Recv>,              // results of RecvFrame
    writes: nat,                      // calls of dev.Write
    wrote: seq<seq<byte>>,            // packets dev.Write took
    lost: seq<seq<byte>>,             // packets whose dev.Write failed
    gets: nat,                        // calls of getBuf
    puts: nat,                        // calls of putBuf
    failures: seq<Failure>)

  datatype State = State(pool: Pool, group: Group, devClosed: bool, watch: Watch, up: Up, down: Down, log: History)

  /** State when both goroutines have been started: MTU and overhead are arbitrary. */
  function Init(mtu: int, overhead: int): State {
    State(New(mtu + overhead), Group(false, false, None, None, []), false, Waiting, UTop, DTop,
          History([], 0, [], 0, [], [], 0, 0, []))
  }

  // ---- actions ----

  datatype ReadResult = Packet(data: seq<byte>) | ReadErr(err: Error)

  datatype Action =
    // environment
    | Cancel                                // the caller cancels ctx
    | CloseDevice                           // somebody else closes the device
    | Collect(b: nat)                       // the garbage collector empties the pool
    // watcher
    | WatchDevice
    | WatchTunnel
    // up
    | UpCheck
    | UpGet(choice: Option<nat>)
    | UpCall                                // the device's closed check
    | UpRead(got: ReadResult)
    | UpSend(sent: Option<Error>)
    | UpPut
    | UpExit
    // down
    | DownCheck
    | DownCall                              // past the tunnel's closed check
    | DownRecv(r: Recv)
    | DownGet(choice: Option<nat>)
    | DownCopy
    | DownWriteCall                         // the device's closed check
    | DownWrite(took: Option<Error>)
    | DownPut
    | DownExit
    // Run
    | Wait

  /** Steps that call the tunnel. */
  predicate InvolvesTunnel(a: Action) { a.UpSend? || a.DownCall? || a.DownRecv? || a.WatchTunnel? }

  predicate AllLocal(acts: seq<Action>) {
    forall i :: 0 <= i < |acts| ==> !InvolvesTunnel(acts[i])
  }

  predicate IsEnvironment(a: Action) { a.Cancel? || a.CloseDevice? || a.Collect? }

  /** Buffer `b` exists and has room for `n` bytes: indexing it does not panic. */
  predicate Fits(s: State, b: nat, n: nat) {
    b < |s.pool.mem| && n <= |s.pool.mem[b]|
  }

  predicate UpEnabled(s: State, a: Action) {
    match a
    case UpCheck => s.up.UTop?
    case UpGet(choice) => s.up.UGet? && CanTake(s.pool, choice)
    case UpCall => s.up.UCall?
    case UpRead(got) => s.up.UInRead? && (got.Packet? ==> Fits(s, s.up.b, |got.data|))
    case UpSend(_) => s.up.USend? && Fits(s, s.up.b, s.up.n)
    case UpPut => s.up.UPut?
    case UpExit => s.up.URet?
    case _ => false
  }

  predicate DownEnabled(s: State, a: Action) {
    match a
    case DownCheck => s.down.DTop?
    case DownCall => s.down.DRecv?
    case DownRecv(r) => s.down.DInRecv? || (s.down.DRecv? && r.Err?)
    case DownGet(choice) => s.down.DGet? && CanTake(s.pool, choice)
    case DownCopy => s.down.DCopy? && Fits(s, s.down.b, |s.down.pkt|)
    case DownWriteCall => s.down.DCall?
    case DownWrite(_) => s.down.DInWrite? && Fits(s, s.down.b, |s.down.pkt|)
    case DownPut => s.down.DPut?
    case DownExit => s.down.DRet?
    case _ => false
  }

  predicate RestEnabled(s: State, a: Action) {
    match a
    case Cancel => true
    case CloseDevice => true
    case Collect(b) => b in s.pool.free
    case WatchDevice => s.group.done && s.watch.Waiting?
    case WatchTunnel => s.watch.DeviceShut?
    case Wait => s.up.UDone? && s.down.DDone? && s.group.result.None?
    case _ => false
  }

  predicate Enabled(s: State, a: Action) {
    UpEnabled(s, a) || DownEnabled(s, a) || RestEnabled(s, a)
  }

  /** The loop of pumpUp leaves because of `f`, giving its buffer back first. */
  function UpFail(s: State, b: nat, f: Failure): State {
    s.(up := UPut(b, Return(Outcome(f))), log := s.log.(failures := s.log.failures + [f]))
  }

  function DownFail(s: State, f: Failure): State {
    s.(down := DRet(Outcome(f)), log := s.log.(failures := s.log.failures + [f]))
  }

  function DownWriteFail(s: State, b: nat, pkt: seq<byte>, e: Error): State {
    s.(down := DPut(b, Return(Outcome(Failure(WriteTun, e)))),
       log := s.log.(failures := s.log.failures + [Failure(WriteTun, e)], lost := s.log.lost + [pkt]))
  }

  /** errgroup: the first non-nil error is kept and cancels gCtx. */
  function Record(s: State, err: Option<Error>): State {
    var g := s.group.(exits := s.group.exits + [err]);
    s.(group := if err.Some? && g.first.None? then g.(first := err, done := true) else g)
  }

  /** The buffer now holds a packet: dispatch on its version, or loop on a zero-length read. */
  function AfterRead(s: State, b: nat, data: seq<byte>): State
    requires Fits(s, b, |data|)
  {
    var s := s.(pool := Store(s.pool, b, data));
    if data == [] then s.(up := UPut(b, Loop))
    else
      var s := s.(log := s.log.(read := s.log.read + [data]));
      var tag := TagFor(data[0]);
      if tag.None? then UpFail(s, b, Failure(TagDispatch, UNKNOWN_VERSION))
      else s.(up := USend(b, |data|, tag.value))
  }

  function UpApply(s: State, a: Action): (t: State)
    requires UpEnabled(s, a)
    ensures t.down == s.down && t.watch == s.watch && t.devClosed == s.devClosed && t.pool.size == s.pool.size
    ensures a.UpExit? ==> t == Record(s.(up := UDone(s.up.err)), s.up.err)
    ensures !a.UpExit? ==> t.group == s.group && !t.up.UDone?
  {
    match a
    case UpCheck => s.(up := if s.group.done then URet(None) else UGet)
    case UpGet(choice) =>
      var (pool, b) := Obtain(s.pool, choice, 0);
      s.(pool := pool, up := UCall(b), log := s.log.(gets := s.log.gets + 1))
    case UpCall =>
      if s.devClosed then UpFail(s, s.up.b, Failure(ReadTun, DeviceClosed))
      else s.(up := UInRead(s.up.b))
    case UpRead(got) =>
      if got.ReadErr? then UpFail(s, s.up.b, Failure(ReadTun, got.err))
      else AfterRead(s, s.up.b, got.data)
    case UpSend(sent) =>
      var t := s.(log := s.log.(sends := s.log.sends + 1));
      if sent.Some? then UpFail(t, s.up.b, Failure(SendFrame, sent.value))
      else t.(up := UPut(s.up.b, Loop))
    case UpPut =>
      s.(pool := Release(s.pool, s.up.b), log := s.log.(puts := s.log.puts + 1),
         up := if s.up.next.Loop? then UTop else URet(s.up.next.err))
    case UpExit => Record(s.(up := UDone(s.up.err)), s.up.err)
  }

  function AfterRecv(s: State, r: Recv): State {
    var s := s.(log := s.log.(received := s.log.received + [r]));
    match r
    case Err(e) => DownFail(s, Failure(RecvFrame, e))
    case NilFrame => DownFail(s, Failure(RecvFrame, NIL_FRAME))
    case Got(f) =>
      if f.close.Some? then s.(down := DRet(None))
      else if f.packet.None? then s.(down := DTop)
      else s.(down := DGet(f.packet.value))
  }

  function DownApply(s: State, a: Action): (t: State)
    requires DownEnabled(s, a)
    ensures t.up == s.up && t.watch == s.watch && t.devClosed == s.devClosed && t.pool.size == s.pool.size
    ensures a.DownExit? ==> t == Record(s.(down := DDone(s.down.err)), s.down.err)
    ensures !a.DownExit? ==> t.group == s.group && !t.down.DDone?
  {
    match a
    case DownCheck => s.(down := if s.group.done then DRet(None) else DRecv)
    case DownCall => s.(down := DInRecv)
    case DownRecv(r) => AfterRecv(s, r)
    case DownGet(choice) =>
      var (pool, b) := Obtain(s.pool, choice, |s.down.pkt|);
      s.(pool := pool, down := DCopy(b, s.down.pkt), log := s.log.(gets := s.log.gets + 1))
    case DownCopy =>
      s.(pool := Store(s.pool, s.down.b, s.down.pkt), down := DCall(s.down.b, s.down.pkt))
    case DownWriteCall =>
      var t := s.(log := s.log.(writes := s.log.writes + 1));
      if s.devClosed then DownWriteFail(t, s.down.b, s.down.pkt, DeviceClosed)
      else t.(down := DInWrite(s.down.b, s.down.pkt))
    case DownWrite(took) =>
      if took.Some? then DownWriteFail(s, s.down.b, s.down.pkt, took.value)
      else
        s.(down := DPut(s.down.b, Loop),
           log := s.log.(wrote := s.log.wrote + [s.pool.mem[s.down.b][..|s.down.pkt|]]))
    case DownPut =>
      s.(pool := Release(s.pool, s.down.b), log := s.log.(puts := s.log.puts + 1),
         down := if s.down.next.Loop? then DTop else DRet(s.down.next.err))
    case DownExit => Record(s.(down := DDone(s.down.err)), s.down.err)
  }

  /** Each loop adds to its own part of the history and leaves the other's alone. */
  lemma UpHistory(s: State, a: Action)
    requires UpEnabled(s, a)
    ensures var t := UpApply(s, a).log;
            && s.log.read <= t.read && s.log.failures <= t.failures
            && t.received == s.log.received && t.writes == s.log.writes
            && t.wrote == s.log.wrote && t.lost == s.log.lost
  {
    hide Outcome, Store, Obtain;
  }

  lemma DownHistory(s: State, a: Action)
    requires DownEnabled(s, a)
    ensures var t := DownApply(s, a).log;
            && t.read == s.log.read && t.sends == s.log.sends
            && s.log.received <= t.received && s.log.wrote <= t.wrote && s.log.failures <= t.failures
  {
    hide Outcome, Store, Obtain;
  }

  function RestApply(s: State, a: Action): State
    requires RestEnabled(s, a)
  {
    match a
    case Cancel => s.(group := s.group.(cancelled := true, done := true))
    case CloseDevice => s.(devClosed := true)
    case Collect(b) => s.(pool := s.pool.(free := s.pool.free - multiset{b}))
    case WatchDevice => s.(watch := DeviceShut, devClosed := true)
    case WatchTunnel => s.(watch := TunnelShut)
    case Wait => s.(group := s.group.(result := Some(s.group.first), done := true))
  }

  function Apply(s: State, a: Action): State
    requires Enabled(s, a)
  {
    if UpEnabled(s, a) then UpApply(s, a)
    else if DownEnabled(s, a) then DownApply(s, a)
    else RestApply(s, a)
  }

  /** A run: every action in turn, or None if one is not possible. */
  function Exec(s: State, acts: seq<Action>): Option<State>
    decreases acts
  {
    if acts == [] then Some(s)
    else if Enabled(s, acts[0]) then Exec(Apply(s, acts[0]), acts[1..])
    else None
  }

  ghost predicate Reachable(s: State) {
    exists mtu: int, overhead: int, acts: seq<Action> :: Exec(Init(mtu, overhead), acts) == Some(s)
  }

  lemma {:induction false} ExecSnoc(s: State, acts: seq<Action>, t: State, a: Action)
    requires Exec(s, acts) == Some(t) && Enabled(t, a)
    ensures Exec(s, acts + [a]) == Some(Apply(t, a))
    decreases acts
  {
    hide Enabled, Apply;
    if acts == [] {
      assert acts + [a] == [a];
      assert Exec(Apply(t, a), [a][1..]) == Some(Apply(t, a));
    } else {
      assert (acts + [a])[1..] == acts[1..] + [a];
      ExecSnoc(Apply(s, acts[0]), acts[1..], t, a);
    }
  }

  lemma StartIsReachable(mtu: int, overhead: int)
    ensures Reachable(Init(mtu, overhead))
  {
    assert Exec(Init(mtu, overhead), []) == Some(Init(mtu, overhead));
  }

  lemma StepIsReachable(s: State, a: Action)
    requires Reachable(s) && Enabled(s, a)
    ensures Reachable(Apply(s, a))
  {
    hide Enabled, Apply, Exec;
    var mtu, overhead, acts :| Exec(Init(mtu, overhead), acts) == Some(s);
    ExecSnoc(Init(mtu, overhead), acts, s, a);
  }

  lemma {:induction false} ExecConcat(s: State, acts: seq<Action>, t: State, more: seq<Action>)
    requires Exec(s, acts) == Some(t)
    ensures Exec(s, acts + more) == Exec(t, more)
    decreases acts
  {
    hide Enabled, Apply;
    if acts == [] {
      assert acts + more == more;
    } else {
      assert (acts + more)[1..] == acts[1..] + more;
      ExecConcat(Apply(s, acts[0]), acts[1..], t, more);
    }
  }

  /** One more step of a run that is being built up from `s0`. */
  lemma Extend(s0: State, acts: seq<Action>, s: State, a: Action) returns (acts': seq<Action>, t: State)
    requires Exec(s0, acts) == Some(s) && Enabled(s, a)
    ensures acts' == acts + [a] && t == Apply(s, a) && Exec(s0, acts') == Some(t)
    ensures AllLocal(acts) && !InvolvesTunnel(a) ==> AllLocal(acts')
  {
    hide Enabled, Apply, Exec, InvolvesTunnel;
    ExecSnoc(s0, acts, s, a);
    acts', t := acts + [a], Apply(s, a);
  }
}
