/** Packets written to one device are a byte-exact, in-order prefix of the packets read from
    the other, over every run of the two joined pumps. */
module EndToEnd {
  import opened Errors
  import opened Bytes
  import opened Frames
  import opened Encode
  import Decode
  import Codec
  import opened BufferPool
  import opened Wrapper
  import opened Pump
  import opened Ownership
  import opened Delivery
  import opened Network

  // ---- outgoing: what this side's wire has to do with what its device delivered ----

  /** The packets among the frames, in order. */
  function PacketsOf(fs: seq<Frame>): seq<seq<byte>> {
    if fs == [] then []
    else (if IsPacketTag(fs[0].tag) then [PacketBytes(fs[0])] else []) + PacketsOf(fs[1..])
  }

  lemma {:induction false} PacketsConcat(xs: seq<Frame>, ys: seq<Frame>)
    ensures PacketsOf(xs + ys) == PacketsOf(xs) + PacketsOf(ys)
  {
    if xs == [] {
      assert xs + ys == ys;
    } else {
      assert (xs + ys)[1..] == xs[1..] + ys;
      PacketsConcat(xs[1..], ys);
    }
  }

  lemma PacketsSnoc(xs: seq<Frame>, f: Frame)
    ensures PacketsOf(xs + [f]) == if IsPacketTag(f.tag) then PacketsOf(xs) + [PacketBytes(f)] else PacketsOf(xs)
  {
    PacketsConcat(xs, [f]);
    assert PacketsOf([f][1..]) == [];
  }

  /** The up loop has not decided to leave. */
  predicate UpLive(up: Up) {
    up.UTop? || up.UGet? || up.UCall? || up.UInRead? || up.USend? || (up.UPut? && up.next.Loop?)
  }

  /** The packets read and already handed to SendFrame. */
  function Accounted(s: State): seq<seq<byte>> {
    if s.up.USend? && s.log.read != [] then s.log.read[..|s.log.read| - 1] else s.log.read
  }

  lemma UpFlow(s: State, a: Action)
    requires UpEnabled(s, a) && !a.UpSend?
    ensures var t := UpApply(s, a);
            && s.log.read <= t.log.read
            && (UpLive(t.up) ==> UpLive(s.up) && Accounted(t) == Accounted(s))
  {
    hide Outcome, Obtain, Store, TagFor;
  }

  lemma PumpFlow(s: State, a: Action)
    requires Enabled(s, a) && !a.UpSend?
    ensures var t := Apply(s, a);
            && s.log.read <= t.log.read
            && (UpLive(t.up) ==> UpLive(s.up) && Accounted(t) == Accounted(s))
  {
    hide UpApply, DownApply, UpLive;
    if UpEnabled(s, a) { UpFlow(s, a); } else if DownEnabled(s, a) { DownHistory(s, a); }
  }

  /** The wire stays inside the encodings of a list of readable frames, and the packets among
      them are the packets read, up to the one being sent. */
  predicate TunOk(me: Side) {
    Consistent(me.tun) && AllReadable(Log(me.tun))
  }

  /** A packet goes under the number of its IP version: the high four bits of its first byte. */
  predicate Tagged(f: Frame) {
    f.tag == 0x04 || f.tag == 0x06 ==>
      f.packet.Some? && f.packet.value != [] && f.tag == f.packet.value[0] / 16
  }

  predicate TagsOk(t: Tun) { forall i :: 0 <= i < |Log(t)| ==> Tagged(Log(t)[i]) }

  predicate OutOk(me: Side) {
    && TagsOk(me.tun)
    && PacketsOf(Log(me.tun)) <= me.pump.log.read
    && (!me.tun.closed && UpLive(me.pump.up) ==> PacketsOf(Log(me.tun)) == Accounted(me.pump))
  }

  /** A frame that cannot turn into a zero-length packet record. */
  predicate Sendable(f: Frame) { IsPacketTag(f.tag) ==> PacketBytes(f) != [] }

  lemma RepairReadable(f: Frame)
    requires Sendable(f)
    ensures Readable(Repair(f))
    ensures Encodable(f) ==> Repair(f) == f
    ensures IsPacketTag(f.tag) && !Encodable(f) ==> !IsPacketTag(Repair(f).tag)
    ensures !IsPacketTag(f.tag) ==> !IsPacketTag(Repair(f).tag)
  {
    hide Emit;
    EmitsPrefixOfRecord(f);
  }

  /** What any write does to the log of an open wrapper. */
  lemma WriteOk(t: Tun, f: Frame, fault: Option<Fault>)
    requires Consistent(t) && AllReadable(Log(t)) && !t.closed && Sendable(f)
    ensures var u := AfterWrite(t, f, fault).0;
            && Consistent(u) && AllReadable(Log(u)) && t.wire <= u.wire && Log(u) == Log(t) + [Repair(f)]
            && PacketsOf(Log(u)) == (if IsPacketTag(f.tag) && Encodable(f) then PacketsOf(Log(t)) + [PacketBytes(f)]
                                     else PacketsOf(Log(t)))
            && (!u.closed ==> AfterWrite(t, f, fault).1.None? && Encodable(f))
            && (AfterWrite(t, f, fault).1.Some? ==> u.closed)
  {
    hide Emit, Verdict, Repair, EmitAll, Readable, Consistent;
    OpenLog(t);
    WriteConsistent(t, f, fault);
    RepairReadable(f);
    PacketsSnoc(t.sent, Repair(f));
  }

  lemma OpenLog(t: Tun)
    requires Consistent(t) && !t.closed
    ensures Log(t) == t.sent
  {
    hide EmitAll;
  }

  /** Sends and closes alike: the log and the wire only grow, and packets enter it only through
      a send of a valid packet frame. */
  lemma SendOk(t: Tun, f: Frame, fault: Option<Fault>)
    requires Consistent(t) && AllReadable(Log(t)) && Sendable(f)
    ensures var u := AfterSend(t, f, fault).0;
            && Consistent(u) && AllReadable(Log(u)) && t.wire <= u.wire && Log(t) <= Log(u)
            && (t.closed ==> u == t)
            && (!t.closed ==>
                  PacketsOf(Log(u)) == if IsPacketTag(f.tag) && Encodable(f) then PacketsOf(Log(t)) + [PacketBytes(f)]
                                       else PacketsOf(Log(t)))
            && (!u.closed ==> AfterSend(t, f, fault).1.None? && Encodable(f))
            && (AfterSend(t, f, fault).1.Some? ==> u.closed)
  {
    hide AfterWrite, Consistent, Encodable, AllReadable, PacketsOf;
    if !t.closed { WriteOk(t, f, fault); }
  }

  lemma CloseOk(t: Tun, code: uint32, message: seq<byte>, fault: Option<Fault>)
    requires Consistent(t) && AllReadable(Log(t))
    ensures var u := AfterClose(t, code, message, fault).0;
            && Consistent(u) && AllReadable(Log(u)) && t.wire <= u.wire && Log(t) <= Log(u)
            && u.closed && PacketsOf(Log(u)) == PacketsOf(Log(t))
  {
    hide AfterWrite, Consistent, Encodable, AllReadable, PacketsOf;
    if !t.closed {
      var f := CloseFrame(Close(code, message));
      WriteOk(t, f, fault);
      ClosingConsistent(AfterWrite(t, f, fault).0);
    }
  }

  lemma RepairTagged(f: Frame)
    requires Tagged(f) && Sendable(f)
    ensures Tagged(Repair(f))
  {
    hide Verdict, RepairHello, RepairSession, RepairRekey, RepairClose, Readable;
    RepairReadable(f);
  }

  lemma TaggedWrite(t: Tun, f: Frame, fault: Option<Fault>)
    requires Consistent(t) && AllReadable(Log(t)) && TagsOk(t) && Tagged(f) && Sendable(f) && !t.closed
    ensures TagsOk(AfterWrite(t, f, fault).0)
  {
    hide Consistent, AllReadable, AfterWrite, Repair, Log, Sendable, Tagged, PacketsOf, Encodable;
    WriteOk(t, f, fault);
    RepairTagged(f);
  }

  lemma TaggedSend(t: Tun, f: Frame, fault: Option<Fault>)
    requires Consistent(t) && AllReadable(Log(t)) && TagsOk(t) && Tagged(f) && Sendable(f)
    ensures TagsOk(AfterSend(t, f, fault).0)
  {
    hide Consistent, AllReadable, AfterWrite, TagsOk, Tagged, Sendable, Log;
    if !t.closed { TaggedWrite(t, f, fault); }
  }

  lemma TaggedClose(t: Tun, code: uint32, message: seq<byte>, fault: Option<Fault>)
    requires Consistent(t) && AllReadable(Log(t)) && TagsOk(t)
    ensures TagsOk(AfterClose(t, code, message, fault).0)
  {
    hide Consistent, AllReadable, AfterWrite, Tagged, Repair;
    if !t.closed {
      var f := CloseFrame(Close(code, message));
      ControlTagged(f);
      TaggedWrite(t, f, fault);
      var u := AfterWrite(t, f, fault).0;
      assert Log(u.(closed := true)) == Log(u);
    }
  }

  lemma ControlTagged(f: Frame)
    requires !IsPacketTag(f.tag)
    ensures Tagged(f) && Sendable(f)
  {
  }

  lemma OutgoingTagged(s: State)
    requires PoolInv(s) && UpContents(s) && UpEnabled(s, UpSend(None))
    ensures Tagged(OutgoingFrame(s))
  {
    hide PoolInv;
    VersionTag(s.log.read[|s.log.read| - 1][0], s.up.tag);
  }

  lemma OutgoingSendable(s: State)
    requires PoolInv(s) && UpEnabled(s, UpSend(None))
    ensures Sendable(OutgoingFrame(s))
  {
    hide Sound;
  }

  lemma TunStep(me: Side, wire: seq<byte>, m: Move)
    requires OwnInv(me.pump) && TunOk(me) && Possible(me, wire, m)
    ensures var t := Step(me, wire, m);
            && TunOk(t) && me.tun.wire <= t.tun.wire && Log(me.tun) <= Log(t.tun)
  {
    hide Consistent, AllReadable, AfterSend, AfterClose, ActOf, ConsumedAfter, Apply, Log, OutgoingFrame, Sendable,
         UpEnabled, Enabled;
    match m
    case Send(fault) =>
      OutgoingSendable(me.pump);
      SendOk(me.tun, OutgoingFrame(me.pump), fault);
    case ShutTunnel(fault) => CloseOk(me.tun, 0, GOODBYE, fault);
    case OtherSend(f, fault) =>
      ControlSendable(f);
      SendOk(me.tun, f, fault);
    case OtherClose(code, message, fault) => CloseOk(me.tun, code, message, fault);
    case _ =>
  }

  lemma ControlSendable(f: Frame)
    requires !IsPacketTag(f.tag)
    ensures Sendable(f)
  {
  }

  lemma SendOut(me: Side, wire: seq<byte>, m: Move)
    requires OwnInv(me.pump) && AllFit(me.pump) && TunOk(me) && OutOk(me) && Possible(me, wire, m) && m.Send?
    ensures OutOk(Step(me, wire, m))
  {
    hide Consistent, AllReadable, AfterSend, Log, Sendable, PoolInv, Exclusive, Uniform, DownContents, ReadsFit, TagsOk,
         FromWire, PacketsOf, TagFor, Outcome;
    var s, f := me.pump, OutgoingFrame(me.pump);
    assert Clean(s);
    var p := s.log.read[|s.log.read| - 1];
    assert PacketBytes(f) == p;
    assert s.log.read == Accounted(s) + [p];
    OutgoingSendable(s);
    VersionTag(p[0], s.up.tag);
    OutgoingTagged(s);
    TaggedSend(me.tun, f, m.fault);
    SendOk(me.tun, f, m.fault);
  }

  lemma VersionTag(first: byte, tag: byte)
    requires TagFor(first) == Some(tag)
    ensures IsPacketTag(tag) && tag == first / 16
  {
  }

  lemma OtherOut(me: Side, wire: seq<byte>, m: Move)
    requires TunOk(me) && OutOk(me) && Possible(me, wire, m) && !m.Send?
    ensures OutOk(Step(me, wire, m))
  {
    hide Consistent, AllReadable, AfterSend, AfterClose, Log, Sendable, PacketsOf, Apply, Enabled, UpLive, Accounted,
         ConsumedAfter, TagsOk;
    OtherTags(me, wire, m);
    var a := ActOf(me, wire, m);
    if a.Some? {
      NotASend(me, wire, m);
      PumpFlow(me.pump, a.value);
    }
    match m
    case ShutTunnel(fault) => CloseOk(me.tun, 0, GOODBYE, fault);
    case OtherSend(f, fault) =>
      ControlSendable(f);
      SendOk(me.tun, f, fault);
    case OtherClose(code, message, fault) => CloseOk(me.tun, code, message, fault);
    case _ =>
  }

  lemma OtherTags(me: Side, wire: seq<byte>, m: Move)
    requires TunOk(me) && TagsOk(me.tun) && Possible(me, wire, m) && !m.Send?
    ensures TagsOk(Step(me, wire, m).tun)
  {
    hide Consistent, AllReadable, AfterSend, AfterClose, Log, Sendable, Tagged, TagsOk, Apply, Enabled, ActOf,
         ConsumedAfter;
    match m
    case ShutTunnel(fault) => TaggedClose(me.tun, 0, GOODBYE, fault);
    case OtherSend(f, fault) =>
      ControlTagged(f);
      TaggedSend(me.tun, f, fault);
    case OtherClose(code, message, fault) => TaggedClose(me.tun, code, message, fault);
    case _ =>
  }

  lemma NotASend(me: Side, wire: seq<byte>, m: Move)
    requires Possible(me, wire, m) && !m.Send? && ActOf(me, wire, m).Some?
    ensures !ActOf(me, wire, m).value.UpSend?
  {
    hide Enabled, NextRead;
  }

  // ---- incoming: what this side has received has to do with the peer's log ----

  /** Results of RecvFrame that are frames: all but a last error. */
  function Gots(rs: seq<Recv>): nat {
    if rs != [] && !rs[|rs| - 1].Got? then |rs| - 1 else |rs|
  }

  predicate Relayed(rs: seq<Recv>, fs: seq<Frame>) {
    && Gots(rs) <= |fs|
    && forall i :: 0 <= i < Gots(rs) ==> rs[i] == Got(Normal(fs[i]))
  }

  /** The frames received are the peer's logged frames, in order; while the loop is live, reading
      stands exactly at the boundary behind them. */
  predicate InOk(me: Side, peer: Side) {
    && WithinWire(me, peer.tun.wire)
    && Relayed(me.pump.log.received, Log(peer.tun))
    && (Live(me.pump.down) ==> AtBoundary(me, peer))
  }

  predicate AtBoundary(me: Side, peer: Side) {
    && WithinWire(me, peer.tun.wire)
    && |me.pump.log.received| <= |Log(peer.tun)|
    && peer.tun.wire[..me.consumed] == EmitAll(Log(peer.tun)[..|me.pump.log.received|])
  }

  lemma EmitAllSplit(fs: seq<Frame>, k: nat)
    requires k <= |fs|
    ensures EmitAll(fs) == EmitAll(fs[..k]) + EmitAll(fs[k..])
  {
    assert fs == fs[..k] + fs[k..];
    EmitAllConcat(fs[..k], fs[k..]);
  }

  /** From a boundary, ReadFrame either starves or yields exactly the next logged frame. */
  lemma ReadNext(me: Side, peer: Side)
    requires TunOk(peer) && AtBoundary(me, peer)
    ensures var r := NextRead(me, peer.tun.wire);
            var fs, k := Log(peer.tun), |me.pump.log.received|;
            if r.Ok? then
              && k < |fs| && r.value == Normal(fs[k]) && |r.rest| <= me.arrived
              && me.consumed <= me.arrived - |r.rest|
              && peer.tun.wire[..me.arrived - |r.rest|] == EmitAll(fs[..k + 1])
            else r.starved
  {
    hide Decode.ReadFrame, Emit, Normal, Readable, EmitAll;
    var fs, k, wire := Log(peer.tun), |me.pump.log.received|, peer.tun.wire;
    EmitAllSplit(fs, k);
    var bs := Unread(me, wire);
    assert bs <= EmitAll(fs[k..]) by {
      assert wire == EmitAll(fs[..k]) + wire[me.consumed..];
      assert wire[me.consumed..] <= EmitAll(fs[k..]);
      assert bs == wire[me.consumed..][..me.arrived - me.consumed];
    }
    assert AllReadable(fs[k..]);
    Codec.ReadFromPrefix(bs, fs[k..], if me.ended.Some? then me.ended.value else EOF);
    var r := NextRead(me, wire);
    if r.Ok? {
      var e := Emit(fs[k]);
      assert fs[k..][0] == fs[k];
      assert fs[..k + 1] == fs[..k] + [fs[k]];
      EmitAllSnoc(fs[..k], fs[k]);
      assert wire[..me.consumed + |e|] == wire[..me.consumed] + bs[..|e|];
    }
  }

  lemma GotsSnoc(rs: seq<Recv>, r: Recv)
    requires Open(rs)
    ensures Gots(rs) == |rs|
    ensures Gots(rs + [r]) == if r.Got? then |rs| + 1 else |rs|
  {
  }

  lemma RecvIn(me: Side, peer: Side)
    requires InOk(me, peer) && TunOk(peer) && MeaningInv(me.pump) && Possible(me, peer.tun.wire, RecvDone)
    ensures InOk(Step(me, peer.tun.wire, RecvDone), peer)
  {
    hide Decode.ReadFrame, NextRead, EmitAll, Normal, Payloads, AllFit, Blocked, Consistent, AllReadable;
    var wire := peer.tun.wire;
    ReadNext(me, peer);
    var a := ActOf(me, wire, RecvDone).value;
    GotsSnoc(me.pump.log.received, a.r);
    RecvPump(me.pump, a);
  }

  lemma RecvPump(s: State, a: Action)
    requires DownEnabled(s, a) && a.DownRecv?
    ensures Apply(s, a).log.received == s.log.received + [a.r]
    ensures a.r.Err? ==> !Live(Apply(s, a).down)
  {
    hide Outcome;
  }

  lemma CheckIn(me: Side, peer: Side)
    requires InOk(me, peer) && MeaningInv(me.pump) && Possible(me, peer.tun.wire, RecvCheck)
    ensures InOk(Step(me, peer.tun.wire, RecvCheck), peer)
  {
    hide EmitAll, Normal, Payloads, AllFit, Blocked, NextRead, Log, Outcome, Relayed;
    if me.tun.closed {
      RelayedErr(me.pump.log.received, Log(peer.tun), TransportClosed);
      GotsSnoc(me.pump.log.received, Err(TransportClosed));
      RecvPump(me.pump, DownRecv(Err(TransportClosed)));
    }
  }

  lemma RelayedErr(rs: seq<Recv>, fs: seq<Frame>, e: Error)
    requires Open(rs) && Relayed(rs, fs)
    ensures Relayed(rs + [Err(e)], fs)
  {
    hide Normal;
    GotsSnoc(rs, Err(e));
  }

  lemma NoRecvPump(s: State, a: Action)
    requires Enabled(s, a) && !a.DownRecv?
    ensures Apply(s, a).log.received == s.log.received
    ensures Live(Apply(s, a).down) ==> Live(s.down)
  {
    hide UpApply;
    if UpEnabled(s, a) { UpHistory(s, a); } else if DownEnabled(s, a) { NoRecvDown(s, a); }
  }

  lemma NoRecvDown(s: State, a: Action)
    requires DownEnabled(s, a) && !a.DownRecv?
    ensures DownApply(s, a).log.received == s.log.received
    ensures Live(DownApply(s, a).down) ==> Live(s.down)
  {
    hide Outcome, Obtain, Store;
  }

  lemma OtherIn(me: Side, peer: Side, m: Move)
    requires InOk(me, peer) && Possible(me, peer.tun.wire, m) && !m.RecvDone? && !m.RecvCheck?
    ensures InOk(Step(me, peer.tun.wire, m), peer)
  {
    hide EmitAll, Normal, Apply, Enabled, Live, TunAfter, SendCall, Relayed;
    var a := ActOf(me, peer.tun.wire, m);
    if a.Some? {
      assert !a.value.DownRecv?;
      NoRecvPump(me.pump, a.value);
    }
  }

  lemma InStep(me: Side, peer: Side, m: Move)
    requires InOk(me, peer) && TunOk(peer) && MeaningInv(me.pump) && Possible(me, peer.tun.wire, m)
    ensures InOk(Step(me, peer.tun.wire, m), peer)
  {
    hide InOk, Step, Possible, MeaningInv, TunOk;
    if m.RecvDone? { RecvIn(me, peer); } else if m.RecvCheck? { CheckIn(me, peer); } else { OtherIn(me, peer, m); }
  }

  /** The peer's steps only extend its wire and its log. */
  lemma PeerIn(me: Side, peer: Side, peer': Side)
    requires InOk(me, peer) && peer.tun.wire <= peer'.tun.wire && Log(peer.tun) <= Log(peer'.tun)
    ensures InOk(me, peer')
  {
    hide EmitAll, Normal, Log;
    var k := |me.pump.log.received|;
    if Live(me.pump.down) {
      assert Log(peer'.tun)[..k] == Log(peer.tun)[..k];
      assert peer'.tun.wire[..me.consumed] == peer.tun.wire[..me.consumed];
    }
  }

  // ---- both sides ----

  predicate Good(me: Side) {
    && OwnInv(me.pump) && MeaningInv(me.pump) && TunOk(me)
    && (AllFit(me.pump) ==> OutOk(me))
  }

  predicate NetInv(n: Net) {
    Good(n.a) && Good(n.b) && InOk(n.a, n.b) && InOk(n.b, n.a)
  }

  lemma ReceivedGrows(s: State, a: Action)
    requires Enabled(s, a)
    ensures s.log.received <= Apply(s, a).log.received && Apply(s, a).pool.size == s.pool.size
  {
    hide UpApply, DownApply;
    if UpEnabled(s, a) { UpHistory(s, a); } else if DownEnabled(s, a) { DownHistory(s, a); }
  }

  lemma GoodStep(me: Side, wire: seq<byte>, m: Move)
    requires Good(me) && Possible(me, wire, m)
    ensures Good(Step(me, wire, m))
    ensures Step(me, wire, m).pump.pool.size == me.pump.pool.size
  {
    hide OwnInv, MeaningInv, TunOk, OutOk, AllFit, ActOf, TunAfter, ConsumedAfter, Apply, Possible;
    var a, t := ActOf(me, wire, m), Step(me, wire, m);
    if a.Some? {
      OwnStep(me.pump, a.value);
      MeaningStep(me.pump, a.value);
      ReceivedGrows(me.pump, a.value);
    }
    TunStep(me, wire, m);
    if AllFit(t.pump) {
      FitEarlier(me.pump, t.pump);
      if m.Send? { SendOut(me, wire, m); } else { OtherOut(me, wire, m); }
    }
  }

  lemma NetStep(n: Net, t: Turn)
    requires NetInv(n) && CanTurn(n, t)
    ensures NetInv(After(n, t))
    ensures After(n, t).a.pump.pool.size == n.a.pump.pool.size && After(n, t).b.pump.pool.size == n.b.pump.pool.size
  {
    hide OwnInv, MeaningInv, TunOk, OutOk, AllFit, InOk, Possible, Step;
    match t
    case A(m) =>
      GoodStep(n.a, n.b.tun.wire, m);
      InStep(n.a, n.b, m);
      TunStep(n.a, n.b.tun.wire, m);
      PeerIn(n.b, n.a, Step(n.a, n.b.tun.wire, m));
    case B(m) =>
      GoodStep(n.b, n.a.tun.wire, m);
      InStep(n.b, n.a, m);
      TunStep(n.b, n.a.tun.wire, m);
      PeerIn(n.a, n.b, Step(n.b, n.a.tun.wire, m));
  }

  lemma StartOk(mtu: int, overhead: int, mtu': int, overhead': int)
    ensures NetInv(Net(Start(mtu, overhead), Start(mtu', overhead')))
  {
    hide Good, InOk;
    StartSide(mtu, overhead, mtu', overhead');
    StartSide(mtu', overhead', mtu, overhead);
  }

  lemma StartSide(mtu: int, overhead: int, mtu': int, overhead': int)
    ensures Good(Start(mtu, overhead)) && InOk(Start(mtu, overhead), Start(mtu', overhead'))
  {
    hide OwnInv;
    StartOwned(mtu, overhead);
  }

  lemma {:induction false} NetRun(n: Net, turns: seq<Turn>, n': Net)
    requires NetInv(n) && NetExec(n, turns) == Some(n')
    ensures NetInv(n')
    decreases turns
  {
    hide NetInv, CanTurn, After;
    if turns != [] {
      NetStep(n, turns[0]);
      NetRun(After(n, turns[0]), turns[1..], n');
    }
  }

  lemma {:induction false} PayloadsRelayed(rs: seq<Recv>, fs: seq<Frame>)
    requires Relayed(rs, fs)
    ensures Payloads(rs) <= PacketsOf(fs)
  {
    if rs != [] && rs[0].Got? && rs[0].frame.close.None? {
      assert Gots(rs[1..]) == Gots(rs) - 1;
      PayloadsRelayed(rs[1..], fs[1..]);
    }
  }

  lemma {:induction false} PacketListed(fs: seq<Frame>, i: nat)
    requires i < |fs| && IsPacketTag(fs[i].tag)
    ensures PacketBytes(fs[i]) in PacketsOf(fs)
  {
    if i > 0 {
      PacketListed(fs[1..], i - 1);
    }
  }

  /** What one side's device was given is a prefix of what the other side's device delivered. */
  lemma SideDelivers(me: Side, peer: Side)
    requires Good(me) && Good(peer) && InOk(me, peer) && AllFit(me.pump) && AllFit(peer.pump)
    ensures me.pump.log.wrote <= peer.pump.log.read
    ensures forall i :: 0 <= i < |me.pump.log.wrote| ==> me.pump.log.wrote[i] != []
  {
    hide PacketsOf, Payloads, PoolInv, FromWire, Exclusive, Uniform, UpContents, DownContents, Consistent, Log,
         Relayed, AtBoundary;
    PayloadsRelayed(me.pump.log.received, Log(peer.tun));
    assert me.pump.log.wrote <= Payloads(me.pump.log.received);
    assert Clean(peer.pump);
  }

  /** End to end. In every run of two joined pumps, whatever their MTUs, as long as received packets
      fit the receiving pool, the packets written to either device are a byte-exact, in-order
      prefix of the non-empty packets read from the other, and none of them is empty. */
  lemma DeliveredPrefix(mtu: int, overhead: int, mtu': int, overhead': int, turns: seq<Turn>, n: Net)
    requires NetExec(Net(Start(mtu, overhead), Start(mtu', overhead')), turns) == Some(n)
    requires AllFit(n.a.pump) && AllFit(n.b.pump)
    ensures n.a.pump.log.wrote <= n.b.pump.log.read
    ensures n.b.pump.log.wrote <= n.a.pump.log.read
    ensures forall i :: 0 <= i < |n.a.pump.log.wrote| ==> n.a.pump.log.wrote[i] != []
    ensures forall i :: 0 <= i < |n.b.pump.log.wrote| ==> n.b.pump.log.wrote[i] != []
  {
    hide NetExec, Good, InOk, AllFit;
    StartOk(mtu, overhead, mtu', overhead');
    NetRun(Net(Start(mtu, overhead), Start(mtu', overhead')), turns, n);
    SideDelivers(n.a, n.b);
    SideDelivers(n.b, n.a);
  }

  // ---- no empty write, without any proviso ----

  predicate NoneEmpty(ps: seq<seq<byte>>) { forall i :: 0 <= i < |ps| ==> ps[i] != [] }

  /** Every packet handed to dev.Write, taken or not, has at least one byte. */
  predicate WritesFilled(s: State) { NoneEmpty(s.log.wrote) && NoneEmpty(s.log.lost) }

  predicate HandFilled(down: Down) { InHand(down).Some? ==> InHand(down).value != [] }

  lemma RelayedFilled(rs: seq<Recv>, fs: seq<Frame>)
    requires Relayed(rs, fs) && AllReadable(fs) && rs != [] && rs[|rs| - 1].Got? && rs[|rs| - 1].frame.packet.Some?
    ensures rs[|rs| - 1].frame.packet.value != []
  {
    hide Encodable;
    assert rs[|rs| - 1] == Got(Normal(fs[|rs| - 1])) && Readable(fs[|rs| - 1]);
  }

  lemma InHandFilled(me: Side, peer: Side)
    requires FromWire(me.pump) && InOk(me, peer) && TunOk(peer)
    ensures HandFilled(me.pump.down)
  {
    hide Relayed, AllReadable, Consistent, Log, AtBoundary;
    if InHand(me.pump.down).Some? { RelayedFilled(me.pump.log.received, Log(peer.tun)); }
  }

  lemma DownFilled(s: State, a: Action)
    requires DownEnabled(s, a) && HandFilled(s.down) && WritesFilled(s)
    ensures WritesFilled(DownApply(s, a))
  {
    hide Outcome, Obtain, Store;
  }

  lemma SideFilled(me: Side, peer: Side, m: Move)
    requires OwnInv(me.pump) && InOk(me, peer) && TunOk(peer) && WritesFilled(me.pump) && Possible(me, peer.tun.wire, m)
    ensures WritesFilled(Step(me, peer.tun.wire, m).pump)
  {
    hide PoolInv, FromWire, AllFit, InOk, TunOk, HandFilled, WritesFilled, ActOf, TunAfter, ConsumedAfter, Possible,
         UpApply, DownApply;
    InHandFilled(me, peer);
    var a := ActOf(me, peer.tun.wire, m);
    if a.Some? { PumpFilled(me.pump, a.value); }
  }

  lemma PumpFilled(s: State, a: Action)
    requires Enabled(s, a) && HandFilled(s.down) && WritesFilled(s)
    ensures WritesFilled(Apply(s, a))
  {
    hide UpApply, DownApply, NoneEmpty, HandFilled;
    if UpEnabled(s, a) { UpHistory(s, a); } else if DownEnabled(s, a) { DownFilled(s, a); }
  }

  lemma {:induction false} FilledRun(n: Net, turns: seq<Turn>, n': Net)
    requires NetInv(n) && WritesFilled(n.a.pump) && WritesFilled(n.b.pump) && NetExec(n, turns) == Some(n')
    ensures WritesFilled(n'.a.pump) && WritesFilled(n'.b.pump)
    decreases turns
  {
    hide OwnInv, MeaningInv, TunOk, OutOk, InOk, WritesFilled, Possible, Step, AllFit;
    if turns != [] {
      match turns[0] {
        case A(m) => SideFilled(n.a, n.b, m);
        case B(m) => SideFilled(n.b, n.a, m);
      }
      NetStep(n, turns[0]);
      FilledRun(After(n, turns[0]), turns[1..], n');
    }
  }

  /** Over the real codec no zero-length write ever reaches a device, whatever the sizes: not even
      where received packets do not fit and the bytes written are not the peer's. */
  lemma NoEmptyWrites(mtu: int, overhead: int, mtu': int, overhead': int, turns: seq<Turn>, n: Net)
    requires NetExec(Net(Start(mtu, overhead), Start(mtu', overhead')), turns) == Some(n)
    ensures WritesFilled(n.a.pump) && WritesFilled(n.b.pump)
  {
    hide NetExec, NetInv;
    StartOk(mtu, overhead, mtu', overhead');
    FilledRun(Net(Start(mtu, overhead), Start(mtu', overhead')), turns, n);
  }

  // ---- no loss at rest ----

  lemma EmitIsFilled(f: Frame)
    requires Encodable(f)
    ensures Emit(f) != []
  {
    hide BodyVerdict, EmitBody, Put;
    if !IsPacketTag(f.tag) { Codec.ControlTags(f); }
  }

  /** A shorter list of records has a shorter encoding. */
  lemma FewerIsShorter(fs: seq<Frame>, k: nat)
    requires AllReadable(fs) && k < |fs|
    ensures |EmitAll(fs[..k])| < |EmitAll(fs)|
  {
    hide Emit, Encodable;
    EmitAllSplit(fs, k);
    assert Readable(fs[k]);
    EmitIsFilled(fs[k]);
    assert EmitAll(fs[k..]) == Emit(fs[k..][0]) + EmitAll(fs[k..][1..]);
  }

  lemma {:induction false} PayloadsOfAll(rs: seq<Recv>, fs: seq<Frame>)
    requires Relayed(rs, fs) && Open(rs) && |rs| == |fs|
    ensures Payloads(rs) == PacketsOf(fs)
  {
    if rs != [] { PayloadsOfAll(rs[1..], fs[1..]); }
  }

  /** pumpDown waits in RecvFrame and has read all that the peer has put on an open wire, and the
      peer's pumpUp has not left. */
  predicate AtRest(me: Side, peer: Side) {
    Reading(me.pump) && me.consumed == |peer.tun.wire| && !peer.tun.closed && UpLive(peer.pump.up)
  }

  lemma SideAtRest(me: Side, peer: Side)
    requires Good(me) && Good(peer) && InOk(me, peer) && AllFit(me.pump) && AllFit(peer.pump) && AtRest(me, peer)
    ensures me.pump.log.wrote == Accounted(peer.pump)
  {
    hide PacketsOf, Payloads, OwnInv, AllFit, EmitAll, Log, Relayed, AllReadable, Accounted, UpLive, Open;
    var rs, fs := me.pump.log.received, Log(peer.tun);
    OpenWire(peer.tun);
    assert peer.tun.wire[..me.consumed] == peer.tun.wire;
    if |rs| < |fs| { FewerIsShorter(fs, |rs|); }
    PayloadsOfAll(rs, fs);
  }

  lemma OpenWire(t: Tun)
    requires Consistent(t) && !t.closed
    ensures t.wire == EmitAll(Log(t))
  {
    hide EmitAll;
    OpenLog(t);
  }

  /** No loss at rest: in every run, while received packets fit, whenever a pumpDown has caught up with
      an open wire its device has been given everything that the peer's pumpUp has sent. */
  lemma NoLossAtRest(mtu: int, overhead: int, mtu': int, overhead': int, turns: seq<Turn>, n: Net)
    requires NetExec(Net(Start(mtu, overhead), Start(mtu', overhead')), turns) == Some(n)
    requires AllFit(n.a.pump) && AllFit(n.b.pump)
    ensures AtRest(n.a, n.b) ==> n.a.pump.log.wrote == Accounted(n.b.pump)
    ensures AtRest(n.b, n.a) ==> n.b.pump.log.wrote == Accounted(n.a.pump)
  {
    hide NetExec, Good, InOk, AllFit, AtRest, Accounted;
    StartOk(mtu, overhead, mtu', overhead');
    NetRun(Net(Start(mtu, overhead), Start(mtu', overhead')), turns, n);
    if AtRest(n.a, n.b) { SideAtRest(n.a, n.b); }
    if AtRest(n.b, n.a) { SideAtRest(n.b, n.a); }
  }

  // ---- tags ----

  /** Every packet received came under the number of its IP version. */
  predicate TagsReceived(s: State) {
    forall i :: 0 <= i < |s.log.received| && s.log.received[i].Got? && s.log.received[i].frame.packet.Some? ==>
      Tagged(s.log.received[i].frame) && IsPacketTag(s.log.received[i].frame.tag)
  }

  lemma SideTags(me: Side, peer: Side)
    requires Good(peer) && InOk(me, peer) && AllFit(peer.pump)
    ensures TagsReceived(me.pump)
  {
    hide OwnInv, MeaningInv, AllFit, TunOk, Log, PacketsOf, AtBoundary;
    var rs, fs := me.pump.log.received, Log(peer.tun);
    forall i | 0 <= i < |rs| && rs[i].Got? && rs[i].frame.packet.Some?
      ensures Tagged(rs[i].frame) && IsPacketTag(rs[i].frame.tag)
    {
      assert i < Gots(rs) && Tagged(fs[i]);
    }
  }

  /** Tag dispatch, end to end: in every run, while what a side receives fits its pool, every packet
      frame it has put on its wire, and every one its peer has received, has the packet's IP version as
      its tag. */
  lemma TagsFollowVersion(mtu: int, overhead: int, mtu': int, overhead': int, turns: seq<Turn>, n: Net)
    requires NetExec(Net(Start(mtu, overhead), Start(mtu', overhead')), turns) == Some(n)
    ensures AllFit(n.a.pump) ==> TagsOk(n.a.tun) && TagsReceived(n.b.pump)
    ensures AllFit(n.b.pump) ==> TagsOk(n.b.tun) && TagsReceived(n.a.pump)
  {
    hide NetExec, OwnInv, MeaningInv, TunOk, InOk, AllFit, TagsOk, TagsReceived;
    StartOk(mtu, overhead, mtu', overhead');
    NetRun(Net(Start(mtu, overhead), Start(mtu', overhead')), turns, n);
    if AllFit(n.a.pump) { SideTags(n.b, n.a); }
    if AllFit(n.b.pump) { SideTags(n.a, n.b); }
  }

  // ---- framing ----

  /** Reading stands at a record boundary of the peer's wire, and the next read either yields the
      next frame the peer logged, consuming exactly its record, or runs out of bytes. */
  predicate InSync(me: Side, peer: Side) {
    && AtBoundary(me, peer)
    && var r := NextRead(me, peer.tun.wire);
       var k := |me.pump.log.received|;
       if r.Ok? then
         && k < |Log(peer.tun)| && r.value == Normal(Log(peer.tun)[k]) && |r.rest| <= me.arrived
         && peer.tun.wire[..me.arrived - |r.rest|] == EmitAll(Log(peer.tun)[..k + 1])
       else r.starved
  }

  predicate Reading(s: State) { s.down.DRecv? || s.down.DInRecv? }

  /** Framing stays in sync: in every run each ReadFrame a pump issues starts at a record boundary
      and never meets a framing error. */
  lemma FramingInSync(mtu: int, overhead: int, mtu': int, overhead': int, turns: seq<Turn>, n: Net)
    requires NetExec(Net(Start(mtu, overhead), Start(mtu', overhead')), turns) == Some(n)
    ensures Reading(n.a.pump) ==> InSync(n.a, n.b)
    ensures Reading(n.b.pump) ==> InSync(n.b, n.a)
  {
    hide NetExec, Good, InOk, Reading, InSync;
    StartOk(mtu, overhead, mtu', overhead');
    NetRun(Net(Start(mtu, overhead), Start(mtu', overhead')), turns, n);
    if Reading(n.a.pump) { SideInSync(n.a, n.b); }
    if Reading(n.b.pump) { SideInSync(n.b, n.a); }
  }

  lemma SideInSync(me: Side, peer: Side)
    requires InOk(me, peer) && Good(peer) && Reading(me.pump)
    ensures InSync(me, peer)
  {
    hide NextRead, Relayed, Normal, EmitAll, Log, Consistent, AllReadable, OwnInv, MeaningInv, OutOk, AllFit;
    ReadNext(me, peer);
  }
}
