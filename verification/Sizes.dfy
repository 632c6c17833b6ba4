/** For which buffer sizes two joined pumps deliver faithfully in every run. */
module Sizes {
  import opened Errors
  import opened Bytes
  import opened Frames
  import opened Encode
  import Decode
  import Codec
  import opened BufferPool
  import opened Wrapper
  import opened Pump
  import opened Ownership
  import opened Delivery
  import opened Network
  import opened EndToEnd

  // ---- sizes that make every received packet fit ----

  /** What the peer's device can have delivered fits here too. */
  lemma FitFromPeer(me: Side, peer: Side)
    requires Good(peer) && InOk(me, peer) && AllFit(peer.pump) && peer.pump.pool.size <= me.pump.pool.size
    ensures AllFit(me.pump)
  {
    hide PacketsOf, PoolInv, FromWire, Exclusive, Uniform, UpContents, DownContents, Consistent, Log, AtBoundary,
         MeaningInv;
    assert Clean(peer.pump);
    var rs, fs := me.pump.log.received, Log(peer.tun);
    forall i | 0 <= i < |rs| && rs[i].Got? && rs[i].frame.packet.Some?
      ensures |rs[i].frame.packet.value| <= me.pump.pool.size
    {
      assert i < Gots(rs);
      PacketListed(fs, i);
      assert PacketBytes(fs[i]) in peer.pump.log.read;
    }
  }

  /** Every packet the codec can carry fits. */
  lemma FitAnything(me: Side, peer: Side)
    requires Good(peer) && InOk(me, peer) && MAX_IP_PACKET <= me.pump.pool.size
    ensures AllFit(me.pump)
  {
    hide OwnInv, MeaningInv, OutOk, Consistent, Log, AtBoundary, BodyVerdict;
    var rs, fs := me.pump.log.received, Log(peer.tun);
    forall i | 0 <= i < |rs| && rs[i].Got? && rs[i].frame.packet.Some?
      ensures |rs[i].frame.packet.value| <= me.pump.pool.size
    {
      assert i < Gots(rs);
      assert Readable(fs[i]);
    }
  }

  predicate Matched(size: nat, size': nat) { size == size' || (MAX_IP_PACKET <= size && MAX_IP_PACKET <= size') }

  /** The condition in the terms of the configuration. */
  predicate SizesMatch(mtu: int, overhead: int, mtu': int, overhead': int) {
    || mtu + overhead == mtu' + overhead'
    || (mtu + overhead <= 1 && mtu' + overhead' <= 1)
    || (mtu + overhead >= 65535 && mtu' + overhead' >= 65535)
  }

  predicate BothFit(n: Net) {
    AllFit(n.a.pump) && AllFit(n.b.pump) && Matched(n.a.pump.pool.size, n.b.pump.pool.size)
  }

  lemma FitStep(n: Net, t: Turn)
    requires NetInv(n) && CanTurn(n, t) && BothFit(n)
    ensures BothFit(After(n, t))
  {
    hide Good, InOk, AllFit, Possible, Step;
    NetStep(n, t);
    var n', same := After(n, t), n.a.pump.pool.size == n.b.pump.pool.size;
    match t
    case A(_) => if same { FitFromPeer(n'.a, n'.b); } else { FitAnything(n'.a, n'.b); }
    case B(_) => if same { FitFromPeer(n'.b, n'.a); } else { FitAnything(n'.b, n'.a); }
  }

  lemma {:induction false} FitRun(n: Net, turns: seq<Turn>, n': Net)
    requires NetInv(n) && BothFit(n) && NetExec(n, turns) == Some(n')
    ensures BothFit(n')
    decreases turns
  {
    hide NetInv, CanTurn, After, BothFit;
    if turns != [] {
      NetStep(n, turns[0]);
      FitStep(n, turns[0]);
      FitRun(After(n, turns[0]), turns[1..], n');
    }
  }

  /** Each device has been given only what the other delivered, in order. */
  predicate Faithful(n: Net) {
    n.a.pump.log.wrote <= n.b.pump.log.read && n.b.pump.log.wrote <= n.a.pump.log.read
  }

  /** With equal buffer sizes, or sizes for the largest packet the codec carries, there is no proviso:
      delivery is exact in every run. */
  lemma MatchedSizesDeliver(mtu: int, overhead: int, mtu': int, overhead': int, turns: seq<Turn>, n: Net)
    requires SizesMatch(mtu, overhead, mtu', overhead')
    requires NetExec(Net(Start(mtu, overhead), Start(mtu', overhead')), turns) == Some(n)
    ensures AllFit(n.a.pump) && AllFit(n.b.pump) && Faithful(n)
  {
    hide NetExec, NetInv;
    var n0 := Net(Start(mtu, overhead), Start(mtu', overhead'));
    StartOk(mtu, overhead, mtu', overhead');
    FitRun(n0, turns, n);
    DeliveredPrefix(mtu, overhead, mtu', overhead', turns, n);
  }

  // ---- for all other sizes there is a run that goes wrong ----

  lemma DeviceDelivers(mtu: int, overhead: int, peer: Side, p: seq<byte>) returns (me: Side)
    requires 0 < |p| && (|p| == 1 || |p| <= mtu + overhead) && TagFor(p[0]) == Some(TAG_IPV4)
    ensures Alone(Net(Start(mtu, overhead), peer), me) && me == Start(mtu, overhead).(pump := me.pump)
    ensures me.pump.up == USend(0, |p|, TAG_IPV4) && me.pump.log.read == [p]
    ensures Fits(me.pump, 0, |p|) && me.pump.pool.mem[0][..|p|] == p
  {
    hide Alone, TagFor, Outcome, Obtain;
    me := EnterDeviceRead(mtu, overhead, peer);
    me := NextAlone(Net(Start(mtu, overhead), peer), me, Local(UpRead(Packet(p))));
  }

  lemma PacketSent(mtu: int, overhead: int, peer: Side, p: seq<byte>) returns (me: Side)
    requires 0 < |p| <= 65535 && (|p| == 1 || |p| <= mtu + overhead) && TagFor(p[0]) == Some(TAG_IPV4)
    ensures Alone(Net(Start(mtu, overhead), peer), me)
    ensures me.tun.wire == Emit(PacketFrame(TAG_IPV4, p)) && me.pump.log.read == [p]
  {
    hide Alone, TagFor, Outcome, Emit;
    me := DeviceDelivers(mtu, overhead, peer, p);
    assert OutgoingFrame(me.pump) == PacketFrame(TAG_IPV4, p);
    assert [] + Emit(PacketFrame(TAG_IPV4, p)) == Emit(PacketFrame(TAG_IPV4, p));
    me := NextAlone(Net(Start(mtu, overhead), peer), me, Move.Send(None));
  }

  lemma PacketReceived(mtu: int, overhead: int, peer: Side, p: seq<byte>) returns (me: Side)
    requires 1 < |p| <= 65535 && mtu + overhead < |p| && peer.tun.wire == Emit(PacketFrame(TAG_IPV4, p))
    ensures Alone(Net(Start(mtu, overhead), peer), me) && Exposed(me.pump, p)
    ensures me.pump.log.wrote == [] && me.tun == FRESH
  {
    hide Alone, Outcome, Emit, Decode.ReadFrame, AfterSend, AfterClose;
    var n0, wire := Net(Start(mtu, overhead), peer), peer.tun.wire;
    StartAlone(n0);
    me := NextAlone(n0, n0.a, Arrive(|wire|));
    me := EnterReadFrame(n0, me);
    Codec.FrameRoundTrip(PacketFrame(TAG_IPV4, p), [], EOF);
    assert Unread(me, wire) == wire == wire + [];
    me := NextAlone(n0, me, RecvDone);
  }

  /** The first side's device delivers a packet that does not fit the second side's buffers, and the
      second side receives it. */
  lemma OversizeArrives(mtu: int, overhead: int, mtu': int, overhead': int, p: seq<byte>) returns (a: Side, b: Side)
    requires 1 < |p| <= 65535 && |p| <= mtu + overhead && mtu' + overhead' < |p| && TagFor(p[0]) == Some(TAG_IPV4)
    ensures Joined(Net(Start(mtu, overhead), Start(mtu', overhead')), Net(a, Start(mtu', overhead')))
    ensures Alone(Net(Start(mtu', overhead'), a), b) && Exposed(b.pump, p)
    ensures a.pump.log.read == [p] && b.pump.log.wrote == [] && b.tun == FRESH
  {
    hide Alone, Joined, TagFor, Emit, Exposed, Start;
    var n0 := Net(Start(mtu, overhead), Start(mtu', overhead'));
    a := PacketSent(mtu, overhead, n0.b, p);
    AloneIsJoined(n0, a);
    b := PacketReceived(mtu', overhead', a, p);
  }

  /** The second side's moves, behind the first side's. */
  lemma ThenSecond(n0: Net, a: Side, b: Side)
    requires Joined(n0, Net(a, n0.b)) && Alone(Net(n0.b, a), b)
    ensures Joined(n0, Net(a, b))
  {
    hide Alone, Joined;
    AloneIsJoined(Net(n0.b, a), b);
    JoinedFlip(Net(n0.b, a), Net(b, a));
    JoinedTransitive(n0, Net(a, n0.b), Net(a, b));
  }

  /** One byte more than the smaller buffers hold, with the given first byte. */
  function Oversize(first: byte, mtu: int, overhead: int): (p: seq<byte>)
    ensures |p| > 1 && mtu + overhead < |p| && p[0] == first
    ensures |p| == 2 || |p| == mtu + overhead + 1
  {
    [first] + Zeros(if mtu + overhead < 1 then 1 else mtu + overhead)
  }

  lemma SmallerSideCorrupts(mtu: int, overhead: int, mtu': int, overhead': int) returns (n: Net)
    requires 1 < mtu + overhead && mtu' + overhead' < mtu + overhead && mtu' + overhead' < 65535
    ensures Joined(Net(Start(mtu, overhead), Start(mtu', overhead')), n) && !Faithful(n)
  {
    hide Alone, Joined, TagFor, Exec, AllLocal, Exposed, Start, Oversize;
    Versions();
    var p, other := Oversize(0x45, mtu', overhead'), Oversize(0, mtu', overhead');
    var n0 := Net(Start(mtu, overhead), Start(mtu', overhead'));
    var a, b := OversizeArrives(mtu, overhead, mtu', overhead', p);
    var acts, t := OversizeOverwrites(b.pump, p, other);
    LocalAlone(Net(n0.b, a), b, acts, t);
    n := Net(a, b.(pump := t));
    ThenSecond(n0, a, n.b);
    assert n.b.pump.log.wrote[0] == other;
  }

  /** The same start; then the second side's pumpUp sends the packet back under the tag of another. */
  lemma SmallerSideMistags(mtu: int, overhead: int, mtu': int, overhead': int) returns (n: Net)
    requires 1 < mtu + overhead && mtu' + overhead' < mtu + overhead && mtu' + overhead' < 65535
    ensures Joined(Net(Start(mtu, overhead), Start(mtu', overhead')), n) && !TagsOk(n.b.tun)
  {
    hide Alone, Joined, TagFor, Exec, AllLocal, Exposed, Start, Oversize, TagsOk;
    Versions();
    var p, other := Oversize(0x45, mtu', overhead'), Oversize(0x60, mtu', overhead');
    var n0 := Net(Start(mtu, overhead), Start(mtu', overhead'));
    var a, b := OversizeArrives(mtu, overhead, mtu', overhead', p);
    var acts, t := OversizeMistags(b.pump, p, other, TAG_IPV6);
    LocalAlone(Net(n0.b, a), b, acts, t);
    b := SendMistagged(Net(n0.b, a), b.(pump := t), p);
    n := Net(a, b);
    ThenSecond(n0, a, b);
  }

  lemma SendMistagged(n0: Net, me: Side, p: seq<byte>) returns (me': Side)
    requires Alone(n0, me) && me.tun == FRESH && 1 < |p| <= 65535 && p[0] == 0x45
    requires me.pump.up.USend? && me.pump.up.n == |p| && me.pump.up.tag == TAG_IPV6
    requires Fits(me.pump, me.pump.up.b, |p|) && me.pump.pool.mem[me.pump.up.b][..|p|] == p
    ensures Alone(n0, me') && !TagsOk(me'.tun)
  {
    hide Alone, Outcome, Emit;
    var f := PacketFrame(TAG_IPV6, p);
    assert OutgoingFrame(me.pump) == f && Encodable(f);
    me' := NextAlone(n0, me, Move.Send(None));
    assert Log(me'.tun) == [f] && !Tagged(Log(me'.tun)[0]);
  }

  lemma Versions()
    ensures TagFor(0x45) == Some(TAG_IPV4) && TagFor(0x60) == Some(TAG_IPV6)
  {
  }

  ghost predicate AlwaysFaithful(mtu: int, overhead: int, mtu': int, overhead': int) {
    forall turns, n :: NetExec(Net(Start(mtu, overhead), Start(mtu', overhead')), turns) == Some(n) ==> Faithful(n)
  }

  /** The exact condition: delivery is faithful in every run iff both sides use the same buffer size or
      both have room for the largest packet the codec carries. */
  lemma DeliveryExactly(mtu: int, overhead: int, mtu': int, overhead': int)
    ensures AlwaysFaithful(mtu, overhead, mtu', overhead')
       <==> SizesMatch(mtu, overhead, mtu', overhead')
  {
    hide NetExec, Start, Faithful;
    var n0 := Net(Start(mtu, overhead), Start(mtu', overhead'));
    if SizesMatch(mtu, overhead, mtu', overhead') {
      forall turns, n | NetExec(n0, turns) == Some(n) ensures Faithful(n) {
        MatchedSizesDeliver(mtu, overhead, mtu', overhead', turns, n);
      }
    } else if mtu' + overhead' < mtu + overhead {
      var n := SmallerSideCorrupts(mtu, overhead, mtu', overhead');
    } else {
      var n := SmallerSideCorrupts(mtu', overhead', mtu, overhead);
      JoinedFlip(Flip(n0), n);
      FaithfulFlip(n);
    }
  }

  ghost predicate AlwaysTagged(mtu: int, overhead: int, mtu': int, overhead': int) {
    forall turns, n :: NetExec(Net(Start(mtu, overhead), Start(mtu', overhead')), turns) == Some(n) ==>
      TagsOk(n.a.tun) && TagsOk(n.b.tun)
  }

  /** Under the same condition, and no other, every packet on either wire carries its own IP version as
      its tag in every run. */
  lemma TagsExactly(mtu: int, overhead: int, mtu': int, overhead': int)
    ensures AlwaysTagged(mtu, overhead, mtu', overhead')
       <==> SizesMatch(mtu, overhead, mtu', overhead')
  {
    hide NetExec, Start, TagsOk, Faithful;
    var n0 := Net(Start(mtu, overhead), Start(mtu', overhead'));
    if SizesMatch(mtu, overhead, mtu', overhead') {
      forall turns, n | NetExec(n0, turns) == Some(n) ensures TagsOk(n.a.tun) && TagsOk(n.b.tun) {
        MatchedSizesDeliver(mtu, overhead, mtu', overhead', turns, n);
        TagsFollowVersion(mtu, overhead, mtu', overhead', turns, n);
      }
    } else if mtu' + overhead' < mtu + overhead {
      var n := SmallerSideMistags(mtu, overhead, mtu', overhead');
    } else {
      var n := SmallerSideMistags(mtu', overhead', mtu, overhead);
      JoinedFlip(Flip(n0), n);
    }
  }

  lemma FaithfulFlip(n: Net)
    ensures Faithful(Flip(n)) == Faithful(n)
  {
  }
}
