/** What pumpDown writes to the device, over every run; and what goes wrong when a received
    packet does not fit the pool size. */
module Delivery {
  import opened Errors
  import opened Bytes
  import opened Frames
  import opened BufferPool
  import opened Pump
  import opened Ownership

  /** The packets of the received frames before the first Close frame or error. */
  function Payloads(rs: seq<Recv>): seq<seq<byte>> {
    if rs == [] || !rs[0].Got? || rs[0].frame.close.Some? then []
    else (if rs[0].frame.packet.Some? then [rs[0].frame.packet.value] else []) + Payloads(rs[1..])
  }

  /** No Close frame and no error among them. */
  predicate Open(rs: seq<Recv>) {
    forall i :: 0 <= i < |rs| ==> rs[i].Got? && rs[i].frame.close.None?
  }

  lemma {:induction false} PayloadsConcat(xs: seq<Recv>, ys: seq<Recv>)
    requires Open(xs)
    ensures Payloads(xs + ys) == Payloads(xs) + Payloads(ys)
  {
    if xs == [] {
      assert xs + ys == ys;
    } else {
      assert (xs + ys)[1..] == xs[1..] + ys;
      PayloadsConcat(xs[1..], ys);
    }
  }

  lemma PayloadsOne(r: Recv)
    ensures Payloads([r])
         == if r.Got? && r.frame.close.None? && r.frame.packet.Some? then [r.frame.packet.value] else []
  {
    assert Payloads([r][1..]) == [];
  }

  predicate IsControl(r: Recv) { r.Got? && r.frame.packet.None? && r.frame.close.None? }

  /** The received results without the control frames (Hello, Session, Keepalive, Rekey). */
  function Stripped(rs: seq<Recv>): seq<Recv> {
    if rs == [] then [] else (if IsControl(rs[0]) then [] else [rs[0]]) + Stripped(rs[1..])
  }

  lemma {:induction false} PayloadsStripped(rs: seq<Recv>)
    ensures Payloads(rs) == Payloads(Stripped(rs))
  {
    if rs != [] {
      PayloadsStripped(rs[1..]);
      if !IsControl(rs[0]) {
        assert Stripped(rs)[1..] == Stripped(rs[1..]);
      } else {
        assert Stripped(rs) == Stripped(rs[1..]);
      }
    }
  }

  /** The down loop has not decided to leave. */
  predicate Live(down: Down) {
    !(down.DRet? || down.DDone? || (down.DPut? && down.next.Return?))
  }

  function Hand(down: Down): seq<seq<byte>> {
    if InHand(down).Some? then [InHand(down).value] else []
  }

  predicate MeaningInv(s: State) {
    && (Live(s.down) ==> Open(s.log.received) && s.log.lost == [])
    && (AllFit(s) ==> Payloads(s.log.received) == s.log.wrote + s.log.lost + Hand(s.down))
  }

  lemma FitEarlier(s: State, t: State)
    requires s.log.received <= t.log.received && t.pool.size == s.pool.size && AllFit(t)
    ensures AllFit(s)
  {
    assert forall i :: 0 <= i < |s.log.received| ==> s.log.received[i] == t.log.received[i];
  }

  /** What receiving does, apart from the failure list. */
  lemma RecvEffect(s: State, a: Action)
    requires DownEnabled(s, a) && a.DownRecv?
    ensures var t := DownApply(s, a);
            && t.log.received == s.log.received + [a.r] && t.log.wrote == s.log.wrote && t.log.lost == s.log.lost
            && (Live(t.down) <==> a.r.Got? && a.r.frame.close.None?)
            && Hand(t.down) == Payloads([a.r])
            && Live(s.down) && Hand(s.down) == []
  {
    hide Outcome;
    PayloadsOne(a.r);
  }

  lemma RecvMeaning(s: State, a: Action)
    requires MeaningInv(s) && DownEnabled(s, a) && a.DownRecv?
    ensures MeaningInv(DownApply(s, a))
  {
    hide DownApply, Payloads, Live, Hand, AllFit;
    RecvEffect(s, a);
    PayloadsConcat(s.log.received, [a.r]);
    if AllFit(DownApply(s, a)) { FitEarlier(s, DownApply(s, a)); }
  }

  lemma WriteMeaning(s: State, a: Action)
    requires MeaningInv(s) && OwnInv(s) && DownEnabled(s, a) && (a.DownWrite? || a.DownWriteCall?)
    ensures MeaningInv(DownApply(s, a))
  {
    hide Outcome, PoolInv, Exclusive, Uniform, UpContents, ReadsFit, FromWire, Payloads;
    var t := DownApply(s, a);
    assert t.log.received == s.log.received && t.pool == s.pool;
    assert AllFit(t) == AllFit(s);
  }

  lemma OtherMeaning(s: State, a: Action)
    requires MeaningInv(s) && DownEnabled(s, a) && !a.DownRecv? && !a.DownWrite? && !a.DownWriteCall?
    ensures MeaningInv(DownApply(s, a))
  {
    hide Outcome, Obtain, Store, Payloads;
    var t := DownApply(s, a);
    assert t.log.received == s.log.received && t.log.wrote == s.log.wrote && t.log.lost == s.log.lost;
    assert AllFit(t) == AllFit(s);
  }

  lemma MeaningStep(s: State, a: Action)
    requires MeaningInv(s) && OwnInv(s) && Enabled(s, a)
    ensures MeaningInv(Apply(s, a))
  {
    hide OwnInv, UpApply, DownApply, Payloads;
    if UpEnabled(s, a) {
      UpHistory(s, a);
      assert AllFit(UpApply(s, a)) == AllFit(s);
    } else if DownEnabled(s, a) {
      if a.DownRecv? { RecvMeaning(s, a); }
      else if a.DownWrite? || a.DownWriteCall? { WriteMeaning(s, a); }
      else { OtherMeaning(s, a); }
    } else {
      assert AllFit(RestApply(s, a)) == AllFit(s);
    }
  }

  lemma {:induction false} MeaningOfRun(s: State, acts: seq<Action>, t: State)
    requires MeaningInv(s) && OwnInv(s) && Exec(s, acts) == Some(t)
    ensures MeaningInv(t) && OwnInv(t)
    decreases acts
  {
    hide MeaningInv, OwnInv, Apply, Enabled;
    if acts != [] {
      MeaningStep(s, acts[0]);
      OwnStep(s, acts[0]);
      MeaningOfRun(Apply(s, acts[0]), acts[1..], t);
    }
  }

  /** Down-direction meaning. While received packets fit, the device writes (the ones that
      succeeded, then at most one that failed) are exactly the packets received before the first
      Close frame or error, in order and byte for byte, up to the one still in hand. */
  lemma DownMeaning(s: State)
    requires Reachable(s) && AllFit(s)
    ensures Payloads(s.log.received) == s.log.wrote + s.log.lost + Hand(s.down)
    ensures Live(s.down) ==> s.log.lost == []
  {
    hide Exec, OwnInv, Payloads, AllFit;
    var mtu, overhead, acts :| Exec(Init(mtu, overhead), acts) == Some(s);
    StartOwned(mtu, overhead);
    StartMeans(mtu, overhead);
    MeaningOfRun(Init(mtu, overhead), acts, s);
  }

  lemma StartMeans(mtu: int, overhead: int)
    ensures MeaningInv(Init(mtu, overhead))
  {
  }

  /** Control frames are invisible to the device: two runs, of any pumps, that received the same
      results up to any number of control frames anywhere have handed the same packets to their
      devices, up to the one in hand. */
  lemma ControlFramesAreInvisible(s: State, t: State)
    requires Reachable(s) && Reachable(t) && AllFit(s) && AllFit(t)
    requires Stripped(s.log.received) == Stripped(t.log.received)
    ensures s.log.wrote + s.log.lost + Hand(s.down) == t.log.wrote + t.log.lost + Hand(t.down)
  {
    hide Reachable, AllFit, Hand;
    DownMeaning(s);
    DownMeaning(t);
    PayloadsStripped(s.log.received);
    PayloadsStripped(t.log.received);
  }

  // ---- the proviso is needed ----

  /** pumpDown holds a packet larger than the pool size, the up loop is at its top, and nothing has
      been cancelled or closed. */
  predicate Exposed(s: State, wide: seq<byte>) {
    s.down == DGet(wide) && s.up == UTop && !s.group.done && !s.devClosed && s.pool.size < |wide|
  }

  /** getBuf puts the new buffer into the pool and into pumpDown's hands at once. */
  lemma OversizePooled(s: State, wide: seq<byte>) returns (acts: seq<Action>, t: State)
    requires Exposed(s, wide)
    ensures Exec(s, acts) == Some(t) && AllLocal(acts)
    ensures var b := |s.pool.mem| + 1;
            && t.down == DCopy(b, wide) && t.up == UTop
            && b in t.pool.free && b < |t.pool.mem| && |t.pool.mem[b]| == |wide|
    ensures t.log == s.log.(gets := t.log.gets) && !t.devClosed && !t.group.done
  {
    hide Exec, AllLocal, Outcome;
    RunStarts(s);
    acts, t := Extend(s, [], s, DownGet(None));
  }

  /** ... and pumpUp gets it too. */
  lemma OversizeShared(s: State, wide: seq<byte>) returns (acts: seq<Action>, t: State)
    requires Exposed(s, wide)
    ensures Exec(s, acts) == Some(t) && AllLocal(acts)
    ensures var b := |s.pool.mem| + 1;
            && t.down == DCopy(b, wide) && t.up == UInRead(b)
            && b < |t.pool.mem| && |t.pool.mem[b]| == |wide|
    ensures t.log == s.log.(gets := t.log.gets) && !t.devClosed
  {
    hide Exec, AllLocal, Outcome, Exposed;
    acts, t := OversizePooled(s, wide);
    acts, t := Extend(s, acts, t, UpCheck);
    acts, t := Extend(s, acts, t, UpGet(Some(|s.pool.mem| + 1)));
    acts, t := Extend(s, acts, t, UpCall);
  }

  lemma RunStarts(s: State)
    ensures Exec(s, []) == Some(s) && AllLocal([])
  {
  }

  /** From every exposed state there is a continuation, without any further call of the tunnel, in
      which a local packet of the same length is written to the device in place of the peer's. */
  lemma OversizeOverwrites(s: State, wide: seq<byte>, other: seq<byte>) returns (acts: seq<Action>, t: State)
    requires Exposed(s, wide) && |other| == |wide|
    ensures Exec(s, acts) == Some(t) && AllLocal(acts)
    ensures t.log.received == s.log.received && t.log.read == s.log.read + [other]
    ensures t.log.wrote == s.log.wrote + [other] && t.log.lost == s.log.lost && Hand(t.down) == []
  {
    hide Exec, AllLocal, Outcome;
    var b := |s.pool.mem| + 1;
    acts, t := OversizeShared(s, wide);
    acts, t := Extend(s, acts, t, DownCopy);
    acts, t := Extend(s, acts, t, UpRead(Packet(other)));
    assert t.pool.mem[b] == other;
    acts, t := OversizeWritten(s, acts, t, wide, other);
  }

  lemma OversizeWritten(s: State, acts: seq<Action>, t: State, wide: seq<byte>, other: seq<byte>)
    returns (acts': seq<Action>, t': State)
    requires Exec(s, acts) == Some(t) && AllLocal(acts) && |other| == |wide|
    requires t.down.DCall? && t.down.pkt == wide
    requires !t.devClosed && t.down.b < |t.pool.mem| && t.pool.mem[t.down.b] == other
    ensures Exec(s, acts') == Some(t') && AllLocal(acts')
    ensures t'.log.received == t.log.received && t'.log.read == t.log.read && t'.log.lost == t.log.lost
    ensures t'.log.wrote == t.log.wrote + [other] && Hand(t'.down) == []
  {
    hide Exec, AllLocal, Outcome;
    acts', t' := Extend(s, acts, t, DownWriteCall);
    acts', t' := Extend(s, acts', t', DownWrite(None));
    assert other[..|wide|] == other;
  }

  /** ... or in which pumpUp is about to send the peer's packet back, under the tag of a local one. */
  lemma OversizeMistags(s: State, wide: seq<byte>, other: seq<byte>, tag: byte) returns (acts: seq<Action>, t: State)
    requires Exposed(s, wide) && |other| == |wide| > 0 && TagFor(other[0]) == Some(tag)
    ensures Exec(s, acts) == Some(t) && AllLocal(acts)
    ensures var b := |s.pool.mem| + 1;
            t.up == USend(b, |wide|, tag) && Fits(t, b, |wide|) && t.pool.mem[b][..|wide|] == wide
  {
    hide Exec, AllLocal, Outcome, TagFor, Exposed;
    acts, t := OversizeShared(s, wide);
    acts, t := Extend(s, acts, t, UpRead(Packet(other)));
    acts, t := Extend(s, acts, t, DownCopy);
  }

  lemma OversizeReceived(mtu: int, overhead: int, tag: byte, wide: seq<byte>) returns (acts: seq<Action>, s: State)
    requires 1 < |wide| && mtu + overhead < |wide|
    ensures Exec(Init(mtu, overhead), acts) == Some(s) && Exposed(s, wide)
    ensures s.log == Init(mtu, overhead).log.(received := [Got(PacketFrame(tag, wide))])
  {
    hide Exec, AllLocal;
    var s0 := Init(mtu, overhead);
    RunStarts(s0);
    acts, s := Extend(s0, [], s0, DownCheck);
    acts, s := Extend(s0, acts, s, DownCall);
    acts, s := Extend(s0, acts, s, DownRecv(Got(PacketFrame(tag, wide))));
  }

  /** For every pool size and every packet larger than it: one buffer has two owners. */
  lemma OversizeAliases(mtu: int, overhead: int, tag: byte, wide: seq<byte>) returns (s: State)
    requires 1 < |wide| && mtu + overhead < |wide|
    ensures Reachable(s) && s.log.received == [Got(PacketFrame(tag, wide))]
    ensures UpBuf(s.up).Some? && UpBuf(s.up) == DownBuf(s.down)
  {
    hide Exec;
    var acts, t := OversizeReceived(mtu, overhead, tag, wide);
    var more; more, s := OversizeShared(t, wide);
    ExecConcat(Init(mtu, overhead), acts, t, more);
  }

  /** ... and any other packet of that length can be written to the device in its place. */
  lemma OversizeCorrupts(mtu: int, overhead: int, tag: byte, wide: seq<byte>, other: seq<byte>)
    returns (acts: seq<Action>, s: State)
    requires 1 < |wide| == |other| && mtu + overhead < |wide|
    ensures Exec(Init(mtu, overhead), acts) == Some(s)
    ensures s.log.received == [Got(PacketFrame(tag, wide))] && s.log.wrote == [other]
    ensures s.log.lost == [] && Hand(s.down) == []
  {
    hide Exec, Exposed;
    var first, t := OversizeReceived(mtu, overhead, tag, wide);
    var more; more, s := OversizeOverwrites(t, wide, other);
    ExecConcat(Init(mtu, overhead), first, t, more);
    acts := first + more;
  }

  /** No received packet is longer than `n`. */
  predicate Within(rs: seq<Recv>, n: nat) {
    forall i :: 0 <= i < |rs| && rs[i].Got? && rs[i].frame.packet.Some? ==> |rs[i].frame.packet.value| <= n
  }

  /** The device has been given what was received. */
  predicate Exact(s: State) {
    Payloads(s.log.received) == s.log.wrote + s.log.lost + Hand(s.down)
  }

  /** The pool size is the exact bound: pumpDown delivers faithfully in every run with packets of up
      to `n` bytes iff `n` is at most MTU plus overhead, or at most 1. */
  lemma PoolSizeIsTheBound(mtu: int, overhead: int, n: nat)
    ensures (forall acts, s :: Exec(Init(mtu, overhead), acts) == Some(s) && Within(s.log.received, n) ==> Exact(s))
            <==> n <= 1 || n <= mtu + overhead
  {
    hide Exec, Exact, Within;
    if n <= 1 || n <= mtu + overhead {
      forall acts, s | Exec(Init(mtu, overhead), acts) == Some(s) && Within(s.log.received, n) ensures Exact(s) {
        ExactWhenSmall(mtu, overhead, n, acts, s);
      }
    } else {
      var wide: seq<byte>, other: seq<byte> := Zeros(n), [1] + Zeros(n - 1);
      assert wide[0] != other[0];
      var acts, s := OversizeCorrupts(mtu, overhead, TAG_IPV4, wide, other);
      NotExact(s, n, wide, other);
    }
  }

  lemma ExactWhenSmall(mtu: int, overhead: int, n: nat, acts: seq<Action>, s: State)
    requires n <= 1 || n <= mtu + overhead
    requires Exec(Init(mtu, overhead), acts) == Some(s) && Within(s.log.received, n)
    ensures Exact(s)
  {
    hide Exec, Payloads;
    SizeStays(Init(mtu, overhead), acts, s);
    assert AllFit(s);
    assert Reachable(s);
    DownMeaning(s);
  }

  lemma NotExact(s: State, n: nat, wide: seq<byte>, other: seq<byte>)
    requires s.log.received == [Got(PacketFrame(TAG_IPV4, wide))] && s.log.wrote == [other] && s.log.lost == []
    requires Hand(s.down) == [] && wide != other && |wide| == n
    ensures Within(s.log.received, n) && !Exact(s)
  {
    PayloadsOne(s.log.received[0]);
    assert [other] + [] + [] == [other];
    assert [wide][0] != [other][0];
  }
}
