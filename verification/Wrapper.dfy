/** The tunnel wrapper: a `closed` flag over the codec and a byte stream. */
module Wrapper {
  import opened Errors
  import opened Bytes
  import opened Frames
  import opened Encode
  import Decode
  import Streams

  /** How the stream's writer fails during one WriteFrame: after `written` more bytes. A WriteFrame
      that writes nothing cannot fail this way. */
  datatype Fault = Fault(written: nat, err: Error)

  /** The wrapper as a value. `wire` is every byte ever handed to the stream; `sent` and `torn`
      are its history: the frames written in full, and, once a write has failed, a valid frame
      whose encoding the bytes of that write are a prefix of. */
  datatype Tun = Tun(closed: bool, wire: seq<byte>, sent: seq<Frame>, torn: Option<Frame>)

  const FRESH := Tun(false, [], [], None)

  /** codec.WriteFrame on the stream, with the wrapper's reaction to a failure. */
  function AfterWrite(t: Tun, f: Frame, fault: Option<Fault>): (Tun, Option<Error>) {
    if fault.Some? && Emit(f) != [] && fault.value.written <= |Emit(f)| then
      (Tun(true, t.wire + Emit(f)[..fault.value.written], t.sent, Some(Repair(f))), Some(fault.value.err))
    else if Verdict(f).Some? then
      (Tun(true, t.wire + Emit(f), t.sent, Some(Repair(f))), Verdict(f))
    else
      (t.(wire := t.wire + Emit(f), sent := t.sent + [f]), None)
  }

  function AfterSend(t: Tun, f: Frame, fault: Option<Fault>): (Tun, Option<Error>) {
    if t.closed then (t, Some(TransportClosed)) else AfterWrite(t, f, fault)
  }

  function AfterClose(t: Tun, code: uint32, message: seq<byte>, fault: Option<Fault>): (Tun, Option<Error>) {
    if t.closed then (t, None)
    else
      var (u, err) := AfterWrite(t, CloseFrame(Close(code, message)), fault);
      (u.(closed := true), err)
  }

  // ---- the wire after any history of calls ----

  datatype Op =
    | Send(frame: Frame, fault: Option<Fault>)
    | Shut(code: uint32, message: seq<byte>, fault: Option<Fault>)

  function FrameOf(op: Op): Frame {
    match op
    case Send(f, _) => f
    case Shut(code, message, _) => CloseFrame(Close(code, message))
  }

  function FramesOf(ops: seq<Op>): (fs: seq<Frame>)
    ensures |fs| == |ops|
    ensures forall i :: 0 <= i < |fs| ==> fs[i] == FrameOf(ops[i])
  {
    seq(|ops|, i requires 0 <= i < |ops| => FrameOf(ops[i]))
  }

  function Do(t: Tun, op: Op): (Tun, Option<Error>) {
    match op
    case Send(f, fault) => AfterSend(t, f, fault)
    case Shut(code, message, fault) => AfterClose(t, code, message, fault)
  }

  /** State after `ops`, and what each call returned. */
  function Play(t: Tun, ops: seq<Op>): (r: (Tun, seq<Option<Error>>))
    ensures |r.1| == |ops|
    decreases ops
  {
    if ops == [] then (t, [])
    else
      var (u, err) := Do(t, ops[0]);
      var (v, errs) := Play(u, ops[1..]);
      (v, [err] + errs)
  }

  /** After it is closed the wrapper refuses every send, accepts every Close, and writes nothing. */
  predicate Refused(ops: seq<Op>, errs: seq<Option<Error>>)
    requires |ops| == |errs|
  {
    forall i :: 0 <= i < |ops| ==> errs[i] == if ops[i].Send? then Some(TransportClosed) else None
  }

  lemma {:induction false} ClosedIsFinal(t: Tun, ops: seq<Op>)
    requires t.closed
    ensures Play(t, ops).0 == t && Refused(ops, Play(t, ops).1)
  {
    if ops != [] {
      ClosedIsFinal(t, ops[1..]);
      var errs := Play(t, ops).1;
      forall i | 0 <= i < |ops| ensures errs[i] == if ops[i].Send? then Some(TransportClosed) else None {
        if i > 0 { assert ops[i] == ops[1..][i - 1] && errs[i] == errs[1..][i - 1]; }
      }
    }
  }

  /** What one call does to an open wrapper, in terms of its result alone. */
  lemma OpenCall(t: Tun, op: Op)
    requires !t.closed
    ensures var (u, err) := Do(t, op);
            && (op.Send? && err.None? ==> !u.closed)
            && (!(op.Send? && err.None?) ==> u.closed)
            && (err.None? ==> Encodable(FrameOf(op)) && u.wire == t.wire + Emit(FrameOf(op)))
            && t.wire <= u.wire <= t.wire + Emit(FrameOf(op))
  {
    hide Emit, Verdict, Repair;
  }

  predicate AllSent(ops: seq<Op>, errs: seq<Option<Error>>)
    requires |ops| == |errs|
  {
    forall i :: 0 <= i < |ops| ==> ops[i].Send? && errs[i].None? && Encodable(FrameOf(ops[i]))
  }

  /** `op` is the last call to write: a Close, or a send that failed. Behind the bytes `good` it
      leaves its whole record if it returned nil, and some prefix of it otherwise. */
  predicate LastWrite(op: Op, err: Option<Error>, good: seq<byte>, wire: seq<byte>) {
    && !(op.Send? && err.None?)
    && good <= wire <= good + Emit(FrameOf(op))
    && (err.None? ==> wire == good + Emit(FrameOf(op)))
  }

  /** The first `k` calls are successful sends; call `k`, if there is one, is the last to write. */
  predicate Shape(before: seq<byte>, ops: seq<Op>, errs: seq<Option<Error>>, k: nat,
                  after: Tun)
    requires |ops| == |errs| && k <= |ops|
  {
    && AllSent(ops[..k], errs[..k])
    && var good := before + EmitAll(FramesOf(ops[..k]));
       if k == |ops| then !after.closed && after.wire == good
       else
         && after.closed
         && LastWrite(ops[k], errs[k], good, after.wire)
         && Refused(ops[k + 1..], errs[k + 1..])
  }

  lemma ShapeCons(before: seq<byte>, op: Op, err: Option<Error>, ops: seq<Op>, errs: seq<Option<Error>>, k: nat,
                  after: Tun)
    requires |ops| == |errs| && k <= |ops|
    requires op.Send? && err.None? && Encodable(FrameOf(op))
    requires Shape(before + Emit(FrameOf(op)), ops, errs, k, after)
    ensures Shape(before, [op] + ops, [err] + errs, k + 1, after)
  {
    hide Emit, Encodable, LastWrite, Refused;
    var all, allErrs := [op] + ops, [err] + errs;
    assert all[..k + 1] == [op] + ops[..k] && allErrs[..k + 1] == [err] + errs[..k];
    assert FramesOf(all[..k + 1])[1..] == FramesOf(ops[..k]);
    assert EmitAll(FramesOf(all[..k + 1])) == Emit(FrameOf(op)) + EmitAll(FramesOf(ops[..k]));
    assert before + (Emit(FrameOf(op)) + EmitAll(FramesOf(ops[..k])))
        == before + Emit(FrameOf(op)) + EmitAll(FramesOf(ops[..k]));
    if k < |ops| {
      assert all[k + 2..] == ops[k + 1..] && allErrs[k + 2..] == errs[k + 1..];
    }
  }

  /** Wire well-formedness. For every history there is a first call `k` that is not a successful
      send; the wire is the encodings of the sends before it, then at most the record, or a torn
      prefix of the record, that call `k` was writing, and no byte ever after. */
  lemma {:induction false} WireAfterHistory(t: Tun, ops: seq<Op>) returns (k: nat)
    requires !t.closed
    ensures k <= |ops|
    ensures Shape(t.wire, ops, Play(t, ops).1, k, Play(t, ops).0)
    decreases ops
  {
    hide Do, Emit, Encodable;
    k := 0;
    assert EmitAll(FramesOf(ops[..0])) == [];
    if ops != [] {
      OpenCall(t, ops[0]);
      var (u, err) := Do(t, ops[0]);
      var errs := Play(u, ops[1..]).1;
      assert ops == [ops[0]] + ops[1..];
      assert Play(t, ops) == (Play(u, ops[1..]).0, [err] + errs);
      if ops[0].Send? && err.None? {
        k := WireAfterHistory(u, ops[1..]);
        ShapeCons(t.wire, ops[0], err, ops[1..], errs, k, Play(u, ops[1..]).0);
        k := k + 1;
      } else {
        ClosedIsFinal(u, ops[1..]);
        assert ([err] + errs)[1..] == errs;
      }
    }
  }

  // ---- the invariant the history fields carry ----

  function Log(t: Tun): seq<Frame> {
    t.sent + (if t.torn.Some? then [t.torn.value] else [])
  }

  predicate Consistent(t: Tun) {
    && (forall i :: 0 <= i < |t.sent| ==> Encodable(t.sent[i]))
    && (t.torn.Some? ==> t.closed && Encodable(t.torn.value))
    && EmitAll(t.sent) <= t.wire <= EmitAll(Log(t))
    && (!t.closed ==> t.wire == EmitAll(t.sent))
  }

  /** One WriteFrame keeps the wire inside the encoding of the log. */
  lemma WriteConsistent(t: Tun, f: Frame, fault: Option<Fault>)
    requires Consistent(t) && !t.closed
    ensures Consistent(AfterWrite(t, f, fault).0)
    ensures Log(AfterWrite(t, f, fault).0) == t.sent + [Repair(f)]
  {
    hide Emit, Verdict, EmitAll, Repair;
    EmitsPrefixOfRecord(f);
    EmitAllSnoc(t.sent, f);
    EmitAllSnoc(t.sent, Repair(f));
    if Encodable(f) { ValidIsItsRepair(f); }
    assert t.sent + [] == t.sent && (t.sent + [f]) + [] == t.sent + [f];
    var u := AfterWrite(t, f, fault).0;
    if u.closed {
      assert u.sent == t.sent && Log(u) == t.sent + [Repair(f)];
      assert u.wire <= t.wire + Emit(f) <= EmitAll(Log(u));
    } else {
      assert u.sent == t.sent + [f] && u.torn.None? && Log(u) == t.sent + [f];
    }
  }

  lemma ValidIsItsRepair(f: Frame)
    requires Encodable(f)
    ensures Repair(f) == f
  {
  }

  lemma ClosingConsistent(t: Tun)
    requires Consistent(t)
    ensures Consistent(t.(closed := true)) && Log(t.(closed := true)) == Log(t)
  {
    assert Log(t.(closed := true)) == Log(t);
    EmitAllConcat(t.sent, if t.torn.Some? then [t.torn.value] else []);
  }

  /** The value-level step a WriteFrame on the stream amounts to. */
  lemma WroteIsAfterWrite(t: Tun, f: Frame, after: seq<byte>, raised: Option<Error>, err: Option<Error>)
    returns (fault: Option<Fault>)
    requires Streams.WroteIn(t.wire, after, raised, err, Emit(f), Verdict(f), Streams.WrapStart(f), Streams.WrapEnd(f))
    ensures AfterWrite(t, f, fault)
         == (Tun(t.closed || err.Some?, after, if err.None? then t.sent + [f] else t.sent,
                 if err.Some? then Some(Repair(f)) else t.torn), err)
  {
    hide Emit, Verdict, Repair;
    if raised.Some? {
      var n := |after| - |t.wire|;
      assert after == t.wire + Emit(f)[..n];
      fault := Some(Fault(n, err.value));
    } else {
      fault := None;
    }
  }

  /** The caller gets the writer's own error, or that error wrapped. */
  predicate Reported(raised: Option<Error>, err: Option<Error>) {
    raised.Some? && (err == raised || err == Some(Wrap(raised.value)))
  }

  /** The wrapper as an object: the flag, the two halves of the stream, and the history. */
  class Tunnel {
    const out: Streams.Sink
    const inp: Streams.Source
    var closed: bool
    ghost var sent: seq<Frame>
    ghost var torn: Option<Frame>

    ghost function View(): Tun
      reads this, out
    {
      Tun(closed, out.data, sent, torn)
    }

    ghost predicate Valid()
      reads this, out
    {
      (!closed ==> out.raised.None?) && Consistent(View())
    }

    constructor (out: Streams.Sink, inp: Streams.Source)
      requires out.data == [] && out.raised.None?
      ensures Valid() && View() == FRESH && this.out == out && this.inp == inp
    {
      this.out, this.inp, this.closed, this.sent, this.torn := out, inp, false, [], None;
    }

    method SendFrame(f: Frame) returns (err: Option<Error>)
      requires Valid()
      modifies this, out
      ensures Valid()
      ensures exists fault :: (View(), err) == AfterSend(old(View()), f, fault)
      ensures out.raised != old(out.raised) ==> Reported(out.raised, err)
    {
      hide Emit, Verdict, Consistent, AfterWrite;
      ghost var before := View();
      if closed {
        assert (before, Some(TransportClosed)) == AfterSend(before, f, None);
        return Some(TransportClosed);
      }
      err := Streams.WriteFrame(out, f);
      ghost var fault := WroteIsAfterWrite(before, f, out.data, out.raised, err);
      WriteConsistent(before, f, fault);
      if err.Some? {
        closed, torn := true, Some(Repair(f));
      } else {
        sent := sent + [f];
      }
      assert (View(), err) == AfterSend(before, f, fault);
    }

    /** The flag is looked at under the mutex; the read itself happens after it is released,
        and nothing it returns changes the flag. */
    method RecvFrame() returns (f: Option<Frame>, err: Option<Error>)
      requires Valid()
      modifies inp
      ensures Valid() && View() == old(View())
      ensures closed ==> err == Some(TransportClosed) && inp.data == old(inp.data)
      ensures !closed ==> Streams.Agrees(Decode.ReadFrame(old(inp.data), inp.end), f, err, inp.data)
    {
      if closed {
        return None, Some(TransportClosed);
      }
      f, err := Streams.ReadFrame(inp);
    }

    method Close(code: uint32, message: seq<byte>) returns (err: Option<Error>)
      requires Valid()
      modifies this, out
      ensures Valid() && closed
      ensures exists fault :: (View(), err) == AfterClose(old(View()), code, message, fault)
      ensures out.raised != old(out.raised) ==> Reported(out.raised, err)
    {
      hide Emit, Verdict, Consistent, AfterWrite;
      ghost var before := View();
      if closed {
        assert (before, None) == AfterClose(before, code, message, None);
        return None;
      }
      var f := CloseFrame(Frames.Close(code, message));
      err := Streams.WriteFrame(out, f);
      ghost var fault := WroteIsAfterWrite(before, f, out.data, out.raised, err);
      WriteConsistent(before, f, fault);
      ClosingConsistent(AfterWrite(before, f, fault).0);
      closed := true;
      if err.Some? { torn := Some(Repair(f)); } else { sent := sent + [f]; }
      assert (View(), err) == AfterClose(before, code, message, fault);
    }
  }
}
