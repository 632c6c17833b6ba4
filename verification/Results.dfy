/** What Run returns, read off the answers that the device and the tunnel gave: which error each answer
    makes a loop return, by name and number, and which of them wins. */
module Results {
  import opened Errors
  import opened BufferPool
  import opened Pump
  import opened Lifecycle
  import opened Trace

  /** The error with which an answer makes pumpUp return. None: it goes on, or it returns nil. */
  function UpError(a: Action): Option<Error> {
    match a
    case UpRead(ReadErr(e)) =>
      if Is(e, DeviceClosed) || Is(e, Canceled) || Is(e, DeadlineExceeded) then None
      else Some(PumpError(ReadTunFailed, e))
    case UpRead(Packet(data)) =>
      if data == [] || 0x40 <= data[0] <= 0x4f || 0x60 <= data[0] <= 0x6f then None
      else Some(PumpError(SendFrameFailed, UNKNOWN_VERSION))
    case UpSend(Some(e)) =>
      if Is(e, TransportClosed) || Is(e, EOF) || Is(e, Canceled) || Is(e, DeadlineExceeded) then None
      else Some(PumpError(SendFrameFailed, e))
    case _ => None
  }

  /** The same for pumpDown. */
  function DownError(a: Action): Option<Error> {
    match a
    case DownRecv(Err(e)) =>
      if Is(e, TransportClosed) || Is(e, EOF) || Is(e, Canceled) || Is(e, DeadlineExceeded) then None
      else Some(PumpError(RecvFrameFailed, e))
    case DownRecv(NilFrame) => Some(PumpError(RecvFrameFailed, NIL_FRAME))
    case DownWrite(Some(e)) =>
      if Is(e, DeviceClosed) || Is(e, Canceled) || Is(e, DeadlineExceeded) then None
      else Some(PumpError(WriteTunFailed, e))
    case _ => None
  }

  /** The first error that reaches the errgroup, when the loops stand to return `up` and `down`. */
  function FirstReturned(acts: seq<Action>, up: Option<Error>, down: Option<Error>): Option<Error>
    decreases acts
  {
    if acts == [] then None
    else if acts[0].UpExit? && up.Some? then up
    else if acts[0].DownExit? && down.Some? then down
    else FirstReturned(acts[1..], Newer(up, UpError(acts[0])), Newer(down, DownError(acts[0])))
  }

  function Newer(before: Option<Error>, now: Option<Error>): Option<Error> { if now.Some? then now else before }

  /** The loop returns `e` once it has decided to leave, and stands to return nil before. */
  predicate UpStands(up: Up, e: Option<Error>) {
    match up
    case UPut(_, Return(x)) => x == e
    case URet(x) => x == e
    case UDone(x) => x == e
    case _ => e == None
  }

  predicate DownStands(down: Down, e: Option<Error>) {
    match down
    case DPut(_, Return(x)) => x == e
    case DRet(x) => x == e
    case DDone(x) => x == e
    case _ => e == None
  }

  lemma UpStandsStep(s: State, a: Action, e: Option<Error>)
    requires UpEnabled(s, a) && UpStands(s.up, e)
    ensures UpStands(UpApply(s, a).up, Newer(e, UpError(a))) && DownError(a).None?
  {
    hide Store, Obtain, Is;
    OwnErrors();
  }

  lemma DownStandsStep(s: State, a: Action, e: Option<Error>)
    requires DownEnabled(s, a) && DownStands(s.down, e)
    ensures DownStands(DownApply(s, a).down, Newer(e, DownError(a))) && UpError(a).None?
  {
    hide Store, Obtain, Is;
    OwnErrors();
  }

  lemma OwnErrors()
    ensures Is(DeviceClosed, DeviceClosed)
    ensures !Is(NIL_FRAME, TransportClosed) && !Is(NIL_FRAME, EOF)
    ensures !Is(NIL_FRAME, Canceled) && !Is(NIL_FRAME, DeadlineExceeded)
  {
  }

  predicate Stand(s: State, up: Option<Error>, down: Option<Error>) {
    UpStands(s.up, up) && DownStands(s.down, down)
  }

  lemma StandStep(s: State, a: Action, up: Option<Error>, down: Option<Error>)
    requires Enabled(s, a) && Stand(s, up, down)
    ensures Stand(Apply(s, a), Newer(up, UpError(a)), Newer(down, DownError(a)))
  {
    hide UpApply, DownApply, UpStands, DownStands;
    if UpEnabled(s, a) {
      UpStandsStep(s, a, up);
    } else if DownEnabled(s, a) {
      DownStandsStep(s, a, down);
    }
  }

  /** Only a returning loop brings an error to the errgroup, and only the first is kept. */
  lemma FirstStep(s: State, a: Action, up: Option<Error>, down: Option<Error>)
    requires Enabled(s, a) && Stand(s, up, down)
    ensures Apply(s, a).group.first
         == if s.group.first.Some? then s.group.first
            else if a.UpExit? then up else if a.DownExit? then down else None
  {
    hide UpApply, DownApply, UpStands, DownStands;
    if a.UpExit? { UpReturns(s, up); } else if a.DownExit? { DownReturns(s, down); }
  }

  lemma UpReturns(s: State, up: Option<Error>)
    requires s.up.URet? && UpStands(s.up, up)
    ensures s.up.err == up
  {
  }

  lemma DownReturns(s: State, down: Option<Error>)
    requires s.down.DRet? && DownStands(s.down, down)
    ensures s.down.err == down
  {
  }

  lemma {:induction false} FirstOfRun(s: State, acts: seq<Action>, t: State, up: Option<Error>, down: Option<Error>)
    requires Exec(s, acts) == Some(t) && Stand(s, up, down)
    ensures t.group.first == if s.group.first.Some? then s.group.first else FirstReturned(acts, up, down)
    decreases acts
  {
    hide Apply, Enabled, Stand, UpError, DownError;
    if acts != [] {
      var a := acts[0];
      StandStep(s, a, up, down);
      FirstStep(s, a, up, down);
      FirstOfRun(Apply(s, a), acts[1..], t, Newer(up, UpError(a)), Newer(down, DownError(a)));
    }
  }

  /** What Run returns, exactly: the error of the loop that returned one first, with the Reason of the
      operation that answered with it and the answer itself as its cause; nil if neither did. */
  lemma ResultExactly(mtu: int, overhead: int, acts: seq<Action>, t: State)
    requires Exec(Init(mtu, overhead), acts) == Some(t) && t.group.result.Some?
    ensures t.group.result == Some(FirstReturned(acts, None, None))
  {
    hide Exec, FirstReturned;
    LifecycleOfRun(Init(mtu, overhead), acts, t);
    FirstOfRun(Init(mtu, overhead), acts, t, None, None);
  }

  /** No answer of the run makes a loop return an error. */
  predicate NoError(acts: seq<Action>) {
    forall i :: 0 <= i < |acts| ==> UpError(acts[i]).None? && DownError(acts[i]).None?
  }

  lemma BlameIsError(devClosed: bool, a: Action)
    ensures (forall f :: f in Blame(devClosed, a) ==> Graceful(f)) <==> UpError(a).None? && DownError(a).None?
  {
    hide Graceful, UpError, DownError;
    var b := Blame(devClosed, a);
    if b == [] {
      NoBlame(devClosed, a);
    } else {
      var f := b[0];
      assert b == [f] && f in b;
      OneBlame(devClosed, a, f);
    }
  }

  lemma NoBlame(devClosed: bool, a: Action)
    requires Blame(devClosed, a) == []
    ensures UpError(a).None? && DownError(a).None?
  {
    hide Is;
  }

  lemma OneBlame(devClosed: bool, a: Action, f: Failure)
    requires Blame(devClosed, a) == [f]
    ensures Graceful(f) <==> UpError(a).None? && DownError(a).None?
  {
    hide Is;
    OwnErrors();
    assert f == Blame(devClosed, a)[0];
  }

  lemma {:induction false} FailuresAreErrors(devClosed: bool, acts: seq<Action>)
    ensures (forall f :: f in FailuresOf(devClosed, acts) ==> Graceful(f)) <==> NoError(acts)
    decreases acts
  {
    hide Blame, Graceful, UpError, DownError;
    if acts != [] {
      BlameIsError(devClosed, acts[0]);
      FailuresAreErrors(devClosed || Closes(acts[0]), acts[1..]);
      NoErrorCons(acts);
    }
  }

  lemma NoErrorCons(acts: seq<Action>)
    requires acts != []
    ensures NoError(acts) <==> UpError(acts[0]).None? && DownError(acts[0]).None? && NoError(acts[1..])
  {
    hide UpError, DownError;
    if UpError(acts[0]).None? && DownError(acts[0]).None? && NoError(acts[1..]) {
      forall i | 0 <= i < |acts| ensures UpError(acts[i]).None? && DownError(acts[i]).None? {
        if i > 0 { assert acts[i] == acts[1..][i - 1]; }
      }
    }
  }

  /** Run returns nil exactly when every failed device read or write failed with tun.ErrClosed or a context
      error, every failed send or receive with transport.ErrClosed, io.EOF or a context error, no
      received frame was nil, and every packet read was of version 4 or 6. */
  lemma NilFromAnswers(mtu: int, overhead: int, acts: seq<Action>, t: State)
    requires Exec(Init(mtu, overhead), acts) == Some(t) && t.group.result.Some?
    ensures t.group.result == Some(None) <==> NoError(acts)
  {
    hide Exec, FailuresOf, Graceful, NoError;
    NilFromActions(mtu, overhead, acts, t);
    FailuresAreErrors(false, acts);
  }
}
