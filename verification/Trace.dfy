/** The history fields say what really happened: they are determined by the answers the device
    and the tunnel gave in the run. */
module Trace {
  import opened Errors
  import opened Bytes
  import opened BufferPool
  import opened Pump
  import Lifecycle

  /** The non-empty packets the device delivered. */
  function ReadsOf(acts: seq<Action>): seq<seq<byte>> {
    if acts == [] then []
    else (if acts[0].UpRead? && acts[0].got.Packet? && acts[0].got.data != [] then [acts[0].got.data] else [])
         + ReadsOf(acts[1..])
  }

  /** The results RecvFrame returned. */
  function RecvsOf(acts: seq<Action>): seq<Recv> {
    if acts == [] then [] else (if acts[0].DownRecv? then [acts[0].r] else []) + RecvsOf(acts[1..])
  }

  function SendsIn(acts: seq<Action>): nat {
    if acts == [] then 0 else (if acts[0].UpSend? then 1 else 0) + SendsIn(acts[1..])
  }

  /** The device writes that returned nil. */
  function WritesTaken(acts: seq<Action>): nat {
    if acts == [] then 0 else (if acts[0].DownWrite? && acts[0].took.None? then 1 else 0) + WritesTaken(acts[1..])
  }

  lemma UpTrace(s: State, a: Action)
    requires UpEnabled(s, a)
    ensures var t := UpApply(s, a).log;
            && t.read == s.log.read + ReadsOf([a]) && t.sends == s.log.sends + SendsIn([a])
            && RecvsOf([a]) == [] && WritesTaken([a]) == 0
  {
    hide Outcome, Store, Obtain, TagFor;
    assert [a][1..] == [];
  }

  lemma DownTrace(s: State, a: Action)
    requires DownEnabled(s, a)
    ensures var t := DownApply(s, a).log;
            && t.received == s.log.received + RecvsOf([a]) && |t.wrote| == |s.log.wrote| + WritesTaken([a])
            && ReadsOf([a]) == [] && SendsIn([a]) == 0
  {
    hide Outcome, Store, Obtain;
    assert [a][1..] == [];
  }

  lemma StepTrace(s: State, a: Action)
    requires Enabled(s, a)
    ensures var t := Apply(s, a).log;
            && t.read == s.log.read + ReadsOf([a]) && t.received == s.log.received + RecvsOf([a])
            && t.sends == s.log.sends + SendsIn([a]) && |t.wrote| == |s.log.wrote| + WritesTaken([a])
  {
    hide UpApply, DownApply;
    assert [a][1..] == [];
    if UpEnabled(s, a) { UpTrace(s, a); UpHistory(s, a); }
    else if DownEnabled(s, a) { DownTrace(s, a); DownHistory(s, a); }
  }

  // ---- failures ----

  /** The failure a step causes, from the answer it carries and whether the device is closed: an
      operation is blamed under its own name and with its own error. */
  function Blame(devClosed: bool, a: Action): seq<Failure> {
    match a
    case UpCall => if devClosed then [Failure(ReadTun, DeviceClosed)] else []
    case UpRead(got) =>
      if got.ReadErr? then [Failure(ReadTun, got.err)]
      else if got.data != [] && !(0x40 <= got.data[0] < 0x50 || 0x60 <= got.data[0] < 0x70)
      then [Failure(TagDispatch, UNKNOWN_VERSION)] else []
    case UpSend(sent) => if sent.Some? then [Failure(SendFrame, sent.value)] else []
    case DownRecv(r) =>
      if r.Err? then [Failure(RecvFrame, r.err)] else if r.NilFrame? then [Failure(RecvFrame, NIL_FRAME)] else []
    case DownWriteCall => if devClosed then [Failure(WriteTun, DeviceClosed)] else []
    case DownWrite(took) => if took.Some? then [Failure(WriteTun, took.value)] else []
    case _ => []
  }

  /** The device is closed by its owner or by the watcher, and never opened again. */
  predicate Closes(a: Action) { a.CloseDevice? || a.WatchDevice? }

  function FailuresOf(devClosed: bool, acts: seq<Action>): seq<Failure>
    decreases acts
  {
    if acts == [] then []
    else Blame(devClosed, acts[0]) + FailuresOf(devClosed || Closes(acts[0]), acts[1..])
  }

  lemma StepFailures(s: State, a: Action)
    requires Enabled(s, a)
    ensures Apply(s, a).log.failures == s.log.failures + Blame(s.devClosed, a)
    ensures Apply(s, a).devClosed == (s.devClosed || Closes(a))
  {
    hide UpApply, DownApply;
    if UpEnabled(s, a) { UpFailures(s, a); } else if DownEnabled(s, a) { DownFailures(s, a); }
  }

  lemma UpFailures(s: State, a: Action)
    requires UpEnabled(s, a)
    ensures UpApply(s, a).log.failures == s.log.failures + Blame(s.devClosed, a)
  {
    hide Outcome, Store, Obtain;
  }

  lemma DownFailures(s: State, a: Action)
    requires DownEnabled(s, a)
    ensures DownApply(s, a).log.failures == s.log.failures + Blame(s.devClosed, a)
  {
    hide Outcome, Store, Obtain;
  }

  /** Over every run: the packets read, the frames received, the number of sends and of device
      writes, and the failed operations with their errors are those of the run's actions, in order. */
  lemma {:induction false} HistoryIsTrue(s: State, acts: seq<Action>, t: State)
    requires Exec(s, acts) == Some(t)
    ensures t.log.read == s.log.read + ReadsOf(acts)
    ensures t.log.received == s.log.received + RecvsOf(acts)
    ensures t.log.sends == s.log.sends + SendsIn(acts)
    ensures |t.log.wrote| == |s.log.wrote| + WritesTaken(acts)
    ensures t.log.failures == s.log.failures + FailuresOf(s.devClosed, acts)
    decreases acts
  {
    hide Apply, Enabled, Blame;
    if acts != [] {
      StepTrace(s, acts[0]);
      StepFailures(s, acts[0]);
      HistoryIsTrue(Apply(s, acts[0]), acts[1..], t);
      assert [acts[0]][1..] == [];
    }
  }

  /** The result of Run, read off its actions alone: nil iff every failed operation of the run failed
      in an orderly way. */
  lemma NilFromActions(mtu: int, overhead: int, acts: seq<Action>, t: State)
    requires Exec(Init(mtu, overhead), acts) == Some(t) && t.group.result.Some?
    ensures t.group.result.value.None? <==> forall f :: f in FailuresOf(false, acts) ==> Graceful(f)
  {
    hide Exec, FailuresOf, Graceful;
    HistoryIsTrue(Init(mtu, overhead), acts, t);
    assert t.log.failures == FailuresOf(false, acts);
    assert Reachable(t);
    Lifecycle.NilExactly(t);
  }
}
