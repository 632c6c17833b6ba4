/** Who holds which buffer, and what is in it, over every run of a pump. */
module Ownership {
  import opened Errors
  import opened Bytes
  import opened BufferPool
  import opened Pump

  /** The buffer a loop holds. */
  function UpBuf(up: Up): Option<nat> {
    match up
    case UCall(b) => Some(b)
    case UInRead(b) => Some(b)
    case USend(b, _, _) => Some(b)
    case UPut(b, _) => Some(b)
    case _ => None
  }

  function DownBuf(down: Down): Option<nat> {
    match down
    case DCopy(b, _) => Some(b)
    case DCall(b, _) => Some(b)
    case DInWrite(b, _) => Some(b)
    case DPut(b, _) => Some(b)
    case _ => None
  }

  function Count(b: Option<nat>): nat { if b.Some? then 1 else 0 }

  /** The packet the down loop is working on. */
  function InHand(down: Down): Option<seq<byte>> {
    match down
    case DGet(pkt) => Some(pkt)
    case DCopy(_, pkt) => Some(pkt)
    case DCall(_, pkt) => Some(pkt)
    case DInWrite(_, pkt) => Some(pkt)
    case _ => None
  }

  // ---- what holds without any proviso ----

  /** Every slice expression of the loops stays inside its buffer. */
  predicate UpInBounds(s: State) {
    s.up.USend? ==> 0 < s.up.n && Fits(s, s.up.b, s.up.n)
  }

  predicate DownInBounds(s: State) {
    s.down.DCopy? || s.down.DCall? || s.down.DInWrite? ==> Fits(s, s.down.b, |s.down.pkt|)
  }

  /** Pooled and held buffers have full capacity, no index is out of range, and getBuf and putBuf
      calls are matched, up to the buffers held right now. */
  predicate PoolInv(s: State) {
    && Sound(s.pool)
    && Usable(s.pool, UpBuf(s.up)) && Usable(s.pool, DownBuf(s.down))
    && UpInBounds(s) && DownInBounds(s)
    && s.log.gets == s.log.puts + Count(UpBuf(s.up)) + Count(DownBuf(s.down))
  }

  // ---- what each step does to the buffers ----

  predicate Quiet(a: Action) {
    !(a.UpGet? || a.UpPut? || (a.UpRead? && a.got.Packet?) || a.DownGet? || a.DownCopy? || a.DownPut? || a.Collect?)
  }

  lemma UpQuiet(s: State, a: Action)
    requires UpEnabled(s, a) && Quiet(a)
    ensures var t := UpApply(s, a);
            && t.pool == s.pool && t.log.gets == s.log.gets && t.log.puts == s.log.puts
            && UpBuf(t.up) == UpBuf(s.up) && !t.up.USend? && t.log.read == s.log.read
  {
    hide Outcome;
  }

  lemma UpTakes(s: State, a: Action)
    requires UpEnabled(s, a) && a.UpGet?
    ensures var (pool, b) := Obtain(s.pool, a.choice, 0);
            UpApply(s, a) == s.(pool := pool, up := UCall(b), log := s.log.(gets := s.log.gets + 1))
  {
    hide Obtain;
  }

  /** The loop keeps its buffer and fills it. */
  lemma UpFills(s: State, a: Action)
    requires UpEnabled(s, a) && a.UpRead? && a.got.Packet?
    ensures var t := UpApply(s, a);
            && t.pool == Store(s.pool, s.up.b, a.got.data) && t.log.gets == s.log.gets && t.log.puts == s.log.puts
            && UpBuf(t.up) == Some(s.up.b)
            && t.log.read == s.log.read + (if a.got.data == [] then [] else [a.got.data])
            && (t.up.USend? ==> t.up == USend(s.up.b, |a.got.data|, t.up.tag) && a.got.data != []
                                && TagFor(a.got.data[0]) == Some(t.up.tag))
  {
    hide Outcome, Store;
  }

  lemma UpGives(s: State, a: Action)
    requires UpEnabled(s, a) && a.UpPut?
    ensures var t := UpApply(s, a);
            && t.pool == Release(s.pool, s.up.b) && t.log == s.log.(puts := s.log.puts + 1)
            && UpBuf(t.up) == None && !t.up.USend?
  {
  }

  lemma DownQuiet(s: State, a: Action)
    requires DownEnabled(s, a) && Quiet(a)
    ensures var t := DownApply(s, a);
            && t.pool == s.pool && t.log.gets == s.log.gets && t.log.puts == s.log.puts
            && DownBuf(t.down) == DownBuf(s.down) && !t.down.DCopy? && !t.down.DCall?
            && (t.down.DInWrite? ==> s.down == DCall(t.down.b, t.down.pkt))
  {
    hide Outcome;
  }

  lemma DownTakes(s: State, a: Action)
    requires DownEnabled(s, a) && a.DownGet?
    ensures var (pool, b) := Obtain(s.pool, a.choice, |s.down.pkt|);
            DownApply(s, a) == s.(pool := pool, down := DCopy(b, s.down.pkt), log := s.log.(gets := s.log.gets + 1))
  {
    hide Obtain;
  }

  lemma DownFills(s: State, a: Action)
    requires DownEnabled(s, a) && a.DownCopy?
    ensures DownApply(s, a)
         == s.(pool := Store(s.pool, s.down.b, s.down.pkt), down := DCall(s.down.b, s.down.pkt))
  {
  }

  lemma DownGives(s: State, a: Action)
    requires DownEnabled(s, a) && a.DownPut?
    ensures var t := DownApply(s, a);
            && t.pool == Release(s.pool, s.down.b) && t.log == s.log.(puts := s.log.puts + 1)
            && DownBuf(t.down) == None && InHand(t.down).None?
  {
  }

  // ---- the unconditional invariant ----

  lemma UpPoolStep(s: State, a: Action)
    requires PoolInv(s) && UpEnabled(s, a)
    ensures PoolInv(UpApply(s, a))
  {
    hide Outcome, Obtain, Store, Release, UpApply, Sound;
    if Quiet(a) {
      UpQuiet(s, a);
    } else if a.UpGet? {
      UpTakes(s, a);
      ObtainSound(s.pool, a.choice, 0, DownBuf(s.down));
    } else if a.UpPut? {
      UpGives(s, a);
      ReleaseSound(s.pool, s.up.b, DownBuf(s.down));
    } else {
      UpFills(s, a);
      StoreSound(s.pool, s.up.b, a.got.data, DownBuf(s.down));
    }
  }

  lemma DownPoolStep(s: State, a: Action)
    requires PoolInv(s) && DownEnabled(s, a)
    ensures PoolInv(DownApply(s, a))
  {
    hide Outcome, Obtain, Store, Release, DownApply, Sound;
    if Quiet(a) {
      DownQuiet(s, a);
    } else if a.DownGet? {
      DownTakes(s, a);
      ObtainSound(s.pool, a.choice, |s.down.pkt|, UpBuf(s.up));
    } else if a.DownPut? {
      DownGives(s, a);
      ReleaseSound(s.pool, s.down.b, UpBuf(s.up));
    } else {
      DownFills(s, a);
      StoreSound(s.pool, s.down.b, s.down.pkt, UpBuf(s.up));
    }
  }

  lemma PoolStep(s: State, a: Action)
    requires PoolInv(s) && Enabled(s, a)
    ensures PoolInv(Apply(s, a))
  {
    hide UpApply, DownApply;
    if UpEnabled(s, a) { UpPoolStep(s, a); } else if DownEnabled(s, a) { DownPoolStep(s, a); }
  }

  // ---- what holds while received packets fit the pool size ----

  /** Every packet received so far fits the nominal buffer size. */
  predicate AllFit(s: State) {
    forall i :: 0 <= i < |s.log.received| ==>
      s.log.received[i].Got? && s.log.received[i].frame.packet.Some?
      ==> |s.log.received[i].frame.packet.value| <= s.pool.size
  }

  /** The packet in hand is the one received last. */
  predicate FromWire(s: State) {
    InHand(s.down).Some? ==>
      && s.log.received != []
      && var r := s.log.received[|s.log.received| - 1];
         r.Got? && r.frame.packet == InHand(s.down)
  }

  /** The buffer about to be sent holds the packet read last, under the tag of its version. */
  predicate UpContents(s: State) {
    s.up.USend? ==>
      && s.log.read != [] && Fits(s, s.up.b, s.up.n)
      && var p := s.log.read[|s.log.read| - 1];
         p != [] && s.pool.mem[s.up.b][..s.up.n] == p && TagFor(p[0]) == Some(s.up.tag)
  }

  /** The buffer about to be written holds the packet in hand. */
  predicate DownContents(s: State) {
    s.down.DCall? || s.down.DInWrite? ==>
      Fits(s, s.down.b, |s.down.pkt|) && s.pool.mem[s.down.b][..|s.down.pkt|] == s.down.pkt
  }

  predicate ReadsFit(s: State) {
    forall i :: 0 <= i < |s.log.read| ==> 0 < |s.log.read[i]| <= s.pool.size
  }

  predicate Clean(s: State) {
    && Exclusive(s.pool, UpBuf(s.up), DownBuf(s.down))
    && Uniform(s.pool)
    && UpContents(s) && DownContents(s)
    && ReadsFit(s)
  }

  predicate OwnInv(s: State) {
    PoolInv(s) && FromWire(s) && (AllFit(s) ==> Clean(s))
  }

  lemma ExclusiveSwap(p: Pool, u: Option<nat>, d: Option<nat>)
    ensures Exclusive(p, u, d) == Exclusive(p, d, u)
  {
  }

  lemma UpTakesClean(s: State, a: Action)
    requires PoolInv(s) && Clean(s) && UpEnabled(s, a) && a.UpGet?
    ensures Clean(UpApply(s, a))
  {
    hide Sound, Obtain, UpApply, Uniform;
    UpTakes(s, a);
    ObtainSound(s.pool, a.choice, 0, DownBuf(s.down));
    UniformIsEnough(s.pool, a.choice, 0);
    ObtainKeepsExclusive(s.pool, a.choice, 0, DownBuf(s.down));
  }

  lemma UpFillsClean(s: State, a: Action)
    requires PoolInv(s) && Clean(s) && UpEnabled(s, a) && a.UpRead? && a.got.Packet?
    ensures Clean(UpApply(s, a))
  {
    hide Sound, Store, UpApply, TagFor;
    UpFills(s, a);
    StoreSound(s.pool, s.up.b, a.got.data, DownBuf(s.down));
  }

  lemma UpClean(s: State, a: Action)
    requires PoolInv(s) && Clean(s) && UpEnabled(s, a)
    ensures Clean(UpApply(s, a))
  {
    hide Outcome, Obtain, Store, Release, UpApply, Sound, Uniform;
    if Quiet(a) {
      UpQuiet(s, a);
    } else if a.UpGet? {
      UpTakesClean(s, a);
    } else if a.UpPut? {
      UpGives(s, a);
      ReleaseSound(s.pool, s.up.b, DownBuf(s.down));
      UniformMem(s.pool, Release(s.pool, s.up.b));
    } else {
      UpFillsClean(s, a);
    }
  }

  lemma UniformMem(p: Pool, q: Pool)
    requires Uniform(p) && q.mem == p.mem && q.size == p.size
    ensures Uniform(q)
  {
  }

  lemma DownTakesClean(s: State, a: Action)
    requires PoolInv(s) && Clean(s) && DownEnabled(s, a) && a.DownGet? && |s.down.pkt| <= s.pool.size
    ensures Clean(DownApply(s, a))
  {
    hide Sound, Obtain, DownApply, Uniform, Exclusive;
    DownTakes(s, a);
    var (pool, b) := Obtain(s.pool, a.choice, |s.down.pkt|);
    ObtainSound(s.pool, a.choice, |s.down.pkt|, UpBuf(s.up));
    UniformIsEnough(s.pool, a.choice, |s.down.pkt|);
    ExclusiveSwap(s.pool, UpBuf(s.up), None);
    ObtainKeepsExclusive(s.pool, a.choice, |s.down.pkt|, UpBuf(s.up));
    ExclusiveSwap(pool, UpBuf(s.up), Some(b));
  }

  lemma DownFillsClean(s: State, a: Action)
    requires PoolInv(s) && Clean(s) && DownEnabled(s, a) && a.DownCopy?
    ensures Clean(DownApply(s, a))
  {
    hide Sound, Store, DownApply, TagFor, Uniform;
    DownFills(s, a);
    StoreSound(s.pool, s.down.b, s.down.pkt, UpBuf(s.up));
  }

  lemma DownClean(s: State, a: Action)
    requires PoolInv(s) && Clean(s) && DownEnabled(s, a)
    requires s.down.DGet? ==> |s.down.pkt| <= s.pool.size
    ensures Clean(DownApply(s, a))
  {
    hide Outcome, Obtain, Store, Release, DownApply, Sound, Uniform, TagFor;
    DownHistory(s, a);
    if Quiet(a) {
      DownQuiet(s, a);
    } else if a.DownGet? {
      DownTakesClean(s, a);
    } else if a.DownPut? {
      DownGives(s, a);
      ExclusiveSwap(s.pool, UpBuf(s.up), DownBuf(s.down));
      ReleaseSound(s.pool, s.down.b, UpBuf(s.up));
      UniformMem(s.pool, Release(s.pool, s.down.b));
    } else {
      DownFillsClean(s, a);
    }
  }

  lemma DownFromWire(s: State, a: Action)
    requires FromWire(s) && DownEnabled(s, a)
    ensures FromWire(DownApply(s, a))
    ensures a.DownRecv? || DownApply(s, a).log.received == s.log.received
  {
    hide Outcome, Obtain, Store;
  }

  lemma UpOwnStep(s: State, a: Action)
    requires OwnInv(s) && UpEnabled(s, a)
    ensures OwnInv(UpApply(s, a))
  {
    hide UpApply, PoolInv, Clean;
    UpPoolStep(s, a);
    UpHistory(s, a);
    if AllFit(s) { UpClean(s, a); }
  }

  lemma DownOwnStep(s: State, a: Action)
    requires OwnInv(s) && DownEnabled(s, a)
    ensures OwnInv(DownApply(s, a))
  {
    hide DownApply, PoolInv, Clean, FromWire;
    DownPoolStep(s, a);
    DownHistory(s, a);
    DownFromWire(s, a);
    var t := DownApply(s, a);
    if AllFit(t) {
      assert AllFit(s) by { assert forall i :: 0 <= i < |s.log.received| ==> s.log.received[i] == t.log.received[i]; }
      if s.down.DGet? { InHandFits(s); }
      DownClean(s, a);
    }
  }

  lemma InHandFits(s: State)
    requires FromWire(s) && AllFit(s) && s.down.DGet?
    ensures |s.down.pkt| <= s.pool.size
  {
  }

  lemma RestOwnStep(s: State, a: Action)
    requires OwnInv(s) && RestEnabled(s, a)
    ensures OwnInv(RestApply(s, a))
  {
    hide TagFor, Sound, Usable, Exclusive;
    var t := RestApply(s, a);
    assert AllFit(t) == AllFit(s);
    if a.Collect? {
      CollectSound(s.pool, a.b, UpBuf(s.up), DownBuf(s.down));
    }
  }

  lemma CollectSound(p: Pool, b: nat, u: Option<nat>, d: Option<nat>)
    ensures var q := p.(free := p.free - multiset{b});
            && (Sound(p) ==> Sound(q)) && (Exclusive(p, u, d) ==> Exclusive(q, u, d))
            && (Usable(p, u) ==> Usable(q, u)) && (Usable(p, d) ==> Usable(q, d))
  {
  }

  lemma OwnStep(s: State, a: Action)
    requires OwnInv(s) && Enabled(s, a)
    ensures OwnInv(Apply(s, a))
  {
    hide OwnInv, UpApply, DownApply, RestApply;
    if UpEnabled(s, a) { UpOwnStep(s, a); } else if DownEnabled(s, a) { DownOwnStep(s, a); } else { RestOwnStep(s, a); }
  }

  lemma StartOwned(mtu: int, overhead: int)
    ensures OwnInv(Init(mtu, overhead))
  {
  }

  lemma {:induction false} OwnershipOfRun(s: State, acts: seq<Action>, t: State)
    requires OwnInv(s) && Exec(s, acts) == Some(t)
    ensures OwnInv(t)
    decreases acts
  {
    hide OwnInv, Apply, Enabled;
    if acts != [] {
      OwnStep(s, acts[0]);
      OwnershipOfRun(Apply(s, acts[0]), acts[1..], t);
    }
  }

  /** Pool ownership. In every reachable state pooled and held buffers have at least the nominal
      capacity, at most two are out, every getBuf is matched by one putBuf (exactly, once both
      loops have ended), and, as long as all received packets fit, no buffer has two owners. */
  lemma PoolOwnership(s: State)
    requires Reachable(s)
    ensures Sound(s.pool) && Usable(s.pool, UpBuf(s.up)) && Usable(s.pool, DownBuf(s.down))
    ensures s.log.puts <= s.log.gets <= s.log.puts + 2
    ensures s.up.UDone? && s.down.DDone? ==> s.log.gets == s.log.puts
    ensures AllFit(s) ==> Exclusive(s.pool, UpBuf(s.up), DownBuf(s.down))
  {
    hide Exec, Sound, Usable, FromWire, UpContents, DownContents, ReadsFit, Uniform, Exclusive, AllFit, UpInBounds,
         DownInBounds, Init;
    var mtu, overhead, acts :| Exec(Init(mtu, overhead), acts) == Some(s);
    StartOwned(mtu, overhead);
    OwnershipOfRun(Init(mtu, overhead), acts, s);
  }

  lemma {:induction false} SizeStays(s: State, acts: seq<Action>, t: State)
    requires Exec(s, acts) == Some(t)
    ensures t.pool.size == s.pool.size
    decreases acts
  {
    hide UpApply, DownApply, Enabled;
    if acts != [] { SizeStays(Apply(s, acts[0]), acts[1..], t); }
  }

  /** Buffer `b` has room for MTU plus overhead, and is not empty. */
  predicate Roomy(s: State, b: nat, mtu: int, overhead: int) {
    b < |s.pool.mem| && |s.pool.mem[b]| >= 1 && |s.pool.mem[b]| >= mtu + overhead
  }

  /** Capacity. In every run each buffer in the pool or in the hands of a loop has room for MTU plus
      overhead and at least one byte; while received packets fit, every buffer ever made has exactly
      the larger of the two. */
  lemma Capacity(mtu: int, overhead: int, acts: seq<Action>, s: State)
    requires Exec(Init(mtu, overhead), acts) == Some(s)
    ensures forall b :: b in s.pool.free ==> Roomy(s, b, mtu, overhead)
    ensures UpBuf(s.up).Some? ==> Roomy(s, UpBuf(s.up).value, mtu, overhead)
    ensures DownBuf(s.down).Some? ==> Roomy(s, DownBuf(s.down).value, mtu, overhead)
    ensures AllFit(s) ==>
              forall b :: 0 <= b < |s.pool.mem| ==>
                |s.pool.mem[b]| == if mtu + overhead < 1 then 1 else mtu + overhead
  {
    hide Exec, FromWire, UpContents, DownContents, ReadsFit, Exclusive, AllFit, UpInBounds, DownInBounds, OwnInv;
    StartOwned(mtu, overhead);
    OwnershipOfRun(Init(mtu, overhead), acts, s);
    SizeStays(Init(mtu, overhead), acts, s);
    OwnsWhat(s);
  }

  lemma OwnsWhat(s: State)
    requires OwnInv(s)
    ensures Sound(s.pool) && Usable(s.pool, UpBuf(s.up)) && Usable(s.pool, DownBuf(s.down))
    ensures AllFit(s) ==> Uniform(s.pool)
  {
    hide Sound, Usable, Uniform, AllFit, FromWire, UpContents, DownContents, ReadsFit, Exclusive;
  }

  /** Exactly when a step breaks exclusive ownership: pumpDown asks getBuf for more than the
      buffer the pool hands out holds. */
  lemma ExclusivityBreaksExactly(s: State, a: Action)
    requires PoolInv(s) && Enabled(s, a) && Exclusive(s.pool, UpBuf(s.up), DownBuf(s.down))
    ensures var t := Apply(s, a);
            Exclusive(t.pool, UpBuf(t.up), DownBuf(t.down))
            <==> !(a.DownGet? && TooSmall(s.pool, a.choice, |s.down.pkt|))
  {
    hide Obtain, Store, UpApply, DownApply, Outcome, TooSmall, Sound;
    if UpEnabled(s, a) {
      UpExclusive(s, a);
    } else if DownEnabled(s, a) {
      DownExclusive(s, a);
    }
  }

  lemma UpExclusive(s: State, a: Action)
    requires PoolInv(s) && UpEnabled(s, a) && Exclusive(s.pool, UpBuf(s.up), DownBuf(s.down))
    ensures var t := UpApply(s, a); Exclusive(t.pool, UpBuf(t.up), DownBuf(t.down))
  {
    hide Obtain, Store, UpApply, Outcome, Sound;
    if Quiet(a) {
      UpQuiet(s, a);
    } else if a.UpGet? {
      UpTakes(s, a);
      NeverTooSmallForNothing(s.pool, a.choice);
      ObtainKeepsExclusive(s.pool, a.choice, 0, DownBuf(s.down));
    } else if a.UpPut? {
      UpGives(s, a);
      ReleaseSound(s.pool, s.up.b, DownBuf(s.down));
    } else {
      UpFills(s, a);
      StoreSound(s.pool, s.up.b, a.got.data, DownBuf(s.down));
    }
  }

  lemma NeverTooSmallForNothing(p: Pool, choice: Option<nat>)
    requires CanTake(p, choice)
    ensures !TooSmall(p, choice, 0)
  {
  }

  lemma DownExclusive(s: State, a: Action)
    requires PoolInv(s) && DownEnabled(s, a) && Exclusive(s.pool, UpBuf(s.up), DownBuf(s.down))
    ensures var t := DownApply(s, a);
            Exclusive(t.pool, UpBuf(t.up), DownBuf(t.down))
            <==> !(a.DownGet? && TooSmall(s.pool, a.choice, |s.down.pkt|))
  {
    hide Obtain, Store, DownApply, Outcome, TooSmall, Sound;
    ExclusiveSwap(s.pool, UpBuf(s.up), DownBuf(s.down));
    if Quiet(a) {
      DownQuiet(s, a);
    } else if a.DownGet? {
      DownTakes(s, a);
      var (pool, b) := Obtain(s.pool, a.choice, |s.down.pkt|);
      ObtainKeepsExclusive(s.pool, a.choice, |s.down.pkt|, UpBuf(s.up));
      ExclusiveSwap(pool, UpBuf(s.up), Some(b));
    } else if a.DownPut? {
      DownGives(s, a);
      ReleaseSound(s.pool, s.down.b, UpBuf(s.up));
    } else {
      DownFills(s, a);
      StoreSound(s.pool, s.down.b, s.down.pkt, UpBuf(s.up));
    }
  }
}
