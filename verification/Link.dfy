/** linuxLink: Up, Down and AddAddress over an arbitrary command executor, with the `assigned`
    cache. */
module Link {
  import opened Errors
  import opened Cidr

  datatype Command = LinkUp | LinkDown | AddrAdd(cidr: string) | AddrShow

  /** Captured output, and the text of the error if the command failed. */
  datatype Reply = Reply(out: string, err: Option<string>)

  /** One executed command. */
  datatype Event = Event(cmd: Command, reply: Reply)

  datatype LinkReason = LinkUpFailed | LinkDownFailed | CIDRInvalid | AddressAlreadyAssigned | AddressAddFailed

  const FILE_EXISTS := "File exists"

  /** Any executor: it answers each command as it likes. */
  class Executor {
    ghost var log: seq<Event>

    method Run(cmd: Command) returns (reply: Reply)
      modifies this
      ensures log == old(log) + [Event(cmd, reply)]
    {
      reply := *;
      log := log + [Event(cmd, reply)];
    }
  }

  // ---- what one call does ----

  predicate ShowsCIDR(out: string, cidr: string) {
    exists line :: line in Lines(out) && LineMatches(line, cidr)
  }

  predicate FileExists(reply: Reply) { reply.err.Some? && Contains(reply.err.value, FILE_EXISTS) }

  /** AddAddress from cache `a`, having run exactly `evs`: the new cache and the result.
      `parses` is net.ParseCIDR's verdict on the argument. */
  predicate Adds(parses: bool, a: string, cidr: string, evs: seq<Event>, a': string, err: Option<LinkReason>) {
    if !parses then evs == [] && a' == a && err == Some(CIDRInvalid)
    else if a == cidr then evs == [] && a' == a && err == None
    else if a != "" then evs == [] && a' == a && err == Some(AddressAlreadyAssigned)
    else
      && evs != [] && evs[0].cmd == AddrAdd(cidr)
      && if evs[0].reply.err.None? then |evs| == 1 && a' == cidr && err == None
         else if !FileExists(evs[0].reply) then |evs| == 1 && a' == a && err == Some(AddressAddFailed)
         else
           && |evs| == 2 && evs[1].cmd == AddrShow
           && if evs[1].reply.err.Some? then a' == a && err == Some(AddressAddFailed)
              else if ShowsCIDR(evs[1].reply.out, cidr) then a' == cidr && err == None
              else a' == a && err == Some(AddressAlreadyAssigned)
  }

  predicate Ups(a: string, evs: seq<Event>, a': string, err: Option<LinkReason>) {
    && |evs| == 1 && evs[0].cmd == LinkUp && a' == a
    && err == (if evs[0].reply.err.Some? then Some(LinkUpFailed) else None)
  }

  predicate Downs(a: string, evs: seq<Event>, a': string, err: Option<LinkReason>) {
    && |evs| == 1 && evs[0].cmd == LinkDown
    && (if evs[0].reply.err.Some? then a' == a && err == Some(LinkDownFailed) else a' == "" && err == None)
  }

  class LinuxLink {
    const executor: Executor
    const parseCIDR: string -> bool
    var cache: string

    constructor (executor: Executor, parseCIDR: string -> bool)
      ensures this.executor == executor && this.parseCIDR == parseCIDR && cache == ""
    {
      this.executor, this.parseCIDR, this.cache := executor, parseCIDR, "";
    }

    method Up() returns (err: Option<LinkReason>, ghost evs: seq<Event>)
      modifies executor
      ensures executor.log == old(executor.log) + evs && Ups(old(cache), evs, cache, err)
    {
      var reply := executor.Run(LinkUp);
      evs := [Event(LinkUp, reply)];
      err := if reply.err.Some? then Some(LinkUpFailed) else None;
    }

    method Down() returns (err: Option<LinkReason>, ghost evs: seq<Event>)
      modifies this, executor
      ensures executor.log == old(executor.log) + evs && Downs(old(cache), evs, cache, err)
    {
      var reply := executor.Run(LinkDown);
      evs := [Event(LinkDown, reply)];
      if reply.err.Some? { return Some(LinkDownFailed), evs; }
      cache := "";
      err := None;
    }

    method AddAddress(cidr: string) returns (err: Option<LinkReason>, ghost evs: seq<Event>)
      modifies this, executor
      ensures executor.log == old(executor.log) + evs
      ensures Adds(parseCIDR(cidr), old(cache), cidr, evs, cache, err)
    {
      hide LineMatches, Contains, Lines;
      evs := [];
      if !parseCIDR(cidr) { return Some(CIDRInvalid), evs; }
      if cache == cidr { return None, evs; }
      if cache != "" { return Some(AddressAlreadyAssigned), evs; }
      var added := executor.Run(AddrAdd(cidr));
      evs := [Event(AddrAdd(cidr), added)];
      if added.err.None? {
        cache := cidr;
        return None, evs;
      }
      if !Contains(added.err.value, FILE_EXISTS) { return Some(AddressAddFailed), evs; }
      var current := executor.Run(AddrShow);
      evs := evs + [Event(AddrShow, current)];
      if current.err.Some? { return Some(AddressAddFailed), evs; }
      var found := ContainsCIDR(current.out, cidr);
      if found {
        cache := cidr;
        return None, evs;
      }
      return Some(AddressAlreadyAssigned), evs;
    }
  }

  // ---- histories against a kernel that only this link changes ----

  datatype Call = CallUp | CallDown | CallAdd(cidr: string)

  /** A call, the commands it ran and what it returned. */
  datatype Record = Record(call: Call, evs: seq<Event>, err: Option<LinkReason>)

  /** What net.ParseCIDR accepts, and how the kernel's listing spells it: `canon` is the printed form of
      an accepted CIDR (2001:DB8::1/64 is printed 2001:db8::1/64). */
  datatype Notation = Notation(parse: string -> bool, canon: string -> string) {
    ghost predicate Valid() {
      forall c :: parse(c) ==> Solid(c) && parse(canon(c)) && canon(canon(c)) == canon(c)
    }
  }

  /** The cache, the kernel's addresses in their printed form, how many `addr add` commands have
      succeeded since the last successful Down, and whether the interface is up. */
  datatype World = World(cache: string, addrs: set<string>, adds: nat, up: bool)

  predicate Calls(nt: Notation, a: string, r: Record, a': string) {
    match r.call
    case CallUp => Ups(a, r.evs, a', r.err)
    case CallDown => Downs(a, r.evs, a', r.err)
    case CallAdd(cidr) => Adds(nt.parse(cidr), a, cidr, r.evs, a', r.err)
  }

  predicate AddSucceeded(e: Event) { e.cmd.AddrAdd? && e.reply.err.None? }

  /** Taking a link down or up leaves the kernel's addresses alone. */
  function KernelAfter(nt: Notation, addrs: set<string>, evs: seq<Event>): set<string>
    decreases evs
  {
    if evs == [] then addrs
    else KernelAfter(nt, if AddSucceeded(evs[0]) then addrs + {nt.canon(evs[0].cmd.cidr)} else addrs, evs[1..])
  }

  /** `ip link set up` and `ip link set down`, if they succeed. */
  function Switched(up: bool, e: Event): bool {
    if e.reply.err.None? && e.cmd.LinkUp? then true
    else if e.reply.err.None? && e.cmd.LinkDown? then false
    else up
  }

  function UpAfter(up: bool, evs: seq<Event>): bool
    decreases evs
  {
    if evs == [] then up else UpAfter(Switched(up, evs[0]), evs[1..])
  }

  /** `ip -o addr show` prints well-formed lines, and the addresses on them are the kernel's. */
  ghost predicate Renders(nt: Notation, out: string, addrs: set<string>) {
    && (forall line :: line in Lines(out) ==> WellFormedLine(line))
    && forall c :: nt.parse(c) ==> ((exists line :: line in Lines(out) && c in LaterTokens(line)) <==> c in addrs)
  }

  ghost predicate Truthful(nt: Notation, addrs: set<string>, evs: seq<Event>) {
    forall i :: 0 <= i < |evs| && evs[i].cmd.AddrShow? && evs[i].reply.err.None? ==>
      Renders(nt, evs[i].reply.out, addrs)
  }

  function AddsAfter(w: World, r: Record): nat {
    if r.call.CallDown? && r.err.None? then 0
    else w.adds + (if |r.evs| > 0 && AddSucceeded(r.evs[0]) then 1 else 0)
  }

  ghost predicate Next(nt: Notation, w: World, r: Record, w': World) {
    && Calls(nt, w.cache, r, w'.cache)
    && Truthful(nt, w.addrs, r.evs)
    && w'.addrs == KernelAfter(nt, w.addrs, r.evs)
    && w'.adds == AddsAfter(w, r)
    && w'.up == UpAfter(w.up, r.evs)
  }

  /** The worlds between the calls of a history. */
  ghost predicate Run(nt: Notation, ws: seq<World>, rs: seq<Record>) {
    && |ws| == |rs| + 1
    && forall i :: 0 <= i < |rs| ==> Next(nt, ws[i], rs[i], ws[i + 1])
  }

  /** All in printed form. */
  predicate Printed(nt: Notation, addrs: set<string>) {
    forall c :: c in addrs ==> nt.canon(c) == c
  }

  predicate Agrees(nt: Notation, w: World) {
    && Printed(nt, w.addrs)
    && (w.cache != "" ==> nt.canon(w.cache) in w.addrs)
    && w.adds <= 1 && (w.adds == 1 ==> w.cache != "")
  }

  /** The probe finds exactly the addresses the kernel has that the caller spells as the kernel does. */
  lemma ProbeIsExact(nt: Notation, out: string, addrs: set<string>, cidr: string)
    requires nt.Valid() && nt.parse(cidr) && Printed(nt, addrs) && Renders(nt, out, addrs)
    ensures ShowsCIDR(out, cidr) <==> nt.canon(cidr) in addrs && nt.canon(cidr) == cidr
  {
    hide LineMatches, LaterTokens, WellFormedLine, Lines, Solid;
    OutputTokenEquality(out, cidr);
  }

  /** Adding again what the kernel has, in any world and with any replies. It changes no address, and
      it is the promised no-op exactly when the cache has the same spelling, or the cache is empty
      and either the kernel accepts the address once more, or it says "File exists", lists its
      addresses, and prints this one the way the caller spells it. */
  lemma ReAddExactly(nt: Notation, w: World, r: Record, w': World, cidr: string)
    requires nt.Valid() && Agrees(nt, w) && Next(nt, w, r, w') && r.call == CallAdd(cidr) && nt.parse(cidr)
    requires nt.canon(cidr) in w.addrs
    ensures r.err.None?
       <==> || w.cache == cidr
            || (w.cache == "" && (|| r.evs[0].reply.err.None?
                                  || (FileExists(r.evs[0].reply) && r.evs[1].reply.err.None?
                                      && cidr == nt.canon(cidr))))
    ensures w'.cache == (if r.err.None? then cidr else w.cache) && w'.addrs == w.addrs
  {
    hide Renders, ShowsCIDR, FileExists, Solid;
    KernelAfterShort(nt, w.addrs, r.evs);
    if |r.evs| == 2 && r.evs[1].reply.err.None? { ProbeIsExact(nt, r.evs[1].reply.out, w.addrs, cidr); }
  }

  /** Adding a different address to an interface that has one: the promised refusal comes exactly when the
      cache is not empty, or the kernel says "File exists" and lists its addresses. */
  lemma ConflictExactly(nt: Notation, w: World, r: Record, w': World, cidr: string)
    requires nt.Valid() && Agrees(nt, w) && Next(nt, w, r, w') && r.call == CallAdd(cidr) && nt.parse(cidr)
    requires w.addrs != {} && nt.canon(cidr) !in w.addrs
    ensures r.err == Some(AddressAlreadyAssigned)
       <==> w.cache != "" || (FileExists(r.evs[0].reply) && r.evs[1].reply.err.None?)
    ensures r.err.None? <==> w'.addrs != w.addrs
  {
    hide Renders, ShowsCIDR, Contains, Solid;
    KernelAfterShort(nt, w.addrs, r.evs);
    SolidIsNotEmpty(cidr);
    assert w'.addrs == w.addrs || nt.canon(cidr) in w'.addrs;
    if |r.evs| == 2 && r.evs[1].reply.err.None? { ProbeIsExact(nt, r.evs[1].reply.out, w.addrs, cidr); }
  }

  lemma KernelAfterShort(nt: Notation, addrs: set<string>, evs: seq<Event>)
    requires |evs| <= 2 && (|evs| == 2 ==> evs[1].cmd.AddrShow?)
    ensures KernelAfter(nt, addrs, evs)
         == if evs != [] && AddSucceeded(evs[0]) then addrs + {nt.canon(evs[0].cmd.cidr)} else addrs
  {
    if evs != [] {
      var addrs' := if AddSucceeded(evs[0]) then addrs + {nt.canon(evs[0].cmd.cidr)} else addrs;
      if |evs| == 2 {
        assert KernelAfter(nt, addrs', evs[1..]) == KernelAfter(nt, addrs', evs[1..][1..]);
      }
    }
  }

  lemma AgreementStep(nt: Notation, w: World, r: Record, w': World)
    requires nt.Valid() && Next(nt, w, r, w') && Agrees(nt, w)
    ensures Agrees(nt, w')
  {
    hide Renders, ShowsCIDR, FileExists, Solid;
    KernelAfterShort(nt, w.addrs, r.evs);
    if r.call.CallAdd? && |r.evs| == 2 && r.evs[1].reply.err.None? {
      ProbeIsExact(nt, r.evs[1].reply.out, w.addrs, r.call.cidr);
    }
    if r.call.CallAdd? && nt.parse(r.call.cidr) { SolidIsNotEmpty(r.call.cidr); }
  }

  lemma SolidIsNotEmpty(c: string)
    requires Solid(c)
    ensures c != ""
  {
  }

  /** Link cache agreement. Over every history against a kernel changed only by this link, a
      non-empty cache names an address the kernel has, and between successful Downs at most one
      `addr add` succeeds. */
  lemma {:induction false} CacheAgreement(nt: Notation, ws: seq<World>, rs: seq<Record>, i: nat)
    requires nt.Valid() && Run(nt, ws, rs) && Agrees(nt, ws[0]) && i < |ws|
    ensures Agrees(nt, ws[i])
  {
    hide Next, Agrees, Solid;
    if i > 0 {
      CacheAgreement(nt, ws, rs, i - 1);
      AgreementStep(nt, ws[i - 1], rs[i - 1], ws[i]);
    }
  }

  /** Once an address is recorded, AddAddress runs no command until a Down succeeds: it returns nil
      for that address and refuses every other. */
  lemma {:induction false} RecordedIsFinal(nt: Notation, ws: seq<World>, rs: seq<Record>, i: nat, j: nat)
    requires Run(nt, ws, rs) && i <= j < |ws| && ws[i].cache != ""
    requires forall k :: i <= k < j ==> !(rs[k].call.CallDown? && rs[k].err.None?)
    ensures ws[j].cache == ws[i].cache && ws[j].addrs == ws[i].addrs
    ensures j < |rs| && rs[j].call.CallAdd? ==>
              && rs[j].evs == []
              && (rs[j].err.None? <==> nt.parse(rs[j].call.cidr) && rs[j].call.cidr == ws[i].cache)
    decreases j - i
  {
    hide ShowsCIDR, FileExists, Truthful;
    if j > i {
      RecordedIsFinal(nt, ws, rs, i, j - 1);
      var r := rs[j - 1];
      assert Next(nt, ws[j - 1], r, ws[j]);
      KernelAfterShort(nt, ws[j - 1].addrs, r.evs);
    }
    if j < |rs| { assert Next(nt, ws[j], rs[j], ws[j + 1]); }
  }

  // ---- link state and reasons ----

  /** Where the last successful Up or Down has left the interface. */
  function LastSwitch(start: bool, rs: seq<Record>): bool {
    if rs == [] then start
    else
      var r := rs[|rs| - 1];
      if r.call.CallUp? && r.err.None? then true
      else if r.call.CallDown? && r.err.None? then false
      else LastSwitch(start, rs[..|rs| - 1])
  }

  lemma UpAfterShort(up: bool, evs: seq<Event>)
    requires |evs| <= 2 && (|evs| == 2 ==> evs[1].cmd.AddrShow?)
    ensures UpAfter(up, evs) == if evs == [] then up else Switched(up, evs[0])
  {
    if |evs| == 2 {
      var first := Switched(up, evs[0]);
      assert UpAfter(first, evs[1..]) == UpAfter(first, evs[1..][1..]);
    }
  }

  lemma UpStep(nt: Notation, w: World, r: Record, w': World)
    requires Next(nt, w, r, w')
    ensures w'.up == if r.err.None? && !r.call.CallAdd? then r.call.CallUp? else w.up
  {
    hide ShowsCIDR, FileExists, Truthful, KernelAfter, UpAfter;
    UpAfterShort(w.up, r.evs);
  }

  /** Up and Down do what they say: over every history the interface is up iff the last of them to
      return nil was an Up; AddAddress does not touch it. */
  lemma {:induction false} UpExactly(nt: Notation, ws: seq<World>, rs: seq<Record>, i: nat)
    requires Run(nt, ws, rs) && i < |ws|
    ensures ws[i].up == LastSwitch(ws[0].up, rs[..i])
  {
    hide Next;
    if i > 0 {
      UpExactly(nt, ws, rs, i - 1);
      UpStep(nt, ws[i - 1], rs[i - 1], ws[i]);
      assert rs[..i][..i - 1] == rs[..i - 1];
    }
  }

  /** `cmd` was run and failed. */
  predicate Failed(evs: seq<Event>, cmd: Command) {
    exists i :: 0 <= i < |evs| && evs[i].cmd == cmd && evs[i].reply.err.Some?
  }

  /** Each Reason has its own cause. */
  lemma ReasonsExactly(nt: Notation, w: World, r: Record, w': World)
    requires Next(nt, w, r, w')
    ensures r.err == Some(CIDRInvalid) <==> r.call.CallAdd? && !nt.parse(r.call.cidr)
    ensures r.err == Some(CIDRInvalid) ==> r.evs == [] && w' == w
    ensures r.err == Some(LinkUpFailed) <==> Failed(r.evs, LinkUp)
    ensures r.err == Some(LinkDownFailed) <==> Failed(r.evs, LinkDown)
    ensures r.err == Some(AddressAddFailed)
       <==> && r.call.CallAdd? && Failed(r.evs, AddrAdd(r.call.cidr))
            && (Failed(r.evs, AddrShow) || !FileExists(r.evs[0].reply))
  {
    hide ShowsCIDR, Truthful, Contains;
    var evs := r.evs;
    if evs != [] && evs[0].reply.err.Some? { assert Failed(evs, evs[0].cmd); }
    if |evs| == 2 && evs[1].reply.err.Some? { assert Failed(evs, evs[1].cmd); }
  }
}
