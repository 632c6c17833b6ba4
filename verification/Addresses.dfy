/** How many addresses a link can leave on its interface, and histories in which AddAddress does not
    keep its promises. */
module Addresses {
  import opened Errors
  import opened Cidr
  import opened Link

  // ---- how many addresses ----

  /** A new link, whose interface has these addresses. */
  predicate NewLink(w: World, addrs: set<string>) { w.cache == "" && w.addrs == addrs && w.adds == 0 }

  function DownsIn(rs: seq<Record>): nat {
    if rs == [] then 0
    else
      var r := rs[|rs| - 1];
      DownsIn(rs[..|rs| - 1]) + (if r.call.CallDown? && r.err.None? then 1 else 0)
  }

  lemma AddOne(addrs: set<string>, c: string)
    ensures |addrs + {c}| == if c in addrs then |addrs| else |addrs| + 1
  {
    if c in addrs { assert addrs + {c} == addrs; }
  }

  lemma CountStep(nt: Notation, w: World, r: Record, w': World)
    requires nt.Valid() && Agrees(nt, w) && Next(nt, w, r, w')
    ensures |w'.addrs| + w.adds <= |w.addrs| + w'.adds + (if r.call.CallDown? && r.err.None? then 1 else 0)
  {
    hide Renders, ShowsCIDR, FileExists, Solid;
    KernelAfterShort(nt, w.addrs, r.evs);
    if r.evs != [] && AddSucceeded(r.evs[0]) { AddOne(w.addrs, nt.canon(r.evs[0].cmd.cidr)); }
  }

  /** Every address beyond those the interface had at first is paid for by an `addr add` since the last
      successful Down, or by a successful Down. */
  lemma {:induction false} AddressBound(nt: Notation, ws: seq<World>, rs: seq<Record>)
    requires nt.Valid() && Run(nt, ws, rs) && Agrees(nt, ws[0])
    ensures |ws[|rs|].addrs| + ws[0].adds <= |ws[0].addrs| + DownsIn(rs) + ws[|rs|].adds
    ensures ws[|rs|].adds <= 1
    decreases rs
  {
    hide Next, Notation.Valid, Printed;
    CacheAgreement(nt, ws, rs, |rs|);
    if rs != [] {
      var k := |rs| - 1;
      AddressBound(nt, ws[..k + 1], rs[..k]);
      CacheAgreement(nt, ws, rs, k);
      CountStep(nt, ws[k], rs[k], ws[k + 1]);
    }
  }

  /** Accepted CIDRs for addresses that are not on the interface, no two of them for the same one. */
  predicate Unused(nt: Notation, addrs: set<string>, cidrs: seq<string>) {
    && (forall i :: 0 <= i < |cidrs| ==> nt.parse(cidrs[i]) && nt.canon(cidrs[i]) !in addrs)
    && forall i, j :: 0 <= i < j < |cidrs| ==> nt.canon(cidrs[i]) != nt.canon(cidrs[j])
  }

  const OK := Reply("", None)

  function Added(cidr: string): Record { Record(CallAdd(cidr), [Event(AddrAdd(cidr), OK)], None) }

  const DOWN := Record(CallDown, [Event(LinkDown, OK)], None)

  lemma AddSucceeds(nt: Notation, w: World, cidr: string) returns (w': World)
    requires nt.parse(cidr) && cidr != "" && w.cache == ""
    ensures w' == World(cidr, w.addrs + {nt.canon(cidr)}, w.adds + 1, w.up) && Next(nt, w, Added(cidr), w')
  {
    hide ShowsCIDR, FileExists, Renders;
    KernelAfterShort(nt, w.addrs, Added(cidr).evs);
    UpAfterShort(w.up, Added(cidr).evs);
    w' := World(cidr, w.addrs + {nt.canon(cidr)}, w.adds + 1, w.up);
  }

  lemma DownSucceeds(nt: Notation, w: World) returns (w': World)
    ensures w' == World("", w.addrs, 0, false) && Next(nt, w, DOWN, w')
  {
    hide Renders;
    KernelAfterShort(nt, w.addrs, DOWN.evs);
    UpAfterShort(w.up, DOWN.evs);
    w' := World("", w.addrs, 0, false);
  }

  /** One more call at the end of a history. */
  lemma RunSnoc(nt: Notation, ws: seq<World>, rs: seq<Record>, r: Record, w: World)
    requires Run(nt, ws, rs) && Next(nt, ws[|rs|], r, w)
    ensures Run(nt, ws + [w], rs + [r])
    ensures DownsIn(rs + [r]) == DownsIn(rs) + (if r.call.CallDown? && r.err.None? then 1 else 0)
  {
    hide Next;
    assert (rs + [r])[..|rs|] == rs;
    forall i | 0 <= i < |rs + [r]| ensures Next(nt, (ws + [w])[i], (rs + [r])[i], (ws + [w])[i + 1]) {
      if i < |rs| { assert Next(nt, ws[i], rs[i], ws[i + 1]); }
    }
  }

  /** The whole history succeeds. */
  predicate AllNil(rs: seq<Record>) { forall i :: 0 <= i < |rs| ==> rs[i].err.None? }

  function PrintedAll(nt: Notation, cidrs: seq<string>): set<string> {
    if cidrs == [] then {} else PrintedAll(nt, cidrs[..|cidrs| - 1]) + {nt.canon(cidrs[|cidrs| - 1])}
  }

  lemma PrintedSnoc(nt: Notation, cidrs: seq<string>, c: string)
    ensures PrintedAll(nt, cidrs + [c]) == PrintedAll(nt, cidrs) + {nt.canon(c)}
  {
    assert (cidrs + [c])[..|cidrs|] == cidrs;
  }

  lemma PrintedOne(nt: Notation, c: string)
    ensures PrintedAll(nt, [c]) == {nt.canon(c)}
  {
    PrintedSnoc(nt, [], c);
    assert [] + [c] == [c];
  }

  lemma {:induction false} PrintedFrom(nt: Notation, cidrs: seq<string>, p: string)
    requires p in PrintedAll(nt, cidrs)
    ensures exists i :: 0 <= i < |cidrs| && p == nt.canon(cidrs[i])
  {
    var k := |cidrs| - 1;
    if p in PrintedAll(nt, cidrs[..k]) { PrintedFrom(nt, cidrs[..k], p); }
  }

  /** A history of a new link in which every call returns nil and that ends with these addresses. */
  ghost predicate NilHistory(nt: Notation, addrs: set<string>, ws: seq<World>, rs: seq<Record>, addrs': set<string>) {
    Run(nt, ws, rs) && NewLink(ws[0], addrs) && AllNil(rs) && ws[|rs|].addrs == addrs'
  }

  lemma NilAdd(nt: Notation, addrs: set<string>, ws: seq<World>, rs: seq<Record>, addrs': set<string>, c: string)
    returns (ws': seq<World>, rs': seq<Record>)
    requires nt.Valid() && NilHistory(nt, addrs, ws, rs, addrs') && nt.parse(c) && ws[|rs|].cache == ""
    ensures NilHistory(nt, addrs, ws', rs', addrs' + {nt.canon(c)}) && DownsIn(rs') == DownsIn(rs)
  {
    hide Next, Solid, DownsIn;
    SolidIsNotEmpty(c);
    var w := AddSucceeds(nt, ws[|rs|], c);
    RunSnoc(nt, ws, rs, Added(c), w);
    ws', rs' := ws + [w], rs + [Added(c)];
  }

  lemma NilDown(nt: Notation, addrs: set<string>, ws: seq<World>, rs: seq<Record>, addrs': set<string>)
    returns (ws': seq<World>, rs': seq<Record>)
    requires NilHistory(nt, addrs, ws, rs, addrs')
    ensures NilHistory(nt, addrs, ws', rs', addrs') && DownsIn(rs') == DownsIn(rs) + 1
    ensures ws'[|rs'|].cache == ""
  {
    hide Next, DownsIn;
    var w := DownSucceeds(nt, ws[|rs|]);
    RunSnoc(nt, ws, rs, DOWN, w);
    ws', rs' := ws + [w], rs + [DOWN];
  }

  lemma UnusedLast(nt: Notation, addrs: set<string>, cidrs: seq<string>)
    requires Unused(nt, addrs, cidrs) && cidrs != []
    ensures var k := |cidrs| - 1;
            var before := addrs + PrintedAll(nt, cidrs[..k]);
            && Unused(nt, addrs, cidrs[..k]) && nt.parse(cidrs[k])
            && addrs + PrintedAll(nt, cidrs) == before + {nt.canon(cidrs[k])}
            && |addrs + PrintedAll(nt, cidrs)| == |before| + 1
  {
    var k := |cidrs| - 1;
    var before := addrs + PrintedAll(nt, cidrs[..k]);
    assert addrs + PrintedAll(nt, cidrs) == before + {nt.canon(cidrs[k])};
    if nt.canon(cidrs[k]) in PrintedAll(nt, cidrs[..k]) { PrintedFrom(nt, cidrs[..k], nt.canon(cidrs[k])); }
    AddOne(before, nt.canon(cidrs[k]));
  }

  /** Any list of unused addresses can be added one by one with a Down in between: every call returns
      nil, and the interface keeps them all. */
  lemma {:induction false} AddressesAccumulate(nt: Notation, addrs: set<string>, cidrs: seq<string>)
    returns (ws: seq<World>, rs: seq<Record>)
    requires nt.Valid() && Unused(nt, addrs, cidrs) && cidrs != []
    ensures NilHistory(nt, addrs, ws, rs, addrs + PrintedAll(nt, cidrs)) && DownsIn(rs) == |cidrs| - 1
    ensures |addrs + PrintedAll(nt, cidrs)| == |addrs| + |cidrs|
    decreases cidrs
  {
    hide Next, Notation.Valid, Unused, AllNil;
    UnusedLast(nt, addrs, cidrs);
    var k := |cidrs| - 1;
    var before := addrs + PrintedAll(nt, cidrs[..k]);
    if k == 0 {
      assert before == addrs;
      ws, rs := NoCalls(nt, addrs);
    } else {
      ws, rs := AddressesAccumulate(nt, addrs, cidrs[..k]);
      ws, rs := NilDown(nt, addrs, ws, rs, before);
    }
    ws, rs := NilAdd(nt, addrs, ws, rs, before, cidrs[k]);
  }

  lemma NoCalls(nt: Notation, addrs: set<string>) returns (ws: seq<World>, rs: seq<Record>)
    ensures NilHistory(nt, addrs, ws, rs, addrs) && DownsIn(rs) == 0 && ws[|rs|].cache == ""
  {
    ws, rs := [World("", addrs, 0, false)], [];
  }

  /** Every history of a new link on an interface with addresses `addrs`, with at most `downs` successful
      Downs, leaves at most `n` addresses on it. */
  ghost predicate AtMost(nt: Notation, addrs: set<string>, downs: nat, n: nat) {
    forall ws: seq<World>, rs: seq<Record> ::
      Run(nt, ws, rs) && NewLink(ws[0], addrs) && DownsIn(rs) <= downs ==> |ws[|rs|].addrs| <= n
  }

  /** The bound is exact, as long as there are unused addresses. */
  lemma MostAddressesExactly(nt: Notation, addrs: set<string>, downs: nat, n: nat, cidrs: seq<string>)
    requires nt.Valid() && Printed(nt, addrs) && Unused(nt, addrs, cidrs) && |cidrs| == downs + 1
    ensures AtMost(nt, addrs, downs, n) <==> |addrs| + downs + 1 <= n
  {
    hide Next, Notation.Valid, Unused;
    var ws0, rs0 := AddressesAccumulate(nt, addrs, cidrs);
    if |addrs| + downs + 1 <= n {
      forall ws: seq<World>, rs: seq<Record> | Run(nt, ws, rs) && NewLink(ws[0], addrs) && DownsIn(rs) <= downs
        ensures |ws[|rs|].addrs| <= n
      {
        AddressBound(nt, ws, rs);
      }
    }
  }

  /** "One address per interface" holds of every history exactly when the interface had none at first and
      no Down succeeds. */
  lemma OneAddressExactly(nt: Notation, addrs: set<string>, downs: nat, a: string, b: string)
    requires nt.Valid() && nt.parse(a) && nt.parse(b) && nt.canon(a) != nt.canon(b)
    ensures AtMost(nt, addrs, downs, 1) <==> addrs == {} && downs == 0
  {
    hide Next, Notation.Valid;
    if addrs == {} && downs == 0 {
      assert Unused(nt, addrs, [a]);
      MostAddressesExactly(nt, addrs, 0, 1, [a]);
    } else if addrs == {} {
      var ws, rs := TwoAddresses(nt, a, b);
    } else if x :| addrs == {x} {
      var ws, rs := RestartTwoAddresses(nt, x, if nt.canon(a) == x then b else a);
    } else {
      SeveralAddresses(addrs);
      var ws, rs := NoCalls(nt, addrs);
    }
  }

  lemma SeveralAddresses(addrs: set<string>)
    requires addrs != {} && forall x :: addrs != {x}
    ensures |addrs| > 1
  {
    var x :| x in addrs;
    assert addrs != {x};
    var y :| y in addrs && y != x;
    assert {x, y} <= addrs;
    SubsetSize({x, y}, addrs);
  }

  lemma {:induction false} SubsetSize(s: set<string>, t: set<string>)
    requires s <= t
    ensures |s| <= |t|
  {
    if s != {} {
      var x :| x in s;
      SubsetSize(s - {x}, t - {x});
    }
  }

  /** Across a Down: the cache is cleared, the kernel's addresses are not. */
  lemma TwoAddresses(nt: Notation, a: string, b: string) returns (ws: seq<World>, rs: seq<Record>)
    requires nt.Valid() && nt.parse(a) && nt.parse(b) && nt.canon(a) != nt.canon(b)
    ensures NilHistory(nt, {}, ws, rs, {nt.canon(a), nt.canon(b)}) && DownsIn(rs) == 1
  {
    hide NilHistory, Notation.Valid, DownsIn, PrintedAll;
    ws, rs := AddressesAccumulate(nt, {}, [a, b]);
    PrintedOne(nt, a);
    PrintedSnoc(nt, [a], b);
    assert [a] + [b] == [a, b];
    assert {} + PrintedAll(nt, [a, b]) == {nt.canon(a), nt.canon(b)};
  }

  /** After a restart: the interface still has its address, the new link's cache is empty, and the kernel
      accepts a second address without a complaint. */
  lemma RestartTwoAddresses(nt: Notation, had: string, b: string) returns (ws: seq<World>, rs: seq<Record>)
    requires nt.Valid() && nt.parse(b) && nt.canon(b) != had
    ensures NilHistory(nt, {had}, ws, rs, {had, nt.canon(b)}) && DownsIn(rs) == 0
  {
    hide NilHistory, Notation.Valid, DownsIn, PrintedAll;
    ws, rs := AddressesAccumulate(nt, {had}, [b]);
    PrintedOne(nt, b);
    assert {had} + PrintedAll(nt, [b]) == {had, nt.canon(b)};
  }

  // ---- adding the same address again ----

  /** AddAddress and a Down, both with nil; then the same AddAddress with the record `again`. */
  predicate AddedTwice(cidr: string, rs: seq<Record>, again: Record) {
    rs == [Added(cidr), DOWN, again] && again.call == CallAdd(cidr)
  }

  lemma AddDownAdd(nt: Notation, cidr: string, again: Record, w: World) returns (ws: seq<World>, rs: seq<Record>)
    requires nt.Valid() && nt.parse(cidr) && again.call == CallAdd(cidr)
    requires Next(nt, World("", {nt.canon(cidr)}, 0, false), again, w)
    ensures Run(nt, ws, rs) && NewLink(ws[0], {}) && AddedTwice(cidr, rs, again)
  {
    hide Next, Solid;
    SolidIsNotEmpty(cidr);
    var w0 := World("", {}, 0, false);
    var w1 := AddSucceeds(nt, w0, cidr);
    var w2 := DownSucceeds(nt, w1);
    assert w2 == World("", {nt.canon(cidr)}, 0, false);
    ws, rs := [w0, w1, w2, w], [Added(cidr), DOWN, again];
    forall i | 0 <= i < |rs| ensures Next(nt, ws[i], rs[i], ws[i + 1]) {
      assert i == 0 || i == 1 || i == 2;
    }
  }

  /** A listing with one line for one address. */
  function Listing(printed: string): string { "x " + printed }

  lemma ListingTokens(printed: string)
    requires Solid(printed)
    ensures var out := Listing(printed);
            Lines(out) == [out] && WellFormedLine(out) && LaterTokens(out) == [printed]
  {
    var out := Listing(printed);
    assert forall i :: 0 <= i < |out| ==> out[i] == ' ' || !IsSpace(out[i]);
    assert '\n' !in out;
    SolidIsWord(printed);
    assert out[1..] == " " + printed && out[1..][1..] == printed;
    assert Word(out) == "x";
    assert Tokens(out[1..]) == Tokens(printed) == [printed];
  }

  lemma SolidIsWord(c: string)
    requires Solid(c)
    ensures Word(c) == c && Tokens(c) == [c]
  {
    assert forall i :: 0 <= i < |c| ==> c[i] != ' ';
    assert Word(c) == c;
    assert Tokens(c[|c|..]) == [];
  }

  lemma ListingRenders(nt: Notation, printed: string)
    requires Solid(printed)
    ensures Renders(nt, Listing(printed), {printed})
  {
    hide LaterTokens, WellFormedLine, Lines, Solid, Listing;
    ListingTokens(printed);
    var out := Listing(printed);
    assert out in Lines(out);
  }

  /** Another spelling. For every accepted CIDR that is not in printed form: AddAddress puts it on the
      interface, and after a Down the very same call is refused as a conflict, although the kernel
      says "File exists" and lists the address truthfully. */
  lemma RespelledIsRefused(nt: Notation, cidr: string) returns (ws: seq<World>, rs: seq<Record>, again: Record)
    requires nt.Valid() && nt.parse(cidr) && cidr != nt.canon(cidr)
    ensures Run(nt, ws, rs) && NewLink(ws[0], {}) && AddedTwice(cidr, rs, again)
    ensures again.err == Some(AddressAlreadyAssigned)
  {
    hide Solid, Run, Renders;
    var listing := Reply(Listing(nt.canon(cidr)), None);
    again := Record(CallAdd(cidr), [Event(AddrAdd(cidr), Reply("", Some(FILE_EXISTS))), Event(AddrShow, listing)],
                    Some(AddressAlreadyAssigned));
    RefusedNext(nt, cidr, again);
    ws, rs := AddDownAdd(nt, cidr, again, World("", {nt.canon(cidr)}, 0, false));
  }

  lemma RefusedNext(nt: Notation, cidr: string, again: Record)
    requires nt.Valid() && nt.parse(cidr) && cidr != nt.canon(cidr)
    requires again == Record(CallAdd(cidr), [Event(AddrAdd(cidr), Reply("", Some(FILE_EXISTS))),
                                             Event(AddrShow, Reply(Listing(nt.canon(cidr)), None))],
                             Some(AddressAlreadyAssigned))
    ensures var w := World("", {nt.canon(cidr)}, 0, false); Next(nt, w, again, w)
  {
    hide Solid, ShowsCIDR, Renders, Listing;
    var printed := nt.canon(cidr);
    var w := World("", {printed}, 0, false);
    SolidIsNotEmpty(cidr);
    assert MatchesAt(FILE_EXISTS, 0, FILE_EXISTS);
    assert FileExists(again.evs[0].reply);
    ListingRenders(nt, printed);
    ProbeIsExact(nt, Listing(printed), w.addrs, cidr);
    KernelAfterShort(nt, w.addrs, again.evs);
    UpAfterShort(w.up, again.evs);
  }

  /** No probe. For every accepted CIDR, in printed form or not, and every error text without "File
      exists": after the Down the same call fails. */
  lemma UnprobedFails(nt: Notation, cidr: string, text: string)
    returns (ws: seq<World>, rs: seq<Record>, again: Record)
    requires nt.Valid() && nt.parse(cidr) && !Contains(text, FILE_EXISTS)
    ensures Run(nt, ws, rs) && NewLink(ws[0], {}) && AddedTwice(cidr, rs, again)
    ensures |again.evs| == 1 && again.evs[0].reply.err == Some(text) && again.err == Some(AddressAddFailed)
  {
    hide Solid, Run, Renders, ShowsCIDR, Contains;
    SolidIsNotEmpty(cidr);
    again := Record(CallAdd(cidr), [Event(AddrAdd(cidr), Reply("", Some(text)))], Some(AddressAddFailed));
    var w := World("", {nt.canon(cidr)}, 0, false);
    KernelAfterShort(nt, w.addrs, again.evs);
    UpAfterShort(w.up, again.evs);
    ws, rs := AddDownAdd(nt, cidr, again, w);
  }

  // ---- the production runner ----

  /** The error of the production runner: the arguments and the cause. The command's own output, where
      the kernel's "File exists" is, is not part of it. */
  function RunnerText(cidr: string, name: string, cause: string): string {
    "ip addr add " + cidr + " dev " + name + ": " + cause
  }

  /** The text says "File exists" only if the cause of the failed exec does. */
  lemma RunnerTextExactly(cidr: string, name: string, cause: string)
    requires ' ' !in cidr && ' ' !in name
    ensures Contains(RunnerText(cidr, name, cause), FILE_EXISTS) <==> Contains(cause, FILE_EXISTS)
  {
    var text := RunnerText(cidr, name, cause);
    var head := |text| - |cause|;
    assert text[head..] == cause;
    if Contains(text, FILE_EXISTS) {
      var i: nat :| i <= |text| && MatchesAt(text, i, FILE_EXISTS);
      MatchInCause(cidr, name, cause, i);
      MatchesShift(text, head, i - head, FILE_EXISTS);
      assert MatchesAt(cause, i - head, FILE_EXISTS);
    }
    if Contains(cause, FILE_EXISTS) {
      var i: nat :| i <= |cause| && MatchesAt(cause, i, FILE_EXISTS);
      MatchesShift(text, head, i, FILE_EXISTS);
      assert MatchesAt(text, head + i, FILE_EXISTS);
    }
  }

  /** Where the spaces in front of the cause are, and what stands beside them. */
  lemma RunnerLayout(cidr: string, name: string, cause: string)
    requires ' ' !in cidr && ' ' !in name
    ensures var text, dev := RunnerText(cidr, name, cause), 12 + |cidr|;
            var colon := dev + 5 + |name|;
            && |text| == colon + 2 + |cause|
            && text[6] == 'r' && text[10] == 'd' && text[dev + 1] == 'd' && text[dev + 3] == 'v'
            && text[colon] == ':' && text[colon + 1] == ' '
            && forall q :: 4 <= q < colon && text[q] == ' ' ==> q in {7, 11, dev, dev + 4}
  {
    var text, dev := RunnerText(cidr, name, cause), 12 + |cidr|;
    var colon := dev + 5 + |name|;
    assert text[..12] == "ip addr add ";
    assert text[12..dev] == cidr;
    assert text[dev..dev + 5] == " dev ";
    assert text[dev + 5..colon] == name;
  }

  lemma FileExistsAt(text: string, i: nat)
    requires MatchesAt(text, i, FILE_EXISTS)
    ensures i + 11 <= |text| && text[i + 4] == ' ' && text[i + 5] == 'e'
    ensures forall k :: i <= k < i + 4 ==> text[k] == FILE_EXISTS[k - i] && text[k] != ' '
  {
    var m := text[i..i + 11];
    assert text[i + 4] == m[4] && text[i + 5] == m[5];
    assert forall k :: i <= k < i + 4 ==> text[k] == m[k - i];
  }

  lemma MatchInCause(cidr: string, name: string, cause: string, i: nat)
    requires ' ' !in cidr && ' ' !in name && MatchesAt(RunnerText(cidr, name, cause), i, FILE_EXISTS)
    ensures i >= |RunnerText(cidr, name, cause)| - |cause|
  {
    hide RunnerText, MatchesAt;
    RunnerLayout(cidr, name, cause);
    FileExistsAt(RunnerText(cidr, name, cause), i);
    assert RunnerText(cidr, name, cause)[i + 3] == 'e';
  }

  /** A command that ran and failed: "exit status" and a number. */
  lemma ExitStatusNeverSays(code: string)
    requires 'F' !in code
    ensures !Contains("exit status " + code, FILE_EXISTS)
  {
    var text := "exit status " + code;
    assert 'F' !in text;
    if Contains(text, FILE_EXISTS) { StartsWithF(text); }
  }

  lemma StartsWithF(text: string)
    requires Contains(text, FILE_EXISTS)
    ensures 'F' in text
  {
    var i: nat :| i <= |text| && MatchesAt(text, i, FILE_EXISTS);
    assert text[i] == text[i..i + 11][0];
  }

  /** The replies of the production runner on one interface: commands fail with an exit status. */
  ghost predicate FromRunner(name: string, evs: seq<Event>) {
    forall i :: 0 <= i < |evs| && evs[i].cmd.AddrAdd? && evs[i].reply.err.Some? ==>
      exists code :: 'F' !in code && evs[i].reply.err.value == RunnerText(evs[i].cmd.cidr, name, "exit status " + code)
  }

  /** With the production runner the probe never runs: adding again what the kernel has returns nil
      exactly when the cache has the same spelling or the kernel accepts the address once more. */
  lemma RunnerReAddExactly(nt: Notation, w: World, r: Record, w': World, cidr: string, name: string)
    requires nt.Valid() && Agrees(nt, w) && Next(nt, w, r, w') && r.call == CallAdd(cidr) && nt.parse(cidr)
    requires nt.canon(cidr) in w.addrs && ' ' !in name && FromRunner(name, r.evs)
    ensures |r.evs| <= 1
    ensures r.err.None? <==> w.cache == cidr || (w.cache == "" && r.evs[0].reply.err.None?)
  {
    hide Renders, ShowsCIDR, Contains, Solid, RunnerText;
    if r.evs != [] && r.evs[0].reply.err.Some? {
      var code :| 'F' !in code && r.evs[0].reply.err.value == RunnerText(cidr, name, "exit status " + code);
      SolidHasNoSpace(cidr);
      ExitStatusNeverSays(code);
      RunnerTextExactly(cidr, name, "exit status " + code);
    }
    ReAddExactly(nt, w, r, w', cidr);
  }

  lemma SolidHasNoSpace(c: string)
    requires Solid(c)
    ensures ' ' !in c
  {
  }
}
