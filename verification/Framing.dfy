/** What ReadFrame makes of any bytes, read off their positions: a whole record, too few bytes, or a
    framing error, each with its exact error. */
module Framing {
  import opened Errors
  import opened Bytes
  import opened Decode
  import opened Format
  import Pump

  /** The number at position `i`. */
  function At(bs: seq<byte>, i: nat): nat
    requires i < |bs|
  {
    bs[i]
  }

  /** Where the length byte of a Session's IPv6 address is. */
  function V6At(bs: seq<byte>): nat
    requires |bs| > 6
  {
    7 + At(bs, 6)
  }

  /** The error of bytes that nothing behind them can turn into a record. */
  function FramingError(bs: seq<byte>): Option<Error> {
    if bs == [] then None
    else if !KnownTag(bs[0]) then Some(Wrap(UnknownTag))
    else if bs[0] < 0x10 then (if |bs| >= 3 && bs[1] == 0 && bs[2] == 0 then Some(Wrap(LengthInvalid)) else None)
    else if bs[0] == 0x11 && |bs| >= 6 then SessionError(bs)
    else None
  }

  /** Resolver count at 1; length bytes of the two addresses at 6 and behind the first address. */
  function SessionError(bs: seq<byte>): Option<Error>
    requires |bs| >= 6
  {
    if bs[1] > 4 then Some(Wrap(FieldTooLong))
    else if |bs| == 6 then None
    else if bs[6] != 0 && bs[6] != 4 then Some(Wrap(Wrap(LengthInvalid)))
    else if |bs| > V6At(bs) && bs[V6At(bs)] != 0 && bs[V6At(bs)] != 16 then Some(Wrap(Wrap(LengthInvalid)))
    else None
  }

  /** How many bytes the record in front has, as far as the bytes tell: more than there are when it is
      not whole. */
  function Needed(bs: seq<byte>): nat
    requires bs != [] && KnownTag(bs[0])
  {
    if bs[0] < 0x10 then (if |bs| < 3 then 3 else 3 + 0x100 * At(bs, 1) + At(bs, 2))
    else if bs[0] == 0x10 then (if |bs| < 10 then 10 else 10 + At(bs, 5))
    else if bs[0] == 0x11 then NeededBySession(bs)
    else if bs[0] == 0x12 then 9
    else if bs[0] == 0x13 then 1225
    else if |bs| < 6 then 6 else 6 + At(bs, 5)
  }

  function NeededBySession(bs: seq<byte>): nat {
    if |bs| < 7 then 7
    else if |bs| <= V6At(bs) then V6At(bs) + 1
    else V6At(bs) + 1 + At(bs, V6At(bs)) + 16 * At(bs, 1)
  }

  /** The reader's error inside an address field: its own, or io.ErrUnexpectedEOF for an io.EOF behind
      some but not all bytes of one read. */
  function Fault(first: bool, end: Error): Error {
    if !first && end == EOF then UnexpectedEOF else end
  }

  function Raw(first: bool, end: Error): Error { Wrap(Wrap(Fault(first, end))) }

  /** The error of a record that is not whole. */
  function ShortError(bs: seq<byte>, end: Error): Error {
    if bs == [] then (if Is(end, EOF) then EOF else if Is(end, UnexpectedEOF) then Wrap(ShortRead) else end)
    else if bs[0] != 0x11 || |bs| < 6 then Wrap(ShortRead)
    else if |bs| == 6 then Raw(true, end)
    else if |bs| < V6At(bs) then Raw(|bs| == 7, end)
    else if |bs| == V6At(bs) then Raw(true, end)
    else if |bs| < V6At(bs) + 1 + At(bs, V6At(bs)) then Raw(|bs| == V6At(bs) + 1, end)
    else Wrap(ShortRead)
  }

  /** The outcome of ReadFrame, from the bytes alone. */
  predicate Exact(bs: seq<byte>, end: Error) {
    var r := ReadFrame(bs, end);
    match FramingError(bs)
    case Some(e) => r == Bad(e, false)
    case None =>
      if bs != [] && Needed(bs) <= |bs| then r.Ok? && r.rest == bs[Needed(bs)..]
      else r == Bad(ShortError(bs, end), true)
  }

  /** A field behind `k` bytes. */
  lemma FieldAt(bs: seq<byte>, k: nat, n: nat, end: Error)
    requires k <= |bs|
    ensures if k + n <= |bs| then ReadField(bs[k..], end, n) == Ok(bs[k..k + n], bs[k + n..])
            else ReadField(bs[k..], end, n) == Bad(Wrap(ShortRead), true)
  {
    if k + n <= |bs| {
      assert bs[k..][..n] == bs[k..k + n] && bs[k..][n..] == bs[k + n..];
    }
  }

  lemma Length16(b: seq<byte>)
    requires |b| == 2
    ensures Uint16(b) == 0x100 * At(b, 0) + At(b, 1)
  {
    Put2(Uint16(b));
  }

  lemma PacketAt(bs: seq<byte>, end: Error)
    requires |bs| >= 3
    ensures var r, n := ReadPacket(bs[1..], end), 0x100 * At(bs, 1) + At(bs, 2);
            if n == 0 then r == Bad(Wrap(LengthInvalid), false)
            else if 3 + n <= |bs| then r.Ok? && r.rest == bs[3 + n..]
            else r == Bad(Wrap(ShortRead), true)
  {
    hide ReadField, Uint16;
    FieldAt(bs, 1, 2, end);
    Length16(bs[1..3]);
    FieldAt(bs, 3, 0x100 * At(bs, 1) + At(bs, 2), end);
  }

  lemma ShortPacket(bs: seq<byte>, end: Error)
    requires 0 < |bs| < 3
    ensures ReadPacket(bs[1..], end) == Bad(Wrap(ShortRead), true)
  {
    FieldAt(bs, 1, 2, end);
  }

  lemma PacketOutcome(bs: seq<byte>, end: Error)
    requires bs != [] && (bs[0] == 0x04 || bs[0] == 0x06)
    ensures Exact(bs, end)
  {
    hide SessionError, NeededBySession, ReadPacket, ReadHello, ReadSession, ReadKeepalive, ReadRekey, ReadClose;
    if |bs| >= 3 { PacketAt(bs, end); } else { ShortPacket(bs, end); }
  }

  lemma HelloAt(bs: seq<byte>, end: Error)
    requires bs != []
    ensures var r := ReadHello(bs[1..], end);
            if |bs| >= 10 && 10 + At(bs, 5) <= |bs| then r.Ok? && r.rest == bs[10 + At(bs, 5)..]
            else r == Bad(Wrap(ShortRead), true)
  {
    hide ReadField, Uint32;
    FieldAt(bs, 1, 9, end);
    if |bs| >= 10 {
      assert bs[1..10][4] == bs[5];
      FieldAt(bs, 10, At(bs, 5), end);
    }
  }

  lemma HelloOutcome(bs: seq<byte>, end: Error)
    requires bs != [] && bs[0] == 0x10
    ensures Exact(bs, end)
  {
    hide SessionError, NeededBySession, ReadPacket, ReadHello, ReadSession, ReadKeepalive, ReadRekey, ReadClose;
    HelloAt(bs, end);
  }

  lemma KeepaliveOutcome(bs: seq<byte>, end: Error)
    requires bs != [] && bs[0] == 0x12
    ensures Exact(bs, end)
  {
    hide SessionError, NeededBySession, ReadField, Uint64, ReadPacket, ReadSession, ReadHello, ReadRekey, ReadClose;
    FieldAt(bs, 1, 8, end);
  }

  lemma RekeyOutcome(bs: seq<byte>, end: Error)
    requires bs != [] && bs[0] == 0x13
    ensures Exact(bs, end)
  {
    hide SessionError, NeededBySession, ReadField, Uint64, ReadPacket, ReadSession, ReadHello, ReadKeepalive, ReadClose;
    FieldAt(bs, 1, 32, end);
    if |bs| >= 33 { FieldAt(bs, 33, 1184, end); }
    if |bs| >= 1217 { FieldAt(bs, 1217, 8, end); }
  }

  lemma CloseAt(bs: seq<byte>, end: Error)
    requires bs != []
    ensures var r := ReadClose(bs[1..], end);
            if |bs| >= 6 && 6 + At(bs, 5) <= |bs| then r.Ok? && r.rest == bs[6 + At(bs, 5)..]
            else r == Bad(Wrap(ShortRead), true)
  {
    hide ReadField, Uint32;
    FieldAt(bs, 1, 5, end);
    if |bs| >= 6 {
      assert bs[1..6][4] == bs[5];
      FieldAt(bs, 6, At(bs, 5), end);
    }
  }

  lemma CloseOutcome(bs: seq<byte>, end: Error)
    requires bs != [] && bs[0] == 0x14
    ensures Exact(bs, end)
  {
    hide SessionError, NeededBySession, ReadPacket, ReadHello, ReadSession, ReadKeepalive, ReadRekey, ReadClose;
    CloseAt(bs, end);
  }

  /** An address field at `k`. */
  lemma AddressAt(bs: seq<byte>, k: nat, want: byte, end: Error)
    requires k <= |bs| && want > 0
    ensures var r := ReadIP(bs[k..], end, want);
            if k == |bs| then r == Bad(Wrap(Fault(true, end)), true)
            else if bs[k] != 0 && bs[k] != want then r == Bad(Wrap(LengthInvalid), false)
            else if k + 1 + At(bs, k) <= |bs| then r.Ok? && r.rest == bs[k + 1 + At(bs, k)..]
            else r == Bad(Wrap(Fault(|bs| == k + 1, end)), true)
  {
    if k < |bs| {
      var rest := bs[k + 1..];
      assert bs[k..][..1] == [bs[k]] && bs[k..][1..] == rest;
      if bs[k] == want && k + 1 + want <= |bs| { assert rest[want..] == bs[k + 1 + want..]; }
    }
  }

  lemma {:induction false} ResolversAt(bs: seq<byte>, k: nat, count: nat, end: Error)
    requires k <= |bs|
    ensures var r := ReadDNS(bs[k..], end, count);
            if k + 16 * count <= |bs| then r.Ok? && r.rest == bs[k + 16 * count..]
            else r == Bad(Wrap(ShortRead), true)
    decreases count
  {
    hide ReadField;
    if count > 0 {
      FieldAt(bs, k, 16, end);
      if k + 16 <= |bs| { ResolversAt(bs, k + 16, count - 1, end); }
    }
  }

  /** The part of a Session behind its count and MTU. */
  predicate SessionReads(bs: seq<byte>, end: Error, mtu: uint32)
    requires |bs| >= 6
  {
    var r := ReadAddresses(bs[6..], end, bs[1], mtu);
    match SessionError(bs)
    case Some(e) => r == Bad(e, false)
    case None =>
      if NeededBySession(bs) <= |bs| then r.Ok? && r.rest == bs[NeededBySession(bs)..]
      else r == Bad(ShortError(bs, end), true)
  }

  predicate FirstAddressWhole(bs: seq<byte>) {
    |bs| > 6 && (bs[6] == 0 || bs[6] == 4) && V6At(bs) <= |bs|
  }

  predicate SecondAddressWhole(bs: seq<byte>)
    requires |bs| > 6
  {
    var q := V6At(bs);
    |bs| > q && (bs[q] == 0 || bs[q] == 16) && q + 1 + At(bs, q) <= |bs|
  }

  lemma SecondAddress(bs: seq<byte>, end: Error, mtu: uint32)
    requires FirstAddressWhole(bs) && bs[0] == 0x11 && bs[1] <= 4
    requires ReadIP(bs[6..], end, 4).Ok? && ReadIP(bs[6..], end, 4).rest == bs[V6At(bs)..]
    ensures SessionReads(bs, end, mtu)
  {
    hide ReadIP, ReadDNS, SessionReads;
    var q := V6At(bs);
    AddressAt(bs, q, 16, end);
    if SecondAddressWhole(bs) { Resolvers(bs, end, mtu); } else { NoSecondAddress(bs, end, mtu); }
  }

  lemma Resolvers(bs: seq<byte>, end: Error, mtu: uint32)
    requires FirstAddressWhole(bs) && SecondAddressWhole(bs) && bs[0] == 0x11 && bs[1] <= 4
    requires var r := ReadIP(bs[6..], end, 4);
             var q := V6At(bs);
             var r' := ReadIP(bs[q..], end, 16);
             r.Ok? && r.rest == bs[q..] && r'.Ok? && r'.rest == bs[q + 1 + At(bs, q)..]
    ensures SessionReads(bs, end, mtu)
  {
    hide ReadIP, ReadDNS, Fault;
    ResolversAt(bs, V6At(bs) + 1 + At(bs, V6At(bs)), bs[1], end);
  }

  lemma NoSecondAddress(bs: seq<byte>, end: Error, mtu: uint32)
    requires FirstAddressWhole(bs) && !SecondAddressWhole(bs) && bs[0] == 0x11 && bs[1] <= 4
    requires ReadIP(bs[6..], end, 4).Ok? && ReadIP(bs[6..], end, 4).rest == bs[V6At(bs)..]
    ensures SessionReads(bs, end, mtu)
  {
    hide ReadIP, ReadDNS, Fault;
    AddressAt(bs, V6At(bs), 16, end);
  }

  lemma AddressesOutcome(bs: seq<byte>, end: Error, mtu: uint32)
    requires |bs| >= 6 && bs[0] == 0x11 && bs[1] <= 4
    ensures SessionReads(bs, end, mtu)
  {
    hide ReadIP, SessionReads;
    AddressAt(bs, 6, 4, end);
    if FirstAddressWhole(bs) { SecondAddress(bs, end, mtu); } else { NoFirstAddress(bs, end, mtu); }
  }

  lemma NoFirstAddress(bs: seq<byte>, end: Error, mtu: uint32)
    requires |bs| >= 6 && bs[0] == 0x11 && bs[1] <= 4 && !FirstAddressWhole(bs)
    ensures SessionReads(bs, end, mtu)
  {
    hide ReadIP, ReadDNS, Fault;
    AddressAt(bs, 6, 4, end);
  }

  lemma SessionOutcome(bs: seq<byte>, end: Error)
    requires bs != [] && bs[0] == 0x11
    ensures Exact(bs, end)
  {
    hide ReadField, ReadAddresses, Uint32, ReadPacket, ReadHello, ReadKeepalive, ReadRekey, ReadClose, NeededBySession;
    FieldAt(bs, 1, 5, end);
    if |bs| >= 6 {
      assert bs[1..6][0] == bs[1];
      if bs[1] <= 4 { AddressesOutcome(bs, end, Uint32(bs[1..6][1..5])); }
    } else {
      NeededBySessionHead(bs);
    }
  }

  lemma NeededBySessionHead(bs: seq<byte>)
    requires |bs| < 6
    ensures NeededBySession(bs) > |bs|
  {
  }

  /** Every byte string, exactly: a framing error if and only if the tag is unknown, a packet length is 0,
      a resolver count is over 4, or an address length is neither 0 nor 4, respectively 16; otherwise a
      record if it is whole, consumed to its last byte; otherwise the error of a short read. */
  lemma ReadFrameExactly(bs: seq<byte>, end: Error)
    ensures Exact(bs, end)
  {
    hide Exact;
    if bs == [] || !KnownTag(bs[0]) { NoKnownTag(bs, end); }
    else if bs[0] < 0x10 { PacketOutcome(bs, end); }
    else if bs[0] == 0x10 { HelloOutcome(bs, end); }
    else if bs[0] == 0x11 { SessionOutcome(bs, end); }
    else if bs[0] == 0x12 { KeepaliveOutcome(bs, end); }
    else if bs[0] == 0x13 { RekeyOutcome(bs, end); }
    else { CloseOutcome(bs, end); }
  }

  lemma NoKnownTag(bs: seq<byte>, end: Error)
    requires bs == [] || !KnownTag(bs[0])
    ensures Exact(bs, end)
  {
  }

  /** pumpDown never takes a framing error for an orderly end: the loop returns it, typed. */
  lemma FramingErrorInPumpDown(bs: seq<byte>, end: Error)
    requires FramingError(bs).Some?
    ensures var e := FramingError(bs).value;
            && ReadFrame(bs, end) == Bad(e, false)
            && Pump.Outcome(Pump.Failure(Pump.RecvFrame, e)) == Some(PumpError(RecvFrameFailed, e))
  {
    hide ReadFrame;
    ReadFrameExactly(bs, end);
    var e := FramingError(bs).value;
    assert e == Wrap(e.inner) && (e.inner.Wrap? ==> e.inner == Wrap(e.inner.inner));
  }
}
