/** The exact outcome of reading a record that was cut short by the end of the stream. */
module Truncation {
  import opened Errors
  import opened Bytes
  import opened Frames
  import opened Encode
  import opened Decode
  import opened Codec
  import Pump

  /** Encoded length of the two address fields of a Session: 1 byte if unset. */
  function V4Len(s: Session): nat { 1 + |To4(s.ipv4)| }
  function V6Len(s: Session): nat { 1 + |To16(s.ipv6)| }

  /** The cut at `k` falls into one of the two address fields of a Session record:
      tag, 5 head bytes, IPv4 field, IPv6 field, resolvers. */
  predicate InAddresses(f: Frame, k: nat) {
    && f.tag == TAG_SESSION && f.session.Some?
    && 6 <= k < 6 + V4Len(f.session.value) + V6Len(f.session.value)
  }

  /** ... just before, or just after, a length byte (after only if an address follows it). */
  predicate AtAddressEdge(f: Frame, k: nat) {
    && InAddresses(f, k)
    && var s := f.session.value;
       || k == 6
       || k == 6 + V4Len(s)
       || (k == 7 && V4Len(s) > 1)
       || (k == 7 + V4Len(s) && V6Len(s) > 1)
  }

  /** What io.ReadFull reports when a field is cut: the reader's own error, except that an io.EOF
      behind some of the bytes becomes io.ErrUnexpectedEOF. */
  function RawError(atEdge: bool, end: Error): Error {
    if !atEdge && end == EOF then UnexpectedEOF else end
  }

  lemma IPTruncated(ip: IP, want: byte, m: nat, end: Error)
    requires want != 0 && (ip == [] || |ip| == want) && m < |IPBytes(ip)|
    ensures ReadIP(IPBytes(ip)[..m], end, want) == Bad(Wrap(RawError(m <= 1, end)), true)
  {
    var bs := IPBytes(ip)[..m];
    if m > 0 {
      assert bs == [|ip|] + ip[..m - 1];
      ReadFullOf([|ip|], ip[..m - 1], end);
    }
  }

  /** The error of a Session whose address part was cut after `m` bytes. */
  lemma AddressesTruncated(v4: IP, v6: IP, dns: seq<byte>, m: nat, count: nat, mtu: uint32, end: Error)
    requires (v4 == [] || |v4| == 4) && (v6 == [] || |v6| == 16)
    requires m <= |IPBytes(v4) + (IPBytes(v6) + dns)|
    ensures var r := ReadAddresses((IPBytes(v4) + (IPBytes(v6) + dns))[..m], end, count, mtu);
            var n := m - |IPBytes(v4)|;
            if m < |IPBytes(v4)| then r == Bad(Wrap(Wrap(RawError(m <= 1, end))), true)
            else if n < |IPBytes(v6)| then r == Bad(Wrap(Wrap(RawError(n <= 1, end))), true)
            else r.Bad? ==> r == Bad(Wrap(ShortRead), true)
  {
    hide IPBytes, ReadIP, ReadDNS, RawError;
    var a, b := IPBytes(v4), IPBytes(v6);
    var bs := (a + (b + dns))[..m];
    if m < |a| {
      assert bs == a[..m];
      IPTruncated(v4, 4, m, end);
    } else {
      var n := m - |a|;
      assert bs == a + (b + dns)[..n];
      IPRoundTrip(v4, 4, (b + dns)[..n], end);
      if n < |b| {
        assert (b + dns)[..n] == b[..n];
        IPTruncated(v6, 16, n, end);
      } else {
        assert (b + dns)[..n] == b + dns[..n - |b|];
        IPRoundTrip(v6, 16, dns[..n - |b|], end);
      }
    }
  }

  lemma IPBytesLength(ip: IP)
    requires |ip| < 256
    ensures |IPBytes(ip)| == 1 + |ip|
  {
  }

  lemma SessionTruncated(s: Session, j: nat, end: Error)
    requires SessionVerdict(Some(s)).None? && j < |EmitSession(Some(s))|
    requires ReadSession(EmitSession(Some(s))[..j], end).Bad?
    ensures var r := ReadSession(EmitSession(Some(s))[..j], end);
            var n := j - 5 - V4Len(s);
            if j < 5 || V6Len(s) <= n then r.err == Wrap(ShortRead)
            else r.err == Wrap(Wrap(RawError(j == 5 || (j == 6 && V4Len(s) > 1) || n == 0 || n == 1, end)))
  {
    hide ReadAddresses, EmitSession, IPBytes, EmitDNS, DNSValid, To4, To16;
    SessionLayout(s, []);
    IPBytesLength(To4(s.ipv4));
    IPBytesLength(To16(s.ipv6));
    var whole := EmitSession(Some(s));
    var rest := IPBytes(To4(s.ipv4)) + (IPBytes(To16(s.ipv6)) + EmitDNS(s.dns));
    assert EmitDNS(s.dns) + [] == EmitDNS(s.dns);
    assert whole + [] == whole;
    if j >= 5 {
      assert whole[..j] == SessionHead(s) + rest[..j - 5];
      ReadFullOf(SessionHead(s), rest[..j - 5], end);
      AddressesTruncated(To4(s.ipv4), To16(s.ipv6), EmitDNS(s.dns), j - 5, |s.dns|,
                         Uint32(SessionHead(s)[1..5]), end);
    }
  }

  lemma PacketTruncated(bs: seq<byte>, end: Error)
    requires ReadPacket(bs, end).Bad? && ReadPacket(bs, end).starved
    ensures ReadPacket(bs, end).err == Wrap(ShortRead)
  {
  }

  /** The error a reader gets when the stream ends with `end`, `k` bytes into the record of `f`. */
  function CutError(f: Frame, k: nat, end: Error): Error {
    if k == 0 then (if Is(end, EOF) then EOF else if Is(end, UnexpectedEOF) then Wrap(ShortRead) else end)
    else if !InAddresses(f, k) then Wrap(ShortRead)
    else Wrap(Wrap(RawError(AtAddressEdge(f, k), end)))
  }

  /** Truncation outcome, for every record, every cut and every error behind it. A cut record never
      yields a frame. The error carries ErrShortRead for every non-empty cut outside the Session
      address fields; there it wraps the raw read error. */
  lemma TruncationOutcome(f: Frame, k: nat, end: Error)
    requires Encodable(f) && k < |Emit(f)|
    ensures ReadFrame(Emit(f)[..k], end) == Bad(CutError(f, k, end), true)
  {
    hide ReadPacket, ReadSession, ReadHello, ReadKeepalive, ReadRekey, ReadClose, Lift, EmitSession;
    var bs := Emit(f)[..k];
    if k > 0 {
      assert bs[0] == f.tag;
      if !Readable(f) {
        EmptyPacketCut(f, k, end);
      } else {
        TruncatedStarves(f, k, end);
        if IsPacketTag(f.tag) {
          PacketTruncated(bs[1..], end);
        } else if f.tag == TAG_SESSION {
          assert bs[1..] == EmitSession(f.session)[..k - 1];
          SessionTruncated(f.session.value, k - 1, end);
        }
      }
    }
  }

  /** The zero-length packet record is cut inside its length field, where the length is not seen. */
  lemma EmptyPacketCut(f: Frame, k: nat, end: Error)
    requires Encodable(f) && !Readable(f) && 0 < k < |Emit(f)|
    ensures ReadFrame(Emit(f)[..k], end) == Bad(Wrap(ShortRead), true)
  {
    hide ReadHello, ReadSession, ReadKeepalive, ReadRekey, ReadClose, Lift, BodyVerdict, EmitBody;
    var bs := Emit(f)[..k];
    assert bs[0] == f.tag && |bs[1..]| < 2;
  }

  /** The down loop ends gracefully on this error of RecvFrame. */
  predicate Orderly(e: Error) { Pump.Graceful(Pump.Failure(Pump.RecvFrame, e)) }

  /** When the error behind the cut record reaches pumpDown's taxonomy: before the tag byte, unless
      ReadFrame turns it into ErrShortRead, and inside the Session address fields, unless it is an
      io.EOF in the middle of one. */
  predicate Shown(f: Frame, k: nat, end: Error) {
    if k == 0 then Is(end, EOF) || !Is(end, UnexpectedEOF)
    else InAddresses(f, k) && (AtAddressEdge(f, k) || end != EOF)
  }

  /** How pumpDown takes a stream that ends inside a record: gracefully exactly when the error behind
      the cut is orderly and shown, otherwise with ReasonRecvFrameFailed. */
  lemma TruncationInPumpDown(f: Frame, k: nat, end: Error)
    requires Encodable(f) && k < |Emit(f)|
    ensures var r := ReadFrame(Emit(f)[..k], end);
            && r.Bad?
            && Pump.Outcome(Pump.Failure(Pump.RecvFrame, r.err))
               == (if Orderly(end) && Shown(f, k, end) then None else Some(PumpError(RecvFrameFailed, r.err)))
            && (Is(r.err, ShortRead)
                <==> if k == 0 then !Is(end, EOF) && (Is(end, UnexpectedEOF) || Is(end, ShortRead))
                     else !InAddresses(f, k) || Is(end, ShortRead))
  {
    hide ReadFrame, Emit, Encodable, InAddresses, AtAddressEdge, CutError, Is;
    TruncationOutcome(f, k, end);
    CutErrorIs(f, k, end, ShortRead);
    CutErrorIs(f, k, end, EOF);
    CutErrorIs(f, k, end, TransportClosed);
    CutErrorIs(f, k, end, Canceled);
    CutErrorIs(f, k, end, DeadlineExceeded);
    LeafIs(EOF, ShortRead);
    EdgeIsInside(f, k);
  }

  /** What errors.Is finds in the error of a cut, for a sentinel other than io.ErrUnexpectedEOF. */
  lemma CutErrorIs(f: Frame, k: nat, end: Error, target: Error)
    requires !target.Wrap? && !target.PumpError? && target != UnexpectedEOF
    ensures Is(CutError(f, k, end), target)
        <==> if k == 0 && Is(end, EOF) then target == EOF
             else if Shown(f, k, end) then Is(end, target)
             else target == ShortRead && !InAddresses(f, k)
  {
    hide Is, InAddresses, AtAddressEdge;
    EdgeIsInside(f, k);
    var e := CutError(f, k, end);
    if e.Wrap? { WrapIs(e.inner, target); }
    if e.Wrap? && e.inner.Wrap? { WrapIs(e.inner.inner, target); }
    LeafIs(EOF, target);
    LeafIs(ShortRead, target);
    LeafIs(UnexpectedEOF, target);
  }

  lemma EdgeIsInside(f: Frame, k: nat)
    ensures AtAddressEdge(f, k) ==> InAddresses(f, k)
    ensures InAddresses(f, k) ==> k > 0
  {
  }

  lemma WrapIs(e: Error, target: Error)
    requires !target.Wrap?
    ensures Is(Wrap(e), target) == Is(e, target)
  {
  }

  lemma LeafIs(e: Error, target: Error)
    requires !e.Wrap? && !e.PumpError?
    ensures Is(e, target) == (e == target)
  {
  }
}
