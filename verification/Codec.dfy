/** The printer and the parser agree: round trip, canonical form, prefix-freeness and
    the exact outcome of every truncation. */
module Codec {
  import opened Errors
  import opened Bytes
  import opened Frames
  import opened Encode
  import opened Decode

  // ---- one record kind at a time: the parser undoes the printer ----

  lemma HelloRoundTrip(h: Hello, tail: seq<byte>, end: Error)
    requires HelloVerdict(Some(h)).None?
    ensures ReadHello(HelloBytes(h) + tail, end) == Ok(h, tail)
  {
    var head := Put(h.version, 4) + [|h.clientId|] + Put(h.cipherSuite, 4);
    assert HelloBytes(h) + tail == head + (h.clientId + tail);
    ReadFullOf(head, h.clientId + tail, end);
    ReadFullOf(h.clientId, tail, end);
    assert head[0..4] == Put(h.version, 4) && head[5..9] == Put(h.cipherSuite, 4);
    IntegersRoundTrip(h.version);
    IntegersRoundTrip(h.cipherSuite);
  }

  lemma CloseRoundTrip(c: Close, tail: seq<byte>, end: Error)
    requires CloseVerdict(Some(c)).None?
    ensures ReadClose(CloseBytes(c) + tail, end) == Ok(c, tail)
  {
    var head := Put(c.code, 4) + [|c.message|];
    assert CloseBytes(c) + tail == head + (c.message + tail);
    ReadFullOf(head, c.message + tail, end);
    ReadFullOf(c.message, tail, end);
    assert head[0..4] == Put(c.code, 4);
    IntegersRoundTrip(c.code);
  }

  lemma KeepaliveRoundTrip(k: Keepalive, tail: seq<byte>, end: Error)
    ensures ReadKeepalive(EmitKeepalive(Some(k)) + tail, end) == Ok(k, tail)
  {
    ReadFullOf(Put(k.nonce, 8), tail, end);
    IntegersRoundTrip(k.nonce);
  }

  lemma RekeyRoundTrip(r: Rekey, tail: seq<byte>, end: Error)
    requires RekeyVerdict(Some(r)).None?
    ensures ReadRekey(EmitRekey(Some(r)) + tail, end) == Ok(r, tail)
  {
    var at := Put(r.activateAt, 8);
    assert EmitRekey(Some(r)) + tail == r.x25519 + (r.mlkem + (at + tail));
    ReadFullOf(r.x25519, r.mlkem + (at + tail), end);
    ReadFullOf(r.mlkem, at + tail, end);
    ReadFullOf(at, tail, end);
    IntegersRoundTrip(r.activateAt);
  }

  lemma PacketRoundTrip(p: seq<byte>, tail: seq<byte>, end: Error)
    requires 0 < |p| <= MAX_IP_PACKET
    ensures ReadPacket(Put(|p|, 2) + p + tail, end) == Ok(p, tail)
  {
    var len := Put(|p|, 2);
    assert len + p + tail == len + (p + tail);
    ReadFullOf(len, p + tail, end);
    ReadFullOf(p, tail, end);
    IntegersRoundTrip(|p|);
  }

  lemma IPRoundTrip(ip: IP, want: byte, tail: seq<byte>, end: Error)
    requires want != 0 && (ip == [] || |ip| == want)
    ensures ReadIP(IPBytes(ip) + tail, end, want) == Ok(ip, tail)
  {
    if ip == [] {
      ReadFullOf([0], tail, end);
    } else {
      assert IPBytes(ip) + tail == [|ip|] + (ip + tail);
      ReadFullOf([|ip|], ip + tail, end);
      ReadFullOf(ip, tail, end);
    }
  }

  lemma {:induction false} DNSRoundTrip(dns: seq<IP>, tail: seq<byte>, end: Error)
    requires DNSValid(dns)
    ensures ReadDNS(EmitDNS(dns) + tail, end, |dns|) == Ok(AllTo16(dns), tail)
  {
    if dns == [] {
      assert EmitDNS(dns) + tail == tail;
    } else {
      var rest := EmitDNS(dns[1..]) + tail;
      assert EmitDNS(dns) + tail == To16(dns[0]) + rest;
      ReadFullOf(To16(dns[0]), rest, end);
      DNSRoundTrip(dns[1..], tail, end);
      assert AllTo16(dns) == [To16(dns[0])] + AllTo16(dns[1..]);
    }
  }

  lemma AddressesRoundTrip(s: Session, tail: seq<byte>, end: Error)
    requires SessionVerdict(Some(s)).None?
    ensures ReadAddresses(IPBytes(To4(s.ipv4)) + (IPBytes(To16(s.ipv6)) + (EmitDNS(s.dns) + tail)), end, |s.dns|, s.mtu)
         == Ok(NormalSession(s), tail)
  {
    var r3 := EmitDNS(s.dns) + tail;
    var r2 := IPBytes(To16(s.ipv6)) + r3;
    IPRoundTrip(To4(s.ipv4), 4, r2, end);
    IPRoundTrip(To16(s.ipv6), 16, r3, end);
    DNSRoundTrip(s.dns, tail, end);
  }

  lemma SessionLayout(s: Session, tail: seq<byte>)
    requires SessionVerdict(Some(s)).None?
    ensures EmitSession(Some(s)) + tail
         == SessionHead(s) + (IPBytes(To4(s.ipv4)) + (IPBytes(To16(s.ipv6)) + (EmitDNS(s.dns) + tail)))
  {
    hide IPBytes, To4, To16, EmitDNS, DNSValid, SessionHead;
  }

  lemma SessionRoundTrip(s: Session, tail: seq<byte>, end: Error)
    requires SessionVerdict(Some(s)).None?
    ensures ReadSession(EmitSession(Some(s)) + tail, end) == Ok(NormalSession(s), tail)
  {
    hide ReadAddresses, IPBytes, To4, To16, EmitDNS, DNSValid, NormalSession, EmitSession;
    var head := SessionHead(s);
    var body := IPBytes(To4(s.ipv4)) + (IPBytes(To16(s.ipv6)) + (EmitDNS(s.dns) + tail));
    SessionLayout(s, tail);
    ReadFullOf(head, body, end);
    assert head[1..5] == Put(s.mtu, 4);
    IntegersRoundTrip(s.mtu);
    AddressesRoundTrip(s, tail, end);
  }

  lemma BodyRoundTrip(f: Frame, tail: seq<byte>, end: Error)
    requires Readable(f) && !IsPacketTag(f.tag)
    ensures ReadBody(f.tag, EmitBody(f) + tail, end) == Ok(Normal(f), tail)
  {
    hide ReadHello, ReadSession, ReadKeepalive, ReadRekey, ReadClose, EmitSession, HelloBytes, CloseBytes,
         NormalSession;
    if f.tag == TAG_HELLO { HelloRoundTrip(f.hello.value, tail, end); }
    else if f.tag == TAG_SESSION { SessionRoundTrip(f.session.value, tail, end); }
    else if f.tag == TAG_KEEPALIVE { KeepaliveRoundTrip(f.keepalive.value, tail, end); }
    else if f.tag == TAG_REKEY { RekeyRoundTrip(f.rekey.value, tail, end); }
    else { CloseRoundTrip(f.close.value, tail, end); }
  }

  lemma PacketFrameRoundTrip(f: Frame, tail: seq<byte>, end: Error)
    requires Readable(f) && IsPacketTag(f.tag)
    ensures ReadFrame(Emit(f) + tail, end) == Ok(Normal(f), tail)
  {
    hide ReadPacket, Put, Lift, BodyVerdict, EmitBody, ReadHello, ReadSession, ReadKeepalive, ReadRekey, ReadClose;
    var p, bs := PacketBytes(f), Emit(f) + tail;
    assert bs[0] == f.tag && bs[1..] == Put(|p|, 2) + p + tail;
    PacketRoundTrip(p, tail, end);
  }

  /** Reading what was written gives the normal form back and consumes exactly the record. */
  lemma FrameRoundTrip(f: Frame, tail: seq<byte>, end: Error)
    requires Readable(f)
    ensures ReadFrame(Emit(f) + tail, end) == Ok(Normal(f), tail)
  {
    hide ReadBody, EmitBody, BodyVerdict, Normal;
    if IsPacketTag(f.tag) {
      PacketFrameRoundTrip(f, tail, end);
    } else {
      ControlTags(f);
      var bs := Emit(f) + tail;
      assert bs[0] == f.tag && bs[1..] == EmitBody(f) + tail;
      BodyRoundTrip(f, tail, end);
    }
  }

  lemma ControlTags(f: Frame)
    requires Encodable(f) && !IsPacketTag(f.tag)
    ensures IsControlTag(f.tag)
  {
  }

  /** A zero-length packet is the one encodable frame that cannot be read back. */
  lemma ReadableExactly(f: Frame, tail: seq<byte>, end: Error)
    requires Encodable(f)
    ensures ReadFrame(Emit(f) + tail, end).Ok? <==> !(IsPacketTag(f.tag) && PacketBytes(f) == [])
    ensures !Readable(f) ==> ReadFrame(Emit(f) + tail, end) == Bad(Wrap(LengthInvalid), false)
  {
    if Readable(f) {
      FrameRoundTrip(f, tail, end);
    } else {
      var bs := Emit(f) + tail;
      assert bs[0] == f.tag && bs[1..] == Put(0, 2) + tail;
      ReadFullOf(Put(0, 2), tail, end);
      IntegersRoundTrip(0);
    }
  }

  /** Stream round trip: repeated ReadFrame yields the normal forms in order and leaves
      exactly the bytes that follow. */
  lemma {:induction false} StreamRoundTrip(fs: seq<Frame>, tail: seq<byte>, end: Error)
    requires AllReadable(fs)
    ensures ReadFrames(EmitAll(fs) + tail, end, |fs|) == Ok(NormalAll(fs), tail)
  {
    hide ReadFrame, Emit, Normal, Readable;
    if fs == [] {
      assert EmitAll(fs) + tail == tail;
    } else {
      assert EmitAll(fs) + tail == Emit(fs[0]) + (EmitAll(fs[1..]) + tail);
      FrameRoundTrip(fs[0], EmitAll(fs[1..]) + tail, end);
      StreamRoundTrip(fs[1..], tail, end);
      assert NormalAll(fs) == [Normal(fs[0])] + NormalAll(fs[1..]);
    }
  }

  // ---- canonical form: the printer undoes the parser ----

  lemma HelloCanonical(bs: seq<byte>, end: Error)
    requires ReadHello(bs, end).Ok?
    ensures var r := ReadHello(bs, end);
            HelloVerdict(Some(r.value)).None? && bs == HelloBytes(r.value) + r.rest
  {
    hide ReadField, Uint32;
    var h := ReadField(bs, end, 9);
    assert h.value == h.value[0..4] + [h.value[4]] + h.value[5..9];
  }

  lemma CloseCanonical(bs: seq<byte>, end: Error)
    requires ReadClose(bs, end).Ok?
    ensures var r := ReadClose(bs, end);
            CloseVerdict(Some(r.value)).None? && bs == CloseBytes(r.value) + r.rest
  {
    hide ReadField, Uint32;
    var h := ReadField(bs, end, 5);
    assert h.value == h.value[0..4] + [h.value[4]];
  }

  lemma RekeyCanonical(bs: seq<byte>, end: Error)
    requires ReadRekey(bs, end).Ok?
    ensures var r := ReadRekey(bs, end);
            RekeyVerdict(Some(r.value)).None? && bs == EmitRekey(Some(r.value)) + r.rest
  {
    var x := ReadField(bs, end, X25519_LEN);
    var m := ReadField(x.rest, end, MLKEM_LEN);
    var b := ReadField(m.rest, end, 8);
    assert bs == x.value + m.value + b.value + b.rest;
  }

  lemma PacketCanonical(bs: seq<byte>, end: Error)
    requires ReadPacket(bs, end).Ok?
    ensures var r := ReadPacket(bs, end);
            0 < |r.value| <= MAX_IP_PACKET && bs == Put(|r.value|, 2) + r.value + r.rest
  {
  }

  lemma IPCanonical(bs: seq<byte>, end: Error, want: byte)
    requires want != 0 && ReadIP(bs, end, want).Ok?
    ensures var r := ReadIP(bs, end, want);
            (r.value == [] || |r.value| == want) && bs == IPBytes(r.value) + r.rest
  {
    var len := ReadFull(bs, end, 1);
    assert len.value == [len.value[0]];
  }

  lemma SixteenBytesAreNormal(ips: seq<IP>)
    requires forall i :: 0 <= i < |ips| ==> |ips[i]| == 16
    ensures DNSValid(ips) && AllTo16(ips) == ips
  {
    hide To16;
    forall i | 0 <= i < |ips| ensures To16(ips[i]) == ips[i] { SixteenBytes(ips[i]); }
  }

  lemma SixteenBytes(ip: IP)
    requires |ip| == 16
    ensures To16(ip) == ip
  {
  }

  lemma {:induction false} DNSCanonical(bs: seq<byte>, end: Error, count: nat)
    requires ReadDNS(bs, end, count).Ok?
    ensures var r := ReadDNS(bs, end, count); bs == EmitDNS(r.value) + r.rest
    decreases count
  {
    hide ReadField, To16;
    var r := ReadDNS(bs, end, count);
    if count > 0 {
      var ip := ReadField(bs, end, 16);
      SixteenBytes(ip.value);
      DNSCanonical(ip.rest, end, count - 1);
      assert r.value[1..] == ReadDNS(ip.rest, end, count - 1).value;
      assert EmitDNS(r.value) == ip.value + EmitDNS(r.value[1..]);
    }
  }

  lemma AddressesCanonical(bs: seq<byte>, end: Error, count: nat, mtu: uint32)
    requires ReadAddresses(bs, end, count, mtu).Ok?
    ensures var r := ReadAddresses(bs, end, count, mtu);
            var s := r.value;
            && |s.dns| == count && DNSValid(s.dns) && NormalSession(s) == s && s.mtu == mtu
            && bs == IPBytes(To4(s.ipv4)) + (IPBytes(To16(s.ipv6)) + EmitDNS(s.dns)) + r.rest
  {
    hide ReadIP, ReadDNS, IPBytes;
    var v4 := ReadIP(bs, end, 4);
    var v6 := ReadIP(v4.rest, end, 16);
    IPCanonical(bs, end, 4);
    IPCanonical(v4.rest, end, 16);
    DNSCanonical(v6.rest, end, count);
    SixteenBytesAreNormal(ReadDNS(v6.rest, end, count).value);
  }

  lemma SessionCanonical(bs: seq<byte>, end: Error)
    requires ReadSession(bs, end).Ok?
    ensures var r := ReadSession(bs, end);
            && SessionVerdict(Some(r.value)).None? && NormalSession(r.value) == r.value
            && bs == EmitSession(Some(r.value)) + r.rest
  {
    hide ReadAddresses, IPBytes, EmitDNS, AllTo16;
    var h := ReadField(bs, end, 5);
    assert h.value == [h.value[0]] + h.value[1..5];
    AddressesCanonical(h.rest, end, h.value[0], Uint32(h.value[1..5]));
    var s := ReadSession(bs, end).value;
    assert SessionHead(s) == h.value;
    assert To16(s.ipv6) == s.ipv6;
  }

  lemma BodyCanonical(tag: byte, bs: seq<byte>, end: Error)
    requires !IsPacketTag(tag) && ReadBody(tag, bs, end).Ok?
    ensures var r := ReadBody(tag, bs, end);
            && r.value.tag == tag && Readable(r.value) && Normal(r.value) == r.value
            && bs == EmitBody(r.value) + r.rest
  {
    if tag == TAG_HELLO { HelloCanonical(bs, end); }
    else if tag == TAG_SESSION { SessionCanonical(bs, end); }
    else if tag == TAG_REKEY { RekeyCanonical(bs, end); }
    else if tag == TAG_CLOSE { CloseCanonical(bs, end); }
  }

  /** Canonical wire form: whatever ReadFrame accepts, WriteFrame reproduces byte for byte. */
  lemma FrameCanonical(bs: seq<byte>, end: Error)
    requires ReadFrame(bs, end).Ok?
    ensures var r := ReadFrame(bs, end);
            Readable(r.value) && Normal(r.value) == r.value && bs == Emit(r.value) + r.rest
  {
    hide ReadPacket, ReadHello, ReadSession, ReadKeepalive, ReadRekey, ReadClose, EmitBody, BodyVerdict;
    assert bs == [bs[0]] + bs[1..];
    if IsPacketTag(bs[0]) {
      PacketCanonical(bs[1..], end);
    } else {
      BodyCanonical(bs[0], bs[1..], end);
    }
  }

  /** Two frames share an encoding iff their normal forms are equal. */
  lemma EncodingDeterminesNormalForm(f: Frame, g: Frame)
    requires Readable(f) && Readable(g)
    ensures Emit(f) == Emit(g) <==> Normal(f) == Normal(g)
  {
    FrameRoundTrip(f, [], EOF);
    FrameRoundTrip(g, [], EOF);
    assert Emit(f) + [] == Emit(f) && Emit(g) + [] == Emit(g);
    if Normal(f) == Normal(g) {
      FrameCanonical(Emit(f), EOF);
      FrameCanonical(Emit(g), EOF);
    }
  }

  /** The same for Sessions, whatever shape their addresses came in. */
  lemma SessionEncodingDeterminesNormalForm(s: Session, t: Session)
    requires SessionVerdict(Some(s)).None? && SessionVerdict(Some(t)).None?
    ensures EmitSession(Some(s)) == EmitSession(Some(t)) <==> NormalSession(s) == NormalSession(t)
  {
    SessionRoundTrip(s, [], EOF);
    SessionRoundTrip(t, [], EOF);
    assert EmitSession(Some(s)) + [] == EmitSession(Some(s)) && EmitSession(Some(t)) + [] == EmitSession(Some(t));
    if NormalSession(s) == NormalSession(t) {
      SessionCanonical(EmitSession(Some(s)), EOF);
      SessionCanonical(EmitSession(Some(t)), EOF);
    }
  }

  /** Encodings are prefix-free. */
  lemma PrefixFree(f: Frame, g: Frame)
    requires Readable(f) && Readable(g) && Emit(f) <= Emit(g)
    ensures Emit(f) == Emit(g)
  {
    var more := Emit(g)[|Emit(f)|..];
    assert Emit(g) == Emit(f) + more && Emit(g) + [] == Emit(g);
    FrameRoundTrip(f, more, EOF);
    FrameRoundTrip(g, [], EOF);
  }

  // ---- truncation ----

  lemma IPFinal(bs: seq<byte>, more: seq<byte>, end: Error, end': Error, want: byte)
    requires want != 0
    requires ReadIP(bs, end, want).Ok? || !ReadIP(bs, end, want).starved
    ensures var r := ReadIP(bs, end, want);
            ReadIP(bs + more, end', want) == if r.Ok? then Ok(r.value, r.rest + more) else r
  {
    var r := ReadIP(bs, end, want);
    if r.Ok? {
      IPCanonical(bs, end, want);
      assert bs + more == IPBytes(r.value) + (r.rest + more);
      IPRoundTrip(r.value, want, r.rest + more, end');
    } else {
      var len := ReadFull(bs, end, 1);
      assert bs + more == len.value + (len.rest + more);
      ReadFullOf(len.value, len.rest + more, end');
    }
  }

  lemma AddressesFailureIsFinal(bs: seq<byte>, more: seq<byte>, end: Error, end': Error, count: nat, mtu: uint32)
    requires var r := ReadAddresses(bs, end, count, mtu); r.Bad? && !r.starved
    ensures ReadAddresses(bs + more, end', count, mtu) == ReadAddresses(bs, end, count, mtu)
  {
    hide ReadIP, ReadDNS;
    IPFinal(bs, more, end, end', 4);
    var v4 := ReadIP(bs, end, 4);
    if v4.Ok? {
      IPFinal(v4.rest, more, end, end', 16);
    }
  }

  lemma SessionFailureIsFinal(bs: seq<byte>, more: seq<byte>, end: Error, end': Error)
    requires ReadSession(bs, end).Bad? && !ReadSession(bs, end).starved
    ensures ReadSession(bs + more, end') == ReadSession(bs, end)
  {
    var head := ReadField(bs, end, 5);
    assert bs + more == head.value + (head.rest + more);
    ReadFullOf(head.value, head.rest + more, end');
    if head.value[0] <= MAX_DNS_ENTRIES {
      AddressesFailureIsFinal(head.rest, more, end, end', head.value[0], Uint32(head.value[1..5]));
    }
  }

  lemma PacketFailureIsFinal(bs: seq<byte>, more: seq<byte>, end: Error, end': Error)
    requires ReadPacket(bs, end).Bad? && !ReadPacket(bs, end).starved
    ensures ReadPacket(bs + more, end') == ReadPacket(bs, end)
  {
    var len := ReadField(bs, end, 2);
    assert bs + more == len.value + (len.rest + more);
    ReadFullOf(len.value, len.rest + more, end');
  }

  /** A failure that is not starvation is final: no further bytes change it. */
  lemma FailureIsFinal(bs: seq<byte>, more: seq<byte>, end: Error, end': Error)
    requires ReadFrame(bs, end).Bad? && !ReadFrame(bs, end).starved
    ensures ReadFrame(bs + more, end') == ReadFrame(bs, end)
  {
    hide ReadBody;
    var b := bs[1..];
    assert (bs + more)[0] == bs[0] && (bs + more)[1..] == b + more;
    BodyFailureIsFinal(bs[0], b, more, end, end');
  }

  lemma BodyFailureIsFinal(tag: byte, b: seq<byte>, more: seq<byte>, end: Error, end': Error)
    requires ReadBody(tag, b, end).Bad? && !ReadBody(tag, b, end).starved
    ensures ReadBody(tag, b + more, end') == ReadBody(tag, b, end)
  {
    hide ReadPacket, ReadHello, ReadSession, ReadKeepalive, ReadRekey, ReadClose, Lift;
    if IsPacketTag(tag) {
      PacketFailureIsFinal(b, more, end, end');
    } else if tag == TAG_SESSION {
      SessionFailureIsFinal(b, more, end, end');
    }
  }

  lemma NothingToRead(end: Error)
    ensures ReadFrame([], end).Bad? && ReadFrame([], end).starved
  {
  }

  /** A record cut short never decodes: the reader runs out of bytes. */
  lemma TruncatedStarves(f: Frame, k: nat, end: Error)
    requires Readable(f) && k < |Emit(f)|
    ensures ReadFrame(Emit(f)[..k], end).Bad? && ReadFrame(Emit(f)[..k], end).starved
  {
    hide ReadFrame, Emit, Normal;
    var bs, more := Emit(f)[..k], Emit(f)[k..];
    assert Emit(f) == bs + more && Emit(f) + [] == Emit(f);
    FrameRoundTrip(f, [], end);
    var r := ReadFrame(bs, end);
    if r.Ok? {
      FrameCanonical(bs, end);
      assert Emit(f) == Emit(r.value) + (r.rest + more);
      FrameRoundTrip(r.value, r.rest + more, end);
    } else if !r.starved {
      FailureIsFinal(bs, more, end, end);
    }
  }

  /** The bytes WriteFrame emits for an invalid frame never give a reader a frame, wherever the
      writer fails. */
  lemma InvalidFrameNeverRead(f: Frame, n: nat, end: Error)
    requires !Encodable(f) && n <= |Emit(f)|
    ensures ReadFrame(Emit(f)[..n], end).Bad? && ReadFrame(Emit(f)[..n], end).starved
  {
    hide Emit, Repair, ReadFrame;
    EmitsPrefixOfRecord(f);
    assert Emit(f)[..n] == Emit(Repair(f))[..n];
    TruncatedStarves(Repair(f), n, end);
  }

  /** Reading from any prefix of a stream of records: a frame comes out only when its whole
      record is there, it is the next one, and the rest is again such a prefix. */
  lemma ReadFromPrefix(bs: seq<byte>, fs: seq<Frame>, end: Error)
    requires AllReadable(fs) && bs <= EmitAll(fs)
    ensures var r := ReadFrame(bs, end);
            if fs != [] && |Emit(fs[0])| <= |bs|
            then r == Ok(Normal(fs[0]), bs[|Emit(fs[0])|..]) && bs[..|Emit(fs[0])|] == Emit(fs[0])
                 && bs[|Emit(fs[0])|..] <= EmitAll(fs[1..])
            else r.Bad? && r.starved
  {
    hide ReadFrame, Emit, Normal;
    if fs == [] {
      NothingToRead(end);
    } else {
      var e := Emit(fs[0]);
      if |e| <= |bs| {
        var rest := bs[|e|..];
        assert EmitAll(fs) == e + EmitAll(fs[1..]);
        assert bs == e + rest;
        FrameRoundTrip(fs[0], rest, end);
      } else {
        assert bs == e[..|bs|];
        TruncatedStarves(fs[0], |bs|, end);
      }
    }
  }
}
