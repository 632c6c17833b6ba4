/** The wire format in numbers: where every byte of every record is, and which frames are refused and
    why. Tags, limits and byte orders are written out, not named. */
module Format {
  import opened Errors
  import opened Bytes
  import opened Frames
  import opened Encode
  import Decode
  import Codec

  // ---- integers ----

  function BE2(x: nat): seq<byte>
    requires x < 0x1_0000
  {
    [x / 0x100, x % 0x100]
  }

  function BE4(x: uint32): seq<byte> {
    [x / 0x100_0000, x / 0x1_0000 % 0x100, x / 0x100 % 0x100, x % 0x100]
  }

  function BE8(x: uint64): seq<byte> {
    [x / 0x100_0000_0000_0000, x / 0x1_0000_0000_0000 % 0x100, x / 0x100_0000_0000 % 0x100, x / 0x1_0000_0000 % 0x100,
     x / 0x100_0000 % 0x100, x / 0x1_0000 % 0x100, x / 0x100 % 0x100, x % 0x100]
  }

  lemma Put2(x: nat)
    requires x < 0x1_0000
    ensures Put(x, 2) == BE2(x)
  {
    assert Put(x / 256 / 256, 0) == [];
    assert Put(x / 256, 1) == [x / 256 % 256];
  }

  lemma Put4(x: uint32)
    ensures Put(x, 4) == BE4(x)
  {
    assert x / 0x100 / 0x100 == x / 0x1_0000;
    assert x / 0x1_0000 / 0x100 == x / 0x100_0000;
    PutFour(x, 0, x / 0x100, x / 0x1_0000, x / 0x100_0000);
    assert Put(x / 0x100_0000 / 0x100, 0) == [];
  }

  /** Four steps of Put, with the quotients named. */
  lemma PutFour(x: nat, n: nat, a: nat, b: nat, c: nat)
    requires a == x / 0x100 && b == a / 0x100 && c == b / 0x100
    ensures Put(x, n + 4) == Put(c / 0x100, n) + [c % 0x100, b % 0x100, a % 0x100, x % 0x100]
  {
    assert Put(x, n + 4) == Put(a, n + 3) + [x % 256];
    assert Put(a, n + 3) == Put(b, n + 2) + [a % 256];
    assert Put(b, n + 2) == Put(c, n + 1) + [b % 256];
    assert Put(c, n + 1) == Put(c / 256, n) + [c % 256];
  }

  lemma Put8(x: uint64)
    ensures Put(x, 8) == BE8(x)
  {
    hide Put;
    Quotients(x);
    var d := x / 0x1_0000_0000;
    PutFour(x, 4, x / 0x100, x / 0x1_0000, x / 0x100_0000);
    PutFour(d, 0, x / 0x100_0000_0000, x / 0x1_0000_0000_0000, x / 0x100_0000_0000_0000);
    NoBytes(x / 0x100_0000_0000_0000 / 0x100);
  }

  lemma NoBytes(x: nat)
    ensures Put(x, 0) == []
  {
  }

  lemma Quotients(x: nat)
    ensures x / 0x100 / 0x100 == x / 0x1_0000 && x / 0x1_0000 / 0x100 == x / 0x100_0000
    ensures x / 0x100_0000 / 0x100 == x / 0x1_0000_0000 && x / 0x1_0000_0000 / 0x100 == x / 0x100_0000_0000
    ensures x / 0x100_0000_0000 / 0x100 == x / 0x1_0000_0000_0000
    ensures x / 0x1_0000_0000_0000 / 0x100 == x / 0x100_0000_0000_0000
  {
  }

  // ---- addresses ----

  /** A 16-byte address of the form ::ffff:a.b.c.d (section 2.5.5.2 of RFC 4291). */
  predicate IsMapped(ip: IP) {
    |ip| == 16 && (forall i :: 0 <= i < 10 ==> ip[i] == 0) && ip[10] == 0xff && ip[11] == 0xff
  }

  function Mapped(a: IP): IP
    requires |a| == 4
  {
    [0, 0, 0, 0, 0, 0, 0, 0, 0, 0, 0xff, 0xff, a[0], a[1], a[2], a[3]]
  }

  /** To4 and To16 of every address of the two forms, and of nothing else. */
  lemma AddressForms(ip: IP)
    ensures |ip| == 4 ==> To4(ip) == ip && To16(ip) == Mapped(ip) && To4(Mapped(ip)) == ip
    ensures |ip| == 16 ==> To16(ip) == ip
    ensures IsMapped(ip) ==> To4(ip) == [ip[12], ip[13], ip[14], ip[15]]
    ensures |ip| != 4 && !IsMapped(ip) ==> To4(ip) == []
    ensures |ip| != 4 && |ip| != 16 ==> To16(ip) == []
  {
    if |ip| == 4 {
      assert Mapped(ip)[12..] == ip;
      assert Mapped(ip)[..12] == V4_IN_V6_PREFIX;
    } else if |ip| == 16 {
      assert IsMapped(ip) ==> ip[..12] == V4_IN_V6_PREFIX;
      assert ip[..12] == V4_IN_V6_PREFIX ==> IsMapped(ip) by {
        if ip[..12] == V4_IN_V6_PREFIX {
          forall i | 0 <= i < 12 ensures ip[i] == V4_IN_V6_PREFIX[i] { assert ip[i] == ip[..12][i]; }
        }
      }
    }
  }

  /** An assigned IPv4 address reads back as its four bytes, whichever form the sender had it in. */
  lemma AssignedIPv4RoundTrip(a: IP, s: Session, tail: seq<byte>, end: Error)
    requires |a| == 4 && (s.ipv4 == a || s.ipv4 == Mapped(a)) && Encodable(SessionFrame(s))
    ensures var r := Decode.ReadFrame(Emit(SessionFrame(s)) + tail, end);
            r.Ok? && r.rest == tail && r.value.session.Some? && r.value.session.value.ipv4 == a
  {
    hide Decode.ReadFrame, Emit, Encodable, To4, To16;
    AddressForms(a);
    assert Readable(SessionFrame(s));
    Codec.FrameRoundTrip(SessionFrame(s), tail, end);
  }

  /** A resolver reads back in its 16-byte form. */
  lemma ResolverRoundTrip(a: IP, i: nat, s: Session, tail: seq<byte>, end: Error)
    requires i < |s.dns| && s.dns[i] == a && Encodable(SessionFrame(s))
    ensures var r := Decode.ReadFrame(Emit(SessionFrame(s)) + tail, end);
            r.Ok? && r.value.session.Some? && i < |r.value.session.value.dns|
            && (|a| == 4 ==> r.value.session.value.dns[i] == Mapped(a))
            && (|a| == 16 ==> r.value.session.value.dns[i] == a)
  {
    hide Decode.ReadFrame, Emit, Encodable, To4, To16;
    AddressForms(a);
    assert Readable(SessionFrame(s));
    Codec.FrameRoundTrip(SessionFrame(s), tail, end);
  }

  // ---- what is written, and why not ----

  /** The packet field, nil or not. */
  lemma PacketLayout(f: Frame)
    requires f.tag == 0x04 || f.tag == 0x06
    ensures var p := if f.packet.Some? then f.packet.value else [];
            if |p| > 65535 then Emit(f) == [] && Verdict(f) == Some(Wrap(FieldTooLong))
            else Emit(f) == [f.tag] + BE2(|p|) + p && Verdict(f).None?
  {
    hide Put;
    if |PacketBytes(f)| <= 65535 { Put2(|PacketBytes(f)|); }
  }

  lemma HelloLayout(f: Frame)
    requires f.tag == 0x10
    ensures match f.hello
            case None => Emit(f) == [0x10] && Verdict(f) == Some(NIL_RECORD)
            case Some(h) =>
              if |h.clientId| > 255 then Emit(f) == [0x10] && Verdict(f) == Some(Wrap(FieldTooLong))
              else
                && Emit(f) == [0x10] + BE4(h.version) + [|h.clientId|] + BE4(h.cipherSuite) + h.clientId
                && Verdict(f).None?
  {
    hide Put;
    if f.hello.Some? {
      Put4(f.hello.value.version);
      Put4(f.hello.value.cipherSuite);
    }
  }

  lemma KeepaliveLayout(f: Frame)
    requires f.tag == 0x12
    ensures match f.keepalive
            case None => Emit(f) == [0x12] && Verdict(f) == Some(NIL_RECORD)
            case Some(k) => Emit(f) == [0x12] + BE8(k.nonce) && Verdict(f).None?
  {
    hide Put;
    if f.keepalive.Some? { Put8(f.keepalive.value.nonce); }
  }

  lemma RekeyLayout(f: Frame)
    requires f.tag == 0x13
    ensures match f.rekey
            case None => Emit(f) == [0x13] && Verdict(f) == Some(NIL_RECORD)
            case Some(r) =>
              if |r.x25519| != 32 || |r.mlkem| != 1184 then
                Emit(f) == [0x13] && Verdict(f) == Some(Wrap(LengthInvalid))
              else Emit(f) == [0x13] + r.x25519 + r.mlkem + BE8(r.activateAt) && Verdict(f).None?
  {
    hide Put;
    if f.rekey.Some? { Put8(f.rekey.value.activateAt); }
  }

  lemma CloseLayout(f: Frame)
    requires f.tag == 0x14
    ensures match f.close
            case None => Emit(f) == [0x14] && Verdict(f) == Some(NIL_RECORD)
            case Some(c) =>
              if |c.message| > 255 then Emit(f) == [0x14] && Verdict(f) == Some(Wrap(FieldTooLong))
              else Emit(f) == [0x14] + BE4(c.code) + [|c.message|] + c.message && Verdict(f).None?
  {
    hide Put;
    if f.close.Some? { Put4(f.close.value.code); }
  }

  predicate KnownTag(tag: byte) { tag == 0x04 || tag == 0x06 || 0x10 <= tag <= 0x14 }

  lemma OtherTags(f: Frame)
    requires !KnownTag(f.tag)
    ensures Emit(f) == [] && Verdict(f) == Some(Wrap(UnknownTag))
  {
  }

  /** A length of net.IP that stands for an address. */
  predicate IsAddress(ip: IP) { |ip| == 4 || |ip| == 16 }

  /** The first `j` resolvers are addresses, and the next, if there is one, is not. */
  predicate GoodResolvers(dns: seq<IP>, j: nat) {
    && j <= |dns|
    && (forall i :: 0 <= i < j ==> IsAddress(dns[i]))
    && (j < |dns| ==> !IsAddress(dns[j]))
  }

  /** The address a resolver entry holds: 16 bytes, IPv4 in mapped form. */
  function Resolver(ip: IP): (r: IP)
    requires IsAddress(ip)
    ensures |r| == 16
  {
    if |ip| == 4 then Mapped(ip) else ip
  }

  lemma {:induction false} ResolversLayout(dns: seq<IP>, j: nat)
    requires GoodResolvers(dns, j)
    ensures |EmitDNS(dns)| == 16 * j
    ensures forall i :: 0 <= i < j ==> EmitDNS(dns)[16 * i..16 * i + 16] == Resolver(dns[i])
    ensures DNSValid(dns) <==> j == |dns|
    decreases j
  {
    hide To16, Resolver, DNSValid;
    if dns != [] {
      FirstResolver(dns[0]);
      ValidAll(dns);
    }
    if j > 0 {
      ResolversLayout(dns[1..], j - 1);
      forall i | 0 <= i < j ensures EmitDNS(dns)[16 * i..16 * i + 16] == Resolver(dns[i]) {
        if i > 0 {
          EntryShift(To16(dns[0]), EmitDNS(dns[1..]), i - 1, j - 1);
          assert dns[1..][i - 1] == dns[i];
        }
      }
    } else if dns == [] {
      NoResolvers();
    }
  }

  lemma FirstResolver(ip: IP)
    ensures if IsAddress(ip) then To16(ip) == Resolver(ip) && |To16(ip)| == 16 else To16(ip) == []
  {
    AddressForms(ip);
  }

  lemma NoResolvers()
    ensures DNSValid([])
  {
  }

  lemma EntryShift(first: seq<byte>, rest: seq<byte>, k: nat, n: nat)
    requires |first| == 16 && k < n && |rest| == 16 * n
    ensures (first + rest)[16 * (k + 1)..16 * (k + 1) + 16] == rest[16 * k..16 * k + 16]
  {
  }

  lemma ValidAll(dns: seq<IP>)
    requires dns != []
    ensures DNSValid(dns) <==> To16(dns[0]) != [] && DNSValid(dns[1..])
  {
    hide To16;
    if To16(dns[0]) != [] && DNSValid(dns[1..]) {
      forall i | 0 <= i < |dns| ensures To16(dns[i]) != [] {
        if i > 0 { assert dns[i] == dns[1..][i - 1]; }
      }
    }
  }

  /** Session: tag, resolver count, MTU, IPv4 field, IPv6 field, resolvers; a field is a length byte and
      the address. A bad IPv6 address or resolver is found after what is in front of it is out. */
  lemma SessionLayout(f: Frame, j: nat)
    requires f.tag == 0x11 && (f.session.Some? ==> GoodResolvers(f.session.value.dns, j))
    ensures match f.session
            case None => Emit(f) == [0x11] && Verdict(f) == Some(NIL_RECORD)
            case Some(s) =>
              if |s.dns| > 4 then Emit(f) == [0x11] && Verdict(f) == Some(Wrap(FieldTooLong))
              else
                var head := [0x11, |s.dns|] + BE4(s.mtu) + Field(FourBytes(s.ipv4));
                if s.ipv6 != [] && !IsAddress(s.ipv6) then
                  Emit(f) == head && Verdict(f) == Some(Wrap(Wrap(LengthInvalid)))
                else
                  && Emit(f) == head + Field(if s.ipv6 == [] then [] else Resolver(s.ipv6)) + EmitDNS(s.dns)
                  && Verdict(f) == (if j == |s.dns| then None else Some(BAD_DNS))
  {
    hide EmitAddresses, AddressesVerdict, Put, BE4, FourBytes, Resolver, Field, EmitDNS, Emit, Verdict, IsAddress,
         GoodResolvers;
    SessionTag(f);
    if f.session.Some? && |f.session.value.dns| <= 4 {
      var s := f.session.value;
      Put4(s.mtu);
      AddressesLayout(s, j);
      var v4 := Field(FourBytes(s.ipv4));
      if s.ipv6 != [] && !IsAddress(s.ipv6) {
        Regroup(|s.dns|, BE4(s.mtu), v4, [], []);
      } else {
        Regroup(|s.dns|, BE4(s.mtu), v4, Field(if s.ipv6 == [] then [] else Resolver(s.ipv6)), EmitDNS(s.dns));
      }
    }
  }

  lemma Regroup(n: byte, mtu: seq<byte>, v4: seq<byte>, v6: seq<byte>, dns: seq<byte>)
    ensures [0x11] + ([n] + mtu + (v4 + (v6 + dns))) == [0x11, n] + mtu + v4 + v6 + dns
    ensures v4 + ([] + []) == v4 && [0x11, n] + mtu + v4 + [] + [] == [0x11, n] + mtu + v4
  {
  }

  lemma SessionTag(f: Frame)
    requires f.tag == 0x11
    ensures Emit(f) == [0x11] + EmitSession(f.session) && Verdict(f) == SessionVerdict(f.session)
  {
    hide EmitSession, SessionVerdict;
  }

  lemma AddressesLayout(s: Session, j: nat)
    requires GoodResolvers(s.dns, j)
    ensures var v4 := Field(FourBytes(s.ipv4));
            if s.ipv6 != [] && !IsAddress(s.ipv6) then
              EmitAddresses(s) == v4 && AddressesVerdict(s) == Some(Wrap(Wrap(LengthInvalid)))
            else
              && EmitAddresses(s) == v4 + (Field(if s.ipv6 == [] then [] else Resolver(s.ipv6)) + EmitDNS(s.dns))
              && AddressesVerdict(s) == (if j == |s.dns| then None else Some(BAD_DNS))
  {
    hide To4, To16, EmitDNS, DNSValid, GoodResolvers;
    AddressForms(s.ipv4);
    AddressForms(s.ipv6);
    ResolversLayout(s.dns, j);
    UnsetForm(s.ipv6);
  }

  lemma UnsetForm(ip: IP)
    ensures ip == [] ==> To16(ip) == []
  {
  }

  /** The four bytes of an IPv4 address in either form; nothing else has any. */
  function FourBytes(ip: IP): (r: IP)
    ensures |r| == 0 || |r| == 4
  {
    if |ip| == 4 then ip else if IsMapped(ip) then [ip[12], ip[13], ip[14], ip[15]] else []
  }

  function Field(ip: IP): seq<byte>
    requires |ip| < 256
  {
    [|ip|] + ip
  }
}
