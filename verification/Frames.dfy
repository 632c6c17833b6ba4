/** The in-band records and their normal forms. */
module Frames {
  import opened Errors
  import opened Bytes

  const TAG_IPV4: byte := 0x04
  const TAG_IPV6: byte := 0x06
  const TAG_HELLO: byte := 0x10
  const TAG_SESSION: byte := 0x11
  const TAG_KEEPALIVE: byte := 0x12
  const TAG_REKEY: byte := 0x13
  const TAG_CLOSE: byte := 0x14

  const MAX_IP_PACKET := 65535
  const MAX_STRING_LEN := 255
  const MAX_DNS_ENTRIES := 4
  const X25519_LEN := 32      // section 5 of RFC 7748
  const MLKEM_LEN := 1184     // section 8 of FIPS 203

  /** A net.IP is a byte string of any length; [] is both nil and the empty slice. */
  type IP = seq<byte>

  datatype Hello = Hello(version: uint32, clientId: seq<byte>, cipherSuite: uint32)
  datatype Session = Session(ipv4: IP, ipv6: IP, dns: seq<IP>, mtu: uint32)
  datatype Keepalive = Keepalive(nonce: uint64)
  datatype Rekey = Rekey(x25519: seq<byte>, mlkem: seq<byte>, activateAt: uint64)
  datatype Close = Close(code: uint32, message: seq<byte>)

  /** The tag says which field the codec looks at; a caller may leave that field nil
      and may set the others. */
  datatype Frame = Frame(
    tag: byte,
    packet: Option<seq<byte>>,
    hello: Option<Hello>,
    session: Option<Session>,
    keepalive: Option<Keepalive>,
    rekey: Option<Rekey>,
    close: Option<Close>)

  predicate IsPacketTag(tag: byte) { tag == TAG_IPV4 || tag == TAG_IPV6 }

  function PacketFrame(tag: byte, p: seq<byte>): Frame { Frame(tag, Some(p), None, None, None, None, None) }
  function HelloFrame(h: Hello): Frame { Frame(TAG_HELLO, None, Some(h), None, None, None, None) }
  function SessionFrame(s: Session): Frame { Frame(TAG_SESSION, None, None, Some(s), None, None, None) }
  function KeepaliveFrame(k: Keepalive): Frame { Frame(TAG_KEEPALIVE, None, None, None, Some(k), None, None) }
  function RekeyFrame(r: Rekey): Frame { Frame(TAG_REKEY, None, None, None, None, Some(r), None) }
  function CloseFrame(c: Close): Frame { Frame(TAG_CLOSE, None, None, None, None, None, Some(c)) }

  /** len(f.Packet): a nil slice has length 0. */
  function PacketBytes(f: Frame): (p: seq<byte>) {
    if f.packet.Some? then f.packet.value else []
  }

  // ---- net.IP: To4 and To16 (section 2.5.5.2 of RFC 4291) ----

  const V4_IN_V6_PREFIX: seq<byte> := [0, 0, 0, 0, 0, 0, 0, 0, 0, 0, 0xff, 0xff]

  function To4(ip: IP): (r: IP)
    ensures |r| == 0 || |r| == 4
  {
    if |ip| == 4 then ip
    else if |ip| == 16 && ip[..12] == V4_IN_V6_PREFIX then ip[12..]
    else []
  }

  function To16(ip: IP): (r: IP)
    ensures |r| == 0 || |r| == 16
  {
    if |ip| == 4 then V4_IN_V6_PREFIX + ip
    else if |ip| == 16 then ip
    else []
  }

  function AllTo16(ips: seq<IP>): (r: seq<IP>)
    ensures |r| == |ips|
    ensures forall i :: 0 <= i < |r| ==> r[i] == To16(ips[i])
  {
    seq(|ips|, i requires 0 <= i < |ips| => To16(ips[i]))
  }

  // ---- normal forms: what a reader gets back ----

  function NormalSession(s: Session): Session {
    Session(To4(s.ipv4), To16(s.ipv6), AllTo16(s.dns), s.mtu)
  }

  /** The field the tag selects, normalised, and nothing else. */
  function Normal(f: Frame): Frame {
    if IsPacketTag(f.tag) then PacketFrame(f.tag, PacketBytes(f))
    else Frame(f.tag, None,
               if f.tag == TAG_HELLO then f.hello else None,
               if f.tag == TAG_SESSION && f.session.Some? then Some(NormalSession(f.session.value)) else None,
               if f.tag == TAG_KEEPALIVE then f.keepalive else None,
               if f.tag == TAG_REKEY then f.rekey else None,
               if f.tag == TAG_CLOSE then f.close else None)
  }

  function NormalAll(fs: seq<Frame>): (r: seq<Frame>)
    ensures |r| == |fs|
    ensures forall i :: 0 <= i < |r| ==> r[i] == Normal(fs[i])
  {
    seq(|fs|, i requires 0 <= i < |fs| => Normal(fs[i]))
  }

  lemma NormalSessionIdempotent(s: Session)
    ensures NormalSession(NormalSession(s)) == NormalSession(s)
  {
    assert AllTo16(AllTo16(s.dns)) == AllTo16(s.dns);
  }

  lemma NormalIdempotent(f: Frame)
    ensures Normal(Normal(f)) == Normal(f)
  {
    if f.session.Some? { NormalSessionIdempotent(f.session.value); }
  }
}
