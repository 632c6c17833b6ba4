/** What WriteFrame hands to its writer.
    `Emit(f)` is every byte WriteFrame writes when the writer never fails, and
    `Verdict(f)` the validation error it then ends with. For an invalid frame some
    bytes may already be out when the error is found. */
module Encode {
  import opened Errors
  import opened Bytes
  import opened Frames

  // errors.New values of the codec, told apart only by number
  const NIL_RECORD := Plain(1)
  const BAD_DNS := Plain(2)

  // ---- Hello ----

  function HelloVerdict(h: Option<Hello>): Option<Error> {
    if h.None? then Some(NIL_RECORD)
    else if |h.value.clientId| > MAX_STRING_LEN then Some(Wrap(FieldTooLong))
    else None
  }

  function HelloBytes(h: Hello): (b: seq<byte>)
    requires |h.clientId| <= MAX_STRING_LEN
  {
    Put(h.version, 4) + [|h.clientId|] + Put(h.cipherSuite, 4) + h.clientId
  }

  function EmitHello(h: Option<Hello>): seq<byte> {
    if HelloVerdict(h).Some? then [] else HelloBytes(h.value)
  }

  // ---- Session ----

  function IPBytes(ip: IP): (b: seq<byte>)
    requires |ip| < 256
  {
    if ip == [] then [0] else [|ip|] + ip
  }

  /** A non-empty address that is neither 4 nor 16 bytes long. */
  predicate BadIP(ip: IP) { ip != [] && To16(ip) == [] }

  /** The resolver entries up to the first one that is not an address. */
  function EmitDNS(dns: seq<IP>): seq<byte> {
    if dns == [] || To16(dns[0]) == [] then [] else To16(dns[0]) + EmitDNS(dns[1..])
  }

  predicate DNSValid(dns: seq<IP>) {
    forall i :: 0 <= i < |dns| ==> To16(dns[i]) != []
  }

  function SessionVerdict(s: Option<Session>): Option<Error> {
    if s.None? then Some(NIL_RECORD)
    else if |s.value.dns| > MAX_DNS_ENTRIES then Some(Wrap(FieldTooLong))
    else AddressesVerdict(s.value)
  }

  function AddressesVerdict(s: Session): Option<Error> {
    if BadIP(s.ipv6) then Some(Wrap(Wrap(LengthInvalid)))
    else if !DNSValid(s.dns) then Some(BAD_DNS)
    else None
  }

  function SessionHead(s: Session): (b: seq<byte>)
    requires |s.dns| <= MAX_DNS_ENTRIES
    ensures |b| == 5
  {
    [|s.dns|] + Put(s.mtu, 4)
  }

  function EmitSession(s: Option<Session>): seq<byte> {
    if s.None? || |s.value.dns| > MAX_DNS_ENTRIES then []
    else SessionHead(s.value) + EmitAddresses(s.value)
  }

  function EmitAddresses(s: Session): seq<byte> {
    IPBytes(To4(s.ipv4)) + (if BadIP(s.ipv6) then [] else IPBytes(To16(s.ipv6)) + EmitDNS(s.dns))
  }

  // ---- Keepalive, Rekey, Close ----

  function KeepaliveVerdict(k: Option<Keepalive>): Option<Error> {
    if k.None? then Some(NIL_RECORD) else None
  }

  function EmitKeepalive(k: Option<Keepalive>): seq<byte> {
    if k.None? then [] else Put(k.value.nonce, 8)
  }

  function RekeyVerdict(r: Option<Rekey>): Option<Error> {
    if r.None? then Some(NIL_RECORD)
    else if |r.value.x25519| != X25519_LEN || |r.value.mlkem| != MLKEM_LEN then Some(Wrap(LengthInvalid))
    else None
  }

  function EmitRekey(r: Option<Rekey>): seq<byte> {
    if RekeyVerdict(r).Some? then [] else r.value.x25519 + r.value.mlkem + Put(r.value.activateAt, 8)
  }

  function CloseVerdict(c: Option<Close>): Option<Error> {
    if c.None? then Some(NIL_RECORD)
    else if |c.value.message| > MAX_STRING_LEN then Some(Wrap(FieldTooLong))
    else None
  }

  function CloseBytes(c: Close): (b: seq<byte>)
    requires |c.message| <= MAX_STRING_LEN
  {
    Put(c.code, 4) + [|c.message|] + c.message
  }

  function EmitClose(c: Option<Close>): seq<byte> {
    if CloseVerdict(c).Some? then [] else CloseBytes(c.value)
  }

  // ---- frames ----

  function BodyVerdict(f: Frame): Option<Error> {
    if f.tag == TAG_HELLO then HelloVerdict(f.hello)
    else if f.tag == TAG_SESSION then SessionVerdict(f.session)
    else if f.tag == TAG_KEEPALIVE then KeepaliveVerdict(f.keepalive)
    else if f.tag == TAG_REKEY then RekeyVerdict(f.rekey)
    else if f.tag == TAG_CLOSE then CloseVerdict(f.close)
    else Some(Wrap(UnknownTag))
  }

  function EmitBody(f: Frame): seq<byte> {
    if f.tag == TAG_HELLO then EmitHello(f.hello)
    else if f.tag == TAG_SESSION then EmitSession(f.session)
    else if f.tag == TAG_KEEPALIVE then EmitKeepalive(f.keepalive)
    else if f.tag == TAG_REKEY then EmitRekey(f.rekey)
    else if f.tag == TAG_CLOSE then EmitClose(f.close)
    else []
  }

  predicate IsControlTag(tag: byte) { TAG_HELLO <= tag <= TAG_CLOSE }

  function Verdict(f: Frame): Option<Error> {
    if !IsPacketTag(f.tag) then BodyVerdict(f)
    else if |PacketBytes(f)| > MAX_IP_PACKET then Some(Wrap(FieldTooLong))
    else None
  }

  function PacketRecord(tag: byte, p: seq<byte>): seq<byte> {
    [tag] + Put(|p|, 2) + p
  }

  function Emit(f: Frame): seq<byte> {
    if IsPacketTag(f.tag) then
      if |PacketBytes(f)| > MAX_IP_PACKET then [] else PacketRecord(f.tag, PacketBytes(f))
    else if IsControlTag(f.tag) then [f.tag] + EmitBody(f)
    else []
  }

  predicate Encodable(f: Frame) { Verdict(f).None? }

  /** Encodable, and not the zero-length packet that every reader rejects. */
  predicate Readable(f: Frame) {
    Encodable(f) && (IsPacketTag(f.tag) ==> PacketBytes(f) != [])
  }

  predicate AllReadable(fs: seq<Frame>) {
    forall i :: 0 <= i < |fs| ==> Readable(fs[i])
  }

  function EmitAll(fs: seq<Frame>): seq<byte> {
    if fs == [] then [] else Emit(fs[0]) + EmitAll(fs[1..])
  }

  lemma {:induction false} EmitAllConcat(xs: seq<Frame>, ys: seq<Frame>)
    ensures EmitAll(xs + ys) == EmitAll(xs) + EmitAll(ys)
  {
    if xs == [] {
      assert xs + ys == ys;
    } else {
      assert (xs + ys)[1..] == xs[1..] + ys;
      EmitAllConcat(xs[1..], ys);
    }
  }

  lemma EmitAllSnoc(xs: seq<Frame>, f: Frame)
    ensures EmitAll(xs + [f]) == EmitAll(xs) + Emit(f)
  {
    EmitAllConcat(xs, [f]);
    assert EmitAll([f]) == Emit(f) + EmitAll([]);
  }

  // ---- the record a failed write was a prefix of ----

  function RepairHello(h: Option<Hello>): Hello {
    if HelloVerdict(h).None? then h.value else Hello(0, [], 0)
  }

  function RepairDNS(dns: seq<IP>): (r: seq<IP>)
    ensures |r| == |dns|
    ensures forall i :: 0 <= i < |r| ==> r[i] == if To16(dns[i]) == [] then Zeros(16) else dns[i]
  {
    seq(|dns|, i requires 0 <= i < |dns| => if To16(dns[i]) == [] then Zeros(16) else dns[i])
  }

  function RepairSession(s: Option<Session>): Session {
    if s.None? || |s.value.dns| > MAX_DNS_ENTRIES then Session([], [], [], 0)
    else Session(s.value.ipv4, if BadIP(s.value.ipv6) then [] else s.value.ipv6, RepairDNS(s.value.dns), s.value.mtu)
  }

  function RepairRekey(r: Option<Rekey>): Rekey {
    if RekeyVerdict(r).None? then r.value else Rekey(Zeros(X25519_LEN), Zeros(MLKEM_LEN), 0)
  }

  function RepairClose(c: Option<Close>): Close {
    if CloseVerdict(c).None? then c.value else Close(0, [])
  }

  /** A valid frame whose encoding starts with whatever WriteFrame emits for `f`;
      `f` itself when `f` is valid. */
  function Repair(f: Frame): Frame {
    if Verdict(f).None? then f
    else if f.tag == TAG_HELLO then HelloFrame(RepairHello(f.hello))
    else if f.tag == TAG_SESSION then SessionFrame(RepairSession(f.session))
    else if f.tag == TAG_REKEY then RekeyFrame(RepairRekey(f.rekey))
    else if f.tag == TAG_CLOSE then CloseFrame(RepairClose(f.close))
    else KeepaliveFrame(Keepalive(0))
  }

  lemma {:induction false} RepairDNSExtends(dns: seq<IP>)
    ensures DNSValid(RepairDNS(dns))
    ensures EmitDNS(dns) <= EmitDNS(RepairDNS(dns))
    ensures !DNSValid(dns) ==> |EmitDNS(dns)| < |EmitDNS(RepairDNS(dns))|
  {
    if dns != [] {
      var r := RepairDNS(dns);
      RepairDNSExtends(dns[1..]);
      assert r[1..] == RepairDNS(dns[1..]);
      assert EmitDNS(r) == To16(r[0]) + EmitDNS(r[1..]);
      if To16(dns[0]) != [] && DNSValid(dns[1..]) {
        assert DNSValid(dns) by {
          forall i | 0 <= i < |dns| ensures To16(dns[i]) != [] {
            if i > 0 { assert dns[i] == dns[1..][i - 1]; }
          }
        }
      }
    }
  }

  lemma RepairSessionExtends(s: Option<Session>)
    ensures SessionVerdict(Some(RepairSession(s))).None?
    ensures s.Some? && |s.value.dns| <= MAX_DNS_ENTRIES ==> EmitSession(s) <= EmitSession(Some(RepairSession(s)))
    ensures SessionVerdict(s).Some? ==> |EmitSession(s)| < |EmitSession(Some(RepairSession(s)))|
  {
    if s.Some? {
      RepairDNSExtends(s.value.dns);
    }
  }

  /** Failed writes are prefixes: whatever WriteFrame has emitted when it finds the frame
      invalid is a strict prefix of the encoding of some valid, readable frame. */
  lemma EmitsPrefixOfRecord(f: Frame)
    ensures Encodable(Repair(f))
    ensures Emit(f) <= Emit(Repair(f))
    ensures !Encodable(f) ==> Readable(Repair(f)) && |Emit(f)| < |Emit(Repair(f))|
  {
    if f.tag == TAG_SESSION {
      RepairSessionExtends(f.session);
    }
  }
}
