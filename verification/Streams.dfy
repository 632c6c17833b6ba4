/** WriteFrame and ReadFrame as they run: against a writer that may fail after any number
    of bytes and a reader that may return any chunk sizes. Each method is tied to the
    functions of `Encode` and `Decode`. */
module Streams {
  import opened Errors
  import opened Bytes
  import opened Frames
  import opened Encode
  import Decode

  /** An io.Writer. `data` is what has reached the other end of the stream. */
  class Sink {
    var data: seq<byte>
    var raised: Option<Error>     // the error of the write that failed

    constructor ()
      ensures data == [] && raised.None?
    {
      data, raised := [], None;
    }

    /** Either everything is written, or some prefix is and an error comes back. */
    method Write(p: seq<byte>) returns (err: Option<Error>)
      modifies this
      ensures err.None? ==> data == old(data) + p && raised == old(raised)
      ensures err.Some? ==> raised == err && old(data) <= data <= old(data) + p
    {
      var ok: bool := *;
      if ok {
        data, err := data + p, None;
      } else {
        var n: nat :| n <= |p|;
        var e: Error := *;
        data, raised, err := data + p[..n], Some(e), Some(e);
      }
    }
  }

  /** An io.Reader that delivers `data` and then reports `end`. Its chunk sizes are arbitrary;
      it may return (0, nil), but only `idle` more times, and it may report `end` together
      with the last bytes or after them. */
  class Source {
    var data: seq<byte>
    var idle: nat
    const end: Error

    constructor (data: seq<byte>, end: Error, idle: nat)
      ensures this.data == data && this.end == end && this.idle == idle
    {
      this.data, this.end, this.idle := data, end, idle;
    }

    method Read(k: nat) returns (chunk: seq<byte>, err: Option<Error>)
      requires k > 0
      modifies this
      ensures old(data) == chunk + data && |chunk| <= k
      ensures err.Some? ==> err.value == end && data == []
      ensures err.None? ==> if chunk == [] then idle < old(idle) else idle == old(idle)
    {
      var stutter: bool := *;
      if stutter && idle > 0 {
        idle, chunk, err := idle - 1, [], None;
      } else if data == [] {
        chunk, err := [], Some(end);
      } else {
        var n: nat :| 1 <= n <= k && n <= |data|;
        chunk, data := data[..n], data[n..];
        var last: bool := *;
        err := if last && data == [] then Some(end) else None;
      }
    }

    /** The loop of io.ReadFull: reads until `buf` is full or the reader fails. */
    method Fill(buf: array<byte>) returns (n: nat, e: Option<Error>)
      modifies this, buf
      ensures n <= buf.Length && buf[..n] + data == old(data)
      ensures n < buf.Length ==> e == Some(end) && data == []
    {
      n, e := 0, None;
      while n < buf.Length && e.None?
        invariant n <= buf.Length && buf[..n] + data == old(data)
        invariant e.Some? ==> e.value == end && data == []
        decreases e.None?, buf.Length - n, idle
      {
        var chunk;
        ghost var before := buf[..n];
        chunk, e := Read(buf.Length - n);
        forall i | 0 <= i < |chunk| { buf[n + i] := chunk[i]; }
        assert buf[..n + |chunk|] == before + chunk;
        n := n + |chunk|;
      }
    }

    /** io.ReadFull. */
    method ReadFull(buf: array<byte>) returns (err: Option<Error>)
      modifies this, buf
      ensures match Decode.ReadFull(old(data), end, buf.Length)
              case Ok(v, rest) => err.None? && buf[..] == v && data == rest
              case Bad(e, _) => err == Some(e) && data == []
    {
      var n, e := Fill(buf);
      assert buf[..n] == old(data)[..n] && data == old(data)[n..];
      if n >= buf.Length {
        err := None;
      } else if n > 0 && e.value == EOF {
        err := Some(UnexpectedEOF);
      } else {
        err := e;
      }
    }
  }

  /** binary.BigEndian.PutUint16, PutUint32, PutUint64: `n` bytes of `x` at `off`. */
  method PutUint(a: array<byte>, off: nat, n: nat, x: nat)
    requires off + n <= a.Length
    modifies a
    ensures a[off..off + n] == Put(x, n)
    ensures a[..off] == old(a[..off]) && a[off + n..] == old(a[off + n..])
  {
    var v: nat, i: nat := x, n;
    while i > 0
      invariant i <= n && Put(x, n) == Put(v, i) + a[off + i..off + n]
      invariant a[..off] == old(a[..off]) && a[off + n..] == old(a[off + n..])
    {
      i := i - 1;
      ghost var tail := a[off + i + 1..off + n];
      a[off + i] := v % 256;
      assert a[off + i..off + n] == [v % 256] + tail;
      v := v / 256;
    }
  }

  /** Outcome of a write that emits `bytes` and then ends with `verdict`, unless the writer
      fails first; where nothing is written, nothing can fail. The writer's error comes back as it is,
      except between the positions `lo` and `hi`, where it comes back wrapped. */
  predicate WroteIn(before: seq<byte>, after: seq<byte>, raised: Option<Error>, err: Option<Error>,
                    bytes: seq<byte>, verdict: Option<Error>, lo: nat, hi: nat)
  {
    match raised
    case None => err == verdict && after == before + bytes
    case Some(e) =>
      && bytes != [] && before <= after <= before + bytes
      && var n := |after| - |before|;
         (err == Some(e) && (n <= lo || hi <= n)) || (err == Some(Wrap(e)) && lo <= n <= hi && lo < hi)
  }

  predicate Wrote(before: seq<byte>, after: seq<byte>, raised: Option<Error>, err: Option<Error>,
                  bytes: seq<byte>, verdict: Option<Error>)
  {
    WroteIn(before, after, raised, err, bytes, verdict, 0, 0)
  }

  /** Outcome of a read that should do what `spec` says. */
  predicate Agrees<T(==)>(spec: Decode.Parse<T>, value: Option<T>, err: Option<Error>, rest: seq<byte>) {
    match spec
    case Ok(v, r) => value == Some(v) && err.None? && rest == r
    case Bad(e, _) => err == Some(e)
  }

  // ---- writers ----

  /** Two writes in a row; the second only if the first succeeded. */
  method WriteBoth(w: Sink, a: seq<byte>, b: seq<byte>) returns (err: Option<Error>)
    requires w.raised.None? && a != []
    modifies w
    ensures Wrote(old(w.data), w.data, w.raised, err, a + b, None)
  {
    err := w.Write(a);
    if err.Some? { return; }
    err := w.Write(b);
  }

  method WriteHello(w: Sink, h: Option<Hello>) returns (err: Option<Error>)
    requires w.raised.None?
    modifies w
    ensures Wrote(old(w.data), w.data, w.raised, err, EmitHello(h), HelloVerdict(h))
  {
    if h.None? { return Some(NIL_RECORD); }
    var id := h.value.clientId;
    if |id| > MAX_STRING_LEN { return Some(Wrap(FieldTooLong)); }
    var head := new byte[9];
    PutUint(head, 0, 4, h.value.version);
    head[4] := |id|;
    assert head[0..4] == Put(h.value.version, 4);
    PutUint(head, 5, 4, h.value.cipherSuite);
    assert head[..] == head[..5][0..4] + [head[..5][4]] + head[5..9];
    assert head[..] == Put(h.value.version, 4) + [|id|] + Put(h.value.cipherSuite, 4);
    err := WriteBoth(w, head[..], id);
  }

  /** writeIP and writeIP16 refuse a non-empty address that is not `want` bytes long. */
  function IPVerdict(ip: IP, want: byte): Option<Error> {
    if |ip| == 0 || |ip| == want then None else Some(Wrap(LengthInvalid))
  }

  function EmitIP(ip: IP, want: byte): seq<byte> {
    if IPVerdict(ip, want).None? then IPBytes(ip) else []
  }

  method WriteIP(w: Sink, ip: IP, want: byte) returns (err: Option<Error>)
    requires w.raised.None?
    modifies w
    ensures Wrote(old(w.data), w.data, w.raised, err, EmitIP(ip, want), IPVerdict(ip, want))
  {
    if |ip| == 0 {
      err := w.Write([0]);
      return;
    }
    if |ip| != want { return Some(Wrap(LengthInvalid)); }
    err := WriteBoth(w, [want], ip);
  }

  lemma UnsetTo16(ip: IP)
    ensures ip == [] ==> To16(ip) == []
  {
  }

  method WriteIP16(w: Sink, ip: IP, want: byte) returns (err: Option<Error>)
    requires w.raised.None?
    modifies w
    ensures Wrote(old(w.data), w.data, w.raised, err,
                  if BadIP(ip) then [] else EmitIP(To16(ip), want),
                  if BadIP(ip) then Some(Wrap(LengthInvalid)) else IPVerdict(To16(ip), want))
  {
    hide To16;
    UnsetTo16(ip);
    if |ip| == 0 {
      err := w.Write([0]);
      return;
    }
    var v6 := To16(ip);
    if |v6| == 0 { return Some(Wrap(LengthInvalid)); }
    if |v6| != want { return Some(Wrap(LengthInvalid)); }
    err := WriteBoth(w, [want], v6);
  }

  /** The loop over the resolvers. */
  method WriteDNS(w: Sink, dns: seq<IP>) returns (err: Option<Error>)
    requires w.raised.None?
    modifies w
    ensures Wrote(old(w.data), w.data, w.raised, err, EmitDNS(dns), if DNSValid(dns) then None else Some(BAD_DNS))
  {
    for i := 0 to |dns|
      invariant w.raised.None?
      invariant old(w.data) <= w.data
      invariant forall j :: 0 <= j < i ==> To16(dns[j]) != []
      invariant w.data + EmitDNS(dns[i..]) == old(w.data) + EmitDNS(dns)
    {
      var ip := To16(dns[i]);
      assert EmitDNS(dns[i..]) == if ip == [] then [] else ip + EmitDNS(dns[i..][1..]);
      assert dns[i..][1..] == dns[i + 1..];
      if ip == [] { return Some(BAD_DNS); }
      ghost var before := w.data;
      assert before + ip + EmitDNS(dns[i + 1..]) == old(w.data) + EmitDNS(dns);
      err := w.Write(ip);
      if err.Some? { return; }
      assert w.data + EmitDNS(dns[i + 1..]) == before + EmitDNS(dns[i..]);
    }
    err := None;
  }

  /** How many bytes the two address fields take. */
  function AddressSpan(s: Session): nat {
    |IPBytes(To4(s.ipv4))| + (if BadIP(s.ipv6) then 0 else |IPBytes(To16(s.ipv6))|)
  }

  /** A failed write of `b` behind `a`, with its error wrapped, as part of a longer one. */
  lemma WrappedInside(before: seq<byte>, a: seq<byte>, after: seq<byte>, raised: Option<Error>, err: Option<Error>,
                      b: seq<byte>, c: seq<byte>, verdict: Option<Error>, hi: nat)
    requires raised.Some? && Wrote(before + a, after, raised, err, b, None) && |a + b| <= hi
    ensures WroteIn(before, after, raised, Some(Wrap(err.value)), a + b + c, verdict, 0, hi)
  {
    assert before + a + b + c == before + (a + b + c);
  }

  /** A write of `c` behind `a`, its error as it is. */
  lemma BareBehind(before: seq<byte>, a: seq<byte>, after: seq<byte>, raised: Option<Error>, err: Option<Error>,
                   c: seq<byte>, verdict: Option<Error>)
    requires Wrote(before + a, after, raised, err, c, verdict)
    ensures WroteIn(before, after, raised, err, a + c, verdict, 0, |a|)
  {
    assert before + a + c == before + (a + c);
  }

  lemma FourIsFour(ip: IP)
    ensures IPVerdict(To4(ip), 4).None? && EmitIP(To4(ip), 4) == IPBytes(To4(ip))
  {
  }

  lemma SixteenIsSixteen(ip: IP)
    ensures IPVerdict(To16(ip), 16).None? && EmitIP(To16(ip), 16) == IPBytes(To16(ip))
  {
  }

  /** The part of writeSession after the five head bytes. */
  method WriteAddresses(w: Sink, s: Session) returns (err: Option<Error>)
    requires w.raised.None?
    modifies w
    ensures WroteIn(old(w.data), w.data, w.raised, err, EmitAddresses(s), AddressesVerdict(s), 0, AddressSpan(s))
  {
    hide EmitDNS, DNSValid, To4, To16, IPBytes, EmitIP, IPVerdict, BadIP, WroteIn;
    ghost var start, verdict, span := w.data, AddressesVerdict(s), AddressSpan(s);
    ghost var v4, v6 := IPBytes(To4(s.ipv4)), if BadIP(s.ipv6) then [] else IPBytes(To16(s.ipv6));
    ghost var dns := if BadIP(s.ipv6) then [] else EmitDNS(s.dns);
    assert EmitAddresses(s) == v4 + v6 + dns && span == |v4 + v6|;
    FourIsFour(s.ipv4);
    SixteenIsSixteen(s.ipv6);
    err := WriteIP(w, To4(s.ipv4), 4);
    Unfold(start, w.data, w.raised, err, v4, None);
    if err.Some? {
      assert start + [] == start && [] + v4 == v4;
      WrappedInside(start, [], w.data, w.raised, err, v4, v6 + dns, verdict, span);
      assert v4 + (v6 + dns) == v4 + v6 + dns;
      return Some(Wrap(err.value));
    }
    err := WriteIP16(w, s.ipv6, 16);
    Unfold(start + v4, w.data, w.raised, err, v6, if BadIP(s.ipv6) then Some(Wrap(LengthInvalid)) else None);
    if err.Some? {
      if w.raised.Some? {
        WrappedInside(start, v4, w.data, w.raised, err, v6, dns, verdict, span);
      } else {
        NotRaised(start, w.data, Some(Wrap(err.value)), EmitAddresses(s), verdict, span);
      }
      return Some(Wrap(err.value));
    }
    assert start + v4 + v6 == start + (v4 + v6);
    err := WriteDNS(w, s.dns);
    BareBehind(start, v4 + v6, w.data, w.raised, err, dns, verdict);
  }

  /** A write that raised nothing has done all it should; one that did has something to write. */
  lemma Unfold(before: seq<byte>, after: seq<byte>, raised: Option<Error>, err: Option<Error>,
               bytes: seq<byte>, verdict: Option<Error>)
    requires Wrote(before, after, raised, err, bytes, verdict)
    ensures raised.None? ==> err == verdict && after == before + bytes
    ensures raised.Some? ==> err.Some? && bytes != [] && Wrote(before, after, raised, err, bytes, None)
  {
  }

  lemma NotRaised(before: seq<byte>, after: seq<byte>, err: Option<Error>, bytes: seq<byte>, verdict: Option<Error>,
                  hi: nat)
    requires err == verdict && after == before + bytes
    ensures WroteIn(before, after, None, err, bytes, verdict, 0, hi)
  {
  }

  method BuildSessionHead(s: Session) returns (head: array<byte>)
    requires |s.dns| <= MAX_DNS_ENTRIES
    ensures fresh(head) && head[..] == SessionHead(s)
  {
    hide Put;
    head := new byte[5];
    head[0] := |s.dns|;
    PutUint(head, 1, 4, s.mtu);
    assert head[..] == head[..1] + head[1..5];
  }

  /** A successful write in front of another one. */
  lemma WroteAfter(before: seq<byte>, a: seq<byte>, after: seq<byte>, raised: Option<Error>, err: Option<Error>,
                   b: seq<byte>, verdict: Option<Error>, lo: nat, hi: nat)
    requires WroteIn(before + a, after, raised, err, b, verdict, lo, hi)
    ensures WroteIn(before, after, raised, err, a + b, verdict, |a| + lo, |a| + hi)
  {
    assert before + (a + b) == before + a + b;
  }

  /** Where the address fields of a Session end. */
  function SessionSpan(s: Option<Session>): nat { if s.None? then 5 else 5 + AddressSpan(s.value) }

  method WriteSession(w: Sink, s: Option<Session>) returns (err: Option<Error>)
    requires w.raised.None?
    modifies w
    ensures WroteIn(old(w.data), w.data, w.raised, err, EmitSession(s), SessionVerdict(s), 5, SessionSpan(s))
  {
    hide EmitAddresses, AddressesVerdict, SessionHead, AddressSpan;
    if s.None? { return Some(NIL_RECORD); }
    if |s.value.dns| > MAX_DNS_ENTRIES { return Some(Wrap(FieldTooLong)); }
    var head := BuildSessionHead(s.value);
    err := w.Write(head[..]);
    if err.Some? { return; }
    err := WriteAddresses(w, s.value);
    WroteAfter(old(w.data), head[..], w.data, w.raised, err, EmitAddresses(s.value), AddressesVerdict(s.value),
               0, AddressSpan(s.value));
  }

  method WriteKeepalive(w: Sink, k: Option<Keepalive>) returns (err: Option<Error>)
    requires w.raised.None?
    modifies w
    ensures Wrote(old(w.data), w.data, w.raised, err, EmitKeepalive(k), KeepaliveVerdict(k))
  {
    if k.None? { return Some(NIL_RECORD); }
    var buf := new byte[8];
    PutUint(buf, 0, 8, k.value.nonce);
    assert buf[..] == buf[0..8];
    err := w.Write(buf[..]);
  }

  method WriteRekey(w: Sink, r: Option<Rekey>) returns (err: Option<Error>)
    requires w.raised.None?
    modifies w
    ensures Wrote(old(w.data), w.data, w.raised, err, EmitRekey(r), RekeyVerdict(r))
  {
    if r.None? { return Some(NIL_RECORD); }
    var v := r.value;
    if |v.x25519| != X25519_LEN { return Some(Wrap(LengthInvalid)); }
    if |v.mlkem| != MLKEM_LEN { return Some(Wrap(LengthInvalid)); }
    err := w.Write(v.x25519);
    if err.Some? { return; }
    err := w.Write(v.mlkem);
    if err.Some? { return; }
    var buf := new byte[8];
    PutUint(buf, 0, 8, v.activateAt);
    assert buf[..] == buf[0..8];
    err := w.Write(buf[..]);
  }

  method WriteClose(w: Sink, c: Option<Close>) returns (err: Option<Error>)
    requires w.raised.None?
    modifies w
    ensures Wrote(old(w.data), w.data, w.raised, err, EmitClose(c), CloseVerdict(c))
  {
    if c.None? { return Some(NIL_RECORD); }
    var v := c.value;
    if |v.message| > MAX_STRING_LEN { return Some(Wrap(FieldTooLong)); }
    var head := new byte[5];
    PutUint(head, 0, 4, v.code);
    head[4] := |v.message|;
    assert head[0..4] == Put(v.code, 4);
    assert head[..] == head[0..4] + [head[4]];
    err := WriteBoth(w, head[..], v.message);
  }

  method WritePacket(w: Sink, tag: byte, p: seq<byte>) returns (err: Option<Error>)
    requires w.raised.None? && |p| <= MAX_IP_PACKET
    modifies w
    ensures Wrote(old(w.data), w.data, w.raised, err, PacketRecord(tag, p), None)
  {
    err := w.Write([tag]);
    if err.Some? { return; }
    var lenBuf := new byte[2];
    PutUint(lenBuf, 0, 2, |p|);
    assert lenBuf[..] == lenBuf[0..2];
    err := w.Write(lenBuf[..]);
    if err.Some? { return; }
    err := w.Write(p);
  }

  /** Where the address fields of a record's body start and end; nowhere, for records other than Session. */
  function BodyStart(f: Frame): nat { if f.tag == TAG_SESSION then 5 else 0 }
  function BodyEnd(f: Frame): nat { if f.tag == TAG_SESSION then SessionSpan(f.session) else 0 }

  /** The same behind the tag. */
  function WrapStart(f: Frame): nat { 1 + BodyStart(f) }
  function WrapEnd(f: Frame): nat { 1 + BodyEnd(f) }

  /** The part of WriteFrame behind the tag of a control record. */
  method WriteBody(w: Sink, f: Frame) returns (err: Option<Error>)
    requires w.raised.None? && IsControlTag(f.tag)
    modifies w
    ensures WroteIn(old(w.data), w.data, w.raised, err, EmitBody(f), BodyVerdict(f), BodyStart(f), BodyEnd(f))
  {
    hide EmitHello, EmitSession, EmitKeepalive, EmitRekey, EmitClose, HelloVerdict, SessionVerdict, KeepaliveVerdict,
         RekeyVerdict, CloseVerdict, SessionSpan;
    if f.tag == TAG_HELLO {
      err := WriteHello(w, f.hello);
    } else if f.tag == TAG_SESSION {
      err := WriteSession(w, f.session);
    } else if f.tag == TAG_KEEPALIVE {
      err := WriteKeepalive(w, f.keepalive);
    } else if f.tag == TAG_REKEY {
      err := WriteRekey(w, f.rekey);
    } else {
      err := WriteClose(w, f.close);
    }
  }

  /** WriteFrame emits exactly `Emit(f)` and ends with `Verdict(f)`, unless the writer fails;
      then some prefix of `Emit(f)` is out and the writer's error comes back, wrapped if the prefix
      ends in the address fields of a Session. */
  method WriteFrame(w: Sink, f: Frame) returns (err: Option<Error>)
    requires w.raised.None?
    modifies w
    ensures WroteIn(old(w.data), w.data, w.raised, err, Emit(f), Verdict(f), WrapStart(f), WrapEnd(f))
  {
    hide EmitBody, BodyVerdict, SessionSpan;
    if IsPacketTag(f.tag) {
      if |PacketBytes(f)| > MAX_IP_PACKET { return Some(Wrap(FieldTooLong)); }
      err := WritePacket(w, f.tag, PacketBytes(f));
      return;
    }
    if !IsControlTag(f.tag) {
      OtherVerdict(f);
      return Some(Wrap(UnknownTag));
    }
    err := w.Write([f.tag]);
    if err.Some? { return; }
    err := WriteBody(w, f);
    WroteAfter(old(w.data), [f.tag], w.data, w.raised, err, EmitBody(f), BodyVerdict(f), BodyStart(f), BodyEnd(f));
  }

  lemma OtherVerdict(f: Frame)
    requires !IsControlTag(f.tag)
    ensures BodyVerdict(f) == Some(Wrap(UnknownTag))
  {
  }

  // ---- readers ----

  method ReadHello(r: Source) returns (h: Option<Hello>, err: Option<Error>)
    modifies r
    ensures Agrees(Decode.ReadHello(old(r.data), r.end), h, err, r.data)
  {
    var head := new byte[9];
    err := r.ReadFull(head);
    if err.Some? { return None, Some(Wrap(ShortRead)); }
    var id := new byte[head[4]];
    if head[4] > 0 {
      err := r.ReadFull(id);
      if err.Some? { return None, Some(Wrap(ShortRead)); }
    }
    assert id[..] == if head[4] > 0 then id[..] else [];
    h := Some(Hello(Uint32(head[0..4]), id[..], Uint32(head[5..9])));
  }

  method ReadIP(r: Source, want: byte) returns (ip: Option<IP>, err: Option<Error>)
    modifies r
    ensures Agrees(Decode.ReadIP(old(r.data), r.end, want), ip, err, r.data)
  {
    var lenBuf := new byte[1];
    err := r.ReadFull(lenBuf);
    if err.Some? { return None, Some(Wrap(err.value)); }
    assert lenBuf[..][0] == lenBuf[0];
    if lenBuf[0] == 0 { return Some([]), None; }
    if lenBuf[0] != want { return None, Some(Wrap(LengthInvalid)); }
    var buf := new byte[want];
    err := r.ReadFull(buf);
    if err.Some? { return None, Some(Wrap(err.value)); }
    ip := Some(buf[..]);
  }

  /** The loop of readSession over the resolvers. */
  method ReadDNS(r: Source, count: nat) returns (dns: Option<seq<IP>>, err: Option<Error>)
    modifies r
    ensures Agrees(Decode.ReadDNS(old(r.data), r.end, count), dns, err, r.data)
  {
    hide Decode.ReadFull;
    var ips: seq<IP> := [];
    assert forall xs: seq<IP> :: ips + xs == xs;
    for i := 0 to count
      invariant |ips| == i
      invariant var rest := Decode.ReadDNS(r.data, r.end, count - i);
                var whole := Decode.ReadDNS(old(r.data), r.end, count);
                if rest.Ok? then whole == Decode.Ok(ips + rest.value, rest.rest) else whole == rest
    {
      ghost var before := r.data;
      var buf := new byte[16];
      err := r.ReadFull(buf);
      if err.Some? { return None, Some(Wrap(ShortRead)); }
      ghost var rest := Decode.ReadDNS(r.data, r.end, count - i - 1);
      assert rest.Ok? ==> ips + ([buf[..]] + rest.value) == (ips + [buf[..]]) + rest.value;
      ips := ips + [buf[..]];
    }
    dns, err := Some(ips), None;
    assert ips + [] == ips;
  }

  method ReadSession(r: Source) returns (s: Option<Session>, err: Option<Error>)
    modifies r
    ensures Agrees(Decode.ReadSession(old(r.data), r.end), s, err, r.data)
  {
    hide Decode.ReadIP, Decode.ReadDNS;
    var head := new byte[5];
    err := r.ReadFull(head);
    if err.Some? { return None, Some(Wrap(ShortRead)); }
    assert head[..][0] == head[0] && head[..][1..5] == head[1..5];
    if head[0] > MAX_DNS_ENTRIES { return None, Some(Wrap(FieldTooLong)); }
    var mtu := Uint32(head[1..5]);
    var v4; v4, err := ReadIP(r, 4);
    if err.Some? { return None, Some(Wrap(err.value)); }
    var v6; v6, err := ReadIP(r, 16);
    if err.Some? { return None, Some(Wrap(err.value)); }
    var dns; dns, err := ReadDNS(r, head[0]);
    if err.Some? { return None, err; }
    s := Some(Session(v4.value, v6.value, dns.value, mtu));
  }

  method ReadKeepalive(r: Source) returns (k: Option<Keepalive>, err: Option<Error>)
    modifies r
    ensures Agrees(Decode.ReadKeepalive(old(r.data), r.end), k, err, r.data)
  {
    var buf := new byte[8];
    err := r.ReadFull(buf);
    if err.Some? { return None, Some(Wrap(ShortRead)); }
    k := Some(Keepalive(Uint64(buf[..])));
  }

  method ReadRekey(r: Source) returns (rk: Option<Rekey>, err: Option<Error>)
    modifies r
    ensures Agrees(Decode.ReadRekey(old(r.data), r.end), rk, err, r.data)
  {
    hide Decode.ReadFull, Uint64;
    var x := new byte[X25519_LEN];
    err := r.ReadFull(x);
    if err.Some? { return None, Some(Wrap(ShortRead)); }
    var m := new byte[MLKEM_LEN];
    err := r.ReadFull(m);
    if err.Some? { return None, Some(Wrap(ShortRead)); }
    var buf := new byte[8];
    err := r.ReadFull(buf);
    if err.Some? { return None, Some(Wrap(ShortRead)); }
    rk := Some(Rekey(x[..], m[..], Uint64(buf[..])));
  }

  method ReadClose(r: Source) returns (c: Option<Close>, err: Option<Error>)
    modifies r
    ensures Agrees(Decode.ReadClose(old(r.data), r.end), c, err, r.data)
  {
    var head := new byte[5];
    err := r.ReadFull(head);
    if err.Some? { return None, Some(Wrap(ShortRead)); }
    assert head[..][4] == head[4] && head[..][0..4] == head[0..4];
    var msg := new byte[head[4]];
    if head[4] > 0 {
      err := r.ReadFull(msg);
      if err.Some? { return None, Some(Wrap(ShortRead)); }
    }
    assert msg[..] == if head[4] > 0 then msg[..] else [];
    c := Some(Close(Uint32(head[0..4]), msg[..]));
  }

  method ReadPacket(r: Source) returns (p: Option<seq<byte>>, err: Option<Error>)
    modifies r
    ensures Agrees(Decode.ReadPacket(old(r.data), r.end), p, err, r.data)
  {
    var lenBuf := new byte[2];
    err := r.ReadFull(lenBuf);
    if err.Some? { return None, Some(Wrap(ShortRead)); }
    var n := Uint16(lenBuf[..]);
    if n == 0 { return None, Some(Wrap(LengthInvalid)); }
    var buf := new byte[n];
    err := r.ReadFull(buf);
    if err.Some? { return None, Some(Wrap(ShortRead)); }
    p := Some(buf[..]);
  }

  /** ReadFrame does what `Decode.ReadFrame` says, whatever the chunk sizes, and consumes
      exactly one record when it succeeds. */
  method ReadFrame(r: Source) returns (f: Option<Frame>, err: Option<Error>)
    modifies r
    ensures Agrees(Decode.ReadFrame(old(r.data), r.end), f, err, r.data)
  {
    hide Decode.ReadHello, Decode.ReadSession, Decode.ReadKeepalive, Decode.ReadRekey, Decode.ReadClose,
         Decode.ReadPacket, Decode.Lift;
    var tagBuf := new byte[1];
    err := r.ReadFull(tagBuf);
    if err.Some? {
      if Is(err.value, EOF) { return None, Some(EOF); }
      if Is(err.value, UnexpectedEOF) { return None, Some(Wrap(ShortRead)); }
      return None, err;
    }
    var tag := tagBuf[0];
    assert tagBuf[..][0] == tag;
    assert old(r.data)[0] == tag && r.data == old(r.data)[1..];
    if IsPacketTag(tag) {
      var p; p, err := ReadPacket(r);
      f := if err.None? then Some(PacketFrame(tag, p.value)) else None;
    } else if tag == TAG_HELLO {
      var h; h, err := ReadHello(r);
      f := Some(Frame(tag, None, h, None, None, None, None));
    } else if tag == TAG_SESSION {
      var s; s, err := ReadSession(r);
      f := Some(Frame(tag, None, None, s, None, None, None));
    } else if tag == TAG_KEEPALIVE {
      var k; k, err := ReadKeepalive(r);
      f := Some(Frame(tag, None, None, None, k, None, None));
    } else if tag == TAG_REKEY {
      var rk; rk, err := ReadRekey(r);
      f := Some(Frame(tag, None, None, None, None, rk, None));
    } else if tag == TAG_CLOSE {
      var c; c, err := ReadClose(r);
      f := Some(Frame(tag, None, None, None, None, None, c));
    } else {
      f, err := None, Some(Wrap(UnknownTag));
    }
  }

  /** `n` calls of ReadFrame in a row, as pumpDown makes them: for any chunk sizes the frames and the
      bytes left over are those of `Decode.ReadFrames`. */
  method ReadFrames(r: Source, n: nat) returns (fs: Option<seq<Frame>>, err: Option<Error>)
    modifies r
    ensures Agrees(Decode.ReadFrames(old(r.data), r.end, n), fs, err, r.data)
  {
    hide Decode.ReadFrame;
    var got: seq<Frame> := [];
    assert forall xs: seq<Frame> :: got + xs == xs;
    for i := 0 to n
      invariant var rest := Decode.ReadFrames(r.data, r.end, n - i);
                var whole := Decode.ReadFrames(old(r.data), r.end, n);
                if rest.Ok? then whole == Decode.Ok(got + rest.value, rest.rest) else whole == rest
    {
      var f;
      f, err := ReadFrame(r);
      if err.Some? { return None, err; }
      ghost var rest := Decode.ReadFrames(r.data, r.end, n - i - 1);
      assert rest.Ok? ==> got + ([f.value] + rest.value) == (got + [f.value]) + rest.value;
      got := got + [f.value];
    }
    fs, err := Some(got), None;
    assert got + [] == got;
  }
}
