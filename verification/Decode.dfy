/** What ReadFrame does with a byte stream: `bs` are the bytes still to come and `end`
    is the error the reader reports after them. */
module Decode {
  import opened Errors
  import opened Bytes
  import opened Frames

  /** `starved`: the failure came from running out of bytes, so more bytes could change it. */
  datatype Parse<+T> = Ok(value: T, rest: seq<byte>) | Bad(err: Error, starved: bool)

  /** io.ReadFull. An EOF after some but not all bytes becomes ErrUnexpectedEOF. */
  function ReadFull(bs: seq<byte>, end: Error, k: nat): (r: Parse<seq<byte>>)
    ensures r.Ok? <==> k <= |bs|
    ensures r.Ok? ==> |r.value| == k && bs == r.value + r.rest
    ensures r.Bad? ==> r.starved
  {
    if k <= |bs| then Ok(bs[..k], bs[k..])
    else Bad(if bs != [] && end == EOF then UnexpectedEOF else end, true)
  }

  lemma ReadFullOf(a: seq<byte>, b: seq<byte>, end: Error)
    ensures ReadFull(a + b, end, |a|) == Ok(a, b)
  {
    assert (a + b)[..|a|] == a && (a + b)[|a|..] == b;
  }

  /** The %w-ErrShortRead, %v-cause wrapping of almost every field read. */
  function ReadField(bs: seq<byte>, end: Error, k: nat): (r: Parse<seq<byte>>)
    ensures r.Ok? <==> k <= |bs|
    ensures r.Ok? ==> |r.value| == k && bs == r.value + r.rest && r == ReadFull(bs, end, k)
    ensures r.Bad? ==> r == Bad(Wrap(ShortRead), true)
  {
    var r := ReadFull(bs, end, k);
    if r.Ok? then r else Bad(Wrap(ShortRead), true)
  }

  function ReadHello(bs: seq<byte>, end: Error): (r: Parse<Hello>)
    ensures r.Bad? ==> r == Bad(Wrap(ShortRead), true)
  {
    match ReadField(bs, end, 9)
    case Bad(e, s) => Bad(e, s)
    case Ok(head, r1) =>
      match ReadField(r1, end, head[4])
      case Bad(e, s) => Bad(e, s)
      case Ok(id, r2) => Ok(Hello(Uint32(head[0..4]), id, Uint32(head[5..9])), r2)
  }

  /** readIP and readIP16: the only fields whose read error is kept with %w. */
  function ReadIP(bs: seq<byte>, end: Error, want: nat): (r: Parse<IP>)
    ensures r.Ok? ==> |r.value| == 0 || |r.value| == want
  {
    match ReadFull(bs, end, 1)
    case Bad(e, s) => Bad(Wrap(e), s)
    case Ok(len, r1) =>
      if len[0] == 0 then Ok([], r1)
      else if len[0] != want then Bad(Wrap(LengthInvalid), false)
      else
        match ReadFull(r1, end, want)
        case Bad(e, s) => Bad(Wrap(e), s)
        case Ok(ip, r2) => Ok(ip, r2)
  }

  function ReadDNS(bs: seq<byte>, end: Error, count: nat): (r: Parse<seq<IP>>)
    ensures r.Ok? ==> |r.value| == count && forall i :: 0 <= i < count ==> |r.value[i]| == 16
    ensures r.Bad? ==> r == Bad(Wrap(ShortRead), true)
  {
    if count == 0 then Ok([], bs)
    else
      match ReadField(bs, end, 16)
      case Bad(e, s) => Bad(e, s)
      case Ok(ip, r1) =>
        match ReadDNS(r1, end, count - 1)
        case Bad(e, s) => Bad(e, s)
        case Ok(ips, r2) => Ok([ip] + ips, r2)
  }

  /** The part of readSession after the five head bytes. */
  function ReadAddresses(bs: seq<byte>, end: Error, count: nat, mtu: uint32): Parse<Session> {
    match ReadIP(bs, end, 4)
    case Bad(e, s) => Bad(Wrap(e), s)
    case Ok(v4, r2) =>
      match ReadIP(r2, end, 16)
      case Bad(e, s) => Bad(Wrap(e), s)
      case Ok(v6, r3) =>
        match ReadDNS(r3, end, count)
        case Bad(e, s) => Bad(e, s)
        case Ok(dns, r4) => Ok(Session(v4, v6, dns, mtu), r4)
  }

  function ReadSession(bs: seq<byte>, end: Error): Parse<Session> {
    match ReadField(bs, end, 5)
    case Bad(e, s) => Bad(e, s)
    case Ok(head, r1) =>
      if head[0] > MAX_DNS_ENTRIES then Bad(Wrap(FieldTooLong), false)
      else ReadAddresses(r1, end, head[0], Uint32(head[1..5]))
  }

  function ReadKeepalive(bs: seq<byte>, end: Error): (r: Parse<Keepalive>)
    ensures r.Bad? ==> r == Bad(Wrap(ShortRead), true)
  {
    match ReadField(bs, end, 8)
    case Bad(e, s) => Bad(e, s)
    case Ok(b, r) => Ok(Keepalive(Uint64(b)), r)
  }

  function ReadRekey(bs: seq<byte>, end: Error): (r: Parse<Rekey>)
    ensures r.Bad? ==> r == Bad(Wrap(ShortRead), true)
  {
    match ReadField(bs, end, X25519_LEN)
    case Bad(e, s) => Bad(e, s)
    case Ok(x, r1) =>
      match ReadField(r1, end, MLKEM_LEN)
      case Bad(e, s) => Bad(e, s)
      case Ok(m, r2) =>
        match ReadField(r2, end, 8)
        case Bad(e, s) => Bad(e, s)
        case Ok(b, r3) => Ok(Rekey(x, m, Uint64(b)), r3)
  }

  function ReadClose(bs: seq<byte>, end: Error): (r: Parse<Close>)
    ensures r.Bad? ==> r == Bad(Wrap(ShortRead), true)
  {
    match ReadField(bs, end, 5)
    case Bad(e, s) => Bad(e, s)
    case Ok(head, r1) =>
      match ReadField(r1, end, head[4])
      case Bad(e, s) => Bad(e, s)
      case Ok(msg, r2) => Ok(Close(Uint32(head[0..4]), msg), r2)
  }

  function ReadPacket(bs: seq<byte>, end: Error): Parse<seq<byte>> {
    match ReadField(bs, end, 2)
    case Bad(e, s) => Bad(e, s)
    case Ok(len, r1) =>
      if Uint16(len) == 0 then Bad(Wrap(LengthInvalid), false)
      else ReadField(r1, end, Uint16(len))
  }

  function Lift<T, U>(p: Parse<T>, f: T -> U): (r: Parse<U>)
    ensures r.Ok? <==> p.Ok?
    ensures r.Ok? ==> r.value == f(p.value) && r.rest == p.rest
    ensures r.Bad? ==> r == Bad(p.err, p.starved)
  {
    match p
    case Bad(e, s) => Bad(e, s)
    case Ok(v, r) => Ok(f(v), r)
  }

  /** The switch of ReadFrame, after the tag byte. */
  function ReadBody(tag: byte, bs: seq<byte>, end: Error): Parse<Frame> {
    if IsPacketTag(tag) then Lift(ReadPacket(bs, end), p => PacketFrame(tag, p))
    else if tag == TAG_HELLO then Lift(ReadHello(bs, end), h => HelloFrame(h))
    else if tag == TAG_SESSION then Lift(ReadSession(bs, end), s => SessionFrame(s))
    else if tag == TAG_KEEPALIVE then Lift(ReadKeepalive(bs, end), k => KeepaliveFrame(k))
    else if tag == TAG_REKEY then Lift(ReadRekey(bs, end), r => RekeyFrame(r))
    else if tag == TAG_CLOSE then Lift(ReadClose(bs, end), c => CloseFrame(c))
    else Bad(Wrap(UnknownTag), false)
  }

  /** ReadFrame. Before the tag byte the reader's own error passes through unwrapped:
      io.EOF, or whatever else ended the stream. */
  function ReadFrame(bs: seq<byte>, end: Error): Parse<Frame> {
    if bs == [] then Bad(if Is(end, EOF) then EOF else if Is(end, UnexpectedEOF) then Wrap(ShortRead) else end, true)
    else ReadBody(bs[0], bs[1..], end)
  }

  /** `n` calls of ReadFrame in a row: the frames, and what is left. */
  function ReadFrames(bs: seq<byte>, end: Error, n: nat): Parse<seq<Frame>>
    decreases n
  {
    if n == 0 then Ok([], bs)
    else
      match ReadFrame(bs, end)
      case Bad(e, s) => Bad(e, s)
      case Ok(f, r) =>
        match ReadFrames(r, end, n - 1)
        case Bad(e, s) => Bad(e, s)
        case Ok(fs, rest) => Ok([f] + fs, rest)
  }
}
