# The tunnel data path, verified

A Dafny model of the path an IP packet takes through the tunnel: from the TUN device through the
two-goroutine pump and the closable tunnel wrapper into the record codec, onto a byte stream, and up
the same stack on the other side; and of the link that configures the interface. The proofs are
about every input, every interleaving and every run; nothing was executed.

`dafny verify dfyconfig.toml` checks the whole project.

## How it is modelled

| file | what it is |
|---|---|
| `Errors.dfy` | Go errors as wrap chains; `errors.Is` walks the chain |
| `Bytes.dfy` | bytes and big-endian integers |
| `Frames.dfy` | the seven record kinds, `To4`/`To16`, and the normal form a reader gets back |
| `Encode.dfy` | what `WriteFrame` emits, its validation verdict, and the valid record a failed write is a prefix of |
| `Decode.dfy` | what `ReadFrame` makes of the bytes to come and of the error behind them |
| `Codec.dfy`, `Truncation.dfy` | printer and parser agree; the outcome of every cut |
| `Format.dfy`, `Framing.dfy` | the wire format in numbers: the bytes of every record, and the outcome of reading any bytes |
| `Streams.dfy` | the codec as it runs, against a writer that fails after any prefix and a reader with any chunk sizes |
| `Wrapper.dfy` | the `closed` flag over the codec, as values and as a class |
| `BufferPool.dfy` | the pool of packet buffers; a buffer is named by its place in memory, so that aliasing is visible |
| `Pump.dfy` | one `Run` as a step machine: up loop, down loop, watcher, errgroup, environment |
| `Trace.dfy`, `Lifecycle.dfy`, `Results.dfy`, `Ownership.dfy`, `Delivery.dfy` | what every run of a pump keeps, and what it returns |
| `Network.dfy`, `EndToEnd.dfy`, `Sizes.dfy`, `Shutdown.dfy` | two pumps joined by two wrapped streams: delivery and framing, the sizes for which it is exact, and when a side is stuck |
| `Cidr.dfy`, `Link.dfy`, `Addresses.dfy` | the address search, the link with its cache, and what its histories do to the interface |

Inputs and assumptions. What a device or a tunnel answers is part of each step, so any device and any
tunnel is covered; MTU and overhead are arbitrary integers. `sync.Pool` hands out any pooled buffer or
a new one and may drop buffers at any time. The errgroup keeps the first non-nil error and cancels its
context with it. `SendFrame` and `Close` are single steps because the wrapper's mutex serialises them.
A nil error from the device's Write means a full write. A reader may return (0, nil) only finitely
often in a row. `net.ParseCIDR` is a predicate that accepts only non-empty strings without white space,
and each CIDR it accepts has one printed form, which is what the kernel's listing shows.
An `addr add` that fails leaves the kernel's addresses alone, and the kernel's addresses are changed by
this link only. A command that the production runner starts fails with `exit status` and a number, and an
interface name has no space in it. `nil` and empty byte slices are one value where the code only looks at the length
(addresses, strings); `Frame.Packet` keeps the difference.

Where the code and its documentation disagree the model follows the code:

- getBuf puts the buffer it is about to return into the pool when the pooled one is too small
  (internal/tunnel/session/pump_linux.go:221-228), and the peer chooses the size: `ObtainKeepsExclusive`,
  `ExclusivityBreaksExactly`, `OversizeCorrupts`, and exactly when: `PoolSizeIsTheBound`, `DeliveryExactly`,
  `TagsExactly`.
- A loop that ends gracefully does not cancel its partner (internal/tunnel/session/pump_linux.go:177-189,
  against internal/contract/session/Pump.go:66-72), so Run need not return when the device, the tunnel or
  the peer closes: `LoneExitHangs`, `TunnelCloseHangs`, `PeerEOFHangs`, `PeerCloseHangs`, and exactly when:
  `StuckExactly`, `ExactCancellation`.
- The wrapper's Close does not end a ReadFrame that is already running: `StuckExactly`, `CancelCanHang`.
- A device read past the closed check may return the operating system's error, and Run is then not nil on
  cancellation: `NilExactly`, `CancelCanFail`.
- ReadFrame does not report ErrShortRead inside the address fields of a Session
  (internal/transport/grpc/tunnelpb/codec.go:166-167, 475-512): `TruncationOutcome`.
- A zero-length packet can be written but not read: `ReadableExactly`.
- Re-adding a CIDR is not always a no-op (internal/tunnel/route/link_linux.go:179-186). Another spelling than the
  kernel prints (upper-case or uncompressed IPv6) is taken for a conflict: `RespelledIsRefused`. The production
  runner leaves the command's output out of its error (internal/tunnel/route/link_linux.go:64-70), so that the
  "File exists" the code looks for is never there and the probe never runs: `UnprobedFails`,
  `RunnerReAddExactly`. Exactly when it is: `ReAddExactly`.
- Two addresses on one interface are not prevented (internal/contract/route/link.go:53-61): Down clears the cache
  while the kernel keeps its addresses, and a new link starts with an empty cache: `TwoAddresses`,
  `RestartTwoAddresses`, and exactly when: `OneAddressExactly`, `MostAddressesExactly`, `ConflictExactly`.

## Model

| member | source | states |
|---|---|---|
| Bytes.GetPut | internal/transport/grpc/tunnelpb/codec.go:128-128 | reading a big-endian integer back gives the number written, at any width it fits |
| Bytes.PutGet | internal/transport/grpc/tunnelpb/codec.go:186-186 | writing a decoded integer back gives the bytes it was read from |
| Frames.NormalSessionIdempotent | internal/transport/grpc/tunnelpb/codec.go:279-292 | normalising the addresses of a Session twice changes nothing |
| Frames.NormalIdempotent | internal/transport/grpc/tunnelpb/codec.go:55-67 | the normal form of a frame is its own normal form |
| Encode.EmitsPrefixOfRecord | internal/transport/grpc/tunnelpb/codec.go:116-164 | what WriteFrame emits is a prefix of a valid record, a strict one if the frame is invalid |
| Encode.RepairDNSExtends | internal/transport/grpc/tunnelpb/codec.go:288-296 | the resolvers written before an invalid one are a strict prefix of a valid list |
| Format.AddressForms | internal/transport/grpc/tunnelpb/codec.go:279-292 | To4 and To16 of a 4-byte address, of its ::ffff: form, of every other 16-byte address, and of everything else |
| Format.AssignedIPv4RoundTrip | internal/transport/grpc/tunnelpb/codec.go:280-282 | an assigned IPv4 address, in 4-byte or ::ffff: form, reads back as its four bytes |
| Format.ResolverRoundTrip | internal/transport/grpc/tunnelpb/codec.go:288-296 | a resolver reads back in its 16-byte form |
| Format.PacketLayout | internal/transport/grpc/tunnelpb/codec.go:118-134 | tags 0x04 and 0x06: two big-endian length bytes and the packet, up to 65535 bytes; ErrFieldTooLong and no byte above |
| Format.HelloLayout | internal/transport/grpc/tunnelpb/codec.go:225-244 | tag 0x10: version, id length, cipher suite, id, byte by byte; which error, and the tag alone, when refused |
| Format.SessionLayout | internal/transport/grpc/tunnelpb/codec.go:265-298 | tag 0x11: resolver count, MTU, the two address fields, resolvers; for each refusal its error and what is already out |
| Format.ResolversLayout | internal/transport/grpc/tunnelpb/codec.go:288-296 | 16 bytes per resolver, each at its place, up to the first that is no address |
| Format.KeepaliveLayout | internal/transport/grpc/tunnelpb/codec.go:335-343 | tag 0x12 and eight big-endian bytes |
| Format.RekeyLayout | internal/transport/grpc/tunnelpb/codec.go:353-376 | tag 0x13, 32 bytes, 1184 bytes, eight big-endian bytes; ErrLengthInvalid for other key lengths |
| Format.CloseLayout | internal/transport/grpc/tunnelpb/codec.go:398-416 | tag 0x14, code, message length, message of at most 255 bytes |
| Format.OtherTags | internal/transport/grpc/tunnelpb/codec.go:161-163 | every other tag: no byte and ErrUnknownTag |
| Framing.ReadFrameExactly | internal/transport/grpc/tunnelpb/codec.go:168-214 | for every byte string and every end of the stream, from the positions of the bytes: a framing error (unknown tag, packet length 0, over 4 resolvers, an address length that is not allowed) with its exact error, a whole record and how many bytes it takes, or the exact error of a short read |
| Framing.FramingErrorInPumpDown | internal/tunnel/session/pump_linux.go:367-384 | pumpDown returns every framing error, with ReasonRecvFrameFailed, and never takes one for an orderly end |
| Decode.ReadFull | internal/transport/grpc/tunnelpb/codec.go:170-170 | a full read succeeds iff enough bytes are there, splits them exactly, and else is starved |
| Decode.ReadDNS | internal/transport/grpc/tunnelpb/codec.go:319-326 | exactly the announced number of 16-byte entries, or ErrShortRead |
| Codec.HelloRoundTrip | internal/transport/grpc/tunnelpb/codec.go:225-263 | readHello undoes writeHello and leaves the bytes behind it |
| Codec.SessionRoundTrip | internal/transport/grpc/tunnelpb/codec.go:265-333 | readSession after writeSession gives the normal form of the Session |
| Codec.KeepaliveRoundTrip | internal/transport/grpc/tunnelpb/codec.go:335-351 | readKeepalive undoes writeKeepalive |
| Codec.RekeyRoundTrip | internal/transport/grpc/tunnelpb/codec.go:353-396 | readRekey undoes writeRekey for keys of 32 and 1184 bytes |
| Codec.CloseRoundTrip | internal/transport/grpc/tunnelpb/codec.go:398-434 | readClose undoes writeClose |
| Codec.IPRoundTrip | internal/transport/grpc/tunnelpb/codec.go:440-512 | an address field reads back as written, unset included |
| Codec.FrameRoundTrip | internal/transport/grpc/tunnelpb/codec.go:116-214 | ReadFrame on a written record gives its normal form and consumes exactly the record, whatever follows |
| Codec.ReadableExactly | internal/transport/grpc/tunnelpb/codec.go:119-134 | an encodable frame reads back iff it is not a zero-length packet, which fails with ErrLengthInvalid |
| Codec.StreamRoundTrip | internal/transport/grpc/tunnelpb/codec.go:168-214 | repeated ReadFrame on any list of records yields the normal forms in order and leaves the rest |
| Codec.FrameCanonical | internal/transport/grpc/tunnelpb/codec.go:168-214 | whatever ReadFrame accepts, WriteFrame reproduces byte for byte; the result is in normal form |
| Codec.SessionCanonical | internal/transport/grpc/tunnelpb/codec.go:300-333 | an accepted Session body is the encoding of the Session it yields |
| Codec.EncodingDeterminesNormalForm | internal/transport/grpc/tunnelpb/codec.go:116-214 | two frames share an encoding iff their normal forms are equal |
| Codec.SessionEncodingDeterminesNormalForm | internal/transport/grpc/tunnelpb/codec.go:265-298 | two Sessions share an encoding iff their normal forms are equal |
| Codec.PrefixFree | internal/transport/grpc/tunnelpb/codec.go:1-18 | no record is a proper prefix of another |
| Codec.FailureIsFinal | internal/transport/grpc/tunnelpb/codec.go:168-214 | a failure that is not lack of bytes is unchanged by any further bytes |
| Codec.TruncatedStarves | internal/transport/grpc/tunnelpb/codec.go:168-214 | a record cut at any point yields no frame, only starvation |
| Codec.InvalidFrameNeverRead | internal/transport/grpc/tunnelpb/codec.go:225-232 | the bytes emitted for an invalid frame, cut by a failing writer anywhere or not, never give a reader a frame |
| Codec.ReadFromPrefix | internal/transport/grpc/tunnelpb/codec.go:168-214 | from any prefix of a record stream a read yields exactly the next whole record or starves |
| Truncation.TruncationOutcome | internal/transport/grpc/tunnelpb/codec.go:166-214 | the exact error for every cut of every record WriteFrame emits, the zero-length packet included, and every error the stream ends with |
| Truncation.TruncationInPumpDown | internal/tunnel/session/pump_linux.go:367-384 | pumpDown ends gracefully iff the stream's error is orderly and shows: before the tag byte unless it becomes ErrShortRead, or in a Session address field unless it is io.EOF in its middle |
| Streams.Sink.Write | internal/transport/grpc/wrapper.go:25-28 | a writer takes everything, or some prefix and fails |
| Streams.Source.Read | internal/transport/grpc/wrapper.go:25-28 | a reader returns any chunk of what is to come and its error only at the end |
| Streams.Source.ReadFull | internal/transport/grpc/tunnelpb/codec.go:170-170 | for any chunk sizes io.ReadFull does what its function says and drains a short stream |
| Streams.PutUint | internal/transport/grpc/tunnelpb/codec.go:127-128 | big-endian bytes in place, nothing else touched |
| Streams.WriteFrame | internal/transport/grpc/tunnelpb/codec.go:116-164 | exactly the specified bytes and verdict; when the writer fails, a prefix of them and the writer's error, wrapped exactly where the prefix ends in the address fields of a Session |
| Streams.WriteHello | internal/transport/grpc/tunnelpb/codec.go:225-244 | as WriteFrame, for the Hello body |
| Streams.WriteSession | internal/transport/grpc/tunnelpb/codec.go:265-298 | as WriteFrame, for the Session body, whose address writes wrap the writer's error |
| Streams.WriteDNS | internal/transport/grpc/tunnelpb/codec.go:288-296 | the loop writes the valid entries in order and stops at the first invalid one |
| Streams.WriteIP | internal/transport/grpc/tunnelpb/codec.go:440-453 | length byte and address, a zero byte if unset, nothing and ErrLengthInvalid for another length |
| Streams.WriteIP16 | internal/transport/grpc/tunnelpb/codec.go:455-473 | the same for the 16-byte form of the address |
| Streams.WriteKeepalive | internal/transport/grpc/tunnelpb/codec.go:335-343 | as WriteFrame, for the Keepalive body |
| Streams.WriteRekey | internal/transport/grpc/tunnelpb/codec.go:353-376 | as WriteFrame, for the Rekey body |
| Streams.WriteClose | internal/transport/grpc/tunnelpb/codec.go:398-416 | as WriteFrame, for the Close body |
| Streams.ReadFrame | internal/transport/grpc/tunnelpb/codec.go:168-214 | for any chunk sizes, the specified frame or error, consuming exactly one record on success |
| Streams.ReadFrames | internal/tunnel/session/pump_linux.go:362-367 | any number of ReadFrame calls in a row, for any chunk sizes, give the specified frames and leave the specified rest |
| Streams.ReadHello | internal/transport/grpc/tunnelpb/codec.go:246-263 | as ReadFrame, for the Hello body |
| Streams.ReadSession | internal/transport/grpc/tunnelpb/codec.go:300-333 | as ReadFrame, for the Session body |
| Streams.ReadDNS | internal/transport/grpc/tunnelpb/codec.go:319-326 | the loop over the resolvers |
| Streams.ReadIP | internal/transport/grpc/tunnelpb/codec.go:475-512 | an address field, wrapping the raw read error |
| Streams.ReadKeepalive | internal/transport/grpc/tunnelpb/codec.go:345-351 | as ReadFrame, for the Keepalive body |
| Streams.ReadRekey | internal/transport/grpc/tunnelpb/codec.go:378-396 | as ReadFrame, for the Rekey body |
| Streams.ReadClose | internal/transport/grpc/tunnelpb/codec.go:418-434 | as ReadFrame, for the Close body |
| Wrapper.ClosedIsFinal | internal/transport/grpc/wrapper.go:44-80 | once closed, any further calls write nothing; sends get ErrClosed, closes get nil |
| Wrapper.WireAfterHistory | internal/transport/grpc/wrapper.go:44-80 | after any calls and failures the wire is the encodings of the successful sends, then at most one record or torn prefix, then nothing ever |
| Wrapper.WriteConsistent | internal/transport/grpc/wrapper.go:50-54 | every write, failed or not, keeps the wire inside the encodings of a list of valid frames |
| Wrapper.Tunnel.SendFrame | internal/transport/grpc/wrapper.go:44-55 | the object does what the value-level step says, keeps its invariant, and reports the writer's own error |
| Wrapper.Tunnel.RecvFrame | internal/transport/grpc/wrapper.go:57-65 | ErrClosed without reading once closed, otherwise exactly ReadFrame; the flag never changes |
| Wrapper.Tunnel.Close | internal/transport/grpc/wrapper.go:67-80 | always closed afterwards, at most one Close record, idempotent |
| BufferPool.Obtain | internal/tunnel/session/pump_linux.go:218-230 | a buffer of at least the wanted size |
| BufferPool.ObtainKeepsExclusive | internal/tunnel/session/pump_linux.go:218-230 | getBuf keeps exclusive ownership iff the pooled buffer is large enough |
| BufferPool.SyncPool.GetBuf | internal/tunnel/session/pump_linux.go:218-230 | the object does what the function says for some choice of pooled or new buffer |
| BufferPool.SyncPool.PutBuf | internal/tunnel/session/pump_linux.go:235-238 | exactly one more pooled buffer |
| Trace.HistoryIsTrue | internal/tunnel/session/pump_linux.go:259-433 | over every run, packets read, frames received, sends, device writes and failed operations with their errors are those of the run's actions, in order |
| Results.ResultExactly | internal/tunnel/session/pump_linux.go:186-189 | what Run returns, from the answers of the device and the tunnel alone: the error of the loop that returned one first, with its literal Reason and the answer as its cause; nil if neither did |
| Results.NilFromAnswers | internal/tunnel/session/pump_linux.go:272-429 | Run is nil iff every failed read or write was tun.ErrClosed or a context error, every failed send or receive transport.ErrClosed, io.EOF or a context error, no frame was nil, and every packet was of version 4 or 6 |
| Errors.IsExactly | internal/tunnel/session/pump_linux.go:274-278 | errors.Is finds exactly the errors of the wrap chain |
| Trace.NilFromActions | internal/tunnel/session/pump_linux.go:272-340 | the result of Run read off its actions: nil iff each operation that failed did so in an orderly way |
| Lifecycle.ExactCancellation | internal/tunnel/session/pump_linux.go:177-189 | gCtx is done iff the caller cancelled, a loop returned an error or Run returned; only then has the watcher closed anything |
| Lifecycle.FirstErrorWins | internal/tunnel/session/pump_linux.go:186-189 | Run returns the first error a loop returned, a PumpError with the Reason of an operation that really failed; nil iff both loops returned nil |
| Lifecycle.FirstErrorStays | internal/tunnel/session/pump_linux.go:186-189 | in any run the recorded error is never replaced |
| Lifecycle.NilExactly | internal/tunnel/session/pump_linux.go:272-340 | Run is nil iff every failed operation failed with an error the taxonomy calls orderly |
| Lifecycle.NilMeansOrderly | internal/tunnel/session/pump_linux.go:118-122 | nil without a cancel means each loop met a Close frame or an orderly error of its own |
| Lifecycle.ShutdownBound | internal/tunnel/session/pump_linux.go:265-433 | after gCtx is done at most 19 program steps remain in any run |
| Shutdown.ShutdownIsShort | internal/tunnel/session/pump_linux.go:165-190 | the same for a side of the joined pumps, in any interleaving with its device, its peer and other users of its tunnel |
| Shutdown.ShutdownEnds | internal/tunnel/session/pump_linux.go:165-190 | from every joined run with gCtx done, however it goes on: when the side can take no more step, Run has returned or pumpDown is parked in ReadFrame on a stream that has not ended |
| Shutdown.ShutdownReturns | internal/tunnel/session/pump_linux.go:165-190 | within 19 steps of its own the side gets there; if the peer's stream has ended, Run returns |
| Shutdown.EndIsReported | internal/transport/grpc/wrapper.go:57-65 | in every run, once the stream has ended with an error and no whole record is left, RecvFrame answers with exactly the error that this and the bytes left over make |
| Shutdown.GoodbyeRecord | internal/tunnel/session/pump_linux.go:178-182 | the watcher's Close of an open tunnel puts one Close record with code 0 and "pump: ctx cancel" behind what was sent |
| Shutdown.WatcherClosesTunnel | internal/tunnel/session/pump_linux.go:178-182 | in every run the tunnel is closed once the watcher has been at it |
| Lifecycle.RankFalls | internal/tunnel/session/pump_linux.go:265-433 | each program step then lowers the rank, no environment step raises it |
| Lifecycle.BoundedTail | internal/tunnel/session/pump_linux.go:265-433 | after gCtx is done at most one more SendFrame and one more device write |
| Ownership.PoolOwnership | internal/tunnel/session/pump_linux.go:196-431 | in every reachable state full capacities, at most two buffers out, getBuf and putBuf matched, and one owner per buffer while received packets fit |
| Ownership.Capacity | internal/tunnel/session/pump_linux.go:184-210 | in every run each pooled or held buffer has at least one byte and at least MTU plus overhead; while received packets fit, every buffer has exactly the larger of the two |
| Ownership.PoolStep | internal/tunnel/session/pump_linux.go:270-431 | no slice expression of either loop is ever out of range |
| Ownership.ExclusivityBreaksExactly | internal/tunnel/session/pump_linux.go:412-412 | a step breaks exclusive ownership iff it is pumpDown's getBuf asking for more than the buffer it is given |
| Delivery.DownMeaning | internal/tunnel/session/pump_linux.go:362-433 | device writes are exactly the packets received before the first Close or error, in order, byte for byte |
| Delivery.ControlFramesAreInvisible | internal/tunnel/session/pump_linux.go:405-410 | any two runs that received the same up to control frames have handed the same packets to their devices |
| Delivery.OversizeAliases | internal/tunnel/session/pump_linux.go:221-228 | for every pool size and every larger packet, a run in which pumpUp and pumpDown hold one buffer |
| Delivery.OversizeCorrupts | internal/tunnel/session/pump_linux.go:221-228 | for every pool size, every larger packet and every other packet of its length, a run in which the other one is written to the device in its place |
| Delivery.OversizeOverwrites | internal/tunnel/session/pump_linux.go:221-228 | the same from every state in which pumpDown has just received such a packet, without any further call of the tunnel |
| Delivery.OversizeMistags | internal/tunnel/session/pump_linux.go:221-228 | from every such state, a continuation in which pumpUp is about to send the peer's packet under the tag of a local one |
| Delivery.PoolSizeIsTheBound | internal/tunnel/session/pump_linux.go:184-230 | pumpDown delivers faithfully in every run with packets of up to n bytes iff n is at most MTU plus overhead, or at most 1 |
| EndToEnd.DeliveredPrefix | internal/tunnel/session/pump_linux.go:184-190 | in every interleaving, packets written to one device are a byte-exact in-order prefix of the non-empty packets read from the other, while received packets fit |
| EndToEnd.NoEmptyWrites | internal/tunnel/session/pump_linux.go:405-416 | in every interleaving, fitting packets or not, no zero-length write ever reaches a device |
| EndToEnd.NoLossAtRest | internal/tunnel/session/pump_linux.go:362-433 | a pumpDown that has caught up with an open wire has written everything the peer's pumpUp sent |
| Sizes.MatchedSizesDeliver | internal/tunnel/session/pump_linux.go:184-184 | with equal MTU plus overhead, or room for the largest packet on both sides, packets fit and delivery is exact in every run |
| Sizes.SmallerSideCorrupts | internal/tunnel/session/pump_linux.go:184-230 | for all other sizes, a joined run in which the smaller side writes a packet that the other device never delivered |
| Sizes.DeliveryExactly | internal/tunnel/session/pump_linux.go:184-230 | delivery is faithful in every run iff MTU plus overhead is the same on both sides, at most 1 on both, or at least 65535 on both |
| EndToEnd.TagsFollowVersion | internal/tunnel/session/pump_linux.go:297-322 | in every interleaving, while what a side receives fits, every packet on its wire and every one its peer received has the packet's version nibble as its tag |
| Sizes.TagsExactly | internal/tunnel/session/pump_linux.go:184-322 | that holds of both wires in every run iff the sizes match as in DeliveryExactly |
| EndToEnd.FramingInSync | internal/tunnel/session/pump_linux.go:367-394 | every ReadFrame starts at a record boundary, yields the peer's next frame or starves, and never meets a framing error |
| EndToEnd.ReadNext | internal/transport/grpc/wrapper.go:57-65 | from a boundary a read consumes exactly one record of the peer's log |
| EndToEnd.SendOk | internal/transport/grpc/wrapper.go:44-55 | packets enter the wire only through a send of a valid packet frame, and the wire only grows |
| Shutdown.StuckExactly | internal/transport/grpc/wrapper.go:57-80 | until Run has returned a side cannot move on its own iff, before gCtx is done, each loop has ended or is blocked in dev.Read on an open device or in ReadFrame on a silent stream, and one is left; after it, iff all else has ended and pumpDown sits in ReadFrame on a silent stream |
| Shutdown.StuckExactlyInRuns | internal/tunnel/session/pump_linux.go:177-190 | the same for both sides in every run of the joined pumps |
| Shutdown.SidesReachable | internal/tunnel/session/pump_linux.go:136-190 | each side of a joined run is a run of its pump |
| Shutdown.CancelCanFail | internal/tunnel/tun/tun_linux.go:147-152 | for all sizes and every error that is not an orderly one, a joined run in which only a cancel happens and Run returns that read error |
| Shutdown.CancelCanHang | internal/transport/grpc/wrapper.go:67-80 | for all sizes, a joined run with a silent peer in which after a cancel device and tunnel are closed and Run still waits |
| Shutdown.LoneExitHangs | internal/contract/session/Pump.go:66-72 | a joined run in which the device is closed, pumpUp returns nil and Run still waits |
| Shutdown.PeerEOFHangs | internal/contract/session/Pump.go:69-70 | a joined run in which the peer's stream ends with io.EOF, pumpDown returns nil and Run still waits in dev.Read |
| Shutdown.TunnelCloseHangs | internal/contract/session/Pump.go:68-68 | the same after another user's Close of the local tunnel |
| Shutdown.PeerCloseHangs | internal/tunnel/session/pump_linux.go:395-404 | the same after the peer's Close frame, whatever its code and message |
| Cidr.Lines | internal/tunnel/route/link_linux.go:270-270 | splitting at newlines: no line has one, joining gives the text back |
| Cidr.ContainsCIDR | internal/tunnel/route/link_linux.go:269-277 | true iff some line of the output matches |
| Cidr.TokensAreOccurrences | internal/tunnel/route/link_linux.go:258-268 | a word is a token of a line iff it occurs delimited by spaces or the ends |
| Cidr.TokenEquality | internal/tunnel/route/link_linux.go:271-272 | on a well-formed line the substring search is equality with a token after the first |
| Cidr.OutputTokenEquality | internal/tunnel/route/link_linux.go:269-277 | the same for the whole output, line by line |
| Link.LinuxLink.Up | internal/tunnel/route/link_linux.go:146-155 | one command, its error mapped, the cache untouched |
| Link.LinuxLink.Down | internal/tunnel/route/link_linux.go:159-175 | one command, the cache cleared iff it succeeded |
| Link.LinuxLink.AddAddress | internal/tunnel/route/link_linux.go:191-256 | the exact commands, cache and result in every branch |
| Link.ProbeIsExact | internal/tunnel/route/link_linux.go:236-251 | the probe finds the address in the listing iff the kernel has it and the caller spells it as the kernel does |
| Link.ReAddExactly | internal/tunnel/route/link_linux.go:179-186 | re-adding an address the kernel has changes no address, and returns nil iff the cache has the same spelling, or it is empty and the kernel accepts the address again or says "File exists", lists it, and prints it as the caller spells it |
| Link.ConflictExactly | internal/contract/route/link.go:53-61 | adding a different address to an interface that has one is refused as a conflict iff the cache is not empty, or the kernel says "File exists" and lists its addresses |
| Link.UpExactly | internal/tunnel/route/link_linux.go:146-175 | over every history the interface is up iff the last Up or Down to return nil was an Up |
| Link.ReasonsExactly | internal/tunnel/route/link_linux.go:191-256 | each Reason is returned exactly for its own cause: a CIDR that does not parse, a failed command, a failed add without "File exists" or without a listing |
| Link.CacheAgreement | internal/tunnel/route/link_linux.go:146-256 | over every history a non-empty cache names an address the kernel has, and at most one `addr add` succeeds between successful Downs |
| Link.RecordedIsFinal | internal/tunnel/route/link_linux.go:201-214 | once recorded, AddAddress runs no command until a Down succeeds, accepts that address and refuses every other |
| Addresses.AddressBound | internal/tunnel/route/link_linux.go:146-256 | over every history the interface has at most its first addresses, one per successful Down, and one more |
| Addresses.AddressesAccumulate | internal/tunnel/route/link_linux.go:159-175 | any list of unused addresses can all be added with nil, a Down between each two |
| Addresses.MostAddressesExactly | internal/tunnel/route/link_linux.go:146-256 | the interface never carries more than n addresses iff its first ones plus the Downs plus one are at most n |
| Addresses.OneAddressExactly | internal/contract/route/link.go:53-61 | one address per interface holds of every history iff the interface had none at first and no Down succeeds |
| Addresses.TwoAddresses | internal/tunnel/route/link_linux.go:167-173 | a history in which a Down lets a second address onto the interface |
| Addresses.RestartTwoAddresses | internal/tunnel/route/link_linux.go:127-130 | a history without a Down in which a new link adds a second address to an interface that has one |
| Addresses.RespelledIsRefused | internal/tunnel/route/link_linux.go:236-255 | for every accepted CIDR not in printed form, a history in which AddAddress accepts it and after a Down refuses it as a conflict |
| Addresses.UnprobedFails | internal/tunnel/route/link_linux.go:217-234 | for every accepted CIDR and every error text without "File exists", a history in which the second AddAddress of it fails |
| Addresses.RunnerTextExactly | internal/tunnel/route/link_linux.go:59-72 | the production runner's error says "File exists" iff the cause of the failed exec does |
| Addresses.RunnerReAddExactly | internal/tunnel/route/link_linux.go:59-72 | with the production runner the probe never runs, and re-adding returns nil iff the cache has the same spelling or the kernel accepts the address again |

## Left out

- pumpUp and pumpDown are steps of a state machine, not loops in a method: they run concurrently on shared memory.
- The device's Read, Write and Close are steps of the same machine (flag check, then operating system call); opening a device, its MTU query and name are not modelled.
- The nil-device, nil-tunnel and MTU-error returns at the start of Run: single branches with constant results.
- A stream whose Write blocks for ever: SendFrame holds the wrapper's mutex meanwhile, which would also hold up the watcher's Close.
- Short device writes that return nil: pumpDown ignores the count.
- The default for BufferOverhead (0 becomes 32): MTU and overhead are arbitrary, so that the sum is too.
- Message texts, Op strings and the Error() formatting of the typed errors.
- LinkError for an empty interface name and Options defaults; the executor is arbitrary, and of the os/exec runner only the error text is modelled.
- Streams.Source.Read: a reader that returns (0, nil) for ever is not modelled, because io.ReadFull does not terminate on it.
- Host probes, preflight, other platforms' stubs, mocks; handshake, encryption and routing, which exist only in documents.
- Timing and allocation claims about the pool.
