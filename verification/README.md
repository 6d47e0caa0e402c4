# A verified model of the VSP1 protocol stack

This project models the VSP1 framing stack and its transport in Dafny and proves what it promises:
that encoder and decoder are exact inverses, that the incremental decoder computes the same messages
however a byte stream is cut up, that text validation is exactly UTF-8, that binary scripts read back
what was written, that no socket handle leaks or is closed twice, and that a message sent over one
connection arrives in order, once, and whole.

| file | contents |
|---|---|
| `Options.dfy`, `Words.dfy` | optional values; bytes, `size_t` with an unspecified maximum of at least 32 bits, big-endian integers |
| `Types.dfy`, `Frame.dfy` | messages and limits; the wire image, the probe and the decoding functions |
| `Codec.dfy` | the encoder, the validator, the probe and the decoders with their loops |
| `FrameTheorems.dfy` | round trip, canonicity, stability of verdicts, prefix-freeness, exact errors |
| `Completion.dfy` | when exactly an incomplete input can still become a frame |
| `Stream.dfy` | the abstract decoder and the class `StreamDecoder` (buffer, cursor, compaction) |
| `StreamTheorems.dfy` | runs of the decoder against a one-shot reference parser; failing closed; never wedged; cost |
| `Admission.dfy` | the largest chunk a drained decoder is sure to admit, exactly, for all limits |
| `Utf8.dfy` | the validator against well-formedness stated on Unicode scalar values |
| `Binary.dfy` | the bounded writer and reader, and scripts of typed operations |
| `Sockets.dfy` | the operating system as a nondeterministic oracle, and what conserving handles means |
| `Backoff.dfy`, `Tcp.dfy`, `Udp.dfy` | reconnection delays, TCP streams and listeners, UDP sockets |
| `Ownership.dfy`, `Process.dfy` | handle ownership over every run of any number of objects; programs over the classes shown to be such runs |
| `EndToEnd.dfy`, `Transfer.dfy` | sender, channel and receiver as a step system with progress, and as the classes composed |

How to read it. Code that computes a value is a function; code that loops or updates an object is a
method or a class whose postconditions tie the new state to a function of the old one. Sizes are of
type `Size`; `Plus` and `Minus` carry preconditions, so that every addition and subtraction of sizes in
the encoder, the probe, the decoder and the stream buffer is proved not to wrap. Narrowing casts are the
functions `Narrow16` and `Narrow32`. Calls into the operating system may succeed or fail at will; what a
caller does in time (name queries, finished connection attempts, sleeps) is an entry in a log, and so is
each answer of the system, so that a contract can say that a failure is the system's own. Where the
source leaves a value undefined (signed overflow, a look-ahead beyond the address space) the value is
arbitrary, and the contracts say when that happens. All statements hold for every value of `SIZE_MAX`
from 32 bits upwards, all limits and all inputs.

Five things the proofs bring out about the code:

- A receiver that keeps offering the same rejected chunk can be stuck for good. A drained decoder admits
  every chunk of at most `max_buffered_bytes` less the length of the longest incomplete input, a closed
  expression in the limits, and behind such an input it rejects every longer chunk (`SmallChunkAdmitted`,
  `LargeChunkWedges`). On a connection with an encoder at the other end, reads of at most
  `max_buffered_bytes` less all but one byte of the longest frame both sides allow never get a run stuck,
  and with any larger read some run is stuck for good (`EveryRunSettles`, `LargerReadSticks`).
- The doubling in `reconnect` may overflow for a valid policy (`ValidMayOverflow`). A run of n attempts
  overflows exactly when one of its first n - 1 delays exceeds half the tick range, so the longest run
  does exactly when its last doubling does (`Reconnect`, `OverflowExactly`).
- A cached UDP destination is not resolved again. Sending to it over an open socket asks nothing and hands
  a datagram over exactly when the socket has the cached address's family; after close and bind with
  another family a send to that endpoint therefore fails (`SendTo`, `SendRebindSend`, `MismatchHappens`).
- "Incomplete" does not promise that a frame can follow: one wrong byte, or a header that declares bytes of
  extensions but no extension, is incomplete although no frame starts with it (`ByteWithoutHope`,
  `HeaderWithoutHope`). A frame can follow exactly when the bytes present leave room for one, a condition
  computed from them (`CompletableExactly`).
- The text validator's look-ahead can wrap exactly on spans of `SIZE_MAX - 1` bytes or more
  (`ValidUtf8`, `WrapsExactly`).

## Model

| member | source | states |
|---|---|---|
| Words.AppendBigEndian | include/vosp/protocol/frame.hpp:37-52 | The shift-mask-push loop appends exactly the big-endian bytes of the value's low bits |
| Words.ReadBigEndian | include/vosp/protocol/frame.hpp:54-76 | The accumulate loop, truncating at each step to the integer's width, returns the number the bytes denote: nothing is ever cut off |
| Words.ValueOfBigEndian | include/vosp/protocol/frame.hpp:42-76 | Reading back a written integer of any width gives the value, if it fits the width |
| Words.BigEndianOfValue | include/vosp/protocol/frame.hpp:42-76 | Every byte string is the encoding of the number read from it |
| Codec.SumExtensions | include/vosp/protocol/frame.hpp:116-127 | The guarded accumulation of extension sizes never wraps, gives the exact sum, and gives up only when the sum exceeds the limit |
| Codec.Encode | include/vosp/protocol/frame.hpp:99-165 | Exact encodability: success if and only if limits are valid, payload and count are within limits, the TLV bytes are within the limit and 65503, and the total within the frame limit; then the result is the wire image, of the computed length; which error otherwise |
| Codec.Serialize | include/vosp/protocol/frame.hpp:145-164 | The append sequence with its narrowing casts produces the wire image |
| Codec.ValidateExtensions | include/vosp/protocol/frame.hpp:280-301 | The validator's cursor loop, without size underflow, accepts exactly the headers whose TLV section parses |
| Codec.DecodeExtensions | include/vosp/protocol/frame.hpp:255-267 | The decoder's separate cursor loop recovers exactly the extensions the validator saw |
| Codec.Inspect | include/vosp/protocol/frame.hpp:167-226 | The probe, with its checked arithmetic and the validator's loop run on the header bytes, computes the verdict that the theorems below are about |
| Codec.DecodePrefix | include/vosp/protocol/frame.hpp:241-277 | The prefix decoder, running probe, validator and decoding loop, computes the decoding function that the theorems below are about |
| Codec.DecodeWhole | include/vosp/protocol/frame.hpp:228-239 | The exact decoder, running the prefix decoder, computes the function characterised by `DecodesExactlyWhole` and `DecodeErrorsExactly` |
| FrameTheorems.HeaderLayout | docs/WIRE_FORMAT.md:6-19 | Each header field lies at its documented offset with its documented width |
| FrameTheorems.FrameLayout | docs/WIRE_FORMAT.md:18-22 | In every frame each extension's ID, 16-bit size and value follow one another behind the fixed header, in order, and the payload starts at the header size and comes last |
| FrameTheorems.ReadOfWrite | include/vosp/protocol/frame.hpp:147-156 | Reading a written fixed header gives back all nine fields and the magic |
| FrameTheorems.WriteOfRead | include/vosp/protocol/frame.hpp:184-187 | A fixed header with the right magic is spelled by its fields alone |
| FrameTheorems.TlvsOfBytes | include/vosp/protocol/frame.hpp:255-267 | Decoding the TLV bytes of any list of extensions returns that list, in order |
| FrameTheorems.BytesOfTlvs | include/vosp/protocol/frame.hpp:280-301 | A section that decodes is the encoding of what it decodes to, has the declared count, and all values fit 16 bits |
| FrameTheorems.HeaderIsExact | include/vosp/protocol/frame.hpp:134-155 | For an encodable message no narrowing cast loses bits |
| FrameTheorems.RoundTrip | include/vosp/protocol/frame.hpp:228-277 | For every encodable message and any bytes after its frame, prefix decoding returns the message, unknown flags and IDs included, and the frame length; exact decoding accepts if and only if nothing follows |
| FrameTheorems.Canonicity | include/vosp/protocol/frame.hpp:241-301 | Whatever prefix decoding accepts is encodable under the same limits and re-encodes to exactly the consumed bytes |
| FrameTheorems.DecodesExactlyFrames | include/vosp/protocol/frame.hpp:241-277 | Prefix decoding returns (m, n) if and only if m is encodable, n is its frame length and its frame starts the input |
| FrameTheorems.DecodesExactlyWhole | include/vosp/protocol/frame.hpp:228-239 | Exact decoding returns m if and only if m is encodable and the input is its frame |
| FrameTheorems.DecodeErrorsExactly | include/vosp/protocol/frame.hpp:228-239 | Exact decoding reports trailing data if and only if a frame is followed by something, insufficient data if and only if the input is incomplete, and every other error if and only if the bytes deserve it |
| FrameTheorems.DecodedErrorsExactly | include/vosp/protocol/frame.hpp:241-251 | Prefix decoding reports insufficient data if and only if the input is incomplete, and every other error if and only if the bytes deserve it |
| FrameTheorems.PrefixFree | include/vosp/protocol/frame.hpp:99-165 | No frame is a prefix of another message's frame, even across different limits |
| FrameTheorems.ProbeStable | include/vosp/protocol/frame.hpp:167-226 | An error or ready verdict is the same on every extension of the input |
| FrameTheorems.ProperPrefixIncomplete | include/vosp/protocol/frame.hpp:167-226 | Every proper prefix of an encoded frame is incomplete, never an error |
| FrameTheorems.ErrorMeansNoFrame | include/vosp/protocol/frame.hpp:167-226 | After an error verdict no encodable frame starts the input or extends it |
| FrameTheorems.ErrorsExactly | include/vosp/protocol/frame.hpp:167-218 | Each error code if and only if: invalid limits; not the letters VSP1; a bad fixed header or a section that is no list of so many TLVs; sizes beyond the limits |
| FrameTheorems.IncompleteExactly | include/vosp/protocol/frame.hpp:167-226 | An input is incomplete if and only if it deserves no error and no encodable frame starts it |
| FrameTheorems.ProbeSizes | include/vosp/protocol/frame.hpp:175-225 | Before the fixed header is there the frame size is 0 and 32 bytes are required; from then on both are the declared header and payload sizes, and the state says whether so many bytes are there |
| FrameTheorems.IncompleteIsExact | include/vosp/protocol/frame.hpp:208-223 | With the header complete, an incomplete input is a proper prefix of an encodable frame of the reported size |
| Completion.CompletableExactly | include/vosp/protocol/frame.hpp:173-223 | An incomplete input is a proper prefix of some encodable frame if and only if a condition on its bytes holds: the right magic, a least header that fits the limits, a TLV section that can still be filled |
| Completion.Grow | include/vosp/protocol/frame.hpp:280-301 | A partial TLV section that meets the condition is the start of extensions of exactly the declared count and size |
| Completion.StartCanGrow | include/vosp/protocol/frame.hpp:280-301 | The start of the TLV section of any extensions meets the condition |
| Completion.ByteWithoutHope | include/vosp/protocol/frame.hpp:173-175 | A single wrong byte is incomplete under all valid limits although no frame can follow |
| Completion.HeaderWithoutHope | include/vosp/protocol/frame.hpp:184-212 | So is every header that declares TLV bytes and no TLV |
| Completion.HeaderWithoutHopeExists | include/vosp/protocol/frame.hpp:184-212 | Such a header exists whenever the limits admit four bytes of extensions |
| FrameTheorems.RequiredIsNecessary | include/vosp/protocol/frame.hpp:173-223 | The required size exceeds the input, is within the frame limit, and no shorter extension is ready |
| FrameTheorems.TwoRounds | include/vosp/protocol/frame.hpp:173-223 | Extending twice to the required size ends in a ready frame or an error |
| Stream.StepConserves | include/vosp/protocol/stream_decoder.hpp:22-75 | Every operation keeps: accepted bytes are the frames of the emitted messages followed by the unread bytes |
| Stream.StreamDecoder.constructor | include/vosp/protocol/stream_decoder.hpp:18-20 | A new decoder is empty and satisfies the invariant |
| Stream.StreamDecoder.BufferedSize | include/vosp/protocol/stream_decoder.hpp:68-70 | The buffered size is the number of unread bytes |
| Stream.StreamDecoder.CompactConsumed | include/vosp/protocol/stream_decoder.hpp:91-94 | Erasing the consumed prefix keeps the unread bytes |
| Stream.StreamDecoder.Compact | include/vosp/protocol/stream_decoder.hpp:78-89 | Lazy compaction keeps the unread bytes and re-establishes the bound on the dead prefix; the cost counter grows by exactly the bytes moved, and stays paid for by consumed bytes |
| Stream.StreamDecoder.MakeRoom | include/vosp/protocol/stream_decoder.hpp:28-33 | Forced compaction keeps the unread bytes, counts one move of exactly those bytes, and is paid for by at least one consumed header |
| Stream.StreamDecoder.Push | include/vosp/protocol/stream_decoder.hpp:22-41 | `invalid_argument` exactly for invalid limits and `limit_exceeded` exactly when unread plus new bytes exceed the limit, whatever cursor and compaction; accepted bytes are appended, a rejected push changes no unread byte; the physical buffer stays within the limit; the cost counters grow by the unread bytes exactly when the cursor moved |
| Stream.StreamDecoder.Next | include/vosp/protocol/stream_decoder.hpp:43-66 | Emits the first message of the unread bytes, or nothing, or the probe's error; without a message nothing changes; with one, the cost counter grows by the unread bytes exactly when the buffer was compacted |
| Stream.StreamDecoder.Reset | include/vosp/protocol/stream_decoder.hpp:72-75 | Empties the decoder and starts a new accounting of accepted and emitted |
| StreamTheorems.Drive | include/vosp/protocol/stream_decoder.hpp:22-75 | The class run on any script of push, next and reset produces the results and state of the abstract machine |
| StreamTheorems.NextExactly | include/vosp/protocol/stream_decoder.hpp:43-66 | Next emits m if and only if m is encodable and its frame starts the unread bytes, reports an error if and only if they deserve it, and nothing if and only if there are none or they are incomplete |
| StreamTheorems.TraceTells | include/vosp/protocol/stream_decoder.hpp:22-75 | What was accepted and emitted since the last reset can be read off the calls and results |
| StreamTheorems.RunConserves | include/vosp/protocol/stream_decoder.hpp:22-94 | Byte conservation in every reachable state |
| StreamTheorems.ParseOfWires | include/vosp/protocol/frame.hpp:241-277 | Concatenated frames parse back to their messages, whatever follows |
| StreamTheorems.UniqueParse | include/vosp/protocol/frame.hpp:99-165 | A byte string is the concatenation of at most one list of frames |
| StreamTheorems.ParseSplits | include/vosp/protocol/stream_decoder.hpp:43-66 | The reference parser splits any input into frames and a rest that does not start with one, and its status says that there is no rest, that it is incomplete, or which error its bytes deserve |
| StreamTheorems.RunMatchesParse | include/vosp/protocol/stream_decoder.hpp:22-66 | Every drained run emitted the messages of the reference parser on the accepted bytes and ends in its status |
| StreamTheorems.ChunkingIndependence | include/vosp/protocol/stream_decoder.hpp:22-66 | Two drained runs that accepted the same bytes emitted the same messages and end in the same state and status |
| StreamTheorems.DrainEmitsParse | include/vosp/protocol/stream_decoder.hpp:43-66 | As many calls of next as the parser finds messages drain any session |
| StreamTheorems.FailsClosed | include/vosp/protocol/stream_decoder.hpp:43-75 | After an error every later next reports that error and no unread byte is lost, under any pushes, until reset |
| StreamTheorems.MissingBytesAdmitted | include/vosp/protocol/stream_decoder.hpp:22-56 | When next has no message, the bytes up to the required size are admitted, and fewer never produce a message |
| StreamTheorems.TwoFeedsSettle | include/vosp/protocol/stream_decoder.hpp:22-56 | Feeding what is required, at most twice, reaches a message or an error |
| StreamTheorems.CompactionIsCheap | include/vosp/protocol/stream_decoder.hpp:78-94 | At every point of a decoder's life: dead prefix below 4096 or below the live bytes; 4096 × lazily moved ≤ 4097 × consumed; 32 × moved by force ≤ limit × consumed, the counters being those the methods tie to the bytes moved |
| Admission.PartialIsBounded | include/vosp/protocol/frame.hpp:173-223 | No incomplete input is longer than an expression in the limits |
| Admission.LongestPartialExists | include/vosp/protocol/frame.hpp:173-223 | For all valid limits some incomplete input is exactly as long |
| Admission.SmallChunkAdmitted | include/vosp/protocol/stream_decoder.hpp:22-41 | A drained receiver admits any chunk that leaves room for the longest incomplete input |
| Admission.LargeChunkWedges | include/vosp/protocol/stream_decoder.hpp:22-41 | For all valid limits that bound is exact: one push brings a fresh decoder into a drained state that rejects exactly the longer chunks, for good |
| Admission.FrameIsBounded | include/vosp/protocol/frame.hpp:99-165 | No encodable frame is longer than an expression in the limits |
| Admission.LongestFrameExists | include/vosp/protocol/frame.hpp:99-165 | For all valid limits some encodable frame is exactly as long |
| Utf8.ValidUtf8 | include/vosp/protocol/text.hpp:21-71 | Accepts a byte string if and only if it is the concatenation of encodings of Unicode scalar values, unless the look-ahead at some character wraps; below `SIZE_MAX - 1` bytes it never does |
| Utf8.WrapsExactly | include/vosp/protocol/text.hpp:36-58 | Some span of a given size makes the look-ahead wrap if and only if the size is at least `SIZE_MAX - 1` |
| Utf8.MatchAt | include/vosp/protocol/text.hpp:24-68 | One turn of the loop advances by the length of the byte pattern found, or rejects |
| Utf8.PatternIsScalar | include/vosp/protocol/text.hpp:25-67 | Every accepted byte pattern encodes a scalar value: no overlong form, no surrogate, nothing above U+10FFFF |
| Utf8.ScalarIsPattern | include/vosp/protocol/text.hpp:25-67 | Every scalar value's encoding is found as a pattern of its own length, whatever follows |
| Utf8.RemovePrefix | include/vosp/protocol/text.hpp:21-71 | Removing text from the front of text leaves the text of the remaining scalar values |
| Utf8.TextInjective | include/vosp/protocol/text.hpp:21-71 | The scalar sequence of a text is unique |
| Utf8.WellFormedConcat | include/vosp/protocol/text.hpp:21-71 | After well-formed text, the whole is well-formed if and only if the rest is |
| Utf8.CheckText | include/vosp/protocol/text.hpp:80-110 | Encoding and decoding text return the same bytes if and only if they are within the limit and well-formed, unless the look-ahead wraps; which error otherwise |
| Binary.BinaryWriter.Write | include/vosp/protocol/binary.hpp:23-34 | Appends the big-endian bytes of the value, or fails with `limit_exceeded` exactly when they do not fit and appends nothing |
| Binary.BinaryWriter.WriteBytes | include/vosp/protocol/binary.hpp:36-44 | Appends these bytes in order, or fails with `limit_exceeded` exactly when they do not fit and appends nothing |
| Binary.BinaryWriter.WriteString | include/vosp/protocol/binary.hpp:46-62 | Appends the 32-bit size and then these bytes under one bound, or fails with `limit_exceeded` and appends nothing |
| Binary.BinaryWriter.WriteScript | include/vosp/protocol/binary.hpp:23-81 | After any script the buffer is the concatenation of the images of the accepted items, within the limit |
| Binary.BinaryReader.Read | include/vosp/protocol/binary.hpp:88-101 | Returns the number that the next bytes spell and advances past them, or fails with `insufficient_data` exactly when there are too few and stays |
| Binary.BinaryReader.ReadBytes | include/vosp/protocol/binary.hpp:103-112 | Returns the next bytes in order and advances past them, or fails with `insufficient_data` exactly when there are too few and stays |
| Binary.BinaryReader.ReadString | include/vosp/protocol/binary.hpp:114-142 | Returns the bytes behind the size prefix and advances past both, or fails and stays: `limit_exceeded` exactly when the prefix is there and exceeds the maximum, `insufficient_data` otherwise |
| Binary.ReadItem | include/vosp/protocol/binary.hpp:88-142 | A successful read consumes exactly the image of what it returns |
| Binary.AnswerExact | include/vosp/protocol/binary.hpp:88-142 | A read returns an item if and only if the item is of the kind asked for and its image starts the unread bytes |
| Binary.ReadsBack | include/vosp/protocol/binary.hpp:88-142 | Requests that match the items they read return any written items in order and leave what follows |
| Binary.KeptFits | include/vosp/protocol/binary.hpp:74-81 | The accepted items of any script stay within the limit |
| Binary.ScriptRoundTrip | include/vosp/protocol/binary.hpp:23-142 | For every script and limit, reading back the accepted items returns them all and ends empty |
| Binary.ReadItems | include/vosp/protocol/binary.hpp:88-142 | A script of reads on the class returns the items and leaves the bytes of the reading function |
| Binary.AcceptedAreKept | include/vosp/protocol/binary.hpp:23-81 | The items whose write calls succeeded are exactly those kept in the buffer |
| Binary.WriteThenRead | include/vosp/protocol/binary.hpp:23-142 | Writer and reader classes composed: after any script under any limit, reading back returns exactly the items whose writes succeeded, in order, and ends empty |
| Sockets.SocketLayer.CloseSocket | src/transport/socket_platform.hpp:63 | Closing demands an open handle, so a double close cannot be written; it releases exactly that handle |
| Sockets.SocketLayer.Establish | src/transport/tcp.cpp:66-84 | A socket that succeeds went through all steps in order; it fails exactly when the system refused one, with that error, and is then closed again |
| Sockets.SocketLayer.Prepare | src/transport/tcp.cpp:66-84 | The same for any way of getting a socket, created or accepted |
| Sockets.SocketLayer.EstablishFirst | src/transport/tcp.cpp:64-90 | The address loop tries the addresses in order, takes the first that can be established and leaves every failed one closed; each failure is one refusal of the system and nothing else was refused; if all fail it reports the last error |
| Sockets.SocketLayer.Reach | src/transport/tcp.cpp:59-90 | One lookup; what it found is tried in order, the first address that can be established is taken, and otherwise the last error is reported, or the lookup's own; failure leaves nothing open |
| Sockets.ConservesTransitive | src/transport/tcp.cpp:33-182 | Conservation composes over sequences of operations, handle numbers being reused or not |
| Backoff.OverflowExactly | src/transport/tcp.cpp:112-115 | No doubling of the longest run overflows if and only if the last one does not; twice the maximum in range suffices |
| Backoff.ValidMayOverflow | include/vosp/transport/types.hpp:56-60 | A valid policy may overflow: here is one |
| Backoff.Double | src/transport/tcp.cpp:114 | Doubling overflows exactly beyond half the tick range; within it the result is twice the delay |
| Backoff.DelaysOfAttempts | src/transport/tcp.cpp:105-116 | n attempts sleep n − 1 times, the k-th time min(initial × 2^k, maximum); never for a zero delay |
| Backoff.TotalDelay | src/transport/tcp.cpp:105-116 | The total sleep of n attempts is at most (n − 1) × maximum |
| Backoff.OutcomesOfAttempts | src/transport/tcp.cpp:105-116 | Of n attempts in the log the first n − 1 failed and the last had the reported outcome: a success is never ignored |
| Tcp.TcpStream.Close | src/transport/tcp.cpp:178-182 | Idempotent; releases exactly the stream's handle |
| Tcp.TcpStream.MoveFrom | src/transport/tcp.cpp:39-45 | Move assignment closes the target's handle, transfers the source's, and leaves self-assignment alone |
| Tcp.TcpStream.Connect | src/transport/tcp.cpp:47-91 | `invalid_argument` exactly for invalid arguments, and then nothing changes and nothing is asked; otherwise the old handle is closed, one lookup is made and its addresses are tried in order; success exactly when connected, to the first of them that works, and otherwise the last error, with all intermediate sockets closed; an address fails exactly when the system refuses a step, with that error |
| Tcp.TcpStream.Reconnect | src/transport/tcp.cpp:93-120 | At most 1024 and at most the policy's attempts, one query each; all but the last failed and the last succeeded exactly when the call does; failure means that all attempts failed; the delays are the policy's unless a doubling overflows, which happens exactly when one of the doublings performed leaves the tick range |
| Tcp.Wait | src/transport/tcp.cpp:112-115 | After a failure that is not the last: a sleep for the policy's delay if positive, and the capped double, overflowing exactly beyond half the tick range |
| Tcp.TcpStream.Send | src/transport/tcp.cpp:126-139 | A connected stream makes one write unless there is nothing to write, and returns the system's reply: a prefix is written and the stream kept, or nothing is written and the stream closed |
| Tcp.TcpStream.SendAll | src/transport/tcp.cpp:141-156 | Under any partial writes a prefix of the bytes is written in order; success if and only if all of them; failure leaves the stream closed and is the system's last reply, a write that took nothing, or that the stream was not connected |
| Tcp.TcpStream.Receive | src/transport/tcp.cpp:158-176 | A connected stream makes one read and returns exactly what the system delivered, at least one byte of at most the capacity; an empty or failed read closes the stream, reported as `peer_closed` or with the system's error |
| Tcp.TcpListener.Bind | src/transport/tcp.cpp:202-250 | `invalid_argument` exactly for invalid arguments, and then nothing changes and nothing is asked; otherwise one lookup, its addresses tried in order; success exactly when listening, on a socket bound to the first that works, and otherwise the last error; every failed attempt is closed; an address fails exactly when the system refuses a step, with that error |
| Tcp.TcpListener.MoveFrom | src/transport/tcp.cpp:194-200 | As for streams |
| Tcp.TcpListener.Accept | src/transport/tcp.cpp:252-270 | The accepted handle belongs to the new stream alone, which has the listener's options and no endpoint; accepting fails exactly when the listener is not active or the system refused a step, with that error, and leaves no handle open |
| Udp.UdpSocket.Bind | src/transport/udp.cpp:39-80 | `invalid_argument` exactly for invalid arguments, and then nothing changes and nothing is asked; otherwise one lookup, its addresses tried in order; success exactly when open, bound to the first that works with its family recorded, and otherwise the last error; the cache is kept; an address fails exactly when the system refuses a step, with that error |
| Udp.UdpSocket.EnsureOpen | src/transport/udp.cpp:97-117 | Afterwards the open socket has the address's family, and a new one went through its options; it fails exactly when the open socket is of another family or the system refused one, with that error; an open socket is never replaced |
| Udp.UdpSocket.SendTo | src/transport/udp.cpp:82-153 | Every datagram handed over has this payload and goes to an address resolution gave as a datagram destination for exactly this endpoint, over a socket of its family; the call succeeds exactly when the last one was taken, none before it was, and that destination is cached; without a cached destination one lookup is made and all its addresses are tried in order before failure, which reports the last error and keeps the cache; the count returned is the system's, and each address failed because the open socket is of another family, the system refused a socket or it refused the datagram, exactly as the system answered; too large a payload is `datagram_too_large`; a cached destination is used without a query, and over an open socket a datagram is handed over if and only if the families agree |
| Udp.UdpSocket.SendAt | src/transport/udp.cpp:97-126 | One datagram to one address over a socket of its family, opened where none is open; it is handed over exactly when the open socket has that family or a socket could be established; an open socket of another family fails and changes nothing |
| Udp.UdpSocket.SendFirst | src/transport/udp.cpp:133-152 | The address loop: in order, ending with the first address whose datagram the system takes, which is cached; otherwise every address was tried, the last error is reported and the cache is kept; a socket is asked for only while none is open, and an address is served exactly if it has the socket's family |
| Udp.UdpSocket.SendRebindSend | src/transport/udp.cpp:39-153 | Send, close, bind, send: the second send asks nothing and hands a datagram over if and only if the rebound socket has the family of the destination cached by the first |
| Udp.MismatchHappens | src/transport/udp.cpp:119-126 | From a process without sockets, a run of creation, send, close and bind reaches a sound state whose cached destination the open socket cannot serve |
| Udp.UdpSocket.Close | src/transport/udp.cpp:191-196 | Releases the handle and keeps the cache |
| Udp.UdpSocket.MoveFrom | src/transport/udp.cpp:31-37 | As for streams |
| Udp.SoundForever | src/transport/udp.cpp:10-16 | Other objects' operations never invalidate a socket's family or cache |
| Ownership.RunKeepsOwnership | src/transport/tcp.cpp:33-270 | Over every run of any number of objects the open handles are exactly those of live objects, each held by one |
| Ownership.NoLeakNoDoubleClose | src/transport/tcp.cpp:33-270 | A handle was closed as often as opened, less one while its owner holds it; with all objects gone nothing is open |
| Process.Process.Perform | src/transport/tcp.cpp:47-182 | Any call on any live stream, listener or UDP socket of a process is one ownership step of all its objects together |
| Process.Process.Create | src/transport/tcp.cpp:24-28 | Construction adds an object that holds no handle |
| Process.Process.Accept | src/transport/tcp.cpp:252-270 | Accepting is the creation of a stream and one step of it; a failed accept changes nobody's handles |
| Process.Process.MoveAssign | src/transport/tcp.cpp:37-45 | Move assignment between two live objects is an ownership step, self-assignment included |
| Process.Process.Destroy | src/transport/tcp.cpp:33-35 | Destruction closes exactly what the object held |
| Process.Process.Execute | src/transport/tcp.cpp:24-292 | One command of a program, when it applies, is one ownership step (two for a successful accept), and otherwise changes nothing |
| Process.Process.Run | src/transport/tcp.cpp:24-292 | Any program over any number of streams, listeners and UDP sockets performs every command that applies, in order, and is a run of ownership steps; at its end the open handles are those of the live objects, each held by one, and no datagram was misdirected |
| Process.Lifetime | src/transport/tcp.cpp:24-292 | From a process without sockets, after any program: every handle was closed as often as opened, less one while an object holds it; with no object left nothing is open; every datagram went where resolution said |
| EndToEnd.EventKeepsAccounts | src/transport/tcp.cpp:141-156 | Every event keeps each byte of each frame begun accounted for: accepted, pending, in flight or unwritten |
| EndToEnd.ReceivedIsPrefix | src/transport/tcp.cpp:141-156 | In every run the emitted messages are a prefix of those sent, and decoding never fails |
| EndToEnd.QuietMeansDelivered | include/vosp/protocol/stream_decoder.hpp:22-66 | Once delivered and drained, the receiver has all messages sent, or all but the one whose sending was cut short |
| EndToEnd.EveryRunSettles | include/vosp/protocol/stream_decoder.hpp:22-66 | From any state of any run, reads within the room that the longest frame of both sides leaves, offers and polls alone lead to the receiver having every message written in full |
| EndToEnd.LargerReadSticks | include/vosp/protocol/stream_decoder.hpp:22-41 | For all valid limits of both sides and any larger read size there is a run after which a read chunk is pending and no receiving event changes anything |
| Transfer.SendMessages | src/transport/tcp.cpp:141-156 | Encoding and sending messages in turn leaves on the wire their frames in order and at most a part of the next |
| Transfer.Pump | include/vosp/protocol/stream_decoder.hpp:22-66 | The decoder class, fed chunks of arbitrary sizes and drained, emits the reference parser's messages and error |
| Transfer.Exchange | src/transport/tcp.cpp:141-156 | Sender and receiver classes composed: the receiver gets exactly the k messages whose frames were written in full, and k is all of them if and only if sending succeeded |
| Transfer.ReceiveMessages | src/transport/tcp.cpp:158-176 | Reading a stream in chunks within the admission bound and decoding as it goes yields the reference parser's messages and error on all bytes the system delivered |
| Transfer.Converse | src/transport/tcp.cpp:141-176 | Two machines: if the network delivers a part of what was written, in order, the receiver gets the first messages and no error; if it delivers all, exactly the messages whose frames were written in full |

## Left out

- Error message texts and native error codes: errors are the error codes only.
- The platform socket implementations: calls into the operating system are oracles; handles not currently open may be handed out again.
- Name resolution, timeouts, real sleeping and platform initialisation: answers are arbitrary, and sleeping is an entry in a log.
- `UdpSocket::receive` and the local-endpoint queries: they hold no state and would only add easy members.
- Version negotiation, permission sets, authentication helpers, the raw byte codec: shallow value computations.
- Secure buffers, secure erasure and constant-time comparison: memory and timing behaviour outside a functional model.
- Allocation failure, reserved capacity and the lifetime of spans and views.
- Concurrent use of one object: every object has a single owner, as the library requires.
