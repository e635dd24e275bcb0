# A verified model of the network stack's algorithmic cores

The repository is an HTTP server and tunnelling stack in Go, with one routine in C. This
project models the parts of it that are algorithms rather than plumbing, and proves what
those parts are for:

- **Brotli** (`BitIO`, `SearchLog`, `BackwardReferences`): the bit writer and the three-path bit reader,
  and the match finder that turns a byte block into insert-and-copy commands. The decoder
  in `BackwardReferences` is written from section 4 of RFC 7932, independently of the encoder.
- **HPACK Huffman coding** (`HpackHuffman`, `HpackDecode`): the 64-bit accumulator encoder
  and the nibble automaton, against a one-bit-at-a-time reference decoder, for any table.
- **The router** (`PathParams`, `Trie`, `TrieSearch`, `Paths`, `Routes`, `Spelling`): the static table and the
  backtracking trie against the plain list of registrations, the slash redirects and Allow.
- **MASQUE** (`Ipam`, `Inspector`, `Sessions`, `SessionProgress`, `Varint`, `Capsules`, `CapsuleBuffers`, `CapsuleSession`,
  `Checksum`, `MssClamp`, `MssSyn`, `Icmp`, `IcmpReply`): the address pool, every interleaving of tunnel sessions, the
  capsule codecs, in-place TCP MSS clamping and the Packet Too Big builders.
- **Smaller cores**: cron (`Calendar`, `Cron`, `CronLimit`, `CronFields`), the idempotency lock protocol
  (`IdempotencyStorage`, `Idempotency`), WebSocket (`WsFrames`, `WsMessages`), Socket.IO (`SocketValues`,
  `SocketPackets`), the Vegas regulator (`Vegas`), the sharded rate limiter (`Limiter`) and the
  WebTransport error codes (`WebTransport`).

`Words` defines fixed-width arithmetic one bit at a time, `Text` the string helpers of Go's
library, `Optional` the option type. Code that updates things in place is a class or a method
with loops, proved against functions of the old state; protocols run by several goroutines
are state machines whose steps are the atomic accesses, and their theorems range over every
run. Everything outside the process is a parameter: the clock is an argument or an event,
the byte stream accepts an arbitrary number of bytes before it fails, the hasher and the UTF-8
test are functions, and map iteration is any order.

`dafny verify dfyconfig.toml` checks the whole project.

## Where the code does less than one might expect

Each of these is stated as an if-and-only-if, or by an input for which the expectation fails
beside the exact condition under which it holds.

- `BitIO.FlipTopBit`: the 4-byte refill subtracts 32 from the bit position by flipping bit 5,
  which is no subtraction at position 64; a completely empty accumulator must be warmed up first.
- `BitIO.BitReader.CopyBytes`: with a partial byte in the accumulator, copying beyond its whole bytes
  passes over the odd bits.
- `TrieSearch.LeftBehind`: parameters of a pattern that was tried and given up stay bound.
- `Routes.StaticAgrees`: a static hit differs from what the trie holds exactly when a later
  registration took the same segments under another spelling of the slashes.
- `Spelling.OtherSpelling`: a route registered with several slashes at its end is served without redirect
  when one of them is missing.
- `Routes.SegmentsCutAtSixteen`: from the seventeenth segment on the router no longer sees a path.
- `Ipam.TooLongPrefix`: a /31 would hand out the network address or one outside the prefix.
- `Sessions.OvertakenRun`: a session that saw the server open but has not joined the wait
  group takes a lease after `Shutdown` returned; without such a session, `Sessions.ShutdownFinal`.
- `CapsuleSession.PanicsExactly`: the announced payload is allocated before any of it is read; a
  length beyond what can be allocated is a panic, not an error.
- `CapsuleSession.ReadsCutFrame`: a stream cut at certain points inside a capsule looks like a
  clean end.
- `MssClamp.ChecksumVerifies`, `MssClamp.ZeroHeaderLengthRejected`: an IPv4 header length of zero
  is not refused, and the checksum written over the destination address does not verify.
- `CronLimit.SixYearGap`: the five-year search window misses schedules that fire again later.
  `CronLimit.FreeWeekdayExactly` and `CronLimit.CycleDecides` say which schedules are never missed.
- `CronFields.HugeStep`: a step near the largest integer wraps the loop counter, and the shift panics.
- `Idempotency.TwoExecutions`: past the lock timeout the same key runs twice, and the first to fail
  frees the second one's lock; `Idempotency.SecondLock` gives the exact condition.
- `WsMessages.DeliveredExactly`: section 5.4 of RFC 6455 forbids data frames inside a fragmented
  message. One that is not final is absorbed like a continuation; a final one is delivered alone, and
  what was collected before it is lost (`WsMessages.InterleavedDataLost`).
- `WsMessages.CutFrameEnds`: a connection cut inside a frame looks like a clean end at four places, where one
  read of the reader ends and the next begins.
- `WsMessages.LimitIsPerFrame`: the size limit is documented for messages but applied to frames.
- `SocketValues.UserPlaceholderReplaced`: a user's own placeholder-shaped map is replaced by a buffer.
- `SocketPackets.DecodeEncode`: data that begins with a digit, or with a slash right after the type,
  is not read back.

## Model

| member | source | states |
|---|---|---|
| `BitIO.BitWriter.WriteBits` | internal/compress/brotli/bitwriter.go:19-33 | appends exactly the low nb bits of b, least significant first, to the stream written so far |
| `BitIO.BitWriter.JumpToByteBoundary` | internal/compress/brotli/bitwriter.go:43-56 | flushes everything pending, adds fewer than eight bits, all zero, and empties the accumulator |
| `BitIO.BitReader.FillBitWindow` | internal/compress/brotli/bit_reader.go:126-133 | the 4-byte refill leaves the pending bit stream unchanged and more than 32 bits available |
| `BitIO.BitReader.PullByte` | internal/compress/brotli/bit_reader.go:149-159 | the 1-byte refill leaves the pending bit stream unchanged; it fails exactly at the end of the input |
| `BitIO.BitReader.TakeBits` | internal/compress/brotli/bit_reader.go:185-232 | takes the first n pending bits, as a number, and nothing else |
| `BitIO.BitReader.ReadBits` | internal/compress/brotli/bit_reader.go:239-244 | the fast path returns the first n pending bits and consumes exactly those |
| `BitIO.BitReader.SafeReadBits` | internal/compress/brotli/bit_reader.go:251-260 | succeeds exactly when n bits are left; a failed read leaves the pending stream unchanged |
| `BitIO.BitReader.Unload` | internal/compress/brotli/bit_reader.go:211-222 | gives whole bytes back to the input without changing the pending stream |
| `BitIO.BitReader.JumpToByteBoundary` | internal/compress/brotli/bit_reader.go:267-275 | skips to the next byte boundary; succeeds exactly when every skipped bit is zero |
| `BitIO.BitReader.CopyBytes` | internal/compress/brotli/bit_reader.go:283-293 | the copied bytes are the next pending bits if they are in the accumulator or no partial byte is; otherwise exactly the odd bits are passed over |
| `BitIO.BitReader.WarmUp` | internal/compress/brotli/bit_reader.go:300-311 | makes a non-empty accumulator exactly when any bit is left |
| `BitIO.FlipTopBit` | internal/compress/brotli/bit_reader.go:126-133 | flipping bit 5 of a position from 32 to 64 subtracts 32 exactly below 64 |
| `BitIO.ReadAll` | internal/compress/brotli/bit_reader.go:126-260 | any mix of fast and safe reads, with unloads, refills and failed reads in between, returns the written values |
| `BitIO.RoundTrip` | internal/compress/brotli/bitwriter.go:19-56 | every sequence of writes of 1 to 32 bits is read back by any plan of reader paths, and the closing byte-boundary jump succeeds with nothing left |
| `BackwardReferences.DistanceCodeInverts` | internal/compress/brotli/backward_references.go:15-36 | the RFC 7932 decoding of the computed code is the distance, and code 0 is exactly the last distance |
| `BackwardReferences.ShortCodeExactly` | internal/compress/brotli/backward_references.go:15-36 | a distance gets one of the sixteen short codes exactly when it lies in the window and one of them stands for it |
| `BackwardReferences.Encoder.CreateBackwardReferences` | internal/compress/brotli/backward_references.go:40-185 | for every hasher that reports only real matches: every prefix of the emitted commands replays to the input, with the decoder's ring equal to the encoder's cache after every command, and lengths and literal counts are conserved; the searches are those of the one complete log, and there is one command for each round with a match, in order, and no other |
| `BackwardReferences.Encoder.Turn` | internal/compress/brotli/backward_references.go:70-178 | one turn of the main loop advances, keeps all of that and extends the log by the round that the hasher's answers make |
| `BackwardReferences.Encoder.LookAhead` | internal/compress/brotli/backward_references.go:79-108 | the lazy search moves on, at most four positions, exactly while the search one further gains at least 175 |
| `BackwardReferences.Climbed` | internal/compress/brotli/backward_references.go:79-108 | what the lazy search ends on is a real match at its position |
| `BackwardReferences.Encoder.Emit` | internal/compress/brotli/backward_references.go:110-128 | the command's code decodes to the match distance under the old ring, and the ring moves as the decoder's does |
| `BackwardReferences.Encoder.SkipAhead` | internal/compress/brotli/backward_references.go:148-176 | the sparse-search skips end on the first multiple of their step that reaches the jump target, stay inside the block and count every skipped byte as a literal |
| `BackwardReferences.StepRebuilds` | internal/compress/brotli/backward_references.go:115-124 | the decoder undoes one emitted command: literals, then the overlapping copy or dictionary word |
| `BackwardReferences.ReplayIsInput` | internal/compress/brotli/backward_references.go:180-181 | with the pending literals that end the block, replaying all commands gives exactly the input bytes |
| `BackwardReferences.RunIgnoresRest` | internal/compress/brotli/backward_references.go:40-185 | a replay looks neither past its commands nor past the literals it uses |
| `BackwardReferences.ReplayConcat` | internal/compress/brotli/backward_references.go:40-185 | the commands of one block followed by those of the next replay to the end of the second |
| `BackwardReferences.EncodeBlocks` | internal/compress/brotli/backward_references.go:40-185 | any number of calls on consecutive blocks, each with its own hasher: replaying all commands and then the pending literals gives all of the data, the rings equal, and the commands are those of the parsed blocks |
| `BackwardReferences.SearchUsed` | internal/compress/brotli/backward_references.go:70-178 | a main search above the minimum score becomes exactly one command, whose copy begins at most four bytes later with the length and distance that the hasher reported there for a score every delay has raised by 175; any other main search adds none and passes over at most 17 bytes, and over one within the first spree of the block |
| `BackwardReferences.NothingFound` | internal/compress/brotli/backward_references.go:70-178 | a call adds no command exactly when none of its main searches is above the minimum |
| `BackwardReferences.EachParsed` | internal/compress/brotli/backward_references.go:40-185 | in a run over several blocks every block has its complete log and its commands |
| `SearchLog.LogUnique` | internal/compress/brotli/backward_references.go:70-178 | the hasher's answers determine every search of a call, what becomes of each result and how far each turn goes |
| `SearchLog.MissIsShort` | internal/compress/brotli/backward_references.go:139-177 | a turn without a match passes over at most 17 bytes, and over one until a spree past the last match |
| `HpackHuffman.EncodeCount` | csrc/hpack_huffman.c:20-26 | the predicted length is the number of whole bytes the concatenated codes need |
| `HpackHuffman.Encode` | csrc/hpack_huffman.c:30-63 | for every left-aligned table with lengths 5 to 30: writes exactly the concatenated code bits padded with ones, as many bytes as predicted, and touches nothing else |
| `HpackHuffman.EncodeSymbol` | csrc/hpack_huffman.c:36-50 | one source byte adds exactly its code to the bits written and held |
| `HpackHuffman.FinishEncode` | csrc/hpack_huffman.c:52-62 | the tail writes the held bits and completes the last byte with ones |
| `HpackHuffman.ReferenceInverts` | csrc/hpack_huffman.c:65-97 | the bit-by-bit decoder returns out exactly on out's codes followed by fewer than eight ones, for every usable prefix code |
| `HpackDecode.Lookup` | csrc/hpack_huffman.c:74-89 | one table lookup is four steps of the bit-by-bit decoder |
| `HpackDecode.Decode` | csrc/hpack_huffman.c:67-97 | with any nibble closure of the code, the automaton returns what the bit-by-bit decoder does, and -1 exactly when that rejects |
| `HpackDecode.DecodeInvertsEncode` | csrc/hpack_huffman.c:65-97 | what the encoder writes for src decodes to src |
| `HpackDecode.RoundTrip` | csrc/hpack_huffman.c:20-97 | encode, then decode with any closing table, is the identity on every byte string |
| `HpackDecode.ClosureExists` | csrc/hpack_huffman.c:13-17 | every code with lengths 5 to 30 has a closing table whose states fit the 16-bit field |
| `PathParams.Params.Search` | params.go:35-74 | the two lookup loops stop at the slot of the key, or at the end exactly when the key is absent |
| `PathParams.Params.Find` | params.go:56-74 | the value of the key in the map the slots stand for, or nothing exactly when it is absent |
| `PathParams.Params.Get` | params.go:35-53 | the value of the key, and the empty string for an absent one |
| `PathParams.Params.Set` | params.go:77-99 | an update of that map, across the inline slots and the overflow |
| `PathParams.Params.Reset` | params.go:102-107 | the empty map again |
| `PathParams.Params.Len` | params.go:110-116 | the number of distinct parameters |
| `PathParams.Params.Map` | params.go:119-139 | the copied map is the one the slots stand for |
| `Trie.InsertWellFormed` | router.go:104-151 | insertion keeps labelled, distinct children, and every wildcard child the end of a pattern |
| `Trie.InsertEntry` | router.go:104-151 | insertion changes the entry of its own pattern and of no other |
| `TrieSearch.Sound` | router.go:184-248 | whatever the backtracking search returns fits the path; if no pattern names two parameters alike, every parameter of its pattern is bound to its own segment, whatever was tried and given up before |
| `TrieSearch.Complete` | router.go:184-248 | if any stored pattern answers the path the search finds one |
| `TrieSearch.Keeps` | router.go:184-248 | an abandoned branch never overwrites a parameter bound above it |
| `TrieSearch.Leftovers` | router.go:216-245 | every name the search leaves bound was bound before or is a parameter of a pattern that fits the path up to there, with its own part of the path |
| `TrieSearch.LeftBehind` | router.go:216-234 | a family of pattern pairs for which the parameter of the abandoned one stays bound |
| `TrieSearch.ExactWins` | router.go:207-214 | a path that is itself a literal pattern is found under that pattern, with no parameter set |
| `TrieSearch.Prefers` | router.go:184-248 | the pattern found is preferred to every other pattern that answers the path: where they first differ it has a literal, or a parameter against no literal, or both have wildcards |
| `Paths.SplitPathBuf` | router.go:347-374 | the scanning loop returns the first sixteen non-empty pieces between slashes |
| `Routes.BuildCorrect` | router.go:63-102 | the trie after any registrations with wildcards last is well-formed and holds for every pattern its last registration |
| `Routes.TrieFindsExactly` | router.go:156-248 | the trie finds a route exactly when some registered pattern, read off the list alone, serves the path |
| `Routes.TrieRouteSound` | router.go:156-248 | the returned handler and pattern were registered together, are the last with their segments and serve the path; if names are distinct the parameters hold the path's own text |
| `Routes.StaticHolds` | router.go:79-101 | the static table holds exactly the plain patterns, each with the handler of its last registration |
| `Routes.StaticIsLatest` | router.go:79-101 | a static path is registered under its segments, and if it is last so, then with the handler of that registration |
| `Routes.StaticAgrees` | router.go:156-182 | a static hit is the trie's own answer exactly when no later registration took the same segments under another spelling |
| `Routes.SegmentsCutAtSixteen` | router.go:347-374 | one more segment is seen exactly when fewer than sixteen came before |
| `Routes.SearchInto` | router.go:184-248 | the loops that write into the parameter slots return the node and the bindings of the functional search |
| `Routes.Router.Add` | router.go:63-102 | the tries and static tables stay those of the registrations, with this one appended |
| `Routes.Router.Match` | router.go:156-182 | the answer of the registration list, with the parameters of the search |
| `Routes.Router.Resolves` | router.go:156-182 | holds exactly when the method matches the path |
| `Routes.Router.FindTrailingSlash` | router.go:251-280 | the path with its last slash added or removed, exactly when that one is matched |
| `Routes.Router.AllowedMethods` | router.go:283-313 | exactly the methods that match the path, in increasing order |
| `Routes.Router.HasPath` | router.go:316-337 | holds exactly when some method matches |
| `Routes.ResolveRoute` | server.go:363-415 | route, redirect, preflight, 405 with its Allow list or 404, each exactly in its case |
| `Routes.ResolvedOnce` | server.go:363-415 | those cases exclude one another and determine the whole answer |
| `Routes.RedirectsEnd` | server.go:381-387 | the target of a slash redirect is matched, so redirects never chain or loop |
| `Spelling.SlashDecides` | router.go:99-174 | a pattern that does not end in a wildcard is found only by paths that end in a slash exactly when it does |
| `Spelling.AloneFound` | router.go:63-182 | a pattern of literal segments registered alone is found by exactly the paths with its segments and its kind of ending |
| `Spelling.OtherSpelling` | router.go:63-182 | it is found as spelled, and with its last slash added or removed exactly when that leaves the kind of ending as it was |
| `Spelling.SlashRedirects` | server.go:381-387 | asked for the other spelling of the only route, the server redirects to it with 301 for GET and HEAD and 307 otherwise |
| `Spelling.WildText` | router.go:115-124 | a segment of a star or three dots and a name is a wildcard of that name |
| `Spelling.ParamText` | router.go:125-129 | a segment with a colon is a parameter: what is before the first colon is its prefix, what follows its name |
| `Spelling.ParametersHold` | router.go:216-245 | after a match a parameter of the route holds the path's segment without the prefix, and a wildcard everything left, joined by slashes |
| `Spelling.JoinSplit` | router.go:239-242 | what a wildcard holds splits into the segments it took |
| `Spelling.PreferredRoute` | router.go:184-248 | of all registered patterns that serve the path, the one found has a literal before a parameter before a wildcard where it first differs from any other |
| `Ipam.HostInPrefix` | tunnel/masque/ipam.go:78-97 | or-ing a host number into the network gives that host of the prefix |
| `Ipam.IPAM.Allocate` | tunnel/masque/ipam.go:52-117 | the first usable request, else the first free host on the circle 2..max-1 from the cursor, else exhaustion, with the new lease set and cursor |
| `Ipam.IPAM.ScanHosts` | tunnel/masque/ipam.go:83-114 | the wrap-around scan returns the first free host after the cursor, or nothing exactly when every host is leased |
| `Ipam.ReleaseUndoes` | tunnel/masque/ipam.go:120-125 | releasing what was just leased gives back the pool of before |
| `Ipam.ReleasedIsNext` | tunnel/masque/ipam.go:52-125 | in a pool whose hosts are all leased, a released host is the one leased next, wherever the cursor is |
| `Ipam.LeaseIsProper` | tunnel/masque/ipam.go:52-117 | a lease is fresh, in a prefix and for one address; a requested one echoes the request, a scanned one is never the network, gateway or broadcast address |
| `Ipam.ExhaustedExactly` | tunnel/masque/ipam.go:116-116 | exhaustion is reported exactly when no request is usable and every host is leased |
| `Ipam.TooLongPrefix` | tunnel/masque/ipam.go:78-92 | why prefixes longer than 30 are excluded: host 2 is no host of them |
| `Inspector.SourceWithDestination` | tunnel/masque/ip_inspector.go:10-61 | a packet with a readable destination has a readable source, so the spoofing check cannot be skipped for a routed packet |
| `Inspector.ReadsAddresses` | tunnel/masque/ip_inspector.go:10-61 | in a packet made of a front, two addresses and a rest, the source is the first address and the destination the second, for versions 4 and 6 |
| `Inspector.ExtractedExactly` | tunnel/masque/ip_inspector.go:10-61 | two addresses are extracted exactly when the packet's octets carry them |
| `Sessions.InvKept` | tunnel/masque/server.go:56-170 | every step of every session keeps the invariant: leases owned by exactly one session, table entries exactly the registered sessions, deliveries proper, wait group counted |
| `Sessions.SessionsSafe` | tunnel/masque/server.go:56-170 | in every reachable state no two sessions hold one address, table keys are leased by the listed session, and the octets of every delivered packet name the sender's address as source and the receiver's as destination |
| `Sessions.RoutedExactly` | tunnel/masque/server.go:136-170 | in every run a received packet goes to the session listed under the destination its octets carry, which owns that address, exactly when they carry the sender's own address as source and a listed destination; otherwise it is dropped |
| `Sessions.OnlyOwnEntries` | tunnel/masque/server.go:81-89 | over every run, a table entry is only removed by the session it belongs to, and never overwritten |
| `Sessions.AllReturned` | tunnel/masque/server.go:61-89 | the pool is empty exactly when no session holds an address, and then so is the table; in particular when the wait group is at zero |
| `Sessions.ShutdownFinal` | tunnel/masque/server.go:181-213 | after a shutdown with no session between admission and the wait group, nothing is ever leased or delivered again |
| `Sessions.ShutdownOvertaken` | tunnel/masque/server.go:57-62 | otherwise the state continues to one where a closed, shut-down server has a lease out |
| `SessionProgress.NeverStuck` | tunnel/masque/server.go:56-152 | in every reachable state some step takes a given session further towards its end, whatever the others have done |
| `SessionProgress.EveryoneCanLeave` | tunnel/masque/server.go:56-213 | from every reachable state there is a way on after which every session under way has ended, every lease is back and the wait group is at zero |
| `Sessions.OvertakenRun` | tunnel/masque/server.go:57-213 | a run from the start, for every pool, in which that happens |
| `Checksum.CalculateInternetChecksum` | tunnel/masque/icmp.go:97-113 | the complement of the folded 32-bit accumulator over all words and a last odd byte |
| `Checksum.AcceptsExactly` | tunnel/masque/icmp.go:97-113 | a receiver accepts exactly the positive multiples of 65535 |
| `Checksum.StoredChecksumAccepted` | tunnel/masque/icmp.go:97-145 | a checksum computed over a zero field and stored there is accepted, wherever the field is |
| `MssClamp.ClampTCPMSSInPlace` | tunnel/masque/bridge.go:191-217 | for every packet and MTU, in bounds and terminating, the buffer becomes the specified packet |
| `MssClamp.UpdateMSSOption` | tunnel/masque/bridge.go:241-277 | rewrites the first well-formed MSS option exactly when it exceeds the limit |
| `MssClamp.RecalculateTCPChecksum` | tunnel/masque/bridge.go:279-317 | stores the complement of pseudo-header plus segment computed with a zero field |
| `MssClamp.ChangesOnly` | tunnel/masque/bridge.go:191-317 | only the two MSS bytes and the two checksum bytes can change; the option becomes the smaller of its value and the limit |
| `MssClamp.AnnouncesAtMost` | tunnel/masque/bridge.go:241-277 | a clamped packet's first MSS option is where it was and announces at most the limit |
| `MssClamp.LimitOf` | tunnel/masque/bridge.go:219-239 | the limit leaves room for the headers and equals MTU minus headers exactly when that fits 16 bits |
| `MssClamp.ClampIdempotent` | tunnel/masque/bridge.go:191-317 | clamping twice is clamping once |
| `MssClamp.ChecksumExactly` | tunnel/masque/bridge.go:279-317 | a receiver accepts the rewritten packet exactly under a condition on the covered sum, for packets of any length |
| `MssClamp.ChecksumVerifies` | tunnel/masque/bridge.go:279-317 | up to 131000 bytes the changed packet verifies, except with an IPv4 header length of zero, where the condition is given |
| `MssClamp.ZeroHeaderLengthRejected` | tunnel/masque/bridge.go:219-239 | a packet with header length zero whose clamped checksum is rejected |
| `MssSyn.MssExactly` | tunnel/masque/bridge.go:241-277 | the option walk ends on an MSS option exactly when one stands behind well-formed other options |
| `MssSyn.TargetExactly` | tunnel/masque/bridge.go:191-277 | the clamp looks at a packet exactly when it is put together as a TCP SYN over IPv4 or IPv6 that announces a segment size and the MTU leaves room |
| `MssSyn.SynIsTarget` | tunnel/masque/bridge.go:191-277 | the option it looks at is that one, and the limit is the MTU less the headers, in 16 bits |
| `Icmp.BuildICMPPacketTooBig4` | tunnel/masque/icmp.go:13-56 | for every packet: the exact error cases; otherwise every output byte, the total length, and both checksums verify |
| `Icmp.BuildICMPPacketTooBig6` | tunnel/masque/icmp.go:59-95 | the same for ICMPv6, the payload length equal to the real one and the pseudo-header checksum verifying |
| `Icmp.CalculateICMPv6Checksum` | tunnel/masque/icmp.go:115-145 | the complement of pseudo-header plus message, for messages of any length |
| `IcmpReply.Reply4` | tunnel/masque/icmp.go:13-56 | the reply goes from the packet's destination to its source, has its own length and the MTU in its fields, and quotes the packet up to 500 bytes |
| `IcmpReply.Reply6` | tunnel/masque/icmp.go:59-95 | the same for ICMPv6, quoting up to 1200 bytes |
| `Varint.DecodeEncode` | tunnel/masque/varint.go:31-91 | decoding an encoded value gives it modulo 2^62 and its length, whatever follows: the value itself exactly below 2^62 |
| `Varint.EncodeDecode` | tunnel/masque/varint.go:31-91 | re-encoding is never longer, and gives the same bytes exactly when they were the shortest form |
| `Varint.DecodeExtent` | tunnel/masque/varint.go:51-91 | decoding succeeds exactly when the announced bytes are there, and looks at no others |
| `Varint.DecodeInjective` | tunnel/masque/varint.go:51-91 | wire bytes are determined by their length and the decoded value |
| `Varint.EncodeVarintSlice` | tunnel/masque/varint.go:13-28 | writes the encoding in place and leaves the rest of the buffer alone |
| `Capsules.ParseExactly` | tunnel/masque/capsule.go:291-347 | a payload decodes to rs exactly when it is spelled by wire entries that mean rs |
| `Capsules.AddressRoundTrip` | tunnel/masque/capsule.go:240-347 | decoding an encoded list of any length gives every entry, or an error exactly when a version is unknown |
| `Capsules.SettledExactly` | tunnel/masque/capsule.go:240-347 | an entry comes back as it was exactly when version, address family, zone and identifier are settled |
| `Capsules.AddressListReturns` | tunnel/masque/capsule.go:240-467 | an encoded list comes back unchanged exactly when all its entries are settled |
| `Capsules.RouteRoundTrip` | tunnel/masque/capsule.go:470-593 | decoding an encoded list of ranges gives every range |
| `Capsules.RouteListReturns` | tunnel/masque/capsule.go:470-593 | a list of ranges comes back unchanged exactly when all are settled |
| `CapsuleBuffers.EncodeAddressAssignPayload` | tunnel/masque/capsule.go:240-273 | the buffer holds the concatenated wire entries and is untouched behind them |
| `CapsuleBuffers.EncodeAddressRequestPayload` | tunnel/masque/capsule.go:350-390 | the same, with an error exactly for an empty list or an unknown version |
| `CapsuleBuffers.EncodeRouteAdvertisementPayload` | tunnel/masque/capsule.go:470-514 | the same for ranges |
| `CapsuleBuffers.ReadAddress` | tunnel/masque/capsule.go:295-333 | one entry is read as the wire grammar has it, with the grammar's errors |
| `CapsuleBuffers.ReadPod` | tunnel/masque/capsule.go:50-89 | the same for the sixteen-byte form of the arena and slab decoders |
| `CapsuleBuffers.DecodeAddressPayloadTo` | tunnel/masque/capsule.go:291-347 | the loop appends exactly the parsed entries, or fails as the parser does |
| `CapsuleBuffers.DecodeRouteAdvertisementPayloadTo` | tunnel/masque/capsule.go:535-593 | the same for ranges |
| `CapsuleBuffers.DecodeAddressAssignPayloadPOD` | tunnel/masque/capsule.go:45-108 | the arena decoder accepts the same payloads with the same fields |
| `CapsuleBuffers.DecodeAddressAssignPayloadPODSlab` | tunnel/masque/capsule.go:111-179 | the slab decoder accepts the same payloads with the same fields as long as the slab has room |
| `CapsuleSession.Session.WriteCapsule` | tunnel/masque/session.go:110-144 | both write paths put the whole frame on the stream, or as much of it as the stream took |
| `CapsuleSession.Session.ReadCapsule` | tunnel/masque/session.go:147-207 | reads one frame and leaves the rest of the stream, fails, or panics on a length that cannot be allocated |
| `CapsuleSession.PanicsExactly` | tunnel/masque/session.go:147-207 | the reader panics exactly on inputs that begin with a type and a length beyond what can be allocated |
| `CapsuleSession.ReadsFrame` | tunnel/masque/session.go:110-207 | a written frame is read back, and nothing after it is touched, exactly if its payload can be allocated |
| `CapsuleSession.ReadsCutFrame` | tunnel/masque/session.go:147-207 | a frame cut anywhere is never read as a capsule; the error is a clean end of stream exactly at the listed lengths |
| `CapsuleSession.Exchange` | tunnel/masque/session.go:110-207 | any capsules over a stream that may fail anywhere: the peer reads exactly those whose write succeeded, then an error; it stops with a panic exactly at a capsule it has no room for and whose header arrived |
| `CapsuleSession.Tunnel.SendIPPacket` | tunnel/masque/session.go:46-73 | both buffer paths send the context identifier followed by the packet |
| `CapsuleSession.Tunnel.ReceiveIPPacket` | tunnel/masque/session.go:76-107 | the next packet of this context, dropping every other datagram before it |
| `CapsuleSession.PacketsInOrder` | tunnel/masque/session.go:46-107 | whatever else arrives between them, packets come out as sent and in order |
| `Calendar.CivilUnique` | x/cron/parser.go:173-187 | a day has one civil date, the one whose month contains it, for every day of the proleptic Gregorian calendar |
| `Calendar.MonthStartFormula` | x/cron/parser.go:173-187 | the day number of a month's first day in closed form, for every year |
| `Calendar.EpochIsThursday` | x/cron/parser.go:173-187 | January 1, 1970 is day 719162 and a Thursday |
| `Cron.FirstMinuteExactly` | x/cron/parser.go:166-170 | the search begins with the first whole minute that is later than the instant given |
| `Cron.Advance` | x/cron/parser.go:172-197 | each jump of the loop moves forward over minutes that do not match |
| `Cron.Next` | x/cron/parser.go:165-200 | the earliest minute strictly after the start that satisfies all five sets; nothing exactly when none exists before the limit; always terminates |
| `CronLimit.FreeWeekdayExactly` | x/cron/parser.go:165-200 | with the weekday free, Next finds something from every start exactly when the schedule names a time and a date that every year has |
| `CronLimit.DaysDecide` | x/cron/parser.go:165-200 | whatever the weekdays, it does exactly when the schedule names a time and, for every day, there is a matching day strictly inside that day's five-year window, or both its ends match, or the day itself does with its last minute |
| `CronLimit.CycleDecides` | x/cron/parser.go:165-200 | it is enough to look at the 146097 days of one 400-year cycle |
| `CronLimit.LeapDayGap` | x/cron/parser.go:169-172 | without a date that every year has, nothing is found from 2096-03-01 on |
| `CronLimit.SixYearGap` | x/cron/parser.go:169-172 | a schedule with a six-year gap is given up although it fires again |
| `CronFields.SetRange` | x/cron/parser.go:156-158 | sets exactly the stepped range, or panics exactly when the counter wraps |
| `CronFields.ParseField` | x/cron/parser.go:114-162 | the bits are exactly the union of the stepped ranges; otherwise the outcome of the first expression at fault |
| `CronFields.OnIsMultiple` | x/cron/parser.go:156-158 | the visited numbers are the multiples of the step counted from the start |
| `CronFields.WrittenRange` | x/cron/parser.go:123-154 | every stepped range within the interval is the meaning of some expression |
| `CronFields.WrittenField` | x/cron/parser.go:114-162 | every list of such ranges is the meaning of some field |
| `CronFields.DenotedInRange` | x/cron/parser.go:135-158 | only bits of the field's interval are ever set |
| `CronFields.HugeStep` | x/cron/parser.go:114-162 | an accepted expression whose loop counter wraps |
| `CronFields.ExprMeans` | x/cron/parser.go:117-158 | a written star, number or range, with or without a step, is refused exactly for bounds out of order or outside the interval or a step that is not positive, and otherwise denotes the numbers it says |
| `CronFields.FieldMeans` | x/cron/parser.go:114-162 | what the parser returns for any list of written expressions: bit i exactly when one of them means i, or the error or panic of the first that fails |
| `IdempotencyStorage.MemoryStorage.Get` | builtin/idempotency/idempotency.go:62-74 | the stored response exactly while it is live and not a lock |
| `IdempotencyStorage.StoredUntilExpiry` | builtin/idempotency/idempotency.go:62-119 | a stored response is returned, and keeps other requests from the lock, exactly until it expires; no other key notices |
| `IdempotencyStorage.MemoryStorage.Lock` | builtin/idempotency/idempotency.go:90-109 | succeeds exactly when the key is free or expired |
| `IdempotencyStorage.MemoryStorage.Unlock` | builtin/idempotency/idempotency.go:111-119 | removes a lock and never a response |
| `Idempotency.GoodKept` | builtin/idempotency/idempotency.go:187-287 | every step keeps the invariant while handlers are within their lock lifetime |
| `Idempotency.ExecutionsExclusive` | builtin/idempotency/idempotency.go:187-287 | in every timely run at most one execution per key is in flight, and every replay returns a stored success of its key |
| `Idempotency.NoSecondExecution` | builtin/idempotency/idempotency.go:203-229 | no execution starts before every earlier success of its key has expired |
| `Idempotency.SuccessRecorded` | builtin/idempotency/idempotency.go:276-284 | a success is stored for its whole lifetime |
| `Idempotency.LiveSuccessReplayed` | builtin/idempotency/idempotency.go:203-223 | until then a request for the key is answered by that response |
| `Idempotency.SecondLock` | builtin/idempotency/idempotency.go:90-109 | a second request gets a busy key's lock exactly when its clock reading is past the deadline |
| `Idempotency.LateHandler` | builtin/idempotency/idempotency.go:225-235 | from every state with a late handler, two executions run at once and the key can be freed under the second |
| `Idempotency.TwoExecutions` | builtin/idempotency/idempotency.go:187-287 | runs from an empty store, under every configuration, in which that happens |
| `WsFrames.BuildFrameHeader` | ws/conn.go:38-64 | writes the header with the shortest length form and touches nothing else |
| `WsFrames.ApplyMask` | ws/conn.go:24-30 | combines octet i with octet i mod 4 of the key, in place |
| `WsFrames.MaskTwice` | ws/conn.go:24-30 | masking twice restores the payload |
| `WsFrames.BuiltIsRead` | ws/conn.go:38-64 | a built client header is accepted with its own fields |
| `WsFrames.ReadIsBuilt` | ws/conn.go:111-216 | an accepted header is the one that is built for its fields |
| `WsFrames.HeadersCorrespond` | ws/conn.go:111-216 | accepted headers and built headers are the same, so every accepted length has one encoding |
| `WsFrames.ReadsClientFrame` | ws/conn.go:111-216 | a legal client frame is read back whatever its key, consuming exactly it |
| `WsFrames.AcceptedIsClientFrame` | ws/conn.go:111-216 | whatever is accepted is a legal client frame |
| `WsFrames.ReadsAnyHeader` | ws/conn.go:124-199 | a header with any fields, its length in any form, is accepted with them or refused for its first fault, with status 1009 for the limit and 1002 otherwise |
| `WsFrames.ReadsCutFrame` | ws/conn.go:124-216 | a frame cut short is the end of the input, a clean one exactly at four places |
| `WsMessages.Conn.ReadMessage` | ws/conn.go:111-281 | result, unread input, everything sent and the closed flag are those of the frame-by-frame function |
| `WsMessages.Reassembles` | ws/conn.go:111-281 | any message in any fragments under any keys with any legal pings and pongs between is returned whole with its type, and each ping is answered once, same payload, in order |
| `WsMessages.Delivered` | ws/conn.go:111-281 | whatever the input, a call that delivers has read legal client frames that asked for more and then one that ends the message |
| `WsMessages.DeliveredExactly` | ws/conn.go:218-281 | for every input: what is delivered is all the data frames carried exactly when the last of them is a continuation or nothing was collected before it, and it has the kind first named exactly when the last names no other |
| `WsMessages.InterleavedDataAbsorbed` | ws/conn.go:245-274 | exactly when a data frame inside a fragmented message is treated as a continuation |
| `WsMessages.InterleavedDataLost` | ws/conn.go:260-274 | a final data frame inside a fragmented message is delivered alone and the fragments are lost |
| `WsMessages.DeliveredBound` | ws/conn.go:196-199 | every delivered message is at most as long as the limit times the number of data frames read |
| `WsMessages.LimitIsPerFrame` | ws/conn.go:196-199 | the limit holds for all messages of n data frames exactly when n is at most one or no frame may carry anything |
| `WsMessages.FeedExactly` | ws/conn.go:218-274 | exactly which frames make the reader ask for more, and what they leave: their data, the first kind named, one pong per ping |
| `WsMessages.Splits` | ws/conn.go:111-281 | every input is such frames, then something that is none of them |
| `WsMessages.CloseEnds` | ws/conn.go:227-243 | after such frames a close frame ends the call with EOF and closes the connection; the answer carries the peer's code, 1000 without one or for a code that must not be sent, and its reason |
| `WsMessages.UnknownOpcodeEnds` | ws/conn.go:276-278 | an unassigned opcode closes with 1002 |
| `WsMessages.StrayContinuation` | ws/conn.go:245-248 | a continuation of nothing is an error; the connection stays open and nothing is sent |
| `WsMessages.FinalDataEnds` | ws/conn.go:245-274 | a final continuation delivers what was collected, a final text or binary frame its own payload; text that is not UTF-8 closes with 1007 |
| `WsMessages.BadHeaderEnds` | ws/conn.go:132-199 | a header at fault closes with 1002, or 1009 for the limit |
| `WsMessages.CutFrameEnds` | ws/conn.go:124-216 | input that ends inside a frame is an error that looks like a clean end at exactly four places |
| `SocketValues.BinaryCounts` | x/socketio/packet.go:230-289 | hasBinary holds exactly when deconstruction collects a buffer, and exactly when it changes the value |
| `SocketValues.RoundTrip` | x/socketio/packet.go:266-336 | reconstruction undoes deconstruction under any map iteration order exactly when no user map can be mistaken for a placeholder |
| `SocketValues.PlaceholderExactly` | x/socketio/packet.go:314-336 | a placeholder map becomes the buffer its num truncates to, whatever kind of number, and stays as it is otherwise |
| `SocketValues.Numbered` | x/socketio/packet.go:266-289 | at each path to something binary there is a placeholder with the number of its own buffer |
| `SocketValues.NumberedOnce` | x/socketio/packet.go:266-289 | different paths get different numbers |
| `SocketValues.EveryNumberUsed` | x/socketio/packet.go:266-289 | every number from 0 to n-1 is used |
| `SocketValues.UserPlaceholderReplaced` | x/socketio/packet.go:314-336 | a user's own placeholder map is replaced by a buffer |
| `SocketPackets.DecodePacket` | x/socketio/packet.go:80-108 | the parsers, run one after the other, give the decoded packet or the error |
| `SocketPackets.ParseAttachments` | x/socketio/packet.go:110-129 | the count up to the dash, refused exactly when it is not a number within the limit |
| `SocketPackets.ParseNamespace` | x/socketio/packet.go:131-149 | the namespace up to the comma, and the rest of the data |
| `SocketPackets.ParseAckID` | x/socketio/packet.go:151-165 | the leading digits as identifier, and the rest of the data |
| `SocketPackets.DecodeEncode` | x/socketio/packet.go:53-108 | decoding inverts encoding exactly when the count is within the limit, the namespace begins with a slash and has no comma, the id is not negative and the data cannot be mistaken for either |
| `SocketPackets.DecodeAgain` | x/socketio/packet.go:53-108 | a decoded packet survives another round trip, with the one exception spelled out |
| `Vegas.VegasEngine.constructor` | sync/limiter/vegas.go:26-39 | thresholds at least one apart and a non-empty window range, whatever was asked for |
| `Vegas.VegasEngine.Update` | sync/limiter/vegas.go:42-72 | the window stays in its bounds, the base is the minimum of all samples, and one adjustment is made |
| `Vegas.Regulates` | sync/limiter/vegas.go:53-69 | without division: the window grows by one while less than alpha of it is queued, shrinks by one beyond beta, within its bounds |
| `Vegas.VegasEngine.Limit` | sync/limiter/vegas.go:75-80 | the whole part of the window, within its bounds |
| `Vegas.NoTurn` | sync/limiter/vegas.go:56-69 | after a step up the next is not down, and the reverse |
| `Vegas.Settles` | sync/limiter/vegas.go:42-72 | for any share of the window below one, the sequence of windows stops after at most max-min steps |
| `Vegas.NeverOscillates` | sync/limiter/vegas.go:42-72 | for any share of the window below one, the whole sequence goes one way |
| `Vegas.FeedConstant` | sync/limiter/vegas.go:42-72 | the engine itself under equal samples: its windows go one way, never turn, and no longer change after max-min samples |
| `Vegas.NeverTurnsExactly` | sync/limiter/vegas.go:26-72 | for any thresholds: no share below one and no window of the range make the window turn exactly when they leave no gap between two windows, a condition on the thresholds alone |
| `Vegas.OneApart` | sync/limiter/vegas.go:26-39 | thresholds one apart leave none; with a whole lower threshold inside the range the window never turns exactly when they are at least one apart |
| `Vegas.GapTurns` | sync/limiter/vegas.go:53-69 | for every gap a share below one under which the window goes up and back down |
| `Vegas.GapSwings` | sync/limiter/vegas.go:53-69 | which it then does for ever |
| `Limiter.RateLimiter.GetShard` | builtin/limiter/limiter.go:67-75 | the FNV-1a loop gives the shard of the key, always in range |
| `Limiter.RateLimiter.AllowRequest` | builtin/limiter/limiter.go:77-131 | answers from the key's own shard and changes no other |
| `Limiter.SameAnswer` | builtin/limiter/limiter.go:77-131 | a shard that evicted expired buckets answers as one map that never does, and goes on representing it |
| `Limiter.Serve` | builtin/limiter/limiter.go:67-131 | over every run with a monotone clock, all answers are those of the single map |
| `Limiter.WindowGrants` | builtin/limiter/limiter.go:77-131 | a window grants the smaller of the requests made and the rate |
| `Limiter.TwiceTheRate` | builtin/limiter/limiter.go:77-131 | at most twice the rate in any stretch of time as long as the window |
| `Limiter.AnswersExactly` | builtin/limiter/limiter.go:77-131 | from the calls alone: a call is granted exactly while its window has granted fewer than the rate, and is told what remains and when the window ends |
| `WebTransport.Increasing` | x/webtransport/errors.go:64-67 | the mapping is strictly increasing |
| `WebTransport.ThereAndBack` | x/webtransport/errors.go:64-88 | every 32-bit code lands on a non-reserved code between First and Last and comes back |
| `WebTransport.BackAndThere` | x/webtransport/errors.go:71-88 | the inverse accepts exactly the non-reserved codes of that range, and maps each to its only origin |

## Left out

- Listeners, TLS, QUIC, dialing, hijacking, prefork, proxying, key management and exporters: input, output and foreign libraries.
- Handler reflection, binders, RPC and OpenAPI generation: they depend on Go's type system.
- Header-decorating middlewares, cookies and cryptography: single branches or opaque primitives.
- The Brotli hasher, its heuristics and the entropy coder: the hasher is any function that reports only real matches; its hash tables are not part of the model.
- Ring-buffer masking in the match finder: positions index one flat byte sequence. The packing of a command into bit fields is a record with those fields.
- BitIO.BitReader.FillBitWindow: the accumulator must hold at least one bit, as the decoder's warm-up ensures; see BitIO.FlipTopBit.
- HpackDecode.Decode: the automaton's table is a parameter that closes the code; the RFC 7541 table itself is not part of the model.
- Routes.Router.Match: the reader-writer lock is not modelled; each router call is one step. Handler types and the route listing are left out.
- Routes.ResolveRoute: custom not-found and method-not-allowed handlers only replace the response body and are left out.
- A wildcard that would match nothing at a node that also ends a pattern: the code does not look for it, and completeness is stated without it.
- Ipam.IPAM.Allocate: IPv6 prefixes are a containment test; the code never scans them. Longer IPv4 prefixes than 30 are covered by Ipam.TooLongPrefix only.
- Sessions.SessionsSafe: default routing only; a custom packet handler may route anything. The ADDRESS_ASSIGN capsule sent on entry is covered by the codecs, not by the state machine.
- Icmp.BuildICMPPacketTooBig4: the next-hop MTU and the packet are arguments; the TUN adapter that calls the builder is left out.
- CapsuleBuffers.DecodeAddressAssignPayloadPOD: the arena is ordinary allocation; off-heap memory and its release are left out. A nil slab is an empty one.
- CapsuleSession.Session.ReadCapsule: running out of memory below the longest slice that can be made is not modelled, nor a session without a control stream.
- Capsule wrappers that only concatenate a header and a payload into one buffer: CapsuleSession.Session.WriteCapsule covers the same bytes.
- Cron descriptors such as @daily and time zones other than UTC; field texts are taken without surrounding spaces.
- Idempotency.GoodKept: storage is the in-memory one, its calls do not fail, and responses are opaque; JSON serialization and key extraction are left out.
- WsMessages.Conn.ReadMessage: UTF-8 validity is a parameter; the configured limit is taken to be one that can be allocated; deadlines, compression and the ordering of concurrent writes against close are left out.
- SocketValues.RoundTrip: values are JSON-shaped trees; the raw-message variants and the buffer-by-buffer reassembly wrapper are left out, and the shared buffer list is passed by value.
- SocketPackets.DecodePacket: the data behind the header is opaque text.
- Limiter.RateLimiter.AllowRequest: one call is one atomic step and buckets are values; the compare-and-swap race inside a call is not modelled.
- Vegas.VegasEngine.Update: floats are reals, so rounding is not captured.
- Adapters, hubs, histograms and pooled codecs: routine index invariants or wrappers over code elsewhere.
