# Verified model of the passive ARP monitor and its wire path

This project models the receive side of an ARP scanner and proves what its reports mean. A frame on
the wire meets a classic-BPF program in the kernel, is packed with others into one aggregated read,
is unpacked into a fixed receive buffer, is parsed through Ethernet, VLAN tags and LLC/SNAP down to
an RFC 826 ARP packet, and is folded into a report of records, duplicate address claims and warnings.
The project also models the send side (wire options, request encoding), IPv4 host enumeration and
the MAC vendor table.

How the pieces fit:

- `Bits`, `Octets`, `Sequences`, `Wrappers`: machine-word operators defined bit by bit, big-endian
  fields, first-seen order and multiplicities, `Option` and `Result`.
- `EthernetFrame`, `AddressResolution`, `WireOptions`: encoders as methods that grow a buffer, each
  proved equal to a wire image; the parsers; round trips in both directions.
- `WireLaws`: what the octets of a frame mean, in numbers and positions: every verdict of the parsers
  with its reason, and every octet of a request.
- `CaptureFilter`: the 27-instruction program, its interpreter, and exact agreement with the parser.
- `BpfRecords`, `BpfEndpoint`: the record walker, and the endpoint class whose receive method reports
  the head of everything that is pending.
- `PassiveMonitor`: `Report`, the closed form of a monitor run over its whole trace, and the class
  `Aggregator`, whose `Valid()` ties every field to the trace seen so far.
- `MonitorLaws`, `TraceLaws`: what a report means, conservation, order insensitivity.
- `ListenLoop`: the listen loop against an arbitrary endpoint and an arbitrary monotone clock, which
  may stand still through any finite number of endpoint calls.
- `Transparency`, `MonitorStack`: the report does not depend on filter, buffer, batching or framing,
  from single frames up to a run of the endpoint and the aggregator together.
- `Ipv4Subnet`, `VendorRegistry`: netmasks and host ranges; vendor text and longest-prefix lookup.

Conventions. Octets and words are integers in their machine range. A static error message is one
constructor of `Reason`. MAC and IPv4 addresses on the wire are octet sequences; in `Ipv4Subnet` an
address is a 32-bit number. Times are nanoseconds.

Where the code and its own documentation disagree, the model follows the code:

- `src/ethernet_frame.rs:392-393` says an oversize SNAP length is clamped to 1500. The code clamps
  only when the length does not fit 16 bits, so 1493 to 65527 payload octets produce a frame that does
  not parse back. `EthernetFrame.SnapRoundTrip` gives the exact condition and
  `EthernetFrame.SnapOversizeIsMisread` an input.
- `src/mac_vendor_registry.rs:36` says a prefix with a non-hexadecimal character is an error. The
  code drops such characters first. `VendorRegistry.PrefixErrorsAreCounts` gives the exact condition
  and `VendorRegistry.NonHexadecimalCharactersAreAccepted` an input. The same lemma shows that the
  empty-vendor error is never returned, because the line was trimmed before it was split.

## Model

| member | source | states |
|---|---|---|
| CaptureFilter.FilterAcceptsExactlyArp | src/macos_bpf_socket.rs:64-264 | for every byte string, the kernel program admits the frame exactly when the userspace parser accepts it as ARP |
| CaptureFilter.FilterHalts | src/macos_bpf_socket.rs:74-264 | all jumps stay inside the 27 instructions, which use the classic-BPF operation codes; every run ends at instruction 25 (drop), 26 (accept, up to 2^32 - 1 octets) or at a load beyond the frame, and only 26 accepts |
| CaptureFilter.StepVerdicts | src/macos_bpf_socket.rs:616-669 | for any program, each operation code's effect on counter and accumulator in numbers, and exactly when a step drops the frame, returns or panics |
| CaptureFilter.WellFormedNeverStuck | src/macos_bpf_socket.rs:616-669 | no program with known opcodes and in-range jumps can make the interpreter panic, from any state, on any frame |
| CaptureFilter.Interpret | src/macos_bpf_socket.rs:616-669 | the bounded interpreter loop reaches the halt of the unbounded run for any program: its iteration bound is never what ends it |
| CaptureFilter.SnapBlock | src/macos_bpf_socket.rs:109-136 | each of the three load-compare-load-compare blocks tests for RFC 1042 SNAP ARP right behind its length field |
| EthernetFrame.TciRoundTrip | src/ethernet_frame.rs:171-196 | TCI packing and unpacking are inverse on all 16-bit words and all PCP/DEI/VID triples (clause 9.6 of IEEE 802.1Q) |
| EthernetFrame.EthernetIIRoundTrip | src/ethernet_frame.rs:360-379 | under every tag stack an encoded Ethernet II frame parses back to all its inputs exactly when the type is at least 1536 and not a VLAN TPID |
| EthernetFrame.SnapRoundTrip | src/ethernet_frame.rs:395-421 | an encoded SNAP frame parses back to all its inputs exactly when the payload has at most 1492 or more than 65527 octets |
| EthernetFrame.SnapOversizeIsMisread | src/ethernet_frame.rs:402-403 | with 1493 payload octets the encoder's own frame is rejected by the parser |
| EthernetFrame.ParseOfSnapFrame | src/ethernet_frame.rs:620-661 | the parser accepts any length field up to 1500 whatever the data behind it, and no other |
| EthernetFrame.DecodeThenEncode | src/ethernet_frame.rs:459-488 | re-encoding an accepted Ethernet II frame gives back every octet; for SNAP at most the two length octets differ; the payload starts right behind the decoded headers |
| EthernetFrame.DecodedTagsReencode | src/ethernet_frame.rs:506-590 | the octets the tag decoder consumed are the octets the tag encoder writes for its result |
| EthernetFrame.AppendTagStack | src/ethernet_frame.rs:427-439 | appends TPID and TCI of each tag, outermost first, and leaves the buffer's earlier octets alone |
| EthernetFrame.EncodeEthernetIIFrame | src/ethernet_frame.rs:360-379 | growing the buffer step by step produces the Ethernet II wire image that the round trips are about |
| EthernetFrame.EncodeSnapFrame | src/ethernet_frame.rs:395-421 | growing the buffer step by step produces the SNAP wire image that the round trips are about |
| WireLaws.TagVerdicts | src/ethernet_frame.rs:506-607 | for every byte string, exactly which lengths and tag fields make the parser reject a frame, with which message, and otherwise the frame has a legal stack of 0, 1 or 2 tags |
| WireLaws.TypeVerdicts | src/ethernet_frame.rs:609-661 | behind any legal tag stack, exactly which length/type and LLC/SNAP octets are rejected with which message, and the value of every field of an accepted frame |
| WireLaws.PduVerdicts | src/address_resolution_protocol.rs:459-514 | exactly which ARP payloads are rejected with which message, and the positions of the fields of the others |
| WireLaws.ArpIsRecognised | src/address_resolution_protocol.rs:451-457 | the exact octets that make a frame ARP; every other frame is rejected for its framing or its type |
| WireLaws.FramedImage | src/ethernet_frame.rs:360-421 | every octet of a framed ARP payload; the SNAP length field is 8 plus the payload length up to 65535 and 1500 beyond |
| WireLaws.PduImage | src/address_resolution_protocol.rs:345-362 | the number or address at every position of an encoded PDU |
| WireLaws.RequestImage | src/address_resolution_protocol.rs:363-393 | a request is its framed PDU and custom padding, then zeros up to 60 octets |
| AddressResolution.PduRoundTrip | src/address_resolution_protocol.rs:451-520 | a payload starting with an encoded PDU parses, to that PDU's own fields, exactly when its type, length and opcode fields are acceptable |
| AddressResolution.RequestRoundTrip | src/address_resolution_protocol.rs:342-393 | a request that fits IEEE 802.3 parses back to its own ARP fields under every tag stack and framing, exactly when those fields are Ethernet/IPv4 with a non-reserved opcode |
| AddressResolution.CutKeepsVerdict | src/address_resolution_protocol.rs:451-520 | cutting a frame to 58 or more octets changes neither whether it is ARP nor the parser's verdict |
| AddressResolution.SamePduSameVerdict | src/address_resolution_protocol.rs:454-463 | the verdict on an ARP frame depends on its first 28 payload octets alone |
| AddressResolution.EncodeRequestFromLayout | src/address_resolution_protocol.rs:342-393 | filling the header by offsets, framing and zero padding produces the request image the round trips are about |
| AddressResolution.BuildRequestWithWireOptions | src/address_resolution_protocol.rs:242-259 | the copy into a fixed 60-octet frame never cuts, and the frame parses back to the broadcast request, its VLAN tag and its framing |
| WireOptions.ValidOptionsRoundTrip | src/application_command.rs:178-277 | options passing both validators give a frame of the length they imply, at least 60, with the configured addresses, tags, framing, ARP octets and padding, each unset address its stated default; the parser accepts its ARP fields exactly when they are Ethernet/IPv4 with an allowed opcode |
| WireOptions.ValidatorsAreExact | src/application_command.rs:235-277 | exactly which options the two validators reject, and the contents of the errors |
| WireOptions.RequestLength | src/address_resolution_protocol.rs:364-393 | the frame length is the sum of header, tags, LLC/SNAP, PDU and padding, but at least 60 |
| WireOptions.ValidTagsAreAllSent | src/application_command.rs:208-243 | the tag validator accepts exactly the options none of whose VLAN identifiers is silently dropped |
| BpfRecords.AlignmentRoundsUp | src/macos_bpf_socket.rs:281-283 | below the wrap-around, alignment gives the least multiple of 4 that is not smaller |
| BpfRecords.RecordIsSafe | src/macos_bpf_socket.rs:289-313 | on arbitrary bytes the frame lies in the buffer where the header octets say and the cursor advances to the next 4-octet boundary of the record; there is no record exactly when fewer than 18 octets remain, the frame overruns the buffer, or both lengths are 0, so no addition ever overflows |
| BpfRecords.WalkIsSafe | src/macos_bpf_socket.rs:396-411 | on arbitrary bytes the frames a walk surfaces lie in the buffer, pairwise disjoint and in increasing order |
| BpfRecords.EveryFrameHasARecord | src/macos_bpf_socket.rs:281-313 | every frame of up to 2^32 - 1 octets has a record under every header of 18 to 65535 octets, whatever else the header holds |
| BpfRecords.WalkOfLayout | src/macos_bpf_socket.rs:289-313 | walking a batch of records, last padding optional, surfaces exactly their frames in order |
| BpfEndpoint.MacosBpfEndpoint.TryReceiveEthernetFrame | src/macos_bpf_socket.rs:396-431 | whatever the kernel returns, a call reports the head of the pending responses and leaves the tail: each frame once, in order, cut only to the caller's buffer, with no kernel read while a frame is buffered |
| BpfEndpoint.MacosBpfEndpoint.ReadLinkLayerFrames | src/macos_bpf_socket.rs:412-428 | one kernel read consumes one scripted outcome and, when it brings octets, leaves exactly those at the front of the read buffer |
| BpfEndpoint.ReadsAreAnsweredInOrder | src/macos_bpf_socket.rs:396-431 | reads are answered one after another: the answers to two scripts in a row are those to the first, then those to the second |
| BpfEndpoint.ReadAnswers | src/macos_bpf_socket.rs:412-428 | an interruption answers nothing, a blocked or empty read one empty answer, a broken one an error, and a filled buffer its frames in order |
| BpfEndpoint.ReceivingUndoesAggregation | src/macos_bpf_socket.rs:396-431 | for any interleaving of batches, blocked reads and interruptions, the delivered frames are the captured frames in capture order |
| PassiveMonitor.Aggregator.Observe | src/monitor.rs:393-401 | one frame extends the trace by itself and keeps records, index map, claimants, claim order, malformed counts and truncation flag equal to their closed form over the trace |
| PassiveMonitor.Aggregator.RememberPacket | src/monitor.rs:428-455 | keeps the table matching the identities seen, and answers whether the identity is among the retained ones |
| PassiveMonitor.Aggregator.NoteThirdPartySender | src/monitor.rs:457-467 | keeps claimants and claim order matching the retained identities |
| PassiveMonitor.Aggregator.RecordMalformed | src/monitor.rs:469-479 | keeps the malformed list matching the reasons seen |
| PassiveMonitor.Aggregator.Finish | src/monitor.rs:481-507 | the outcome is the report on the whole trace |
| MonitorLaws.FramesBecomePackets | src/monitor.rs:393-426 | one more frame adds its parsed fields to the packets unless it is the monitor's own, or its message to the rejections exactly when it is ARP that does not parse |
| MonitorLaws.RecordsAreCounted | src/monitor.rs:330-346 | each record's count is the number of frames that parse to its fields, saturated at 64 bits; it is never the monitor's own and a conflict exactly under section 2.4 of RFC 5227 |
| MonitorLaws.MalformedFramesAreReported | src/monitor.rs:397-400 | a malformed warning is given exactly for the messages with which some ARP frame is rejected, with the saturated number of such frames |
| MonitorLaws.RecordsAreFirstSeen | src/monitor.rs:428-455 | the recorded packets are the first distinct ones in order of first appearance, and a packet is left out only behind a full table |
| MonitorLaws.TruncationIsReported | src/monitor.rs:439-442 | the truncation warning is given exactly when some packet of the trace has no record |
| MonitorLaws.WarningsAreExact | src/monitor.rs:469-501 | each malformed reason is reported once, in order of first occurrence, with its saturated count; only the truncation warning can follow |
| MonitorLaws.DuplicateClaimsAreExact | src/monitor.rs:457-494 | an address is claimed exactly when it is nonzero, nonlocal and sent by two recorded hardware addresses; the claim lists exactly those, ascending as 48-bit numbers, and claims follow the order of first appearance |
| TraceLaws.Conservation | src/monitor.rs:393-479 | frames that are no ARP or the monitor's own, malformed counts, record counts and packets dropped by the limit never exceed the frames observed, and account for all of them exactly when no counter saturates |
| TraceLaws.OrderInsensitive | src/monitor.rs:403-507 | while the distinct packets fit the table, any permutation of the trace gives the same records, claims and warnings up to list order |
| TraceLaws.OrderMattersWhenFull | src/monitor.rs:439-442 | behind a full table of at least one record, some permutation of the trace is reported with different records |
| TraceLaws.OrderInsensitivityIsExact | src/monitor.rs:403-507 | all permutations of a trace are reported alike exactly when its distinct packets fit the table, or the table holds nothing |
| ListenLoop.ListenForPassiveArp | src/monitor.rs:139-174 | for every endpoint and every monotone clock that does not stand still for ever, with the deadline at the first reading plus the timeout: calls start before the deadline, each poll asks for exactly the time left, a receive follows exactly a readable poll or a frame, telling the clock exactly an unreadable poll, success comes only at the deadline, nothing is sent, the first failure ends the session, and the outcome is the report on exactly the frames received |
| ListenLoop.SessionsAreExact | src/monitor.rs:150-173 | call by call what a session may be, with the timeouts in milliseconds, which answers end it with which error, and otherwise the report on its frames with 4096 records at most |
| ListenLoop.DrainUntilDeadline | src/monitor.rs:290-321 | receives one frame after another until an empty answer, a failure or the deadline, observes every received frame once in order, and reports an oversized length as an error |
| ListenLoop.MonitorDeadline | src/monitor.rs:114-127 | a zero timeout is rejected without reading the clock; otherwise the deadline is the sum, or an error when it is not representable |
| ListenLoop.PollTimeoutMilliseconds | src/monitor.rs:285-288 | the most whole milliseconds that do not exceed the remaining time and fit a C int |
| Transparency.FilterIsTransparent | src/monitor.rs:323-328 | a run behind the kernel filter reports what a run seeing every frame reports |
| Transparency.AdmittedAreTheArpFrames | src/macos_bpf_socket.rs:60-73 | the device hands over every ARP frame as often as it was on the wire, and no other |
| Transparency.CutIsTransparent | src/monitor.rs:26-27 | a receive buffer of 58 or more octets changes no report |
| Transparency.CutTransparencyIsExact | src/monitor.rs:26-27 | a receive buffer leaves the reports of all traces unchanged exactly when it holds 58 octets, the longest headers and an ARP PDU |
| Transparency.FramingIsTransparent | src/monitor.rs:393-426 | re-encoding any ARP frames of a trace under any tag stack and either framing leaves the report unchanged |
| MonitorStack.StackIsTransparent | src/macos_bpf_socket.rs:396-431 | filter, batching, de-aggregation and the 4096-octet buffer together report exactly what the wire carried |
| MonitorStack.ObserveCalls | src/monitor.rs:301-319 | any number of receive calls observes the frames among the pending responses, in order and cut to the buffer, up to the first failure, and leaves the other responses pending |
| MonitorStack.MonitorDevice | src/macos_bpf_socket.rs:396-431 | running the endpoint and the aggregator on a filtered, batching device reports the admitted frames seen so far, and after enough calls exactly what the wire carried |
| MonitorStack.ScanRequestAsSeen | src/monitor.rs:403-426 | a valid scan request passes the filter and is recorded under its configured ARP fields or their defaults, unless it claims the monitor's own hardware and IPv4 address together |
| Ipv4Subnet.NetmaskTestIsExact | src/ipv4_subnet.rs:17-39 | the inverted-mask test passes exactly for the masks of prefixes 0 to 32 |
| Ipv4Subnet.NetmaskRoundTrip | src/ipv4_cidr.rs:199-208 | prefix to mask and mask to prefix are inverse to each other |
| Ipv4Subnet.InteriorRangeIsExact | src/ipv4_subnet.rs:51-87 | a range exists exactly for prefixes up to 30 and is everything strictly between network and broadcast; overflow and empty-range errors are never returned |
| Ipv4Subnet.HostsAreTheInterior | src/ipv4_cidr.rs:76-101 | the hosts are ascending, 2^(32-p) - 2 in number, and are exactly the addresses both interior tests admit |
| Ipv4Subnet.HostAddressIterator.Next | src/ipv4_cidr.rs:92-101 | yields the head of the remaining hosts and leaves the tail, without overflow |
| Ipv4Subnet.HostAddressIterator.SizeHint | src/ipv4_cidr.rs:103-116 | both bounds are the exact number of hosts still to come |
| VendorRegistry.ParseIeeeOuiText | src/mac_vendor_registry.rs:86-117 | parsing reports the first bad line with its number, and otherwise stores every mapped prefix with the vendor of its last line |
| VendorRegistry.VendorNameFor | src/mac_vendor_registry.rs:177-195 | the answer belongs to the longest stored prefix whose digits spell the first half-octets of the address, and is missing exactly when there is none |
| VendorRegistry.LookUp | src/mac_vendor_registry.rs:86-195 | parsing then looking up answers with the last line carrying the longest matching prefix, and with nothing exactly when no line matches |
| VendorRegistry.WrittenPrefixMatches | src/mac_vendor_registry.rs:93-113 | a line of 2 to 12 digits in either letter case, a tab and a vendor maps that vendor for exactly the addresses the digits spell |
| VendorRegistry.LineVerdicts | src/mac_vendor_registry.rs:90-97 | exactly the blank lines and comments are ignored, and of the others exactly those without a tab are errors for it |
| VendorRegistry.TrimIsExact | src/mac_vendor_registry.rs:90 | trimming takes off all whitespace at both ends and nothing else |
| VendorRegistry.NormalizeIsExact | src/mac_vendor_registry.rs:206-212 | normalizing keeps the digits of a field, in order and in upper case, and nothing else |
| VendorRegistry.PrefixErrorsAreCounts | src/mac_vendor_registry.rs:93-113 | the only prefix error is a digit count outside 2 to 12; the other two checks never fail |
| VendorRegistry.NonHexadecimalCharactersAreAccepted | src/mac_vendor_registry.rs:206-212 | a prefix field with a non-hexadecimal character is accepted with that character dropped |
| VendorRegistry.HexIsNormalizedAndInjective | src/mac_vendor_registry.rs:177-186 | the two digits of an octet are its value, high half first, spelled as parsing stores prefixes; no two addresses share them |

## Left out

- ListenForPassiveArp: a clock that stands still through endlessly many endpoint calls is not covered; the source loop does not end then either.
- TryReceiveEthernetFrame: the kernel is a finite script of reads, each at most as long as the read buffer; an endless stream of interruptions or unusable reads is not covered.
- NextBpfRecord: header fields are read in little-endian order; the source reads them in native order.
- ParseIeeeOuiText: text arrives as lines; splitting UTF-8 text into lines and reading the file are not part of the model.
- Finish: warnings are values; their text, the stdout lines and the summary are formatting.
- Aggregator: the set of local addresses and the local MAC are parameters; interface discovery is not part of the model.
- Sockets, ioctl, poll, BPF device setup and all unsafe code: foreign calls.
- The scan rounds, rate limiting and reply collection of `src/scanner.rs` and `src/scan_timing.rs`: not part of this model.
- The reply parser, the Probe and Announcement builders, `parse_ethernet_padding_hex` and the other token parsers: they would add only easy members.
- CIDR text parsing: address and prefix arrive as numbers.
