# natty-guard core, modelled in Dafny

natty-guard finds the listen port the kernel gave a WireGuard interface, then opens a raw socket. A classic-BPF filter on that socket admits only the traffic between the configured peer and that port. This project models the logic behind those two steps and proves properties of it.

- **Netlink request** (`request.dfy`, module `NetlinkRequest`). One request/response exchange works like this:
  - a request over 4096 bytes is rejected before any socket is opened;
  - default flags are applied when the caller gives none;
  - a short write is an error;
  - responses are collected by a two-level loop, over datagrams and over the offsets inside each datagram.

  Generic-netlink family resolution sits in front of the exchange.
- **WireGuard listen-port query** (`kernel.dfy`, module `WireguardKernel`). A GetDevice dump request is sent. The attribute lists of all responses are folded into one list, and the first `ListenPort` in it is the answer.
- **BPF filter** (`bpf.dfy`, module `BpfFilter`). This is the 8-instruction program built in `apply_bpf`. A small classic-BPF interpreter covers the opcodes the program uses. With it we prove that the program accepts a packet exactly when the source address, source port and destination port match.
- **Interface names and keys** (`wireguard.dfy`, module `WireguardControl`). This covers the byte-level validator `InterfaceName::from_str`, reading a name back up to its first NUL, and the 32-byte check in `Key::from_base64`.
- `types.dfy` (module `Primitives`) holds the fixed-width integer types, `Option`, and the generic `Result` that every module uses.

How the model is built:
- **The socket is an input** (type `Socket`). It says whether opening or connecting fails, what `send` reports, and which datagrams or receive errors arrive, as a finite list.
- **The wire codec is opaque** (type `Codec`). It is two function-valued parameters: the serialized payload length of a message, and the parser of the message at the front of a byte slice.
- **Every exchange ends in one of three ways** (type `Outcome`):
  - `Returned` with a result;
  - `Pending`: the given datagrams ran out before a terminal message, so the real program would wait in `recv`;
  - `Panicked`: a declared length moved the offset past the end of the datagram, so the slice at request.rs:114 would panic.
- **Each exchange also records what it did** (type `Exchange`): the protocol a socket was requested for, the finalized message handed to `send`, and how many datagrams were read.

The imperative parts keep their shape:
- `NetlinkRequest.NetlinkRequest` is a method with the source's two nested loops. It is proved equal to the recursive specification `Request`.
- A second, independent definition describes the response loop. `Stream` lists every message of every datagram in arrival order. `Verdict` ends the exchange at the first stop event. The lemma `ExchangeFollowsStream` proves the two definitions agree.
- `FromStr` fills a fixed 16-byte array in a `for` loop, as the source does.
- `FromBase64` copies the decoded bytes into a 32-byte array.

Two facts about the code that the model follows:
- Family resolution reads only the first response of the lookup. Any later responses are ignored; they are not rejected.
- The code assigns no sequence number: it sets the header's flags and then calls `finalize`, which fixes the length and the message type. No sequence number is modelled.

## Model

| member | source | states |
|---|---|---|
| `NetlinkRequest.EffectiveFlags` | crates/netlink-request/src/request.rs:90 | the caller's flags if given, otherwise 0x0605 (REQUEST\|ACK\|EXCL\|CREATE) |
| `NetlinkRequest.Relabel` | crates/wireguard-control/src/kernel.rs:16-17 | a failure (error, pending, panic) is passed on unchanged at another result type |
| `NetlinkRequest.WalkDatagram` | crates/netlink-request/src/request.rs:112-129 | the walk over one datagram stops with a real outcome (never pending, never InvalidInput), or moves on to the next datagram with the list extended, earlier entries kept |
| `NetlinkRequest.Receive` | crates/netlink-request/src/request.rs:108-131 | the outer loop reads at least one more datagram unless the input is used up; it is pending only when every datagram was read; it never yields InvalidInput |
| `NetlinkRequest.Request` | crates/netlink-request/src/request.rs:67-106 | InvalidInput exactly when the serialized length exceeds 4096, and then no socket, no send, no receive; the sent header carries the caller's flags or REQUEST\|ACK\|EXCL\|CREATE and the full length; a failing socket open, connect or send gives that OS error with nothing received (no message sent when open or connect fails); a short write gives UnexpectedEof with nothing received; nothing is received unless the whole request was sent |
| `NetlinkRequest.NetlinkRequest` | crates/netlink-request/src/request.rs:67-132 | the nested-loop implementation yields exactly the exchange `Request` specifies |
| `NetlinkRequest.Scan` | crates/netlink-request/src/request.rs:112-129 | the offset walk over a datagram yields at least one event, and every event before the last is a parsed message with non-zero length (a zero-length message ends the datagram) |
| `NetlinkRequest.ParsedMessages` | crates/netlink-request/src/request.rs:123 | over events that are all parsed messages, the messages collected are exactly those, in the same order |
| `NetlinkRequest.FirstStop` | crates/netlink-request/src/request.rs:117-122 | index of the first Ack, Done, Error or failure event: none before it, and it is one |
| `NetlinkRequest.VerdictCons` | crates/netlink-request/src/request.rs:117-123 | a stop event decides the exchange alone; any other message is put in front of what follows |
| `NetlinkRequest.WalkMatchesScan` | crates/netlink-request/src/request.rs:112-129 | the inner loop ends the way the stream of its datagram says, whatever follows the datagram |
| `NetlinkRequest.ReceiveMatchesStream` | crates/netlink-request/src/request.rs:108-131 | the outer loop ends the way the stream of the remaining datagrams says, with the messages collected so far in front |
| `NetlinkRequest.ExchangeFollowsStream` | crates/netlink-request/src/request.rs:97-131 | after a complete send, the result is the messages before the first Ack or Done, in arrival order across all datagrams, with the Ack/Done left out; an Error payload gives that error with no messages; an unparsable slice gives InvalidData |
| `NetlinkRequest.ReceiveStopsAtTerminal` | crates/netlink-request/src/request.rs:117-120 | datagrams arriving after the one that ends the exchange change nothing |
| `NetlinkRequest.TwoDatagramExchange` | crates/netlink-request/src/request.rs:108-131 | two inner messages in one datagram, then one inner message and Done in the next: exactly those three, in order, after reading two datagrams |
| `NetlinkRequest.ErrorOnlyExchange` | crates/netlink-request/src/request.rs:115-120 | a datagram holding only an Error message fails with that error after one read |
| `NetlinkRequest.LookupMessage` | crates/netlink-request/src/request.rs:26-29 | the lookup is GetFamily to the controller family (id 0x10) carrying only FamilyName(name), and no FamilyId |
| `NetlinkRequest.FirstFamilyId` | crates/netlink-request/src/request.rs:46-52 | None exactly when no FamilyId attribute occurs; otherwise the value of the first one |
| `NetlinkRequest.ResolveFamilyId` | crates/netlink-request/src/request.rs:37-62 | InvalidData exactly when there is no first response or it is not an inner message; NotFound exactly when the first response has no FamilyId; otherwise the first FamilyId of the first response |
| `NetlinkRequest.RequestGenl` | crates/netlink-request/src/request.rs:17-65 | a lookup is made exactly when the family id is 0, and it is the full `Request` exchange of the lookup message with flags REQUEST\|ACK on the lookup socket; it sends GetFamily with only FamilyName(name), flags REQUEST\|ACK, on a generic-netlink socket; the real request is made only after the id resolves, carrying that id and the caller's flags; with a non-zero id it is sent unchanged |
| `NetlinkRequest.GenlResolutionFailure` | crates/netlink-request/src/request.rs:30-62 | a failed lookup is passed on and the real request is never made; after a successful lookup the real request is skipped exactly when resolution fails, and its error is returned |
| `WireguardKernel.AppendAttrs` | crates/wireguard-control/src/kernel.rs:20-35 | one fold step: an earlier error stays; an inner message appends its attributes after the ones collected, keeping them; any other payload is InvalidData |
| `WireguardKernel.FoldAttrs` | crates/wireguard-control/src/kernel.rs:19-36 | once the fold has failed it stays failed with the same error; starting from a list it only fails with InvalidData; a success extends the starting list |
| `WireguardKernel.FoldAttrsConcatenates` | crates/wireguard-control/src/kernel.rs:19-36 | the fold gives the concatenation of all responses' attribute lists, in order, when every response is an inner message, and InvalidData otherwise |
| `WireguardKernel.CollectAttrs` | crates/wireguard-control/src/kernel.rs:19-36 | the attribute list is the concatenation of every response's attributes, or InvalidData if any response is not an inner message, even one after a ListenPort |
| `WireguardKernel.DeviceQuery` | crates/wireguard-control/src/kernel.rs:11-14 | GetDevice with family id 0, so it is always resolved first, carrying only IfName with the name's bytes before its NUL, at most 15 of them |
| `WireguardKernel.FirstListenPort` | crates/wireguard-control/src/kernel.rs:38-43 | None exactly when no ListenPort occurs; otherwise the value of the first one, so later duplicates are ignored |
| `WireguardKernel.PortOf` | crates/wireguard-control/src/kernel.rs:19-47 | a port exactly when all responses are inner messages and their concatenated attributes contain a ListenPort, and then it is the first one; every failure is InvalidData |
| `WireguardKernel.GetListenPort` | crates/wireguard-control/src/kernel.rs:10-48 | both exchanges are exactly `RequestGenl` of the device query with flags REQUEST\|DUMP\|ACK and family name "wireguard"; the family lookup for "wireguard" is always made; the device request is GetDevice with only IfName(name) and flags REQUEST\|DUMP\|ACK; transport and resolution failures propagate unchanged; otherwise the result is the port the responses carry |
| `WireguardKernel.SplitDumpListenPort` | crates/wireguard-control/src/kernel.rs:19-47 | a dump split into {IfName, ListenPort 51820} and {PublicKey} yields 51820 |
| `BpfFilter.BpfStmt` | crates/client/src/main.rs:63-70 | a statement never jumps: jt and jf are 0; code and k are as given |
| `BpfFilter.BpfJump` | crates/client/src/main.rs:72-74 | code, k and both jump offsets are as given |
| `BpfFilter.Ipv4ToU32` | crates/client/src/main.rs:104 | the address as a u32 is its four octets in network order, most significant first |
| `BpfFilter.LoadWordInjective` | crates/client/src/main.rs:104 | the big-endian word at an offset equals the address as u32 exactly when the four bytes equal its octets |
| `BpfFilter.FilterProgram` | crates/client/src/main.rs:100-113 | 8 instructions: loads of the word at 12 (code 0x20) and the half-words at 20 and 22 (code 0x28), JEQ (0x15) against peer address, peer port and listen port, accept with u32::MAX, reject with 0 at index 7; every JEQ falls through on true and lands on index 7 on false |
| `BpfFilter.OnlyOperandsVary` | crates/client/src/main.rs:101-113 | for any two inputs the programs agree everywhere except the k operands of the three comparisons |
| `BpfFilter.FilterAcceptsExactlyMatches` | crates/client/src/main.rs:101-113 | under classic BPF semantics the program returns u32::MAX exactly when the packet is at least 24 bytes, its bytes 12..16 are the peer address, and its half-words at 20 and 22 are the peer port and the listen port; otherwise it returns 0; it always ends with a verdict within 8 steps, at a RET or at an out-of-bounds load, which returns 0 |
| `BpfFilter.ExampleProgram` | crates/client/src/main.rs:101-113 | for peer 203.0.113.5:51820 and listen port 51821 the program is the expected fixed array |
| `WireguardControl.UpToNul` | crates/wireguard-control/src/lib.rs:137-140 | the result is a prefix of the buffer holding no NUL, followed in the buffer by a NUL or by the end |
| `WireguardControl.AsStrLossy` | crates/wireguard-control/src/lib.rs:137-140 | a name reads back as at most 15 non-NUL bytes, followed by a NUL in the buffer |
| `WireguardControl.Forbidden` | crates/wireguard-control/src/lib.rs:122 | a byte is refused exactly when it is NUL, '/', space, tab, line feed, form feed or carriage return (vertical tab is allowed) |
| `WireguardControl.FromStr` | crates/wireguard-control/src/lib.rs:109-130 | Empty for no bytes; TooLong above 15 bytes, checked before any byte; InvalidChars for a NUL, '/' or ASCII whitespace; success exactly when 1 to 15 bytes hold none of them; the buffer holds the bytes and then zeros; reading it back gives the input |
| `WireguardControl.FromBase64` | crates/wireguard-control/src/lib.rs:41-51 | success exactly when decoding succeeds with 32 bytes, and then the key is those bytes |

## Left out

- Socket I/O and the async runtime: they are replaced by the `Socket` input. Received datagrams are taken as they arrive, so truncation to the 4096-byte buffer is not modelled.
- The netlink wire codec (`serialize`, `deserialize`, `buffer_len`, `finalize`): it is foreign library code and is the `Codec` parameter here. Header fields other than length and flags (message type, sequence number, port id) are not modelled.
- The unbounded read loop: the datagrams are a finite list. Running out of them before a terminal message is the `Pending` outcome, and no result is invented for it.
- `MAX_GENL_PAYLOAD_LENGTH` (request.rs:14-15): nothing in the core uses it.
- The generic-netlink library's rule that a family with a static id ignores the resolved id: `GenlMessage.familyId` stands for what `family_id()` returns. The lookup message carries the controller's fixed id 0x10.
- `attach_filter`, `setsockopt`, `SO_ATTACH_FILTER`, `SO_LOCK_FILTER`, raw-socket creation, `NatSocket`, `main`, ctrl-c handling and argument parsing: these are unsafe system calls, async code and CLI glue.
- `BpfFilter.Exec`: it interprets only the opcodes this program uses (absolute loads, JEQ with a constant, RET with a constant). Any other opcode returns no verdict.
- The base64 codec: it is a foreign library, passed to `FromBase64` as a function. `Key::to_base64` and its round-trip test depend only on that codec, so they are not modelled.
- Strings: a Rust string is its UTF-8 bytes. The signed `c_char` buffer, the unsafe `CStr::from_ptr` and lossy UTF-8 conversion are modelled only as "bytes up to the first NUL". The `Display` and `Debug` implementations only format text.
