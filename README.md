# SIL Kit TAP adapter and ICMP echo demo device — a Dafny model

This project models the parts of the SIL Kit TAP adapter (`sil-kit-adapters-tap`) that do the actual work:

- **The echo demo device** (`demo::Device::Process`). It answers an ARP request for its IPv4 address with an ARP reply. It answers an ICMP Echo Request to its address with an Echo Reply that carries a freshly computed RFC 1071 checksum. It sends nothing for any other frame. When a header cannot be decoded, it throws.
- **The two address types** `EthernetAddress` and `Ip4Address`, with their reading, writing and comparison.
- **The adapter's frame handlers.**
  - A frame read from the TAP device is padded with zeros to 60 bytes, then sent to the SIL Kit bus under a per-handler transmit id that is incremented before each send (`++transmitId`).
  - A frame received from the bus goes to the TAP device unchanged.
- **The command-line helpers**: `findArg`, `findArgOf`, `getArgDefault`, `foreachArgDo` and `assertAdditionalIterator`, plus the switch names.
- **The demo program**:
  - its unknown-argument check;
  - its fixed identity, 52:54:56:53:4B:55 at 192.168.7.35;
  - its send callback, with its own transmit counter;
  - its bus receive handler, which feeds every frame to the device.

This model does not include the sources of the header codecs (`EthernetHeader.hpp`, `ArpIp4Packet.hpp`, `Ip4Header.hpp`, `Icmp4Header.hpp`, `InternetChecksum.hpp`). Their contracts follow the standards instead:

- Ethernet II framing;
- RFC 826 for ARP;
- section 3.1 of RFC 791 for the IPv4 header;
- RFC 792 for ICMP;
- section 1 of RFC 1071 for the checksum.

Three details of the unseen codecs that matter to the device are a parameter, `CodecDetails.Choices`:

- whether the IPv4 payload is cut at `totalLength`;
- whether `WriteIcmp4Header` writes a zero checksum field;
- which exception a short ICMP header raises.

Every property of `Process` is proved for every choice. The one exception is the checksum-verifies property, which holds when the checksum field is written as zero. Other details of the IPv4 codec are fixed, not parameters: the checks `ParseIp4Header` applies, what it does with a `totalLength` below the header length, and the copying of the header checksum. "## Left out" lists each of these.

Modules:

- `Errors`, `Bytes`: exceptions as values, bytes and buffer views.
- `EthernetAddresses`, `Ip4Addresses`: the address types.
- `EthernetHeaders`, `ArpPackets`, `Ip4Headers`, `Icmp4Headers`, `InternetChecksums`: the codecs.
- `Devices`: `Process` and its specification `Respond`.
- `DeviceProperties`: what `Process` does, stated on frame bytes.
- `Transmit`: the transmit-id counter.
- `TapAdapter`: the adapter's two frame handlers.
- `Parsing`: the command-line helpers.
- `DemoCli`: the demo's argument check.
- `Demo`: the demo's wiring, plus two worked exchanges between a requester and the demo device.

## Behaviour of the code worth noting

- **`Process` has no `try`/`catch`.** A decoding failure therefore leaves `Process` as an exception, and nothing is sent: the exception reaches its caller. In the model such a failure is an `Err` result. `Demo.OnReceivedEthernetMessageFromSilKit` hands that `Err` on to its caller.
- **Address reads do not require an exact size.** `ReadEthernetAddress` and `ReadIp4Address` copy with `asio::buffer_copy`, which copies the smaller of the two sizes. The test that 6 (or 4) bytes were copied therefore accepts any buffer of *at least* that size.
- **A too-small target is partly overwritten before the writers throw.** The two address writers copy first and check the size afterwards.
- **The ICMP checksum covers the rest of the reply buffer.** It is computed from the start of the ICMP header to the end of the reply buffer, and that buffer is as long as the incoming frame. The coverage is therefore decided by the frame size, not by the IPv4 `totalLength`.

## Model

| member | source | states |
|---|---|---|
| Errors.ThrowIf | tap/Utility/Exceptions.hpp:70-75 | the outcome fails exactly when the condition holds, and then with the given exception |
| Bytes.WriteBytes | tap/demos/IcmpEchoDevice/Device.cpp:53-54 | stores the given bytes at the cursor of a view that holds them; every other byte of the buffer is unchanged |
| Bytes.WriteUint16Be | tap/demos/IcmpEchoDevice/Device.cpp:118 | stores a 16-bit value as its two big-endian bytes at the cursor; every other byte of the buffer is unchanged |
| Bytes.BufferCopy | tap/demos/IcmpEchoDevice/Device.cpp:114 | copies min(view size, source size) bytes into the view and leaves every other byte of the buffer unchanged |
| EthernetAddresses.Equal | tap/Utility/EthernetAddress.hpp:22-25 | true exactly when all six bytes agree |
| EthernetAddresses.EqualIsEquivalence | tap/Utility/EthernetAddress.hpp:22-25 | address equality is reflexive, symmetric and transitive |
| EthernetAddresses.ReadEthernetAddress | tap/Utility/EthernetAddress.hpp:27-35 | succeeds exactly when the buffer holds at least 6 bytes, with its first 6 bytes; otherwise InvalidBufferSize |
| EthernetAddresses.WriteEthernetAddress | tap/Utility/EthernetAddress.hpp:37-45 | copies what fits into the view; returns 6 exactly when all 6 bytes fitted, else InvalidBufferSize; after success the view reads back as the address |
| EthernetAddresses.WrittenAddressReadsBack | tap/Utility/EthernetAddress.hpp:27-45 | round trip: reading a written address yields it, whatever the buffer held before |
| Ip4Addresses.Equal | tap/Utility/Ip4Address.hpp:23-26 | true exactly when all four bytes agree |
| Ip4Addresses.EqualIsEquivalence | tap/Utility/Ip4Address.hpp:23-26 | address equality is reflexive, symmetric and transitive |
| Ip4Addresses.ReadIp4Address | tap/Utility/Ip4Address.hpp:28-36 | succeeds exactly when the buffer holds at least 4 bytes, with its first 4 bytes; otherwise InvalidBufferSize |
| Ip4Addresses.WriteIp4Address | tap/Utility/Ip4Address.hpp:38-45 | copies what fits; returns 4 exactly when all 4 bytes fitted, else InvalidBufferSize; after success the view reads back as the address |
| Ip4Addresses.WrittenAddressReadsBack | tap/Utility/Ip4Address.hpp:28-45 | round trip: reading a written address yields it |
| EthernetHeaders.Parse | tap/demos/IcmpEchoDevice/Device.cpp:11 | succeeds exactly on frames of at least 14 bytes, else InvalidEthernetFrameError; the header re-encodes to the first 14 bytes and the payload is the rest |
| EthernetHeaders.ParseEncode | tap/demos/IcmpEchoDevice/Device.hpp:15 | parsing an encoded header followed by any payload gives back both |
| EthernetHeaders.Write | tap/demos/IcmpEchoDevice/Device.cpp:53 | writes the 14 encoded bytes at the cursor, returns 14, changes nothing else |
| ArpPackets.Parse | tap/demos/IcmpEchoDevice/Device.cpp:21 | succeeds exactly on payloads of at least 28 bytes starting with the Ethernet/IPv4 fixed fields, else InvalidArpPacketError; fields are read at their RFC 826 offsets |
| ArpPackets.ParseEncode | tap/demos/IcmpEchoDevice/Device.hpp:17 | parsing an encoded packet followed by any trailer gives it back |
| ArpPackets.Write | tap/demos/IcmpEchoDevice/Device.cpp:54 | writes the 28 encoded bytes at the cursor, returns 28, changes nothing else |
| Ip4Headers.Parse | tap/demos/IcmpEchoDevice/Device.cpp:63 | succeeds exactly on packets passing the length checks, else InvalidIp4PacketError; the header re-encodes to the first IHL*4 bytes, the payload follows it, protocol and addresses are read at their RFC 791 offsets |
| Ip4Headers.ParseEncode | tap/demos/IcmpEchoDevice/Device.hpp:19 | parsing an encoded well-formed header followed by its payload gives the header back |
| Ip4Headers.EncodeWithAddresses | tap/demos/IcmpEchoDevice/Device.cpp:91-93 | replacing the two addresses changes exactly header bytes 12 to 20 |
| Ip4Headers.Acceptable | tap/demos/IcmpEchoDevice/Device.cpp:63 | the packet passes exactly when it holds 20 bytes, its IHL is at least 5, and both the IHL*4-byte header and `totalLength` fit in it; an accepted header is at most 60 bytes |
| Ip4Headers.PayloadEnd | tap/demos/IcmpEchoDevice/Device.cpp:63 | for an accepted packet, the payload handed on ends between the end of the header and the end of the packet |
| Ip4Headers.SwappedAddressesKeepChecksum | tap/demos/IcmpEchoDevice/Device.cpp:91-93 | for a request addressed to the device, the reply header with swapped addresses has the same word sum, so the copied header checksum still passes the RFC 1071 check exactly when it did |
| Ip4Headers.Write | tap/demos/IcmpEchoDevice/Device.cpp:111 | writes the IHL*4 encoded bytes, returns that length, changes nothing else |
| Icmp4Headers.Parse | tap/demos/IcmpEchoDevice/Device.cpp:73 | succeeds exactly on messages of at least 8 bytes; the header re-encodes to the first 8 bytes and the payload is the rest |
| Icmp4Headers.ParseEncode | tap/demos/IcmpEchoDevice/Device.hpp:20 | parsing an encoded header followed by any payload gives back both |
| Icmp4Headers.AsWritten | tap/demos/IcmpEchoDevice/Device.cpp:113 | the written header keeps type, code and rest of header; its checksum field is zero or the header's own value |
| Icmp4Headers.Write | tap/demos/IcmpEchoDevice/Device.cpp:113 | writes the 8 bytes of the header as written, returns 8, changes nothing else |
| InternetChecksums.WordSum | tap/demos/IcmpEchoDevice/Device.cpp:117 | the sum of the 16-bit words of a buffer is at most 0xFFFF per word, an odd final byte counting as a word |
| InternetChecksums.AddBuffer | tap/demos/IcmpEchoDevice/Device.cpp:117 | adding a buffer raises the accumulator by at most 0xFFFF per 16-bit word, and never lowers it |
| InternetChecksums.GetChecksum | tap/demos/IcmpEchoDevice/Device.cpp:118 | the accumulated sum plus the checksum is 0 modulo 0xFFFF (the ones' complement); a nonzero sum gives a checksum below 0xFFFF |
| InternetChecksums.Checksum | tap/demos/IcmpEchoDevice/Device.cpp:116-118 | a buffer's word sum plus its checksum is 0 modulo 0xFFFF |
| InternetChecksums.EmptyChecksum | tap/demos/IcmpEchoDevice/Device.cpp:116-118 | a fresh accumulator fed nothing gives 0xFFFF |
| InternetChecksums.WordSumConcat | tap/demos/IcmpEchoDevice/Device.cpp:117 | after an even-length first part, the word sum of a concatenation is the sum of the parts' word sums |
| InternetChecksums.Fold | tap/demos/IcmpEchoDevice/Device.cpp:116-118 | end-around carry keeps the sum modulo 0xFFFF, never grows it and keeps a nonzero sum nonzero |
| InternetChecksums.AddBufferConcat | tap/demos/IcmpEchoDevice/Device.cpp:116-117 | adding an even-length buffer and then another equals adding their concatenation |
| InternetChecksums.OddSplitDiffers | tap/demos/IcmpEchoDevice/Device.cpp:116-117 | splitting after an odd-length first part changes the sum: [1] then [2] gives 0x300 and another checksum than [1, 2], which gives 0x102 |
| InternetChecksums.VerifiesIffZeroChecksum | tap/demos/IcmpEchoDevice/Device.cpp:116-118 | a segment verifies exactly when its checksum is zero |
| InternetChecksums.StoredChecksumVerifies | tap/demos/IcmpEchoDevice/Device.cpp:116-118 | RFC 1071: storing the checksum into a zero checksum field at offset 2 makes the segment verify |
| Devices.Device.constructor | tap/demos/IcmpEchoDevice/Device.hpp:39-46 | the device keeps the given Ethernet and IPv4 addresses |
| Devices.Device.AllocateBuffer | tap/demos/IcmpEchoDevice/Device.hpp:52-55 | a fresh buffer of `size` zero bytes |
| Devices.Device.Process | tap/demos/IcmpEchoDevice/Device.cpp:9-133 | the cursor-based writing of the reply produces exactly the frame `Respond` specifies (or the same exception, or nothing) |
| Devices.Respond | tap/demos/IcmpEchoDevice/Device.cpp:9-133 | a reply has the length of the incoming frame |
| DeviceProperties.ArpDecision | tap/demos/IcmpEchoDevice/Device.cpp:17-28 | for an ARP frame: a reply is sent exactly when it is an Ethernet/IPv4 ARP request for the device's address; it throws InvalidArpPacketError exactly when the payload is short or its fixed fields are wrong |
| DeviceProperties.ArpReplyContents | tap/demos/IcmpEchoDevice/Device.cpp:30-56 | the ARP reply's bytes: to the requester, from the device, operation Reply, sender the device, target the requester, zero-padded to the request's length |
| DeviceProperties.EchoDecision | tap/demos/IcmpEchoDevice/Device.cpp:61-81 | for an IPv4 frame: a reply is sent exactly when it is an ICMP Echo Request to the device; it throws exactly when the IPv4 header fails its checks (InvalidIp4PacketError) or an ICMP payload is too short for a header |
| DeviceProperties.EchoReplyContents | tap/demos/IcmpEchoDevice/Device.cpp:83-120 | the echo reply's bytes: Ethernet and IPv4 addresses swapped, the rest of the IPv4 header (options included) kept, type Echo Reply with code, identifier, sequence and payload kept, zero padding, and the checksum of the ICMP part |
| DeviceProperties.EchoReplyVerifies | tap/demos/IcmpEchoDevice/Device.cpp:110-118 | with a zero-written checksum field, the ICMP part of the reply passes the RFC 1071 check |
| DeviceProperties.OtherFrames | tap/demos/IcmpEchoDevice/Device.cpp:11-17 | a frame shorter than 14 bytes throws InvalidEthernetFrameError; other etherTypes and non-ICMP IPv4 packets get no reply |
| Transmit.FrameSender.constructor | tap/adapter/SilKitAdapterTap.cpp:129 | the counter starts at 0 with nothing sent |
| Transmit.FrameSender.Send | tap/adapter/SilKitAdapterTap.cpp:129-130 | increments the counter first and sends the frame under the new value; the ids handed out are 1, 2, 3, … in send order |
| TapAdapter.Padded | tap/adapter/SilKitAdapterTap.cpp:124-127 | a frame shorter than 60 bytes becomes 60 bytes; a longer one is unchanged; the original bytes come first and only zeros are added |
| TapAdapter.PaddedIdempotent | tap/adapter/SilKitAdapterTap.cpp:124-127 | padding twice equals padding once |
| TapAdapter.OnReceiveEthernetFrameFromTapDevice | tap/adapter/SilKitAdapterTap.cpp:123-135 | sends exactly one frame, the padded one, under the next transmit id, and reports that size and id |
| TapAdapter.TapDevice.constructor | tap/adapter/SilKitAdapterTap.cpp:140 | nothing has been written to the TAP device yet |
| TapAdapter.TapDevice.SendEthernetFrameToTapDevice | tap/adapter/SilKitAdapterTap.cpp:145 | the frame is appended to what the TAP device received |
| TapAdapter.OnReceiveEthernetMessageFromSilKit | tap/adapter/SilKitAdapterTap.cpp:142-150 | the raw bus frame goes to the TAP device unchanged, and its size is reported |
| Parsing.Switches | tap/adapter/Parsing.hpp:92-127 | the eight switch names are pairwise distinct |
| Parsing.FindArg | tap/adapter/Parsing.cpp:25-35 | the first index at or after `start` holding the argument, or none exactly when there is no such index |
| Parsing.FindArgOf | tap/adapter/Parsing.cpp:36-44 | the index after the first match, present exactly when the match is not the last token |
| Parsing.GetArgDefault | tap/adapter/Parsing.cpp:46-53 | the token after the first occurrence of the switch, or the default when it is absent or last |
| Parsing.LaterDuplicatesIgnored | tap/adapter/Parsing.cpp:46-53 | tokens after the first occurrence's value do not change the result |
| Parsing.DanglingSwitchGivesDefault | tap/adapter/Parsing.cpp:36-53 | a first occurrence in the last position gives the default |
| Parsing.AssertAdditionalIterator | tap/adapter/Parsing.hpp:65-69 | fails with InvalidCli exactly when the iterator is at the end |
| Parsing.ValuePositionsShape | tap/adapter/Parsing.hpp:79-87 | each position handed to the action follows a token equal to the switch, and consecutive positions are at least two apart |
| Parsing.ValuePositionsComplete | tap/adapter/Parsing.hpp:79-87 | every occurrence of the switch before the last token, unless it is itself consumed as a value, has its value handed to the action |
| Parsing.ForeachArgDo | tap/adapter/Parsing.hpp:79-87 | the loop visits exactly the positions `ValuePositions` lists, in that order |
| DemoCli.StartsWithDashes | tap/demos/IcmpEchoDevice/SilKitDemoEthernetIcmpEchoDevice.cpp:55 | true exactly when `--` is a prefix of the token |
| DemoCli.SwitchesStartWithDashes | tap/demos/IcmpEchoDevice/SilKitDemoEthernetIcmpEchoDevice.cpp:44-46 | every demo switch passes the `--` prefix test |
| DemoCli.ThereAreDemoUnknownArgumentsAsWritten | tap/demos/IcmpEchoDevice/SilKitDemoEthernetIcmpEchoDevice.cpp:48-73 | the source's walk, including its read past the end of `argv` |
| DemoCli.DanglingSwitchReadsPastEnd | tap/demos/IcmpEchoDevice/SilKitDemoEthernetIcmpEchoDevice.cpp:53-62 | `demo --network` makes the walk read past the end of `argv` |
| DemoCli.ThereAreDemoUnknownArguments | tap/demos/IcmpEchoDevice/SilKitDemoEthernetIcmpEchoDevice.cpp:48-73 | reports unknown arguments exactly when the tokens after `argv[0]` do not follow the demo's grammar |
| DemoCli.ScanAgrees | tap/demos/IcmpEchoDevice/SilKitDemoEthernetIcmpEchoDevice.cpp:48-73 | the source's answers agree with the grammar, and reading past the end happens only on tokens outside it |
| DemoCli.AsWrittenAgreesWhenInBounds | tap/demos/IcmpEchoDevice/SilKitDemoEthernetIcmpEchoDevice.cpp:48-73 | where the source stays inside `argv`, it gives the corrected answer |
| Demo.DemoSendCallback | tap/demos/IcmpEchoDevice/SilKitDemoEthernetIcmpEchoDevice.cpp:116-125 | the reply is sent under the next value of the callback's own counter |
| Demo.OnReceivedEthernetMessageFromSilKit | tap/demos/IcmpEchoDevice/SilKitDemoEthernetIcmpEchoDevice.cpp:127-134 | one transmission with the next id when the device replies; none, with the exception passed on, when it throws or stays silent |
| Demo.ArpExchange | tap/demos/IcmpEchoDevice/Device.cpp:19-56 | an Ethernet/IPv4 ARP request for the device's address, followed by any trailing bytes (the 60-byte padded who-has included), is answered with the RFC 826 reply to its sender, zero-padded to the request's length |
| Demo.ArpScenario | tap/demos/IcmpEchoDevice/SilKitDemoEthernetIcmpEchoDevice.cpp:114-116 | a broadcast who-has 192.168.7.35 from 192.168.7.1 is answered by 52:54:56:53:4B:55 |
| Demo.EchoExchange | tap/demos/IcmpEchoDevice/Device.cpp:61-120 | an echo request to the device with a 20-byte IPv4 header (no options) whose total length ends the frame is answered with swapped addresses, type Echo Reply, the same code, identifier, sequence number and payload, and a verifying checksum when the field is written as zero |
| Demo.EchoScenario | tap/demos/IcmpEchoDevice/SilKitDemoEthernetIcmpEchoDevice.cpp:114-116 | a ping of 192.168.7.35 from 192.168.7.1 with an 8-byte payload gets a 50-byte echo reply |

## Left out

- Logging, console output and the debug text of every handler are left out; they are I/O.
- `TapConnection` (opening the TAP device, the asynchronous read loop, the OS write) is not part of this model. `TapAdapter.TapDevice.SendEthernetFrameToTapDevice` only records the frame.
- `main`, participant and controller creation, the SIL Kit bus, io_context threads and signal handling are left out; they are foreign calls and concurrency.
- The header codec sources (`EthernetHeader.hpp`, `ArpIp4Packet.hpp`, `Ip4Header.hpp`, `Icmp4Header.hpp`, `InternetChecksum.hpp`) are not part of this model. They are modelled from the standards, and their open details are the `CodecDetails.Choices` parameter.
- EthernetHeaders.Write, ArpPackets.Write, Ip4Headers.Write, Icmp4Headers.Write: each requires that the target view can hold the header, so the codecs' own short-buffer exceptions are not modelled. `Process` always writes into a buffer of the incoming frame's length, and that length has already been parsed successfully.
- InternetChecksums.AddBufferConcat: the split is proved only after an even-length first part. The unseen `InternetChecksum.hpp` is taken to pad the odd final byte of each `AddBuffer` call on its own, as RFC 1071 pads a single buffer. Under that reading, [1] then [2] differs from [1, 2] (`InternetChecksums.OddSplitDiffers`), so a split after an odd first part is not promised. An odd byte carried over between calls is not modelled. `Process` feeds one buffer to a fresh accumulator (Device.cpp:116-117) and never splits.
- Demo.EchoExchange: covers requests with a 20-byte IPv4 header whose total length ends the frame. Requests with IPv4 options or trailing bytes, such as a short ping padded to 60 bytes, are covered by `DeviceProperties.EchoReplyContents` and `DeviceProperties.EchoReplyVerifies`, which hold for every echo request.
- InternetChecksums.Fold: the running sum is an unbounded integer. The width of the accumulator in `InternetChecksum.hpp` is not modelled. By the bound on `InternetChecksums.WordSum`, a 32-bit accumulator could only wrap on buffers of more than 131074 bytes, far beyond any Ethernet frame.
- Ip4Headers.Acceptable: the source of `ParseIp4Header` is not part of this model, so these checks are a guess at it. They are the length checks only; neither the version nibble nor the header checksum is checked. A first byte of 0x65 is accepted like 0x45.
- Ip4Headers.PayloadEnd: this is a guess at the unseen `ParseIp4Header`. When the payload is cut at `totalLength`, a `totalLength` below the header length is accepted and gives an empty payload, not a rejection. The "throws exactly when" half of `DeviceProperties.EchoDecision` rests on this and on the checks of `Ip4Headers.Acceptable`.
- Ip4Headers.Write: this is a guess at the unseen `WriteIp4Header`. It writes the header's checksum field as it was parsed and does not recompute it; `Ip4Headers.SwappedAddressesKeepChecksum` shows the copied value stays correct for the device's replies.
- Transmit.FrameSender.Send: the `intptr_t` counter is an unbounded integer; its overflow after 2^63 frames is not modelled.
- Parsing.ForeachArgDo: the action is not called. The method returns, in call order, the positions whose tokens the action receives.
- `thereAreUnknownArguments` and the adapter's option handling in `main` are not part of this model; their bodies are not among the modelled files.
- DemoCli.StartsWithDashes: `strncmp` on C strings is modelled on `seq<char>`. A token containing a NUL before its third character is not modelled.
- The `Findings` hazard below is an out-of-bounds read in C++. The model reports it as `ReadsPastEnd` and does not model what an actual run would then do.

## Findings

| source | as written | input that shows it | evidently intended | confidence | as-written member | corrected member |
|---|---|---|---|---|---|---|
| tap/demos/IcmpEchoDevice/SilKitDemoEthernetIcmpEchoDevice.cpp:53-62 | the loop runs `while (argc)` and subtracts 2 for a switch with a value, so a final switch without its value takes `argc` to -1 and the loop reads `*argv` past the end | `demo --network` | report the missing value as an unknown argument and stay inside `argv` | not executed | DemoCli.ThereAreDemoUnknownArgumentsAsWritten, DemoCli.DanglingSwitchReadsPastEnd | DemoCli.ThereAreDemoUnknownArguments, DemoCli.ScanAgrees |
