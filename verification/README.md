# Packet decoding engine — a Dafny model

This project models the packet decoding engine of a small raw-socket packet
sniffer written in C++ (`Packet::parse_packet`, `copy_payload_preview`,
`mac_to_string`, `process_bpf_buffer` and `process_packet` in
`src/Packet.cpp`, and the `PacketInfo` record in `src/Packet.hpp`).

The engine has two parts.

- **The single-frame decoder.** It takes the bytes of one Ethernet II frame. It either rejects the frame or produces a `PacketInfo` record. The record holds:
  - both MAC addresses as `xx:xx:xx:xx:xx:xx` strings;
  - both IPv4 addresses in dotted-decimal form;
  - the IP version;
  - a protocol tag: `TCP`, `UDP`, `ICMP` or `OTHER(n)`;
  - ports, in host order;
  - the payload size;
  - a payload preview of at most 64 bytes.

  The decoder reads only IPv4 carried in EtherType 0x0800 (RFC 894, section 3.1 of RFC 791). It reads only the TCP header (section 3.1 of RFC 9293), the UDP header (RFC 768) and ICMP (RFC 792).
- **The BPF batch walker (macOS).** A read from a BPF device returns back-to-back capture records. Each record is a `bpf_hdr` followed by a captured frame. The walker:
  - cuts each frame out with `bh_hdrlen` and `bh_caplen`;
  - hands each frame to the decoder;
  - stops at the first header that is zero-length or out of range.

Files:

| file | module | contents |
|---|---|---|
| `results.dfy` | `Results` | `Option` and `Result` |
| `bytes.dfy` | `Bytes` | octets; nibbles; big-endian and little-endian reads; encoders for them |
| `text.dfy` | `Text` | hex, MAC, decimal and dotted-quad renderings. Each has a parser and round-trip lemmas |
| `decoder.dfy` | `FrameDecoder` | `PacketInfo`; the layer-by-layer decoder; `ParsePacket` |
| `encoder.dfy` | `FrameEncoder` | builds a frame from header fields; decoding it gives those fields back |
| `bpf.dfy` | `BpfBatch` | the capture-buffer walk, its loop implementation, the packer that inverts it, and the guard as written |
| `reused.dfy` | `ReusedRecord` | the decoder as written, with its one shared record, compared with the fresh-record decoder |

Design decisions:

- **Bytes.** Bytes are `int`s in 0..255. Integer fields are unbounded `nat`s. Their ranges are stated where they matter:
  - ports come from `BE16` and are `u16`;
  - a little-endian field of n octets is below 256^n (`Bytes.LittleEndianBound`).
- **Errors.** `FrameDecoder.Decode` returns a `Result` with a `DecodeError`. The error says:
  - which layer was truncated; or
  - which EtherType or IP version was unsupported.

  The C++ returns `std::nullopt` for every rejection. `FrameDecoder.ParsePacket` is `Decode` with the error dropped, so it has the same signature as `parse_packet`. `Decode` also takes the preview limit as a parameter; `ParsePacket` fixes it at the class default of 64.
- **One fresh record per frame.** `Decode` produces a fresh record for every frame:
  - ports are 0 for ICMP and other protocols;
  - a TCP or UDP segment without data has payload size 0 and an empty preview;
  - `etherType` holds the value read, 0x0800.

  The C++ instead updates one member record and copies it out; see Findings. The model of the C++ as written is `ReusedRecord.ParseReusing`.
- **The capture header.** It is read in the macOS layout:
  - 18 bytes in all;
  - an 8-byte timestamp;
  - `bh_caplen` at offset 8 (32 bits, little-endian);
  - `bh_datalen` at offset 12;
  - `bh_hdrlen` at offset 16 (16 bits).

  Only `bh_caplen` and `bh_hdrlen` are read, as in the C++.
- **The walk's guard.** A header is read only when all 18 of its bytes are present. A frame is handed on only when `p + hdrlen + caplen` is within the buffer. The C++ guard checks less; see Findings.

## Model

| member | source | states |
|---|---|---|
| FrameDecoder.Decode | src/Packet.cpp:66-155 | a frame shorter than 14 bytes is rejected as truncated at the Ethernet layer, and only such a frame; a frame whose big-endian type at bytes 12-13 is not 0x0800 is rejected with that type, and only such a frame; an IPv4 frame under 34 bytes, or whose header length 4 × IHL runs past its end, is rejected as truncated at the IP layer; one of at least 34 bytes whose version nibble v is not 4 is rejected as version v; a record is produced exactly for the frames `Accepted` describes (at least 34 bytes, type 0x0800, version 4, header length fitting, TCP segment of at least 20 bytes, UDP segment of at least 8); every record renders destination MAC bytes 0-5 and source MAC bytes 6-11, the addresses at frame bytes 26-29 and 30-33, version 4, EtherType 0x0800, the tag of protocol byte 23, and a payload that is a tail of the segment with a preview that is its prefix; its protocol, ports, size and preview are what the segment after the IPv4 header decodes to |
| FrameDecoder.DecodeIpv4 | src/Packet.cpp:84-110 | after the Ethernet checks: under 20 bytes of IPv4 header is truncation at the IP layer; a version nibble v other than 4 is rejected as version v; a header length 4 × IHL past the end is truncation at the IP layer; a record is produced exactly for accepted frames and carries the fields above |
| FrameDecoder.DecodeTransport | src/Packet.cpp:112-152 | rejection exactly for a TCP segment under 20 bytes or a UDP segment under 8, with the layer named; TCP and UDP ports are big-endian reads of segment bytes 0-1 and 2-3, other protocols have ports 0; TCP payload size is the segment minus 4 × data offset when the segment is longer than that and 0 otherwise; UDP payload size is the segment minus 8; ICMP and other protocols count the whole segment; the preview is a prefix of the payload of length min(size, limit) for TCP, UDP and ICMP and empty for other protocols |
| FrameDecoder.DecodeTransportPart | src/Packet.cpp:109-152 | for an accepted frame, the record's protocol, ports, payload size and preview are exactly what the segment after the IPv4 header decodes to; ports are 0 unless the protocol is TCP or UDP; the preview is bounded by the limit and by the payload size |
| FrameDecoder.CopyPayloadPreview | src/Packet.cpp:157-160 | the preview is a prefix of the data of length min(size, limit) |
| FrameDecoder.ProtocolTag | src/Packet.cpp:117-149 | TCP, UDP and ICMP get a tag of at most four characters; every other protocol n gets `OTHER(`, the decimal numeral of n and `)` |
| FrameDecoder.ProtocolTagRoundTrip | src/Packet.cpp:143-151 | each protocol number has a tag — `TCP`, `UDP`, `ICMP` or `OTHER(` decimal `)` — from which the number is read back |
| FrameDecoder.DecodedTextParses | src/Packet.cpp:81-102 | both MAC strings of a record parse; both address strings parse back to the address bytes 26-29 and 30-33; the protocol tag names protocol byte 23 |
| FrameDecoder.DecodeRecordInvariant | src/Packet.hpp:26-65 | every record is IPv4 over type 0x0800, has MAC strings that parse, address strings and a tag that are the canonical renderings of what they parse to, has ports 0 unless TCP or UDP, and a preview no longer than the limit or the payload |
| FrameDecoder.ParsePacket | src/Packet.hpp:240-246 | a record (with the 64-byte default preview) exactly for accepted frames, no record for anything else; every record carries the fields read at their frame offsets and satisfies the record invariant |
| FrameEncoder.TransportRoundTrip | src/Packet.cpp:112-152 | decoding a TCP, UDP, ICMP or other segment built from ports, data offset and data gives back those ports, the data's length and a prefix of the data |
| FrameEncoder.DecodeEncode | src/Packet.cpp:66-155 | decoding a frame built from MACs, IHL, addresses and a segment produces exactly the record those fields describe |
| FrameEncoder.EncodeIpHeader | src/Packet.cpp:104-110 | the IPv4 header built for a frame is 4 × IHL bytes long |
| Text.Hex2 | src/Packet.cpp:163 | an octet renders as exactly two lowercase hex digits |
| Text.Hex2RoundTrip | src/Packet.cpp:162-164 | the two-digit lowercase hex rendering of an octet parses back to it |
| Text.ParseHex2Canonical | src/Packet.cpp:162-164 | any two lowercase hex digits are the rendering of the octet they denote |
| Text.MacToString | src/Packet.hpp:276-277 | a MAC string is 17 characters |
| Text.MacLayout | src/Packet.hpp:276-282 | colons at characters 2, 5, 8, 11 and 14; octet k as two hex digits at characters 3k and 3k+1 |
| Text.MacRoundTrip | src/Packet.cpp:162-164 | parsing the MAC string gives back the six octets |
| Text.ParseMacCanonical | src/Packet.hpp:276-282 | every string the MAC parser accepts is the rendering of what it returns |
| Text.NatToString | src/Packet.cpp:149 | a decimal numeral is nonempty, all digits, without leading zero, one digit exactly for values below 10 |
| Text.NatRoundTrip | src/Packet.cpp:149 | the decimal numeral of n parses back to n |
| Text.OctetNumeralLen | src/Packet.cpp:101-102 | an octet's decimal numeral has one to three digits |
| Text.DottedQuad | src/Packet.cpp:101-102 | an address string is 7 to 15 characters, with a dot right after the first numeral |
| Text.OctetRoundTrip | src/Packet.cpp:101-102 | an octet's numeral has no dot and parses back as that octet |
| Text.DottedQuadParts | src/Packet.cpp:101-102 | splitting an address string at its dots gives exactly the four decimal numerals |
| Text.DottedQuadRoundTrip | src/Packet.cpp:101-102 | the dotted-decimal address string parses back to the four address octets |
| Bytes.BE16 | src/Packet.cpp:118-119 | a network-order 16-bit read has the first octet as its high byte and the second as its low byte |
| Bytes.HighNibble | src/Packet.cpp:95 | the version nibble and the IHL nibble together make up the octet |
| Bytes.U32ToLE | src/Packet.cpp:28 | the four little-endian octets of a 32-bit value read back as that value |
| Bytes.LittleEndianBound | src/Packet.cpp:31 | an n-octet little-endian field is below 256^n (a 32-bit `bh_caplen`, a 16-bit `bh_hdrlen`) |
| BpfBatch.ReadBpfHeader | src/Packet.cpp:28-35 | `bh_caplen` is a 32-bit and `bh_hdrlen` a 16-bit little-endian field of the header |
| BpfBatch.FrameAt | src/Packet.cpp:35-36 | a frame handed on lies wholly inside the buffer, after its header, and is nonempty |
| BpfBatch.NextAt | src/Packet.cpp:38 | the position advances to the end of the frame, by at least one byte |
| BpfBatch.Walk | src/Packet.cpp:24-40 | the walk yields nothing exactly when the header at the position is missing, declares no bytes or declares bytes past the end; every frame lies inside the buffer and after the start position |
| BpfBatch.WalkOrdered | src/Packet.cpp:24-40 | the frames come in buffer order without overlap |
| BpfBatch.SplitFrom | src/Packet.cpp:27-38 | the frames handed on from a position: none exactly when the header there is missing, declares no bytes or declares bytes past the end; each frame nonempty and no longer than the rest of the buffer |
| BpfBatch.Split | src/Packet.cpp:24-40 | the frames of a whole buffer: none exactly when it does not start with a good header; each nonempty and no longer than the buffer |
| BpfBatch.SplitCutsWalk | src/Packet.cpp:35-36 | each frame handed on is exactly the bytes of the place the walk visits |
| BpfBatch.SplitStep | src/Packet.cpp:31-38 | a good header yields exactly `caplen` bytes starting `hdrlen` after it, and the walk resumes right after them |
| BpfBatch.ProcessPacket | src/Packet.cpp:43-48 | one frame contributes at most one record, and one exactly when it is accepted; that record carries the fields read at their frame offsets and satisfies the record invariant |
| BpfBatch.ParsedRecordsSound | src/Packet.cpp:36-48 | every collected record satisfies the record invariant and is the record of an accepted frame handed on; every accepted frame handed on contributes its record |
| BpfBatch.ProcessBpfBuffer | src/Packet.cpp:24-40 | the loop hands on exactly the frames of the walk and collects, in order, the records of those that decode |
| BpfBatch.SplitShift | src/Packet.cpp:38 | bytes in front of a buffer change nothing about the frames found beyond them |
| BpfBatch.SplitSuffix | src/Packet.cpp:27-38 | the frames found from a position depend only on the bytes from there on |
| BpfBatch.SplitRecord | src/Packet.cpp:31-38 | a capture record in front of a buffer adds exactly its frame |
| BpfBatch.SplitPack | src/Packet.cpp:24-40 | splitting back-to-back capture records gives the frames back, followed by what the remaining bytes split into |
| BpfBatch.SplitPackThenJunk | src/Packet.hpp:158-163 | frames before a corrupt or truncated header are all handed on unchanged, and the walk stops there |
| BpfBatch.AsWrittenStep | src/Packet.cpp:27-35 | the loop step as written: a frame handed on has `caplen` bytes and the position was inside the buffer, however short the rest |
| BpfBatch.AsWrittenAgreesWhenGood | src/Packet.cpp:27-38 | wherever the checked walk hands on a frame, the guard as written hands on the same frame |
| BpfBatch.AsWrittenStepOverruns | src/Packet.cpp:27-35 | in a 40-byte buffer whose header declares `caplen = 20`, `hdrlen = 30`, the guard as written hands on a frame whose 14-byte Ethernet header already lies partly past the end; a 3-byte buffer is read as a header; the checked walk hands on nothing there |
| ReusedRecord.ParseReusing | src/Packet.cpp:66-155 | the decoder as written returns a record exactly for accepted frames, that record is its updated member record, and the EtherType field is never changed |
| ReusedRecord.ReusingAssignedFields | src/Packet.cpp:81-102 | every accepted call as written assigns both MAC strings from bytes 0-5 and 6-11, both address strings from bytes 26-29 and 30-33, version 4, and the tag of protocol byte 23 |
| ReusedRecord.ReusingTransportFields | src/Packet.cpp:112-152 | a call as written takes ports from the segment for TCP and UDP and keeps the old ports otherwise; it takes size and preview from the segment exactly on the paths that assign them and keeps the old ones otherwise |
| ReusedRecord.ReusingVersusFresh | src/Packet.cpp:77-151 | against the fresh record: MACs, addresses, version and tag agree; EtherType is the old value; ports agree for TCP and UDP and are left over otherwise; size and preview agree exactly when the call assigns them and are left over otherwise |
| ReusedRecord.ReusingNeverSetsEtherType | src/Packet.hpp:45-46 | from a new decoder, the EtherType field stays 0 whatever frames are fed |
| ReusedRecord.StaleRecordAfterTcp | src/Packet.cpp:143-147 | after a TCP frame from port 80 to 443, an ICMP frame's record as written reports ports 80 and 443 and EtherType 0 and breaks the record invariant, while the fresh record for it has port 0 and type 0x0800 |
| Results.Result.ToOption | src/Packet.hpp:240-246 | dropping the error keeps exactly the successes and their values |

## Left out

- The `timestamp` field and the `steady_clock::now()` read: a clock read. The model's record has no timestamp.
- `ether_type_name`: declared, never written by the decoder and not printed.
- The printing in `process_packet` (console output). `BpfBatch.ProcessPacket` returns the record instead of printing it.
- `inet_ntoa`, `std::to_string` and `std::format`. They are specified directly: dotted decimal (`Text.DottedQuad`), decimal numerals (`Text.NatToString`) and two-digit lowercase hex (`Text.Hex2`).
- The capture sockets (`src/socket/`, `src/socket.cpp`) and `src/main.cpp`: OS I/O and console wiring. `src/Packet.h` duplicates the declarations of `src/Packet.hpp` and is not modelled separately.
- `BPF_WORDALIGN`. The kernel pads each capture record to a word boundary. The C++ advances by `hdrlen + caplen` without alignment, and the model does the same.
- `FrameDecoder.Decode`: an IHL below 5 or a TCP data offset below 5 is accepted, as in the C++. The model checks only that the header length fits, so such a frame yields a record read partly from inside the IPv4 or TCP header.
- `FrameDecoder.Decode` distinguishes its error kinds. The C++ only returns `nullopt`. `ParsePacket` forgets the distinction.
- `BpfBatch.ReadBpfHeader` fixes the macOS header layout with its 8-byte timestamp. Other platforms' `struct timeval` sizes would move the fields. `bh_hdrlen` itself is read, so the walk does not assume that the frame follows directly after the header.
- `BpfBatch.Pack` builds records with `hdrlen = 18` and no padding. It is an inverse used for the round trip, not a model of the kernel.

## Findings

| source | as written | input that shows it | evidently intended | confidence | as-written member | corrected member |
|---|---|---|---|---|---|---|
| src/Packet.cpp:27-35 | the loop reads a `bpf_hdr` whenever `ptr` is inside the buffer, and accepts a frame unless `bh_caplen == 0` or `ptr + bh_caplen` passes the end, ignoring `bh_hdrlen` | a 40-byte buffer whose header declares `caplen = 20`, `hdrlen = 30`: the guard passes, the frame spans bytes 30-49 of 40, and `parse_packet` reads its Ethernet header from bytes 30-43; a 3-byte buffer is read as an 18-byte header | read a header only when all of it is present, and hand on a frame only when `p + hdrlen + caplen` is within the buffer | high (not executed) | BpfBatch.AsWrittenStepOverruns | BpfBatch.Walk |
| src/Packet.cpp:67-151, src/Packet.hpp:226 | one member record is reused across calls and only some fields are assigned per path: ports are not reset for ICMP and other protocols, size and preview are not reset for TCP/UDP segments without data, the preview is not reset for other protocols, and `ether_type` is never assigned | a TCP frame from port 80 to 443 with one data byte, then an empty ICMP frame: the ICMP record reports ports 80 and 443 and EtherType 0 | a fresh record per frame: ports 0 without a port concept (src/Packet.hpp:48-52), payload size 0 by default (src/Packet.hpp:61), EtherType as read (src/Packet.hpp:45) | high (not executed) | ReusedRecord.StaleRecordAfterTcp | FrameDecoder.DecodeRecordInvariant |
