# Frame handling of the AF_PACKET capture program

A Dafny model of the frame-handling core of `af_packet/util-afpacket.c`:

- the dissection sequence of `afpacket_acquire`, which walks a received Ethernet frame
  through the IPv4 and TCP headers, records the header positions in the `Packet`, and
  returns `PKT_ERROR`, `PKT_PASS` or the received length;
- `exchange_for_respond_pkt`, which turns a frame around in place by swapping the MAC,
  IPv4 address and TCP port pairs and possibly overriding the TCP flags;
- `ReCalculateChecksum`, which rewrites the TCP and IPv4 header checksums in place;
- `filter_ip_address`, a 4-octet address comparison.

Modules:

- `Bytes`: octets, big-endian 16-bit words (`ntohs`), word stores, `memcpy` into a sequence, and the `|=` of an octet.
- `Checksum`: the Internet checksum of RFC 1071, sections 1 and 4.1, and the TCP pseudo-header of section 3.1 of RFC 793.
- `Headers`: the header macros as reads at fixed offsets. The layouts follow section 3.1 of RFC 791 and section 3.1 of RFC 793.
- `AddressFilter`: `filter_ip_address`.
- `Dissector`: the decision sequence as the pure function `Dissect`. It returns the verdict and the stage reached. The stage says which `Packet` fields were written.
- `DissectorProperties`: each check in its place, and an order-free characterisation of the outcome.
- `Responder`: the exchange and the recalculation as functions on the frame's octets, with their properties.
- `Capture`: the `Packet` record as a class over the receive array. It has the methods `Acquire`, `ExchangeForRespondPkt` and `ReCalculateChecksum`, which work on the array in place and are proved against the functions above.
- `Response`: the round trip. A reply crafted from an accepted frame is addressed back to the sender and is itself accepted.

Modelling choices:

- **The receive area.** The frame is the 2000-octet receive area (`RecvSize`). `fromlen` is an input. As in the code, `fromlen >= 14` is never checked. Every read lies inside the receive area whatever `fromlen` says.
- **Checksum routines.** `IPV4CalculateChecksum` and `TCPCalculateChecksum` are not part of this model's sources. They are defined as the RFC 1071 checksum with the stored checksum word of the summed header read as zero (`ZeroWord`). This is an explicit assumption. It is the only reading under which the code is consistent: line 309 compares the stored field with a checksum over a range that contains it, while lines 420-421 and 425-426 zero the field before summing.
- **Macros.** `IPV4_GET_HLEN` is `(b & 0x0f) << 2`. `IPV4_GET_RAW_HLEN` is not defined in `af_packet/util-afpacket.c`; it is assumed to give the same octet count (see `Dissector.DissectIPv4` under "Left out"). `TCP_GET_HLEN` is `(b & 0xf0) >> 2`, `IP_GET_RAW_VER` is `b >> 4`, and `IPV4_GET_IPLEN` reads octets 2-3 big-endian.
- **Constants and types.** `HTTP_PORT` is assumed to be 80, and `PKT_ERROR` and `PKT_PASS` are assumed to differ from every returned length; both are defined outside this model (see "Left out"). `PKT_IS_IPV4` and `PKT_IS_TCP` test whether `ip4h` and `tcph` are recorded. `payload_len` is a 16-bit field.
- **Header pointers.** They are offsets into the receive array, and NULL is `None`.
- **The code is followed where it departs from its comments.**
  - Non-TCP traffic is `PKT_ERROR` (line 315), although the comment at line 313 speaks of passing it.
  - The segment length `len` is a `uint8_t` (line 302), so it is the length difference modulo 256. `payload_len` 0 means only that this wrapped `len` equals the TCP header length. A datagram may carry 256·k further octets behind the TCP header and still be accepted, although the comment at lines 345-346 says an accepted segment has no payload. The TCP checksum covers `len` octets only, so no checksum covers those further octets (`SegmentLengthWraps`, `WrappedFrameAccepted`).

The method `Acquire` follows the three commented blocks of the code (`Decode ethernet`, `Decode IPv4`, `Decode TCP`), the last two as `DecodeIPv4` and `DecodeTcp`, with the early returns of the code.

## Model

| member | source | states |
|---|---|---|
| Capture.Acquire | af_packet/util-afpacket.c:269-363 | returns the verdict of `Dissect` on the received octets; `ethh`, `ip4h`, `tcph`, `payload` and `payload_len` are written exactly when the dissection got past the line recording them, with the header offsets 0, 14 and 14+IHL·4, the payload offset behind the TCP header and `len` minus the TCP header length; unreached fields keep their values |
| Capture.DecodeIPv4 | af_packet/util-afpacket.c:284-316 | the IPv4 block: verdict of `DissectIPv4`; `ip4h` recorded once the version is 4; later fields as the TCP block leaves them; `ethh` untouched |
| Capture.DecodeTcp | af_packet/util-afpacket.c:317-358 | the TCP block: verdict of `DissectTcp`; `tcph` always recorded; `payload` and `payload_len` recorded exactly when the port and address filters are passed |
| Dissector.Dissect | af_packet/util-afpacket.c:277-362 | the ordered check sequence; a length result is always the received `fromlen` |
| Dissector.DissectIPv4 | af_packet/util-afpacket.c:284-316 | the IPv4 checks in the code's order; a length result is `fromlen` |
| Dissector.DissectTcp | af_packet/util-afpacket.c:317-362 | the TCP checks in the code's order; a length result is `fromlen` |
| Dissector.SegmentLen | af_packet/util-afpacket.c:302 | the `uint8_t len` is congruent to total length minus header length modulo 256, and equal to it when the difference is in 0..255 |
| Dissector.PayloadLen | af_packet/util-afpacket.c:344 | `payload_len` is at most `len`, and non-negative exactly when the TCP header fits in `len` |
| Dissector.Classify | af_packet/util-afpacket.c:269-363 | the value `afpacket_acquire` returns: a length result is `fromlen`, and a receive of length 0 or less is returned as it is |
| Dissector.TcpOffset | af_packet/util-afpacket.c:318 | the TCP header starts between 14 and 74 octets into the frame |
| DissectorProperties.StructuralChecksFirst | af_packet/util-afpacket.c:279-305 | a wrong ethertype, version, header length, total length, received length or wrapped segment length is PKT_ERROR, decided by octets 12..17 alone, before any TCP header is recorded |
| DissectorProperties.SegmentLengthWraps | af_packet/util-afpacket.c:302-354 | `len` is the length difference modulo 256. An HTTP frame is accepted with `payload_len` 0 when it has 20-octet IPv4 and TCP headers, valid checksums, and a total length 256·k above 40 (k >= 1). Any frame that differs from it only past the TCP header is accepted too, so those 256·k octets are covered by no checksum |
| DissectorProperties.WrapAccepted | af_packet/util-afpacket.c:302-362 | an HTTP frame is accepted with `len` wrapped to 20 and `payload_len` 0 when it has 20-octet IPv4 and TCP headers, valid checksums, and a total length 40 + 256·k |
| Response.WrappedFrameAccepted | af_packet/util-afpacket.c:302-362 | an example frame: total length 296, checksums set as `ReCalculateChecksum` sets them, accepted under `fromlen` 296, with 256 octets behind its TCP header |
| DissectorProperties.IpChecksumBeforeProtocol | af_packet/util-afpacket.c:306-316 | an IPv4 checksum mismatch, or a protocol other than TCP, is PKT_ERROR (not PKT_PASS), decided by the IPv4 header alone with no TCP octet read |
| DissectorProperties.TcpLengthAndPortFilter | af_packet/util-afpacket.c:317-330 | a TCP header longer than `len` is PKT_ERROR; otherwise neither port being 80 is PKT_PASS; both decided by the octets before the TCP flags, no payload or TCP checksum read |
| DissectorProperties.AddressExclusion | af_packet/util-afpacket.c:334-341 | an HTTP segment from or to 239.255.255.250 is PKT_PASS, with `payload` not recorded |
| DissectorProperties.PayloadAndFinalResult | af_packet/util-afpacket.c:343-362 | past the filters `payload_len` is non-negative; a positive one is PKT_PASS; a zero one is PKT_ERROR on a TCP checksum mismatch and `fromlen` otherwise |
| DissectorProperties.NonPositiveLengthReturned | af_packet/util-afpacket.c:277 | a receive of length 0 or less is returned unchanged, with no field recorded |
| DissectorProperties.ClassifyCharacterized | af_packet/util-afpacket.c:277-362 | order-free description: the length is returned if and only if the frame is well-formed TCP, selected and TCP-checksum correct; PKT_PASS if and only if well formed and not selected; PKT_ERROR otherwise |
| Checksum.ZeroWordShift | af_packet/util-afpacket.c:350-352 | zeroing a word behind a prefix is zeroing it in the suffix |
| DissectorProperties.IpHeaderValidates | af_packet/util-afpacket.c:306-309 | an IPv4 header accepted at line 309 has checksum 0 over its full length, stored word included |
| DissectorProperties.TcpSegmentValidates | af_packet/util-afpacket.c:351-354 | a segment accepted at line 354 has checksum 0 over pseudo-header and segment, stored word included |
| DissectorProperties.AcceptedFrameShape | af_packet/util-afpacket.c:298-362 | an accepted frame has `payload_len` 0: its TCP header fills the wrapped `len`, so the datagram is a multiple of 256 octets longer than its two headers. It also has an HTTP port, `fromlen` >= total length >= 40, and valid IPv4 and TCP checksums |
| AddressFilter.MemcmpZero | af_packet/util-afpacket.c:508 | `memcmp(...) == 0` holds exactly when the first n octets agree |
| AddressFilter.FilterIpAddress | af_packet/util-afpacket.c:500-513 | returns 0 or -1, and 0 exactly when the address equals the target |
| Headers.IpHlen | af_packet/util-afpacket.c:286-302 | the IPv4 header length is a multiple of 4 no larger than 60. The accessors it is read with are plain octet reads without a contract: `Headers.IpVersion` (`IP_GET_RAW_VER`, line 286) and `Headers.IpTotalLen` (`IPV4_GET_IPLEN`, lines 294-302) |
| Headers.TcpHlen | af_packet/util-afpacket.c:321 | the TCP header length is a multiple of 4 no larger than 60 |
| Checksum.IPv4HeaderChecksumSpelled | af_packet/util-afpacket.c:307-308 | `IPV4CalculateChecksum` is the RFC 1071 checksum of the header with octets 10 and 11 read as zeros |
| Checksum.TcpChecksumSpelled | af_packet/util-afpacket.c:351-352 | `TCPCalculateChecksum` is the RFC 1071 checksum of source, destination, zero, protocol 6, segment length in network order, then the segment with octets 16 and 17 read as zeros |
| Checksum.FoldIsFolded | af_packet/util-afpacket.c:307-308 | folding carries one at a time reaches the closed form: 0 for a zero sum, else the sum's residue modulo 0xFFFF in 1..0xFFFF |
| Checksum.PseudoHeaderLayout | af_packet/util-afpacket.c:351-352 | the pseudo-header holds source, destination, a zero octet, protocol 6 and the segment length |
| Checksum.WordSumAppend | af_packet/util-afpacket.c:351-352 | the word sum of an even-length prefix followed by more data is the sum of the two sums |
| Checksum.WordSumField | af_packet/util-afpacket.c:307-309 | the word at an even offset contributes its value to the sum, nothing else does |
| Checksum.ChecksumValidates | af_packet/util-afpacket.c:420-427 | once a word holds the checksum of the data with that word zeroed, the checksum of the whole data is 0 |
| Checksum.ZeroWordIgnoresField | af_packet/util-afpacket.c:420-421 | the checksum reading its own word as zero does not depend on what that word holds |
| Bytes.Be16Split | af_packet/util-afpacket.c:402-404 | a 16-bit word stored as two octets reads back as the same word |
| Bytes.Be16Octets | af_packet/util-afpacket.c:402-404 | the two octets of a word read from the frame are given back by splitting it |
| Bytes.Or | af_packet/util-afpacket.c:408-409 | or-ing `flag` into a zero octet gives `flag`, so the flags octet ends up holding `flag` |
| Responder.Exchanged | af_packet/util-afpacket.c:386-413 | the frame after `exchange_for_respond_pkt`: same length, the flags octet holding a non-zero `flag`; every octet is stated by `ExchangedAt` |
| Responder.TcpLengthWraps | af_packet/util-afpacket.c:421-422 | the length handed to `TCPCalculateChecksum` is `payload_len` plus the TCP header length converted to `uint16_t`: the sum when it fits, else the sum less 65536 |
| Responder.WithTcpChecksum | af_packet/util-afpacket.c:420-422 | the frame after the two `th_sum` stores: same length, no octet but the two of `th_sum` changed. The stored value is `Responder.TcpChecksumOf` (the call at lines 421-422) |
| Responder.WithIpChecksum | af_packet/util-afpacket.c:425-427 | the frame after the two `ip_csum` stores: same length, no octet but the two of `ip_csum` changed. The stored value is `Responder.IpChecksumOf` (the call at lines 426-427) |
| Responder.Recalculated | af_packet/util-afpacket.c:415-431 | the frame after `ReCalculateChecksum`: same length, unchanged for a packet without IPv4 header; the IPv4 cases are stated by `RecalculatedTcp` and `RecalculatedIpOnly` |
| Responder.SwapFieldsAt | af_packet/util-afpacket.c:388-404 | each octet of a two-field swap comes from its counterpart in the other field, or is unchanged outside both |
| Responder.SwapByCopies | af_packet/util-afpacket.c:388-398 | the three `memcpy` calls through a temporary swap the two fields |
| Responder.SwapByWords | af_packet/util-afpacket.c:400-404 | the three port assignments through a 16-bit temporary swap the two ports |
| Responder.SwapsInSteps | af_packet/util-afpacket.c:388-404 | the three swaps one after the other are the exchange without a flags override |
| Responder.FlagOverride | af_packet/util-afpacket.c:406-410 | a non-zero flag replaces the flags octet of the swapped frame; a zero flag leaves it |
| Responder.ExchangedAt | af_packet/util-afpacket.c:386-413 | every octet of the exchanged frame: the flags octet is `flag` exactly when `flag` is not 0, every other octet is the old octet of its partner, so the MAC, address and port pairs are swapped and no other octet changes |
| Responder.PartnerInvolution | af_packet/util-afpacket.c:386-404 | the partner of a position's partner is the position itself |
| Responder.ExchangeTwice | af_packet/util-afpacket.c:386-413 | two exchanges restore the addressing, the flags octet holding the last non-zero override or its original value |
| Responder.ExchangeInvolution | af_packet/util-afpacket.c:386-413 | with flag 0, exchanging twice gives back the original frame |
| Responder.TcpChecksumOfIgnores | af_packet/util-afpacket.c:420-422 | the TCP checksum and its length do not depend on the TCP or IPv4 checksum words |
| Responder.IpChecksumOfIgnores | af_packet/util-afpacket.c:425-427 | the IPv4 header checksum depends neither on its own word nor on octets behind the header |
| Responder.WithTcpChecksumDirect | af_packet/util-afpacket.c:420-422 | zeroing `th_sum` before summing makes no difference to the word stored |
| Responder.WithIpChecksumDirect | af_packet/util-afpacket.c:425-427 | zeroing `ip_csum` before summing makes no difference to the word stored |
| Responder.StoredWords | af_packet/util-afpacket.c:420-427 | the two stored checksum words read back their values and no other octet changes |
| Responder.StoredWordsBack | af_packet/util-afpacket.c:420-427 | storing back the words already held changes nothing |
| Responder.RecalculatedTcpWords | af_packet/util-afpacket.c:417-427 | the recalculation of an IPv4+TCP packet stores the TCP checksum and then the IPv4 header checksum of the frame as it was |
| Responder.ChecksumsIgnoreStores | af_packet/util-afpacket.c:417-427 | with the headers layered (IHL·4 at least 20 and the TCP header behind the IPv4 header, as the dissection always records them), whatever is stored in the two checksum words, both checksums and their lengths stay the same |
| Responder.RecalculatedTcp | af_packet/util-afpacket.c:415-431 | for IPv4+TCP with the headers layered (IHL·4 at least 20 and the TCP header behind the IPv4 header, as the dissection always records them), only the 4 checksum octets change; the TCP word holds the checksum over the current addresses and `payload_len` plus header length, the IPv4 word the header checksum, and both match their recomputation |
| Responder.RecalculatedIpOnly | af_packet/util-afpacket.c:417-428 | for IPv4 without TCP only the IPv4 checksum word is rewritten, and it matches |
| Responder.RecalculateIdempotent | af_packet/util-afpacket.c:415-431 | with the headers layered (IHL·4 at least 20 and the TCP header behind the IPv4 header, as the dissection always records them), running the recalculation a second time changes nothing |
| Capture.CopyIn | af_packet/util-afpacket.c:390-398 | `memcpy` into the frame: the array becomes the old octets with the source copied in |
| Capture.StoreBe16 | af_packet/util-afpacket.c:402-404 | a `uint16_t` field store writes the word in network order and nothing else |
| Capture.SwapThroughTemp | af_packet/util-afpacket.c:388-398 | swapping through a temporary exchanges the two fields in place |
| Capture.SwapPorts | af_packet/util-afpacket.c:400-404 | the port pair is exchanged in place |
| Capture.SwapAddressing | af_packet/util-afpacket.c:388-404 | the three in-place swaps give the exchanged frame with no flags override |
| Capture.SetFlags | af_packet/util-afpacket.c:406-410 | the flags octet becomes `flag` and nothing else changes |
| Capture.ExchangeForRespondPkt | af_packet/util-afpacket.c:386-413 | the frame becomes its exchange at the recorded header offsets, and the same packet is returned |
| Capture.ReCalculateChecksum | af_packet/util-afpacket.c:415-431 | returns 0, and the frame becomes its recalculation for the recorded headers and `payload_len` |
| Capture.StoreTcpChecksum | af_packet/util-afpacket.c:420-422 | `th_sum` zeroed and then set to the TCP checksum of the zeroed frame |
| Capture.StoreIpChecksum | af_packet/util-afpacket.c:425-427 | `ip_csum` zeroed and then set to the header checksum of the zeroed frame |
| Response.ExchangeKeepsStructure | af_packet/util-afpacket.c:386-413 | the exchange keeps the ethertype, version and header length, total length, protocol and TCP data offset |
| Response.ExchangeSwapsEnds | af_packet/util-afpacket.c:394-404 | after the exchange the addresses and the ports are those of the frame swapped |
| Response.ChecksumWordsOnly | af_packet/util-afpacket.c:417-427 | a frame differing only in matching checksum words reads as the original with valid checksums |
| Response.RecalculationForReply | af_packet/util-afpacket.c:415-431 | the recalculation at the recorded offsets with `payload_len` 0 keeps every field the dissector reads and makes both checksums valid |
| Response.MirrorAccepted | af_packet/util-afpacket.c:277-362 | a frame agreeing with an accepted one except for swapped addresses and ports, with valid checksums, is accepted |
| Response.ResponseAccepted | af_packet/util-afpacket.c:386-431 | the reply crafted from an accepted frame has the addresses and ports swapped and is accepted by the same dissection |

## Left out

- The receive call (line 276) and `afpacket_send`: I/O. The frame is the receive array and `fromlen` is an input.
- Socket and interface setup and teardown (lines 16-267) and `afpacket_close`: operating-system calls with no frame logic.
- `print_packet_info` and every `printf`: diagnostic output only.
- The unused static counter `k` (line 332): it is never read.
- `inet_addr("239.255.255.250")` (line 503): the libc parser is not part of this model, and the literal is the constant octets 239, 255, 255, 250 (`SsdpMulticast`).
- `IPV4CalculateChecksum` and `TCPCalculateChecksum`: their sources are not part of this model. They are defined by RFC 1071, with the stored word read as zero.
- The `Packet` structure and the `PKT_IS_IPV4` and `PKT_IS_TCP` macros: their definitions are not part of this model. `Packet` holds only the fields used here.
- Pointer aliasing between `Packet` objects: the header pointers are offsets into the packet's own array.
- Capture.ExchangeForRespondPkt: requires the headers recorded and laid out one behind the other, as the dissection records them. The code dereferences the pointers without checking them.
- Capture.ReCalculateChecksum: requires the checksummed ranges inside the receive area, and the TCP header behind the first IPv4 octet. The code does not check this.
- Dissector.DissectIPv4: the IPv4 checksum at lines 307-308 is taken over IHL·4 octets, on the assumption that `IPV4_GET_RAW_HLEN` gives the header length in octets like `IPV4_GET_HLEN`. The macro is defined outside this model; if it gives the IHL as a count of 32-bit words, the code sums only that many octets, which this model does not describe.
- Responder.IpChecksumOf: the IPv4 checksum at lines 426-427 is taken over IHL·4 octets under the same assumption about `IPV4_GET_RAW_HLEN`; the word-count reading is not modelled.
- Dissector.DissectTcp: `HTTP_PORT` is assumed to be 80; its definition is outside this model.
- Dissector.Classify: `PKT_ERROR` and `PKT_PASS` are assumed to be distinct from every length `afpacket_acquire` can return; their values are defined outside this model. If `PKT_ERROR` were -1, the code could not tell it from a failed receive returning -1, which the model keeps apart as `PktError` and `Len(-1)`.
