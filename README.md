# rawsend: a verified model of the spoofed UDP datagram builder

`rawsend.c` sends a UDP datagram that claims an arbitrary source address
and port. `raw_send_from_to` fills in a `struct udphdr` and a `struct ip`
by hand. It computes the IP header checksum with `ip_header_checksum`. It
then either hands the three pieces to `sendmsg` as an iovec, or copies them
into a static, growable buffer and hands that to `sendto`.

This Dafny project models that core:

- `byte_order.dfy` (module `ByteOrder`): how a host stores 16- and 32-bit
  values in memory, and `htons`/`ntohs`. The header structs hold host values,
  and what goes on the wire is their memory image. So every layout takes the
  host's byte order (`Endianness`) as a parameter.
- `checksum.dfy` (module `Checksum`): `ip_header_checksum`, a loop that XORs
  `2 * ip_hl` 16-bit words read in host order and complements the result.
  This is not the ones'-complement sum of RFC 791 section 3.1 and RFC 1071,
  and the model keeps the XOR. Proved:
  - the method computes the XOR of exactly those words;
  - nothing past `4 * ip_hl` bytes is read;
  - over the same header bytes, a little-endian host's XOR comes out
    byte-swapped, and `htons` swaps it back. Over the same header bytes both
    kinds of host therefore install the same 16-bit value, but its two wire
    bytes come out in opposite orders. For one and the same call the two
    hosts checksum different bytes, because `ip_len` is stored in host
    order, and they install different values
    (`Headers.ChecksumFieldDiffersByHost`).
- `headers.dfy` (module `Headers`): the two header records, their memory
  images with parse inverses, and the headers `raw_send_from_to` builds. The
  IP header's full wire image is stated byte by byte. The checksum is taken
  over that same image with the checksum bytes zeroed.
- `send_buffer.dfy` (module `StaticBuffer`): the static `msgbuf` /
  `msgbuflen` / `next_alloc_size` state machine. It appears twice:
  - as the step the code takes (`ReserveAsWritten`), implemented in place by
    the class `SendBuffer`, whose `array?` field is the buffer;
  - as a corrected step (`ReserveChecked`) on values, against which the two
    findings below are measured.
- `raw_send.dfy` (module `RawSend`): `raw_send_from_to` on the
  contiguous-buffer path. It builds both headers, reserves room, does the
  three `memcpy`s and yields the bytes handed to `sendto`, or says that the
  copies went to a null `msgbuf`. The bytes are
  [20-byte IP header][8-byte UDP header][payload]. This is also the order of
  the iovec at rawsend.c:135-140.

In four places the code departs from a textbook IPv4/UDP sender, and the
model follows the code:

- `ip_len` is stored without `htons`, so its wire bytes are in host order.
  They are in network order only on a big-endian host.
- The checksum XORs host-order words. Its wire bytes therefore depend on the
  host's byte order.
- The 65535-byte limit is checked only when the buffer has to grow. Once
  the buffer is 65536 bytes, `RawSend.RawSendFromTo` sends a 65536-byte
  datagram whose `ip_len` is 0 (see Findings).
- After a failed `malloc` the buffer is null while `msgbuflen` keeps its old
  size. A later datagram that fits that size gets the outcome
  `CopyIntoNull` (see Findings).

## Model

| member | source | states |
|---|---|---|
| `Checksum.IpHeaderChecksum` | rawsend.c:51-64 | the loop returns the 32-bit complement of the XOR of exactly the first `2 * ip_hl` host-order words of the header |
| `Checksum.ChecksumReadsOnlyHeader` | rawsend.c:55-62 | two memories that agree on the first byte and on the first `4 * ip_hl` bytes have the same checksum: no byte beyond the header rows is read |
| `Checksum.HeaderXorByteOrder` | rawsend.c:56-62 | on a little-endian host the XOR of the header words is the byte swap of the XOR a big-endian host computes over the same bytes |
| `Checksum.HeaderXor` | rawsend.c:54-62 | the exclusive-or of exactly the first `2 * ip_hl` host-order words of the header; its properties are the lemmas below |
| `Checksum.XorRowsIsXorAll` | rawsend.c:58-62 | folding two words a row, as the loop does, is the flat one-word-at-a-time XOR of the first `2 * k` words |
| `Checksum.HeaderXorIsXorAll` | rawsend.c:54-62 | the header XOR is the flat XOR of the words `h[0] .. h[2 * ip_hl - 1]` |
| `Checksum.XorRowsSwapped` | rawsend.c:58-62 | folding byte-swapped words row by row gives the byte-swapped fold |
| `Checksum.UnsignedComplement` | rawsend.c:63 | `~csum` returned as `unsigned` has all-ones upper half and the complemented XOR as its lower half |
| `Checksum.ChecksumTruncation` | rawsend.c:128 | `htons` of the returned `unsigned` keeps its low 16 bits, which gives the checksum field `htons(~xor)` |
| `Checksum.ChecksumFieldBytes` | rawsend.c:128 | the memory image of `ip_sum` is the complemented XOR in network byte order |
| `Checksum.ChecksumFieldByHost` | rawsend.c:128 | over the same header bytes, little- and big-endian hosts install the same `uint16_t` value in `ip_sum` |
| `Checksum.ChecksumBytesByHost` | rawsend.c:128 | over the same header bytes, the two checksum bytes on the wire come out in opposite orders on the two kinds of host |
| `ByteOrder.HtonsImage` | rawsend.c:93 | the memory image of `htons(w)` is `w` most significant byte first, on either host |
| `ByteOrder.NtohsHtons` | rawsend.c:93 | helper used to read back `uh_ulen` (the source itself has no `ntohs`): `ntohs` undoes `htons` |
| `ByteOrder.Load16Store16` | rawsend.c:56 | a `uint16_t` read back from where it was stored is the stored value |
| `ByteOrder.Load32Store32` | rawsend.c:126-127 | a 32-bit address read back from where it was stored is the stored value |
| `Headers.UdpHeaderRoundTrip` | rawsend.c:91-94 | parsing the memory image of a `struct udphdr` gives back the header |
| `Headers.IpHeaderRoundTrip` | rawsend.c:117-127 | parsing the memory image of a `struct ip` gives back the header, including the two nibbles of the first byte |
| `Headers.FirstByteNibbles` | rawsend.c:117-118 | `ip_hl` is the low nibble and `ip_v` the high nibble of the first byte |
| `Headers.UdpHeaderFor` | rawsend.c:91-94 | the UDP header the code fills in; what it says is stated by `UdpHeaderFields` and `UdpHeaderWire` |
| `Headers.UdpHeaderFields` | rawsend.c:91-94 | the ports are copied verbatim, `ntohs(uh_ulen)` is `msglen + 8` cut to 16 bits, and `uh_sum` is 0 |
| `Headers.UdpHeaderWire` | rawsend.c:91-94 | on the wire: both ports as stored, the UDP length most significant byte first, then two zero bytes |
| `Headers.UnsummedIpHeader` | rawsend.c:117-127 | the IP header before its checksum; its image is stated by `UnsummedIpHeaderWire` |
| `Headers.IpHeaderFor` | rawsend.c:117-128 | the finished IP header; stated by `IpHeaderForSum`, `IpHeaderWire` and `ChecksumRecomputes` |
| `Headers.UnsummedIpHeaderReadable` | rawsend.c:117 | `ip_hl = (sizeof ih + 3) / 4` makes the checksum read exactly the 20 header bytes |
| `Headers.UnsummedIpHeaderWire` | rawsend.c:117-127 | before the checksum the image is `0x45`, 0, `ip_len` in host order, four zero bytes, TTL 64, protocol 17, a zero checksum, then the two addresses as stored |
| `Headers.IpHeaderLength` | rawsend.c:120 | `ip_len` is the total length cut to 16 bits |
| `Headers.IpHeaderForSum` | rawsend.c:125-128 | the finished header differs from the zero-checksum header only in `ip_sum` |
| `Headers.IpHeaderWire` | rawsend.c:117-128 | the finished image: the fixed fields as above, with the complement of the XOR of the zero-checksum image, most significant byte first, in bytes 10-11 |
| `Headers.ChecksumOverZeroedField` | rawsend.c:125-128 | the checksum was taken over the wire image with its two checksum bytes zeroed |
| `Headers.ChecksumRecomputes` | rawsend.c:125-128 | zeroing the checksum bytes of the finished header and recomputing gives back the installed `ip_sum` |
| `Headers.ChecksumFieldDiffersByHost` | rawsend.c:117-128 | for the same call (4-byte payload, both addresses zero) a big-endian host installs `ip_sum` `0xFACE` and a little-endian host `0xDAEE`, because `ip_len` is stored in host order |
| `Headers.FillIpHeader` | rawsend.c:117-128 | assigning the fields one by one, as record updates in the source's order, and then installing `htons(ip_header_checksum(&ih))` yields the header `IpHeaderFor` |
| `StaticBuffer.GrowTo` | rawsend.c:106-107 | the doubling loop ends at a size that is at least `length`; it is less than `2 * length` whenever the loop ran; it is a power of two when it started at one |
| `StaticBuffer.InitialInv` | rawsend.c:86-88 | the static initial values satisfy both the as-written and the corrected buffer invariant |
| `StaticBuffer.ReserveAsWritten` | rawsend.c:98-115 | the reservation step as the code takes it; stated by the `AsWritten` lemmas below |
| `StaticBuffer.AsWrittenKeepsInv` | rawsend.c:98-115 | as written, `next_alloc_size` stays a power of two, `msgbuflen` stays 0 or a power of two below it, and a held buffer is followed by an allocation twice its size |
| `StaticBuffer.AsWrittenAccepted` | rawsend.c:98-115 | as written, an accepted call has `msgbuflen >= length`, and it is accepted with no buffer exactly when no buffer was held and the datagram fits the recorded size |
| `StaticBuffer.AsWrittenRefusal` | rawsend.c:98-115 | as written, a call returns -1 exactly when the buffer must grow and either the datagram is over 65535 bytes or `malloc` fails; the size refusal leaves the state unchanged |
| `StaticBuffer.AsWrittenNeverShrinks` | rawsend.c:98-115 | as written, `msgbuflen` never decreases |
| `StaticBuffer.AsWrittenGrowth` | rawsend.c:106-114 | after a successful grow: a buffer is held, `msgbuflen >= length`, it is a power of two and the least doubling that fits, and `next_alloc_size == 2 * msgbuflen` |
| `StaticBuffer.GuardBypassedAtFullBuffer` | rawsend.c:98-103 | as written, after a 40000-byte datagram a 65536-byte one is accepted |
| `StaticBuffer.NullBufferAfterFailedMalloc` | rawsend.c:104-113 | as written, sizes 100, then 200 with `malloc` failing, then 100 again: the last call is accepted with no buffer |
| `StaticBuffer.ReserveChecked` | rawsend.c:98-115 | the corrected step: the limit checked first, `msgbuflen` zeroed after a failed `malloc`; stated by the `Checked` lemmas below |
| `StaticBuffer.CheckedRefusal` | rawsend.c:98-115 | corrected: refused exactly when over 65535 bytes, or when the buffer must grow and `malloc` fails; the size refusal leaves the state unchanged |
| `StaticBuffer.CheckedKeepsInv` | rawsend.c:98-115 | the corrected step keeps the invariant: a buffer is held exactly when `msgbuflen > 0`, sizes are powers of two, and `next_alloc_size == 2 * msgbuflen` while a buffer is held |
| `StaticBuffer.CheckedSafe` | rawsend.c:98-115 | corrected: an accepted datagram is at most 65535 bytes and fits in a buffer that is really there, and acceptance never shrinks the buffer |
| `StaticBuffer.CheckedAgreesWithAsWritten` | rawsend.c:98-115 | within the size limit and from a valid state, the corrected step returns what the code returns, and reaches the same state when it accepts |
| `StaticBuffer.SendBuffer.constructor` | rawsend.c:86-88 | no buffer, `msgbuflen` 0, `next_alloc_size` 1 |
| `StaticBuffer.SendBuffer.Reserve` | rawsend.c:98-115 | the in-place step frees, grows and allocates as `ReserveAsWritten` says and keeps the as-written invariant; on success `msgbuflen >= length`, and a buffer that is held has room for `length` bytes; when no growth is needed, and on the size refusal, `msgbuf` stays the same array |
| `StaticBuffer.SendBuffer.Grow` | rawsend.c:106-107 | the doubling `while` loop leaves `next_alloc_size == GrowTo(old next_alloc_size, length)` |
| `RawSend.Datagram` | rawsend.c:150-154 | the bytes handed to `sendto`: IP header, UDP header and payload, `msglen + 28` bytes in all |
| `RawSend.DatagramLayout` | rawsend.c:150-152 | bytes [0,20) are the IP header, [20,28) the UDP header, [28,28+msglen) the payload unchanged |
| `RawSend.DatagramIpHeader` | rawsend.c:96-128 | a same-order host parses bytes [0,20) back to the header that was built; for a datagram of at most 65535 bytes, `ip_len` equals its length `msglen + 28` |
| `RawSend.DatagramUdpHeader` | rawsend.c:91-96 | a same-order host parses bytes [20,28) back to the UDP header; for a datagram of at most 65535 bytes, `ntohs(uh_ulen)` equals its length less 20 |
| `RawSend.OversizeDatagramClaimsLengthZero` | rawsend.c:120 | a 65536-byte datagram (payload 65508) has `ip_len` 0 |
| `RawSend.OversizeDatagramOnWire` | rawsend.c:96-128 | a receiver of the 65536-byte datagram reads a total length of 0 in its IP header |
| `RawSend.Memcpy` | rawsend.c:150-152 | `memcpy` replaces exactly the target range and leaves every other byte alone |
| `RawSend.Assemble` | rawsend.c:150-152 | the three copies (payload, UDP header, IP header) leave header, header, payload at the start of the buffer, and the rest untouched |
| `RawSend.RawSendFromTo` | rawsend.c:91-154 | the buffer evolves as `ReserveAsWritten` says; refused exactly when the buffer must grow and the datagram is over 65535 bytes or `malloc` fails; copies into a null buffer exactly when none was held and the datagram fits `msgbuflen`; otherwise sends the IP header, the UDP header and the payload, as held in the buffer; `msgbuf` stays the same array when the datagram fits, and on the size refusal it keeps its bytes too |

## Left out

- Socket I/O is not modelled: `sendto`/`sendmsg`, the `getsockopt(SO_ERROR)` report and `exit (1)` (rawsend.c:148-165). The model yields the bytes given to `sendto` instead.
- `make_raw_udp_socket` (rawsend.c:168-172) is a one-line wrapper over `socket()` and is not modelled.
- The loopback address `dest_a` (rawsend.c:130-132) is only an argument to `sendto` and never reaches the datagram, so it is not modelled.
- `malloc` and `free` are external. `malloc`'s outcome is the parameter `mallocOk`, and a freshly allocated array's contents are left unspecified. The `fprintf` message is left out.
- The iovec path under `HAVE_SYS_UIO_H` (rawsend.c:82-84, 134-148) is not modelled separately. It sends the same three pieces in the same order, with no buffer and no size check.
- `raw_send_from_to` returns no value on success (control falls off the end at rawsend.c:166). `RawSend.RawSendFromTo` yields `Sent(bytes)` there and `Refused` for `return -1`.
- `RawSend.RawSendFromTo` stops at `CopyIntoNull` when the `memcpy`s would write through a null `msgbuf`. That is undefined behaviour in C, and nothing after it is modelled.
- `RawSend.RawSendFromTo` requires `msglen + 28` to fit in `int length`. The conversion of a larger `size_t` to `int` is implementation-defined, so payloads of 2^31 - 28 bytes or more are not modelled. Under the usual wrap to a negative `int`, two behaviours follow, neither modelled:
  - For payloads from 2^31 - 28 to 2^32 - 29 bytes, `length` is negative. `length > msgbuflen` compares as `size_t` and holds, while `length > MAX_IP_DATAGRAM_SIZE` compares as `int` and fails. The doubling loop at rawsend.c:106-107 then wraps `next_alloc_size` to 0 and never ends.
  - From 2^32 - 28 bytes on, `length` wraps to a small value, and the `memcpy` at rawsend.c:150 overruns the buffer.
- `StaticBuffer.GrowTo`: `next_alloc_size` is an unbounded `nat`, so the `size_t` wrap-around of the doubling is not modelled. Under the 65535-byte limit it cannot occur.
- `Checksum.IpHeaderChecksum` keeps only the low 16 bits of the `unsigned long` accumulator. Only zero-extended 16-bit words are XORed into it, so its upper bits stay zero. The returned `unsigned` is then rebuilt as the 32-bit complement.
- The socket descriptor `s` and `flags` only reach `sendto` and are not modelled.

## Findings

| source | as written | input that shows it | evidently intended | confidence | as-written member | corrected member |
|---|---|---|---|---|---|---|
| rawsend.c:98-103 | the 65535-byte limit is checked only inside `if (length > msgbuflen)` | a datagram of total length 40000 grows the buffer to 65536; a second one with a 65508-byte payload (total 65536) then skips the check, and its `ip_len` wraps to 0 | every datagram over `MAX_IP_DATAGRAM_SIZE` is refused | medium, not executed | `StaticBuffer.GuardBypassedAtFullBuffer` | `StaticBuffer.CheckedSafe` |
| rawsend.c:104-113 | after `free (msgbuf)` a failed `malloc` leaves `msgbuf` null but `msgbuflen` at its old size | total 100 (buffer 128), then total 200 with `malloc` failing, then total 100 again: the third call skips allocation and `memcpy`s into a null `msgbuf` | a failed allocation leaves no size recorded (`msgbuflen = 0`), so the next call allocates again | high, not executed | `StaticBuffer.NullBufferAfterFailedMalloc` | `StaticBuffer.CheckedSafe` |

The class `StaticBuffer.SendBuffer` and `RawSend.RawSendFromTo` follow the code as written, so both behaviours above are reachable through them. The corrected step is `StaticBuffer.ReserveChecked`, stated on values. It checks the limit first and sets `msgbuflen` to 0 after a failed `malloc`. `StaticBuffer.CheckedSafe` proves what both fixes intend: an accepted datagram is at most 65535 bytes and fits a buffer that exists. `RawSend.OversizeDatagramOnWire` shows the consequence of the first finding in the header.
