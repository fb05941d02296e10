/** The UDP and IPv4 headers the sender puts in front of the payload: the
    header structs it fills in, their memory images (what goes on the wire)
    and the values it writes into each field. */
module Headers {
  import opened ByteOrder
  import opened Checksum

  /** `sizeof (struct ip)`: an IPv4 header without options. */
  const IpHeaderSize := 20
  /** `sizeof (struct udphdr)`. */
  const UdpHeaderSize := 8
  /** `DEFAULT_TTL`. */
  const DefaultTtl: bv8 := 64
  /** The protocol number written into `ip_p`: UDP. */
  const IpProtoUdp: bv8 := 17
  /** The IP version written into `ip_v`. */
  const IpVersion: bv4 := 4

  /** A `struct sockaddr_in` as far as the sender reads it: `sin_port` and
      `sin_addr.s_addr`, held as the values stored in the struct (both
      already in network byte order). */
  datatype SockAddrIn = SockAddrIn(port: bv16, addr: bv32)

  /** `struct udphdr`, each field as the host value stored in it. */
  datatype UdpHeader = UdpHeader(sport: bv16, dport: bv16, ulen: bv16, sum: bv16)

  /** `struct ip` without options, each field as the host value stored in
      it; `hl` and `v` are the two 4-bit fields of the first byte. */
  datatype IpHeader = IpHeader(
    hl: bv4, v: bv4, tos: bv8, len: bv16, id: bv16, off: bv16,
    ttl: bv8, p: bv8, sum: bv16, src: bv32, dst: bv32)

  /** The memory image of a `struct udphdr`. */
  function UdpHeaderBytes(e: Endianness, uh: UdpHeader): (bs: seq<bv8>)
    ensures |bs| == UdpHeaderSize
  {
    Store16(e, uh.sport) + Store16(e, uh.dport) + Store16(e, uh.ulen) + Store16(e, uh.sum)
  }

  /** The `struct udphdr` a host reads from eight bytes. */
  function ParseUdpHeader(e: Endianness, bs: seq<bv8>): UdpHeader
    requires |bs| == UdpHeaderSize
  {
    UdpHeader(Load16(e, bs[0], bs[1]), Load16(e, bs[2], bs[3]),
              Load16(e, bs[4], bs[5]), Load16(e, bs[6], bs[7]))
  }

  /** Reading back the memory image of a UDP header gives the header. */
  lemma UdpHeaderRoundTrip(e: Endianness, uh: UdpHeader)
    ensures ParseUdpHeader(e, UdpHeaderBytes(e, uh)) == uh
  {
    var bs := UdpHeaderBytes(e, uh);
    assert bs[0..2] == Store16(e, uh.sport);
    assert bs[2..4] == Store16(e, uh.dport);
    assert bs[4..6] == Store16(e, uh.ulen);
    assert bs[6..8] == Store16(e, uh.sum);
    Load16Store16(e, uh.sport);
    Load16Store16(e, uh.dport);
    Load16Store16(e, uh.ulen);
    Load16Store16(e, uh.sum);
  }

  /** The first byte of `struct ip`: `ip_v` in the high nibble and `ip_hl`
      in the low one, on either byte order. */
  function FirstByte(hl: bv4, v: bv4): bv8
  {
    ((v as bv8) << 4) | (hl as bv8)
  }

  /** The two nibbles of the first byte read back as `ip_hl` and `ip_v`. */
  lemma FirstByteNibbles(hl: bv4, v: bv4)
    ensures (FirstByte(hl, v) & 0x0F) as bv4 == hl
    ensures (FirstByte(hl, v) >> 4) as bv4 == v
  {
  }

  /** The memory image of a `struct ip`: twelve bytes of fields, then the
      source and the destination address. */
  function IpHeaderBytes(e: Endianness, ih: IpHeader): (bs: seq<bv8>)
    ensures |bs| == IpHeaderSize
  {
    IpHeaderFront(e, ih) + Store32(e, ih.src) + Store32(e, ih.dst)
  }

  /** The first twelve bytes of the memory image of a `struct ip`. */
  function IpHeaderFront(e: Endianness, ih: IpHeader): (bs: seq<bv8>)
    ensures |bs| == 12
  {
    [FirstByte(ih.hl, ih.v), ih.tos] + Store16(e, ih.len) + Store16(e, ih.id)
      + Store16(e, ih.off) + [ih.ttl, ih.p] + Store16(e, ih.sum)
  }

  /** The `struct ip` a host reads from twenty bytes. */
  function ParseIpHeader(e: Endianness, bs: seq<bv8>): IpHeader
    requires |bs| == IpHeaderSize
  {
    IpHeader((bs[0] & 0x0F) as bv4, (bs[0] >> 4) as bv4, bs[1],
             Load16(e, bs[2], bs[3]), Load16(e, bs[4], bs[5]), Load16(e, bs[6], bs[7]),
             bs[8], bs[9], Load16(e, bs[10], bs[11]),
             Load32(e, bs[12..16]), Load32(e, bs[16..20]))
  }

  /** Where the one-byte fields of `struct ip` sit in its memory image. */
  lemma IpHeaderLayoutBytes(e: Endianness, ih: IpHeader)
    ensures IpHeaderBytes(e, ih)[0] == FirstByte(ih.hl, ih.v)
    ensures IpHeaderBytes(e, ih)[1] == ih.tos
    ensures IpHeaderBytes(e, ih)[8] == ih.ttl
    ensures IpHeaderBytes(e, ih)[9] == ih.p
  {
    FrontOfHeader(e, ih);
    FrontLayout([FirstByte(ih.hl, ih.v), ih.tos], Store16(e, ih.len), Store16(e, ih.id),
                Store16(e, ih.off), [ih.ttl, ih.p], Store16(e, ih.sum));
  }

  /** Where the 16-bit fields of `struct ip` sit in its memory image. */
  lemma IpHeaderLayoutShorts(e: Endianness, ih: IpHeader)
    ensures IpHeaderBytes(e, ih)[2..4] == Store16(e, ih.len)
    ensures IpHeaderBytes(e, ih)[4..6] == Store16(e, ih.id)
    ensures IpHeaderBytes(e, ih)[6..8] == Store16(e, ih.off)
    ensures IpHeaderBytes(e, ih)[10..12] == Store16(e, ih.sum)
  {
    FrontOfHeader(e, ih);
    FrontLayout([FirstByte(ih.hl, ih.v), ih.tos], Store16(e, ih.len), Store16(e, ih.id),
                Store16(e, ih.off), [ih.ttl, ih.p], Store16(e, ih.sum));
  }

  /** Six two-byte pieces laid end to end. */
  lemma FrontLayout(p0: seq<bv8>, p1: seq<bv8>, p2: seq<bv8>, p3: seq<bv8>, p4: seq<bv8>, p5: seq<bv8>)
    requires |p0| == 2 && |p1| == 2 && |p2| == 2 && |p3| == 2 && |p4| == 2 && |p5| == 2
    ensures (p0 + p1 + p2 + p3 + p4 + p5)[..2] == p0
    ensures (p0 + p1 + p2 + p3 + p4 + p5)[2..4] == p1
    ensures (p0 + p1 + p2 + p3 + p4 + p5)[4..6] == p2
    ensures (p0 + p1 + p2 + p3 + p4 + p5)[6..8] == p3
    ensures (p0 + p1 + p2 + p3 + p4 + p5)[8..10] == p4
    ensures (p0 + p1 + p2 + p3 + p4 + p5)[10..12] == p5
  {
  }

  /** The memory image starts with its twelve front bytes. */
  lemma FrontOfHeader(e: Endianness, ih: IpHeader)
    ensures IpHeaderBytes(e, ih)[..12] == IpHeaderFront(e, ih)
  {
  }

  /** Where the two addresses of `struct ip` sit in its memory image. */
  lemma IpHeaderLayoutAddresses(e: Endianness, ih: IpHeader)
    ensures IpHeaderBytes(e, ih)[12..16] == Store32(e, ih.src)
    ensures IpHeaderBytes(e, ih)[16..20] == Store32(e, ih.dst)
  {
    var bs := IpHeaderBytes(e, ih);
    var f := IpHeaderFront(e, ih);
    assert bs == (f + Store32(e, ih.src)) + Store32(e, ih.dst);
    assert |f + Store32(e, ih.src)| == 16;
  }

  /** A 16-bit field read back from where it was stored. */
  lemma Load16At(e: Endianness, bs: seq<bv8>, i: nat, w: bv16)
    requires i + 2 <= |bs| && bs[i..i + 2] == Store16(e, w)
    ensures Load16(e, bs[i], bs[i + 1]) == w
  {
    assert bs[i] == Store16(e, w)[0] && bs[i + 1] == Store16(e, w)[1];
    Load16Store16(e, w);
  }

  /** A 32-bit field read back from where it was stored. */
  lemma Load32At(e: Endianness, bs: seq<bv8>, i: nat, v: bv32)
    requires i + 4 <= |bs| && bs[i..i + 4] == Store32(e, v)
    ensures Load32(e, bs[i..i + 4]) == v
  {
    Load32Store32(e, v);
  }

  /** Reading back the memory image of an IP header gives the header. */
  lemma IpHeaderRoundTrip(e: Endianness, ih: IpHeader)
    ensures ParseIpHeader(e, IpHeaderBytes(e, ih)) == ih
  {
    var bs := IpHeaderBytes(e, ih);
    IpHeaderLayoutBytes(e, ih);
    IpHeaderLayoutShorts(e, ih);
    IpHeaderLayoutAddresses(e, ih);
    FirstByteNibbles(ih.hl, ih.v);
    Load16At(e, bs, 2, ih.len);
    Load16At(e, bs, 4, ih.id);
    Load16At(e, bs, 6, ih.off);
    Load16At(e, bs, 10, ih.sum);
    Load32At(e, bs, 12, ih.src);
    Load32At(e, bs, 16, ih.dst);
  }

  /** The UDP header the sender fills in for a payload of `msglen` bytes:
      the ports are copied from the two socket addresses, `uh_ulen` is
      `htons` of the payload length plus the header (truncated to 16 bits,
      as `htons` takes a `uint16_t`), and no UDP checksum is computed. */
  function UdpHeaderFor(e: Endianness, msglen: nat, saddr: SockAddrIn, daddr: SockAddrIn): UdpHeader
  {
    UdpHeader(saddr.port, daddr.port, Htons(e, ((msglen + UdpHeaderSize) % 0x1_0000) as bv16), 0)
  }

  /** What the UDP header says: source and destination port verbatim, the
      UDP length in network byte order, and a zero checksum (which UDP
      over IPv4 reads as "no checksum"). */
  lemma UdpHeaderFields(e: Endianness, msglen: nat, saddr: SockAddrIn, daddr: SockAddrIn)
    ensures UdpHeaderFor(e, msglen, saddr, daddr).sport == saddr.port
    ensures UdpHeaderFor(e, msglen, saddr, daddr).dport == daddr.port
    ensures Ntohs(e, UdpHeaderFor(e, msglen, saddr, daddr).ulen)
         == ((msglen + UdpHeaderSize) % 0x1_0000) as bv16
    ensures UdpHeaderFor(e, msglen, saddr, daddr).sum == 0
  {
    NtohsHtons(e, ((msglen + UdpHeaderSize) % 0x1_0000) as bv16);
  }

  /** On the wire the UDP header is the two ports as stored, the length in
      network byte order and two zero bytes. */
  lemma UdpHeaderWire(e: Endianness, msglen: nat, saddr: SockAddrIn, daddr: SockAddrIn)
    ensures UdpHeaderBytes(e, UdpHeaderFor(e, msglen, saddr, daddr))
         == Store16(e, saddr.port) + Store16(e, daddr.port)
            + NetworkBytes16(((msglen + UdpHeaderSize) % 0x1_0000) as bv16) + [0, 0]
  {
    HtonsImage(e, ((msglen + UdpHeaderSize) % 0x1_0000) as bv16);
    ZeroImage(e);
  }

  /** A zero field has two zero bytes in memory on either host. */
  lemma ZeroImage(e: Endianness)
    ensures Store16(e, 0) == [0, 0]
    ensures Htons(e, 0) == 0
  {
  }

  /** The IP header before its checksum is computed: `ip_hl` is
      `(sizeof ih + 3) / 4`, `ip_len` the total length (stored as a host
      value without `htons`, truncated to the 16-bit field), `ip_id`,
      `ip_off` and `ip_sum` are `htons (0)`, and the addresses are copied
      from the two socket addresses. */
  function UnsummedIpHeader(e: Endianness, length: nat, saddr: SockAddrIn, daddr: SockAddrIn): IpHeader
  {
    IpHeader(((IpHeaderSize + 3) / 4) as bv4, IpVersion, 0, (length % 0x1_0000) as bv16,
             Htons(e, 0), Htons(e, 0), DefaultTtl, IpProtoUdp, Htons(e, 0),
             saddr.addr, daddr.addr)
  }

  /** The finished IP header: `ip_sum` is `htons` of the checksum of the
      header's own memory image taken while `ip_sum` was zero. */
  function IpHeaderFor(e: Endianness, length: nat, saddr: SockAddrIn, daddr: SockAddrIn): IpHeader
  {
    UnsummedIpHeaderReadable(e, length, saddr, daddr);
    UnsummedIpHeader(e, length, saddr, daddr).(
      sum := ChecksumField(e, IpHeaderBytes(e, UnsummedIpHeader(e, length, saddr, daddr))))
  }

  /** The checksum reads exactly the unsummed header: `ip_hl` rows of four
      bytes are its twenty bytes. */
  lemma UnsummedIpHeaderReadable(e: Endianness, length: nat, saddr: SockAddrIn, daddr: SockAddrIn)
    ensures Readable(IpHeaderBytes(e, UnsummedIpHeader(e, length, saddr, daddr)))
    ensures 4 * HeaderLengthField(IpHeaderBytes(e, UnsummedIpHeader(e, length, saddr, daddr)))
         == IpHeaderSize
  {
    var bs := IpHeaderBytes(e, UnsummedIpHeader(e, length, saddr, daddr));
    assert bs[0] == FirstByte(5, 4) == 0x45;
  }

  /** The memory image of the unsummed header: `0x45` (version 4, five
      rows), a zero type of service, `ip_len`, zero `ip_id` and `ip_off`,
      TTL 64, protocol 17, a zero checksum and the two addresses. */
  lemma UnsummedIpHeaderWire(e: Endianness, length: nat, saddr: SockAddrIn, daddr: SockAddrIn)
    ensures IpHeaderBytes(e, UnsummedIpHeader(e, length, saddr, daddr))
         == [0x45, 0] + Store16(e, (length % 0x1_0000) as bv16) + [0, 0, 0, 0, 64, 17, 0, 0]
            + Store32(e, saddr.addr) + Store32(e, daddr.addr)
  {
    var u := UnsummedIpHeader(e, length, saddr, daddr);
    ZeroImage(e);
    assert FirstByte(u.hl, u.v) == 0x45;
    assert IpHeaderFront(e, u) == [0x45, 0] + Store16(e, u.len) + [0, 0, 0, 0, 64, 17, 0, 0];
  }

  /** `ip_len` is the total length, cut to 16 bits. */
  lemma IpHeaderLength(e: Endianness, length: nat, saddr: SockAddrIn, daddr: SockAddrIn)
    ensures IpHeaderFor(e, length, saddr, daddr).len == (length % 0x1_0000) as bv16
  {
  }

  /** The finished header differs from the unsummed one only in `ip_sum`. */
  lemma IpHeaderForSum(e: Endianness, length: nat, saddr: SockAddrIn, daddr: SockAddrIn)
    ensures IpHeaderFor(e, length, saddr, daddr)
         == UnsummedIpHeader(e, length, saddr, daddr).(sum := IpHeaderFor(e, length, saddr, daddr).sum)
    ensures IpHeaderFor(e, length, saddr, daddr).(sum := Htons(e, 0))
         == UnsummedIpHeader(e, length, saddr, daddr)
  {
  }

  /** The finished header on the wire: the unsummed image with the
      complemented XOR of that image's words in bytes 10 and 11, most
      significant byte first. */
  lemma IpHeaderWire(e: Endianness, length: nat, saddr: SockAddrIn, daddr: SockAddrIn)
    ensures IpHeaderBytes(e, IpHeaderFor(e, length, saddr, daddr))
         == [0x45, 0] + Store16(e, (length % 0x1_0000) as bv16) + [0, 0, 0, 0, 64, 17]
            + NetworkBytes16(!HeaderXor(e, IpHeaderBytes(e, UnsummedIpHeader(e, length, saddr, daddr))))
            + Store32(e, saddr.addr) + Store32(e, daddr.addr)
  {
    var u := UnsummedIpHeader(e, length, saddr, daddr);
    var f := IpHeaderFor(e, length, saddr, daddr);
    UnsummedIpHeaderReadable(e, length, saddr, daddr);
    ChecksumFieldBytes(e, IpHeaderBytes(e, u));
    ZeroImage(e);
    assert FirstByte(f.hl, f.v) == 0x45;
    assert IpHeaderFront(e, f)
        == [0x45, 0] + Store16(e, f.len) + [0, 0, 0, 0, 64, 17] + Store16(e, f.sum);
  }

  /** The checksum was taken over the very bytes that go on the wire, with
      the two checksum bytes zeroed. */
  lemma ChecksumOverZeroedField(e: Endianness, length: nat, saddr: SockAddrIn, daddr: SockAddrIn)
    ensures IpHeaderBytes(e, UnsummedIpHeader(e, length, saddr, daddr))
         == IpHeaderBytes(e, IpHeaderFor(e, length, saddr, daddr))[..10] + [0, 0]
            + IpHeaderBytes(e, IpHeaderFor(e, length, saddr, daddr))[12..]
  {
    UnsummedIpHeaderWire(e, length, saddr, daddr);
    IpHeaderWire(e, length, saddr, daddr);
  }

  /** Recomputing the checksum over the finished header with its checksum
      bytes zeroed gives back the installed `ip_sum`. */
  lemma ChecksumRecomputes(e: Endianness, length: nat, saddr: SockAddrIn, daddr: SockAddrIn)
    ensures Readable(IpHeaderBytes(e, IpHeaderFor(e, length, saddr, daddr))[..10] + [0, 0]
                     + IpHeaderBytes(e, IpHeaderFor(e, length, saddr, daddr))[12..])
    ensures ChecksumField(e, IpHeaderBytes(e, IpHeaderFor(e, length, saddr, daddr))[..10] + [0, 0]
                             + IpHeaderBytes(e, IpHeaderFor(e, length, saddr, daddr))[12..])
         == IpHeaderFor(e, length, saddr, daddr).sum
  {
    ChecksumOverZeroedField(e, length, saddr, daddr);
    UnsummedIpHeaderReadable(e, length, saddr, daddr);
  }

  /** The socket address with port and address zero. */
  const NullAddr := SockAddrIn(0, 0)

  /** For one and the same call the two kinds of host checksum different
      bytes, because `ip_len` is stored in host order: with a 4-byte payload
      and both addresses zero, a big-endian host installs `0xFACE` and a
      little-endian host `0xDAEE`. `ChecksumFieldByHost` speaks only of
      identical header bytes. */
  lemma ChecksumFieldDiffersByHost()
    ensures IpHeaderFor(BigEndian, 32, NullAddr, NullAddr).sum == 0xFACE
    ensures IpHeaderFor(LittleEndian, 32, NullAddr, NullAddr).sum == 0xDAEE
  {
    SampleChecksum(BigEndian);
    SampleChecksum(LittleEndian);
    SampleConstants();
  }

  /** The sample's `ip_sum` on either host: the `ip_len` word reads back as
      32 in host order, and the only other nonzero words are the first one
      and the TTL/protocol word. */
  lemma SampleChecksum(e: Endianness)
    ensures IpHeaderFor(e, 32, NullAddr, NullAddr).sum
         == Htons(e, !((Load16(e, 0x45, 0) ^ 32) ^ Load16(e, 64, 17)))
  {
    SampleImageXor(e);
  }

  /** The XOR of the sample's zero-checksum image on either host. */
  lemma SampleImageXor(e: Endianness)
    ensures HeaderXor(e, IpHeaderBytes(e, UnsummedIpHeader(e, 32, NullAddr, NullAddr)))
         == (Load16(e, 0x45, 0) ^ 32) ^ Load16(e, 64, 17)
  {
    var bs := IpHeaderBytes(e, UnsummedIpHeader(e, 32, NullAddr, NullAddr));
    UnsummedIpHeaderWire(e, 32, NullAddr, NullAddr);
    NullAddrImage(e);
    SampleImageWords(e, Store16(e, 32), bs);
    Load16Store16(e, 32);
  }

  /** The XOR of a sample image whose `ip_len` bytes are `len`. */
  lemma SampleImageWords(e: Endianness, len: seq<bv8>, bs: seq<bv8>)
    requires |len| == 2
    requires bs == [0x45, 0] + len + [0, 0, 0, 0, 64, 17, 0, 0] + [0, 0, 0, 0] + [0, 0, 0, 0]
    ensures HeaderXor(e, bs) == (Load16(e, 0x45, 0) ^ Load16(e, len[0], len[1])) ^ Load16(e, 64, 17)
  {
    SampleLayout(len, bs);
    SampleXor(e, bs, Load16(e, 0x45, 0), Load16(e, len[0], len[1]), Load16(e, 64, 17));
  }

  /** The values of the sample's checksum field on the two hosts. */
  lemma SampleConstants()
    ensures Htons(BigEndian, !((Load16(BigEndian, 0x45, 0) ^ 32) ^ Load16(BigEndian, 64, 17))) == 0xFACE
    ensures Htons(LittleEndian, !((Load16(LittleEndian, 0x45, 0) ^ 32) ^ Load16(LittleEndian, 64, 17))) == 0xDAEE
  {
  }

  /** Both addresses zero take four zero bytes on either host. */
  lemma NullAddrImage(e: Endianness)
    ensures Store32(e, NullAddr.addr) == [0, 0, 0, 0]
  {
  }

  /** Where the bytes of the sample image sit, over plain sequences. */
  lemma SampleLayout(len: seq<bv8>, bs: seq<bv8>)
    requires |len| == 2
    requires bs == [0x45, 0] + len + [0, 0, 0, 0, 64, 17, 0, 0] + [0, 0, 0, 0] + [0, 0, 0, 0]
    ensures |bs| == 20 && bs[0] == 0x45 && bs[1] == 0 && bs[2] == len[0] && bs[3] == len[1]
    ensures bs[4..8] == [0, 0, 0, 0] && bs[8] == 64 && bs[9] == 17
    ensures forall i :: 10 <= i < 20 ==> bs[i] == 0
  {
  }

  /** The XOR of ten words of which only `h[0]`, `h[1]` and `h[4]` may be
      nonzero. */
  lemma SampleRows(h: seq<bv16>, a: bv16, b: bv16, c: bv16)
    requires |h| == 10 && h[0] == a && h[1] == b && h[4] == c
    requires h[2] == 0 && h[3] == 0 && h[5] == 0 && h[6] == 0
    requires h[7] == 0 && h[8] == 0 && h[9] == 0
    ensures XorRows(h, 5) == (a ^ b) ^ c
  {
    RowStep(h, 0);
    RowStep(h, 1);
    RowStep(h, 2);
    RowStep(h, 3);
    RowStep(h, 4);
  }

  /** The XOR of the words of a 20-byte header that is zero outside bytes
      0-3 and 8-9. */
  lemma SampleXor(e: Endianness, bs: seq<bv8>, a: bv16, b: bv16, c: bv16)
    requires |bs| == 20 && bs[0] == 0x45
    requires bs[4..8] == [0, 0, 0, 0]
    requires forall i :: 10 <= i < 20 ==> bs[i] == 0
    requires Load16(e, bs[0], bs[1]) == a && Load16(e, bs[2], bs[3]) == b
    requires Load16(e, bs[8], bs[9]) == c
    ensures HeaderXor(e, bs) == (a ^ b) ^ c
  {
    var h := Words(e, bs, 10);
    assert HeaderLengthField(bs) == 5;
    assert h[2] == Load16(e, 0, 0) == 0;
    SampleRows(h, a, b, c);
  }

  /** Filling in `struct ip` field by field, in the order of the source,
      and then installing `htons` of `ip_header_checksum (&ih)` in
      `ip_sum`. Every field is assigned, so the starting value of the
      automatic `ih` is immaterial and is taken as all zeros. */
  method FillIpHeader(e: Endianness, length: nat, saddr: SockAddrIn, daddr: SockAddrIn)
    returns (ih: IpHeader)
    ensures ih == IpHeaderFor(e, length, saddr, daddr)
  {
    ih := IpHeader(0, 0, 0, 0, 0, 0, 0, 0, 0, 0, 0);
    ih := ih.(hl := ((IpHeaderSize + 3) / 4) as bv4);
    ih := ih.(v := IpVersion);
    ih := ih.(tos := 0);
    ih := ih.(len := (length % 0x1_0000) as bv16);
    ih := ih.(id := Htons(e, 0));
    ih := ih.(off := Htons(e, 0));
    ih := ih.(ttl := DefaultTtl);
    ih := ih.(p := IpProtoUdp);
    ih := ih.(sum := Htons(e, 0));
    ih := ih.(src := saddr.addr);
    ih := ih.(dst := daddr.addr);
    assert ih == UnsummedIpHeader(e, length, saddr, daddr);
    UnsummedIpHeaderReadable(e, length, saddr, daddr);
    var c := IpHeaderChecksum(e, IpHeaderBytes(e, ih));
    ChecksumTruncation(e, IpHeaderBytes(e, ih), c);
    ih := ih.(sum := Htons(e, (c & 0xFFFF) as bv16));
  }
}
