/** `raw_send_from_to`: build a UDP datagram whose IP header claims the
    given source address, assemble it in the static buffer behind a
    20-byte IPv4 header and an 8-byte UDP header, and hand the whole to
    `sendto` on a raw socket. */
module RawSend {
  import opened ByteOrder
  import opened Checksum
  import opened Headers
  import opened StaticBuffer

  /** What a call comes to: `return -1` before anything is sent; the
      `memcpy`s into a null `msgbuf` (undefined behaviour, where the model
      stops); or the bytes handed to `sendto`. */
  datatype Outcome = Refused | CopyIntoNull | Sent(datagram: seq<bv8>)

  /** The datagram sent for payload `msg`: the IP header, the UDP header
      and the payload, in that order. */
  function Datagram(e: Endianness, msg: seq<bv8>, saddr: SockAddrIn, daddr: SockAddrIn): (d: seq<bv8>)
    ensures |d| == |msg| + UdpHeaderSize + IpHeaderSize
  {
    IpHeaderBytes(e, IpHeaderFor(e, |msg| + UdpHeaderSize + IpHeaderSize, saddr, daddr))
      + UdpHeaderBytes(e, UdpHeaderFor(e, |msg|, saddr, daddr)) + msg
  }

  /** Where the two headers and the payload sit in the datagram. */
  lemma DatagramLayout(e: Endianness, msg: seq<bv8>, saddr: SockAddrIn, daddr: SockAddrIn)
    ensures Datagram(e, msg, saddr, daddr)[..IpHeaderSize]
         == IpHeaderBytes(e, IpHeaderFor(e, |msg| + UdpHeaderSize + IpHeaderSize, saddr, daddr))
    ensures Datagram(e, msg, saddr, daddr)[IpHeaderSize..IpHeaderSize + UdpHeaderSize]
         == UdpHeaderBytes(e, UdpHeaderFor(e, |msg|, saddr, daddr))
    ensures Datagram(e, msg, saddr, daddr)[IpHeaderSize + UdpHeaderSize..] == msg
  {
    var ip := IpHeaderBytes(e, IpHeaderFor(e, |msg| + UdpHeaderSize + IpHeaderSize, saddr, daddr));
    var udp := UdpHeaderBytes(e, UdpHeaderFor(e, |msg|, saddr, daddr));
    ThreePieces(ip, udp, msg);
  }

  /** Three pieces laid end to end. */
  lemma ThreePieces(a: seq<bv8>, b: seq<bv8>, c: seq<bv8>)
    ensures (a + b + c)[..|a|] == a
    ensures (a + b + c)[|a|..|a| + |b|] == b
    ensures (a + b + c)[|a| + |b|..] == c
  {
  }

  /** A 16-bit field holds a length below 65536 exactly. */
  lemma ExactLength16(n: nat)
    requires n < 0x1_0000
    ensures ((n % 0x1_0000) as bv16) as int == n
  {
  }

  /** A receiver on a host of the same byte order reads back from the
      datagram the IP header the sender built; for an accepted datagram its
      `ip_len` is the datagram's length. */
  lemma DatagramIpHeader(e: Endianness, msg: seq<bv8>, saddr: SockAddrIn, daddr: SockAddrIn)
    ensures ParseIpHeader(e, Datagram(e, msg, saddr, daddr)[..IpHeaderSize])
         == IpHeaderFor(e, |msg| + UdpHeaderSize + IpHeaderSize, saddr, daddr)
    ensures |msg| + UdpHeaderSize + IpHeaderSize <= MaxIpDatagramSize
        ==> ParseIpHeader(e, Datagram(e, msg, saddr, daddr)[..IpHeaderSize]).len as int
            == |Datagram(e, msg, saddr, daddr)|
  {
    var length := |msg| + UdpHeaderSize + IpHeaderSize;
    DatagramLayout(e, msg, saddr, daddr);
    IpHeaderRoundTrip(e, IpHeaderFor(e, length, saddr, daddr));
    IpHeaderLength(e, length, saddr, daddr);
    if length <= MaxIpDatagramSize {
      ExactLength16(length);
    }
  }

  /** Likewise for the UDP header; its length field, read in network byte
      order, is the datagram's length less the IP header. */
  lemma DatagramUdpHeader(e: Endianness, msg: seq<bv8>, saddr: SockAddrIn, daddr: SockAddrIn)
    ensures ParseUdpHeader(e, Datagram(e, msg, saddr, daddr)[IpHeaderSize..IpHeaderSize + UdpHeaderSize])
         == UdpHeaderFor(e, |msg|, saddr, daddr)
    ensures |msg| + UdpHeaderSize + IpHeaderSize <= MaxIpDatagramSize
        ==> Ntohs(e, UdpHeaderFor(e, |msg|, saddr, daddr).ulen) as int
            == |Datagram(e, msg, saddr, daddr)| - IpHeaderSize
  {
    DatagramLayout(e, msg, saddr, daddr);
    UdpHeaderRoundTrip(e, UdpHeaderFor(e, |msg|, saddr, daddr));
    UdpHeaderFields(e, |msg|, saddr, daddr);
    if |msg| + UdpHeaderSize + IpHeaderSize <= MaxIpDatagramSize {
      ExactLength16(|msg| + UdpHeaderSize);
    }
  }

  /** Finding, as written: a datagram of 65536 bytes (a 65508-byte
      payload) let through by the size check (see
      `GuardBypassedAtFullBuffer`) claims a total length of 0, since
      `ip_len` keeps only 16 bits. */
  lemma OversizeDatagramClaimsLengthZero(e: Endianness, saddr: SockAddrIn, daddr: SockAddrIn)
    ensures IpHeaderFor(e, 65536, saddr, daddr).len == 0
  {
    IpHeaderLength(e, 65536, saddr, daddr);
  }

  /** So a receiver of that datagram reads a total length of 0 in its
      IP header. */
  lemma OversizeDatagramOnWire(e: Endianness, msg: seq<bv8>, saddr: SockAddrIn, daddr: SockAddrIn)
    requires |msg| == 65508
    ensures |Datagram(e, msg, saddr, daddr)| == 65536
    ensures ParseIpHeader(e, Datagram(e, msg, saddr, daddr)[..IpHeaderSize]).len == 0
  {
    DatagramIpHeader(e, msg, saddr, daddr);
    OversizeDatagramClaimsLengthZero(e, saddr, daddr);
  }

  /** The three copies into the buffer leave the IP header, the UDP header
      and the payload at its start. */
  lemma Assembled(m0: seq<bv8>, m1: seq<bv8>, m2: seq<bv8>, m3: seq<bv8>,
                  ip: seq<bv8>, udp: seq<bv8>, msg: seq<bv8>)
    requires |ip| == IpHeaderSize && |udp| == UdpHeaderSize
    requires IpHeaderSize + UdpHeaderSize + |msg| <= |m0|
    requires m1 == m0[..IpHeaderSize + UdpHeaderSize] + msg + m0[IpHeaderSize + UdpHeaderSize + |msg|..]
    requires m2 == m1[..IpHeaderSize] + udp + m1[IpHeaderSize + UdpHeaderSize..]
    requires m3 == m2[..0] + ip + m2[IpHeaderSize..]
    ensures m3[..IpHeaderSize + UdpHeaderSize + |msg|] == ip + udp + msg
  {
    var n := IpHeaderSize + UdpHeaderSize + |msg|;
    assert m1[IpHeaderSize + UdpHeaderSize..n] == msg;
    assert m2[IpHeaderSize..IpHeaderSize + UdpHeaderSize] == udp;
    assert m2[IpHeaderSize + UdpHeaderSize..n] == m1[IpHeaderSize + UdpHeaderSize..n];
    assert m2[IpHeaderSize..n] == udp + msg;
    assert m3 == ip + m2[IpHeaderSize..];
    assert m3[IpHeaderSize..n] == m2[IpHeaderSize..n];
  }

  /** `memcpy (dst + at, src, |src|)`. */
  method Memcpy(dst: array<bv8>, at: nat, src: seq<bv8>)
    requires at + |src| <= dst.Length
    modifies dst
    ensures dst[..] == old(dst[..at]) + src + old(dst[at + |src|..])
  {
    var i := 0;
    while i < |src|
      invariant 0 <= i <= |src|
      invariant forall j :: 0 <= j < dst.Length ==>
        dst[j] == if at <= j < at + i then src[j - at] else old(dst[j])
    {
      dst[at + i] := src[i];
      i := i + 1;
    }
    assert dst[..] == old(dst[..at]) + src + old(dst[at + |src|..]);
  }

  /** The three `memcpy`s that put the payload, then the UDP header, then
      the IP header into the buffer. */
  method Assemble(mb: array<bv8>, ip: seq<bv8>, udp: seq<bv8>, msg: seq<bv8>)
    requires |ip| == IpHeaderSize && |udp| == UdpHeaderSize
    requires IpHeaderSize + UdpHeaderSize + |msg| <= mb.Length
    modifies mb
    ensures mb[..IpHeaderSize + UdpHeaderSize + |msg|] == ip + udp + msg
    ensures mb[IpHeaderSize + UdpHeaderSize + |msg|..] == old(mb[IpHeaderSize + UdpHeaderSize + |msg|..])
  {
    ghost var m0 := mb[..];
    Memcpy(mb, IpHeaderSize + UdpHeaderSize, msg);
    ghost var m1 := mb[..];
    Memcpy(mb, IpHeaderSize, udp);
    ghost var m2 := mb[..];
    Memcpy(mb, 0, ip);
    Assembled(m0, m1, m2, mb[..], ip, udp, msg);
    assert mb[..IpHeaderSize + UdpHeaderSize + |msg|] == mb[..][..IpHeaderSize + UdpHeaderSize + |msg|];
  }

  /** `raw_send_from_to (s, msg, msglen, saddr, daddr)` on the path that
      assembles the datagram in the static buffer. `mallocOk` says whether
      a `malloc` the call makes returns memory. The static buffer steps as
      the code is written: the call is refused exactly when the buffer must
      grow and either the datagram is over the IP size limit or `malloc`
      fails; it copies into a null buffer exactly when a failed `malloc`
      left no buffer and the datagram fits the recorded size; otherwise the
      datagram, the two headers and the payload, is in the buffer as handed
      to `sendto`, a 65536-byte one from a full buffer included. */
  method RawSendFromTo(buf: SendBuffer, e: Endianness, msg: seq<bv8>,
                       saddr: SockAddrIn, daddr: SockAddrIn, mallocOk: bool)
    returns (r: Outcome)
    requires buf.Valid()
    requires |msg| + UdpHeaderSize + IpHeaderSize <= 0x7FFF_FFFF
    modifies buf, buf.msgbuf
    ensures buf.Valid()
    ensures Reserved(buf.State(), !r.Refused?)
         == ReserveAsWritten(old(buf.State()), |msg| + UdpHeaderSize + IpHeaderSize, mallocOk)
    ensures r.Refused?
        <==> (|msg| + UdpHeaderSize + IpHeaderSize > old(buf.msgbuflen)
              && (|msg| + UdpHeaderSize + IpHeaderSize > MaxIpDatagramSize || !mallocOk))
    ensures r.CopyIntoNull?
        <==> (old(buf.msgbuf) == null && |msg| + UdpHeaderSize + IpHeaderSize <= old(buf.msgbuflen))
    ensures |msg| + UdpHeaderSize + IpHeaderSize <= old(buf.msgbuflen) ==> buf.msgbuf == old(buf.msgbuf)
    ensures r.Refused? && |msg| + UdpHeaderSize + IpHeaderSize > MaxIpDatagramSize
        ==> buf.msgbuf == old(buf.msgbuf)
            && (buf.msgbuf != null ==> buf.msgbuf[..] == old(buf.msgbuf[..]))
    ensures r.Sent? ==> r.datagram == Datagram(e, msg, saddr, daddr)
    ensures r.Sent? ==> buf.msgbuf != null && |r.datagram| <= buf.msgbuf.Length
                        && buf.msgbuf[..|r.datagram|] == r.datagram
  {
    var uh := UdpHeaderFor(e, |msg|, saddr, daddr);
    var length := |msg| + UdpHeaderSize + IpHeaderSize;
    var ok := buf.Reserve(length, mallocOk);
    AsWrittenRefusal(old(buf.State()), length, mallocOk);
    AsWrittenAccepted(old(buf.State()), length, mallocOk);
    if !ok {
      return Refused;
    }
    if buf.msgbuf == null {
      return CopyIntoNull;
    }
    var ih := FillIpHeader(e, length, saddr, daddr);
    var mb := buf.msgbuf;
    Assemble(mb, IpHeaderBytes(e, ih), UdpHeaderBytes(e, uh), msg);
    assert mb[..length] == Datagram(e, msg, saddr, daddr);
    r := Sent(mb[..length]);
  }
}
