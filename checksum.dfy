/** The sender's IPv4 header checksum. It reads the header as the host's
    16-bit words and folds them with exclusive-or, then complements the
    result. This is not the ones'-complement sum with end-around carry of
    RFC 791 section 3.1 / RFC 1071; the model keeps the exclusive-or. */
module Checksum {
  import opened ByteOrder

  /** The header length field `ip_hl`: the low four bits of the first byte
      (the bitfield sits there on either byte order). */
  function HeaderLengthField(header: seq<bv8>): nat
    requires |header| >= 1
  {
    header[0] as nat % 16
  }

  /** The memory the checksum reads is there: `ip_hl` 32-bit rows. */
  predicate Readable(header: seq<bv8>)
  {
    |header| >= 1 && 4 * HeaderLengthField(header) <= |header|
  }

  /** `h[i]` for `uint16_t *h` pointing at `mem`, as the host reads it. */
  function WordAt(e: Endianness, mem: seq<bv8>, i: nat): bv16
    requires 2 * i + 2 <= |mem|
  {
    Load16(e, mem[2 * i], mem[2 * i + 1])
  }

  /** The words `h[0] .. h[n-1]` of `mem`. */
  function Words(e: Endianness, mem: seq<bv8>, n: nat): (ws: seq<bv16>)
    requires 2 * n <= |mem|
    ensures |ws| == n
  {
    seq(n, i requires 0 <= i < n => WordAt(e, mem, i))
  }

  /** The exclusive-or of the words `h[0] .. h[2k-1]`, taken a 32-bit row
      (two words) at a time. */
  function XorRows(h: seq<bv16>, k: nat): bv16
    requires 2 * k <= |h|
  {
    if k == 0 then 0 else (XorRows(h, k - 1) ^ h[2 * k - 2]) ^ h[2 * k - 1]
  }

  /** The exclusive-or of all the words in `ws`, one word at a time: the
      reference the row-by-row fold is measured against. */
  function XorAll(ws: seq<bv16>): bv16
  {
    if |ws| == 0 then 0 else XorAll(ws[..|ws| - 1]) ^ ws[|ws| - 1]
  }

  /** Folding two words a row is folding the first `2 * k` words one by
      one. */
  lemma {:induction false} XorRowsIsXorAll(h: seq<bv16>, k: nat)
    requires 2 * k <= |h|
    ensures XorRows(h, k) == XorAll(h[..2 * k])
  {
    if k > 0 {
      XorRowsIsXorAll(h, k - 1);
      assert h[..2 * k][..2 * k - 1] == h[..2 * k - 1];
      assert h[..2 * k - 1][..2 * k - 2] == h[..2 * (k - 1)];
    }
  }

  /** The XOR of exactly the first `2 * ip_hl` words of the header. Memory
      too short for `ip_hl` rows is never given to the checksum; the value
      there is immaterial and is taken as zero. */
  function HeaderXor(e: Endianness, header: seq<bv8>): bv16
  {
    if !Readable(header) then 0 else XorRows(Words(e, header, 2 * HeaderLengthField(header)), HeaderLengthField(header))
  }

  /** `ip_header_checksum`: a loop over `ip_hl` rows of two words each.
      The source accumulates into an `unsigned long`; since only
      zero-extended 16-bit words are ever XORed into it, its upper bits stay
      zero and the accumulator is kept here as its 16 live bits. `~csum`
      returned as `unsigned` is the 32-bit complement of that value, whose
      upper half is all ones (`UnsignedComplement`). */
  method IpHeaderChecksum(e: Endianness, header: seq<bv8>) returns (c: bv32)
    requires Readable(header)
    ensures c == !(HeaderXor(e, header) as bv32)
  {
    var csum: bv16 := 0;
    var size := HeaderLengthField(header);
    var h := Words(e, header, 2 * size);
    var k := 0;
    while k < size
      invariant k <= size
      invariant csum == XorRows(h, k)
    {
      RowStep(h, k);
      csum := csum ^ h[2 * k];
      csum := csum ^ h[2 * k + 1];
      k := k + 1;
    }
    c := !(csum as bv32);
  }

  /** The header XOR is the one-word-at-a-time XOR of the first
      `2 * ip_hl` words. */
  lemma HeaderXorIsXorAll(e: Endianness, header: seq<bv8>)
    requires Readable(header)
    ensures HeaderXor(e, header) == XorAll(Words(e, header, 2 * HeaderLengthField(header)))
  {
    var h := Words(e, header, 2 * HeaderLengthField(header));
    XorRowsIsXorAll(h, HeaderLengthField(header));
    assert h[..2 * HeaderLengthField(header)] == h;
  }

  /** Folding in row `k` extends the fold by that row's two words. */
  lemma RowStep(h: seq<bv16>, k: nat)
    requires 2 * k + 2 <= |h|
    ensures XorRows(h, k + 1) == (XorRows(h, k) ^ h[2 * k]) ^ h[2 * k + 1]
  {
  }

  /** The `unsigned` that `ip_header_checksum` returns for an accumulator
      `x`: its upper half is all ones, its lower half the complement of `x`,
      which is all that `htons` keeps. */
  lemma UnsignedComplement(x: bv16)
    ensures !(x as bv32) & 0xFFFF_0000 == 0xFFFF_0000
    ensures (!(x as bv32) & 0xFFFF) as bv16 == !x
  {
  }

  /** The words read depend only on the bytes they cover. */
  lemma WordsOfPrefix(e: Endianness, m1: seq<bv8>, m2: seq<bv8>, n: nat)
    requires 2 * n <= |m1| && 2 * n <= |m2| && m1[..2 * n] == m2[..2 * n]
    ensures Words(e, m1, n) == Words(e, m2, n)
  {
    forall i | 0 <= i < n
      ensures Words(e, m1, n)[i] == Words(e, m2, n)[i]
    {
      assert m1[2 * i] == m1[..2 * n][2 * i] == m2[2 * i];
      assert m1[2 * i + 1] == m1[..2 * n][2 * i + 1] == m2[2 * i + 1];
    }
  }

  /** No byte past the first `4 * ip_hl` is read: two memories that agree
      on the header rows named by `ip_hl` have the same checksum. */
  lemma ChecksumReadsOnlyHeader(e: Endianness, m1: seq<bv8>, m2: seq<bv8>)
    requires Readable(m1)
    requires 4 * HeaderLengthField(m1) <= |m2|
    requires |m2| >= 1 && m2[0] == m1[0]
    requires m1[..4 * HeaderLengthField(m1)] == m2[..4 * HeaderLengthField(m1)]
    ensures Readable(m2) && HeaderXor(e, m1) == HeaderXor(e, m2)
  {
    WordsOfPrefix(e, m1, m2, 2 * HeaderLengthField(m1));
  }

  /** Folding byte-swapped words gives the byte-swapped fold. */
  lemma {:induction false} XorRowsSwapped(hl: seq<bv16>, hb: seq<bv16>, k: nat)
    requires 2 * k <= |hl| && 2 * k <= |hb|
    requires forall i :: 0 <= i < 2 * k ==> hl[i] == Swap16(hb[i])
    ensures XorRows(hl, k) == Swap16(XorRows(hb, k))
  {
    if k > 0 {
      XorRowsSwapped(hl, hb, k - 1);
      RowStep(hl, k - 1);
      RowStep(hb, k - 1);
      RowSwapped(XorRows(hl, k - 1), hl[2 * k - 2], hl[2 * k - 1],
                 XorRows(hb, k - 1), hb[2 * k - 2], hb[2 * k - 1]);
    }
  }

  /** Byte swapping commutes with folding in one row. */
  lemma RowSwapped(x: bv16, a: bv16, b: bv16, x': bv16, a': bv16, b': bv16)
    requires x == Swap16(x') && a == Swap16(a') && b == Swap16(b')
    ensures (x ^ a) ^ b == Swap16((x' ^ a') ^ b')
  {
  }

  /** A little-endian host reads every word byte-swapped. */
  lemma LoadSwapped(b0: bv8, b1: bv8)
    ensures Load16(LittleEndian, b0, b1) == Swap16(Load16(BigEndian, b0, b1))
  {
  }

  /** Read on a little-endian host, the XOR of the header words is the byte
      swap of the XOR a big-endian host computes over the same bytes. */
  lemma HeaderXorByteOrder(header: seq<bv8>)
    requires Readable(header)
    ensures HeaderXor(LittleEndian, header) == Swap16(HeaderXor(BigEndian, header))
  {
    var n := 2 * HeaderLengthField(header);
    var hl := Words(LittleEndian, header, n);
    var hb := Words(BigEndian, header, n);
    forall i | 0 <= i < n
      ensures hl[i] == Swap16(hb[i])
    {
      LoadSwapped(header[2 * i], header[2 * i + 1]);
    }
    XorRowsSwapped(hl, hb, HeaderLengthField(header));
  }

  /** The value installed in `ip_sum`: `htons` of the checksum truncated to
      16 bits. */
  function ChecksumField(e: Endianness, header: seq<bv8>): bv16
    requires Readable(header)
  {
    Htons(e, !HeaderXor(e, header))
  }

  /** `htons (ip_header_checksum (h))` is the checksum field: `htons` keeps
      the low 16 bits of the returned `unsigned`. */
  lemma ChecksumTruncation(e: Endianness, header: seq<bv8>, c: bv32)
    requires Readable(header) && c == !(HeaderXor(e, header) as bv32)
    ensures Htons(e, (c & 0xFFFF) as bv16) == ChecksumField(e, header)
  {
    TruncatedComplement(HeaderXor(e, header), c);
  }

  /** The low half of the complement of a zero-extended word. */
  lemma TruncatedComplement(x: bv16, c: bv32)
    requires c == !(x as bv32)
    ensures (c & 0xFFFF) as bv16 == !x
  {
    UnsignedComplement(x);
  }

  /** The memory image of `ip_sum` is the complemented XOR in network byte
      order. */
  lemma ChecksumFieldBytes(e: Endianness, header: seq<bv8>)
    requires Readable(header)
    ensures Store16(e, ChecksumField(e, header)) == NetworkBytes16(!HeaderXor(e, header))
  {
    HtonsImage(e, !HeaderXor(e, header));
  }

  /** Both kinds of host install the same `uint16_t` value in `ip_sum`: the
      little-endian host XORs byte-swapped words and `htons` swaps the result
      back. */
  lemma ChecksumFieldByHost(header: seq<bv8>)
    requires Readable(header)
    ensures ChecksumField(LittleEndian, header) == ChecksumField(BigEndian, header)
  {
    HeaderXorByteOrder(header);
    ChecksumFieldsAgree(header);
  }

  /** The two fields agree once the XORs are each other's byte swap. */
  lemma ChecksumFieldsAgree(header: seq<bv8>)
    requires Readable(header)
    requires HeaderXor(LittleEndian, header) == Swap16(HeaderXor(BigEndian, header))
    ensures ChecksumField(LittleEndian, header) == ChecksumField(BigEndian, header)
  {
    ComplementSwap(HeaderXor(BigEndian, header), HeaderXor(LittleEndian, header));
    HtonsArgumentsAgree(header);
  }

  /** The two fields agree once the values given to `htons` do. */
  lemma HtonsArgumentsAgree(header: seq<bv8>)
    requires Readable(header)
    requires Htons(LittleEndian, !HeaderXor(LittleEndian, header))
          == Htons(BigEndian, !HeaderXor(BigEndian, header))
    ensures ChecksumField(LittleEndian, header) == ChecksumField(BigEndian, header)
  {
  }

  /** `htons` on a little-endian host undoes the swap under the complement. */
  lemma ComplementSwap(x: bv16, y: bv16)
    requires y == Swap16(x)
    ensures Htons(LittleEndian, !y) == Htons(BigEndian, !x)
  {
    assert Swap16(!Swap16(x)) == !x;
  }

  /** So the memory image of the field, the two checksum bytes on the wire,
      comes out in opposite orders on the two kinds of host. */
  lemma ChecksumBytesByHost(header: seq<bv8>)
    requires Readable(header)
    ensures Store16(LittleEndian, ChecksumField(LittleEndian, header))
         == [Store16(BigEndian, ChecksumField(BigEndian, header))[1],
             Store16(BigEndian, ChecksumField(BigEndian, header))[0]]
  {
    ChecksumFieldByHost(header);
  }
}
