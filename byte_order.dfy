/** How the sending host lays out 16- and 32-bit integers in memory, and the
    htons/ntohs conversions between host and network byte order. The header
    structs of the sender hold host values; what goes on the wire is their
    memory image, so every layout below is parameterised by the host's byte
    order. */
module ByteOrder {

  /** The byte order of the host the sender runs on. */
  datatype Endianness = LittleEndian | BigEndian

  /** The two bytes of `w` in network byte order (most significant first). */
  function NetworkBytes16(w: bv16): seq<bv8>
  {
    [(w >> 8) as bv8, (w & 0xFF) as bv8]
  }

  /** `w` with its two bytes exchanged. */
  function Swap16(w: bv16): bv16
  {
    (w << 8) | (w >> 8)
  }

  /** The value a host reads as a `uint16_t` from the bytes `b0` (lower
      address) and `b1`. */
  function Load16(e: Endianness, b0: bv8, b1: bv8): bv16
  {
    match e
    case BigEndian => ((b0 as bv16) << 8) | (b1 as bv16)
    case LittleEndian => ((b1 as bv16) << 8) | (b0 as bv16)
  }

  /** The two memory bytes in which a host stores the `uint16_t` `w`. */
  function Store16(e: Endianness, w: bv16): (bs: seq<bv8>)
    ensures |bs| == 2
  {
    if e == BigEndian then NetworkBytes16(w) else [NetworkBytes16(w)[1], NetworkBytes16(w)[0]]
  }

  /** The value a host reads as a `uint32_t` from four consecutive bytes. */
  function Load32(e: Endianness, bs: seq<bv8>): bv32
    requires |bs| == 4
  {
    match e
    case BigEndian =>
      ((bs[0] as bv32) << 24) | ((bs[1] as bv32) << 16) | ((bs[2] as bv32) << 8) | (bs[3] as bv32)
    case LittleEndian =>
      ((bs[3] as bv32) << 24) | ((bs[2] as bv32) << 16) | ((bs[1] as bv32) << 8) | (bs[0] as bv32)
  }

  /** The four memory bytes in which a host stores the `uint32_t` `v`. */
  function Store32(e: Endianness, v: bv32): (bs: seq<bv8>)
    ensures |bs| == 4
  {
    match e
    case BigEndian =>
      [(v >> 24) as bv8, ((v >> 16) & 0xFF) as bv8, ((v >> 8) & 0xFF) as bv8, (v & 0xFF) as bv8]
    case LittleEndian =>
      [(v & 0xFF) as bv8, ((v >> 8) & 0xFF) as bv8, ((v >> 16) & 0xFF) as bv8, (v >> 24) as bv8]
  }

  /** ntohs: the host value of a field that holds `n` in network byte order. */
  function Ntohs(e: Endianness, n: bv16): bv16
  {
    if e == BigEndian then n else Swap16(n)
  }

  /** htons: the host value whose memory image is `w` in network byte order. */
  function Htons(e: Endianness, w: bv16): bv16
  {
    if e == BigEndian then w else Swap16(w)
  }

  /** Reading back what was stored gives the stored value, on either host. */
  lemma Load16Store16(e: Endianness, w: bv16)
    ensures Load16(e, Store16(e, w)[0], Store16(e, w)[1]) == w
  {
    var bs := Store16(e, w);
    if e == BigEndian {
      assert bs == [(w >> 8) as bv8, (w & 0xFF) as bv8];
    } else {
      assert bs == [(w & 0xFF) as bv8, (w >> 8) as bv8];
    }
    ComposeBytes16(w);
  }

  /** The high and low byte of `w` put back together give `w`. */
  lemma ComposeBytes16(w: bv16)
    ensures ((((w >> 8) as bv8) as bv16) << 8) | (((w & 0xFF) as bv8) as bv16) == w
  {
  }

  lemma Load32Store32(e: Endianness, v: bv32)
    ensures Load32(e, Store32(e, v)) == v
  {
    var bs := Store32(e, v);
    ComposeBytes32(v);
    if e == BigEndian {
      assert bs == [(v >> 24) as bv8, ((v >> 16) & 0xFF) as bv8, ((v >> 8) & 0xFF) as bv8, (v & 0xFF) as bv8];
    } else {
      assert bs == [(v & 0xFF) as bv8, ((v >> 8) & 0xFF) as bv8, ((v >> 16) & 0xFF) as bv8, (v >> 24) as bv8];
    }
  }

  /** The four bytes of `v` put back together give `v`. */
  lemma ComposeBytes32(v: bv32)
    ensures ((((v >> 24) as bv8) as bv32) << 24) | (((((v >> 16) & 0xFF) as bv8) as bv32) << 16)
          | (((((v >> 8) & 0xFF) as bv8) as bv32) << 8) | (((v & 0xFF) as bv8) as bv32) == v
  {
  }

  /** The memory image of `htons(w)` is `w` in network byte order. */
  lemma HtonsImage(e: Endianness, w: bv16)
    ensures Store16(e, Htons(e, w)) == NetworkBytes16(w)
  {
    if e == LittleEndian {
      SwapBytes(w);
    }
  }

  /** `ntohs` undoes `htons`. */
  lemma NtohsHtons(e: Endianness, w: bv16)
    ensures Ntohs(e, Htons(e, w)) == w
  {
    if e == LittleEndian {
      SwapSwap(w);
    }
  }

  /** The low byte of `Swap16(w)` is the high byte of `w`, and vice versa. */
  lemma SwapBytes(w: bv16)
    ensures (Swap16(w) & 0xFF) as bv8 == (w >> 8) as bv8
    ensures (Swap16(w) >> 8) as bv8 == (w & 0xFF) as bv8
  {
  }

  /** Swapping twice restores the word. */
  lemma SwapSwap(w: bv16)
    ensures Swap16(Swap16(w)) == w
  {
  }
}
