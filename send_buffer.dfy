/** The sender's static send buffer, used where the datagram is assembled
    in one piece before `sendto`: the buffer `msgbuf`, its size `msgbuflen`
    and the size `next_alloc_size` the next allocation will have. A call
    that needs more room than the buffer has frees it, doubles
    `next_alloc_size` until the datagram fits and allocates that much.

    Two versions of the reservation step are given: `ReserveAsWritten`
    follows the code as written and is what the class `SendBuffer` and the
    sender implement; `ReserveChecked` is the corrected step, stated on
    values, that the two findings in the README measure the code against. */
module StaticBuffer {

  /** `MAX_IP_DATAGRAM_SIZE`. */
  const MaxIpDatagramSize := 65535

  /** `n` is 1, 2, 4, 8, ... */
  predicate IsPowerOfTwo(n: nat)
  {
    n == 1 || (n >= 2 && n % 2 == 0 && IsPowerOfTwo(n / 2))
  }

  /** `while (next_alloc_size < length) next_alloc_size *= 2;`: the first
      of `next`, `2 * next`, `4 * next`, ... that is at least `length`. */
  function GrowTo(next: nat, length: int): (r: nat)
    requires next >= 1
    ensures r >= next && r >= length
    ensures r > next ==> r < 2 * length
    ensures IsPowerOfTwo(next) ==> IsPowerOfTwo(r)
    decreases if length > next then length - next else 0
  {
    if next < length then GrowTo(2 * next, length) else next
  }

  /** The three static variables: whether `msgbuf` points at an allocated
      buffer (rather than being null), `msgbuflen` and `next_alloc_size`. */
  datatype BufState = BufState(hasBuffer: bool, msgbuflen: nat, nextAllocSize: nat)

  /** Their values before the first call. */
  const Initial := BufState(false, 0, 1)

  /** The outcome of a reservation: the new state, and whether the sender
      goes on to build and send the datagram (`false` is `return -1`). */
  datatype Reserved = Reserved(state: BufState, ok: bool)

  /** The states the corrected step keeps: a buffer is held exactly when
      `msgbuflen` is positive, sizes are powers of two, and a held buffer of
      size `n` is followed by an allocation of `2 * n`. */
  predicate Inv(st: BufState)
  {
    && IsPowerOfTwo(st.nextAllocSize)
    && (st.hasBuffer <==> st.msgbuflen > 0)
    && (st.hasBuffer ==> IsPowerOfTwo(st.msgbuflen) && st.nextAllocSize == 2 * st.msgbuflen)
  }

  lemma InitialInv()
    ensures Inv(Initial) && AsWrittenInv(Initial)
  {
  }

  /** The states the code as written keeps: `next_alloc_size` is a power of
      two, `msgbuflen` is 0 or a power of two below it, and a held buffer of
      size `n` is followed by an allocation of `2 * n`. Unlike `Inv` it
      admits a null buffer with a nonzero `msgbuflen`, which a failed
      `malloc` leaves behind. */
  predicate AsWrittenInv(st: BufState)
  {
    && IsPowerOfTwo(st.nextAllocSize)
    && (st.msgbuflen == 0 || IsPowerOfTwo(st.msgbuflen))
    && st.msgbuflen < st.nextAllocSize
    && (st.hasBuffer ==> st.nextAllocSize == 2 * st.msgbuflen)
  }

  /** The reservation step as the code is written. A failed `malloc`
      leaves `msgbuf` null (the old buffer was already freed) but keeps
      the old `msgbuflen`; the size limit is looked at only when the buffer
      has to grow. */
  function ReserveAsWritten(st: BufState, length: int, mallocOk: bool): (r: Reserved)
    requires st.nextAllocSize >= 1
    ensures r.state.nextAllocSize >= 1
  {
    if length > st.msgbuflen then
      if length > MaxIpDatagramSize then Reserved(st, false)
      else if !mallocOk then
        Reserved(BufState(false, st.msgbuflen, GrowTo(st.nextAllocSize, length)), false)
      else
        Reserved(BufState(true, GrowTo(st.nextAllocSize, length), 2 * GrowTo(st.nextAllocSize, length)), true)
    else Reserved(st, true)
  }

  /** The corrected step: a datagram over the IP size limit is refused
      whatever the buffer holds, and after a failed `malloc` the state
      records that no buffer is held. */
  function ReserveChecked(st: BufState, length: int, mallocOk: bool): (r: Reserved)
    requires st.nextAllocSize >= 1
    ensures r.state.nextAllocSize >= 1
  {
    if length > MaxIpDatagramSize then Reserved(st, false)
    else if length > st.msgbuflen then
      if !mallocOk then
        Reserved(BufState(false, 0, GrowTo(st.nextAllocSize, length)), false)
      else
        Reserved(BufState(true, GrowTo(st.nextAllocSize, length), 2 * GrowTo(st.nextAllocSize, length)), true)
    else Reserved(st, true)
  }

  /** As written, a call is refused exactly when the buffer must grow and
      either the datagram is over the limit or `malloc` fails. */
  lemma AsWrittenRefusal(st: BufState, length: int, mallocOk: bool)
    requires st.nextAllocSize >= 1
    ensures !ReserveAsWritten(st, length, mallocOk).ok
        <==> length > st.msgbuflen && (length > MaxIpDatagramSize || !mallocOk)
    ensures length > st.msgbuflen && length > MaxIpDatagramSize
        ==> ReserveAsWritten(st, length, mallocOk).state == st
  {
  }

  /** As written, the step keeps `AsWrittenInv`: sizes stay powers of
      two. */
  lemma AsWrittenKeepsInv(st: BufState, length: int, mallocOk: bool)
    requires AsWrittenInv(st)
    ensures AsWrittenInv(ReserveAsWritten(st, length, mallocOk).state)
  {
  }

  /** As written, an accepted call has `msgbuflen >= length`, and it is
      accepted with no buffer exactly when no buffer was held and the
      datagram fits the recorded size, so that the copies go to a null
      `msgbuf`. */
  lemma AsWrittenAccepted(st: BufState, length: int, mallocOk: bool)
    requires st.nextAllocSize >= 1
    ensures ReserveAsWritten(st, length, mallocOk).ok
        ==> length <= ReserveAsWritten(st, length, mallocOk).state.msgbuflen
    ensures (ReserveAsWritten(st, length, mallocOk).ok
             && !ReserveAsWritten(st, length, mallocOk).state.hasBuffer)
        <==> (!st.hasBuffer && length <= st.msgbuflen)
  {
  }

  /** As written, `msgbuflen` never decreases. */
  lemma AsWrittenNeverShrinks(st: BufState, length: int, mallocOk: bool)
    requires st.nextAllocSize >= 1
    ensures ReserveAsWritten(st, length, mallocOk).state.msgbuflen >= st.msgbuflen
  {
  }

  /** After a successful grow the buffer holds the datagram, its size is
      the least doubling of `next_alloc_size` that does, and the next
      allocation is twice as large. */
  lemma AsWrittenGrowth(st: BufState, length: int)
    requires IsPowerOfTwo(st.nextAllocSize)
    requires st.msgbuflen < length <= MaxIpDatagramSize
    ensures ReserveAsWritten(st, length, true).state.hasBuffer
    ensures length <= ReserveAsWritten(st, length, true).state.msgbuflen
    ensures IsPowerOfTwo(ReserveAsWritten(st, length, true).state.msgbuflen)
    ensures ReserveAsWritten(st, length, true).state.msgbuflen > st.nextAllocSize
        ==> ReserveAsWritten(st, length, true).state.msgbuflen < 2 * length
    ensures ReserveAsWritten(st, length, true).state.nextAllocSize
         == 2 * ReserveAsWritten(st, length, true).state.msgbuflen
  {
  }

  /** Finding: once a 40000-byte datagram has grown the buffer to 65536
      bytes, a datagram of 65536 bytes, one over the limit, is accepted,
      because the limit is checked only when the buffer must grow. */
  lemma GuardBypassedAtFullBuffer()
    ensures ReserveAsWritten(Initial, 40000, true).state == BufState(true, 65536, 131072)
    ensures ReserveAsWritten(BufState(true, 65536, 131072), 65536, true).ok
  {
    assert GrowTo(1, 40000) == GrowTo(256, 40000);
    assert GrowTo(256, 40000) == 65536;
  }

  /** Finding: a failed `malloc` leaves `msgbuf` null but keeps
      `msgbuflen`, so the next call that fits the old size is accepted with
      no buffer to copy the datagram into. */
  lemma NullBufferAfterFailedMalloc()
    ensures ReserveAsWritten(Initial, 100, true) == Reserved(BufState(true, 128, 256), true)
    ensures ReserveAsWritten(BufState(true, 128, 256), 200, false)
         == Reserved(BufState(false, 128, 256), false)
    ensures ReserveAsWritten(BufState(false, 128, 256), 100, true).ok
    ensures !ReserveAsWritten(BufState(false, 128, 256), 100, true).state.hasBuffer
  {
    assert GrowTo(1, 100) == 128;
  }

  /** Corrected: a call is refused exactly when the datagram is over the
      limit, or when the buffer must grow and `malloc` fails. */
  lemma CheckedRefusal(st: BufState, length: int, mallocOk: bool)
    requires st.nextAllocSize >= 1
    ensures !ReserveChecked(st, length, mallocOk).ok
        <==> length > MaxIpDatagramSize || (length > st.msgbuflen && !mallocOk)
    ensures length > MaxIpDatagramSize ==> ReserveChecked(st, length, mallocOk).state == st
  {
  }

  /** The corrected step keeps `Inv`. */
  lemma CheckedKeepsInv(st: BufState, length: int, mallocOk: bool)
    requires Inv(st)
    ensures Inv(ReserveChecked(st, length, mallocOk).state)
  {
  }

  /** Corrected: an accepted datagram is within the limit and fits a buffer
      that is really there; an accepted call never shrinks the buffer. */
  lemma CheckedSafe(st: BufState, length: int, mallocOk: bool)
    requires Inv(st)
    requires ReserveChecked(st, length, mallocOk).ok
    ensures length <= MaxIpDatagramSize
    ensures ReserveChecked(st, length, mallocOk).state.hasBuffer || length <= 0
    ensures length <= ReserveChecked(st, length, mallocOk).state.msgbuflen
    ensures ReserveChecked(st, length, mallocOk).state.msgbuflen >= st.msgbuflen
  {
  }

  /** Within the limit and from a state `Inv` describes, the corrected step
      does what the code as written does. */
  lemma CheckedAgreesWithAsWritten(st: BufState, length: int, mallocOk: bool)
    requires Inv(st) && length <= MaxIpDatagramSize
    ensures ReserveChecked(st, length, mallocOk).ok == ReserveAsWritten(st, length, mallocOk).ok
    ensures ReserveChecked(st, length, mallocOk).ok
        ==> ReserveChecked(st, length, mallocOk).state == ReserveAsWritten(st, length, mallocOk).state
  {
  }

  /** The static buffer itself. `msgbuf` is null or an array of
      `msgbuflen` bytes. */
  class SendBuffer {
    var msgbuf: array?<bv8>
    var msgbuflen: nat
    var nextAllocSize: nat

    /** The three static variables as a value. */
    function State(): (st: BufState)
      reads this
      ensures st.msgbuflen == msgbuflen && st.nextAllocSize == nextAllocSize
      ensures st.hasBuffer <==> msgbuf != null
    {
      BufState(msgbuf != null, msgbuflen, nextAllocSize)
    }

    /** The static variables are in a state the code reaches, and a
        buffer that is held has `msgbuflen` bytes. */
    ghost predicate Valid()
      reads this
    {
      AsWrittenInv(State()) && (msgbuf != null ==> msgbuf.Length == msgbuflen)
    }

    /** The static initialisers: no buffer, size 0, first allocation 1. */
    constructor ()
      ensures Valid() && State() == Initial
    {
      msgbuf := null;
      msgbuflen := 0;
      nextAllocSize := 1;
    }

    /** The reservation step as written, in place. `mallocOk` says
        whether `malloc` returns memory; `free` is dropping the array. */
    method Reserve(length: int, mallocOk: bool) returns (ok: bool)
      requires Valid()
      modifies this
      ensures Valid()
      ensures Reserved(State(), ok) == ReserveAsWritten(old(State()), length, mallocOk)
      ensures ok ==> length <= msgbuflen
      ensures ok && msgbuf != null ==> length <= msgbuf.Length
      ensures msgbuf != null ==> msgbuf == old(msgbuf) || fresh(msgbuf)
      ensures length <= old(msgbuflen) || length > MaxIpDatagramSize ==> msgbuf == old(msgbuf)
    {
      if length > msgbuflen {
        if length > MaxIpDatagramSize {
          return false;
        }
        msgbuf := null;
        Grow(length);
        if !mallocOk {
          return false;
        }
        msgbuf := new bv8[nextAllocSize];
        msgbuflen := nextAllocSize;
        nextAllocSize := nextAllocSize * 2;
      }
      return true;
    }

    /** Doubling `next_alloc_size` until the datagram fits. */
    method Grow(length: int)
      requires nextAllocSize >= 1
      modifies this
      ensures nextAllocSize == GrowTo(old(nextAllocSize), length)
      ensures msgbuf == old(msgbuf) && msgbuflen == old(msgbuflen)
    {
      while nextAllocSize < length
        invariant nextAllocSize >= 1
        invariant GrowTo(nextAllocSize, length) == GrowTo(old(nextAllocSize), length)
        invariant msgbuf == old(msgbuf) && msgbuflen == old(msgbuflen)
        decreases length - nextAllocSize
      {
        nextAllocSize := nextAllocSize * 2;
      }
    }
  }
}
