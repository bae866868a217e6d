/**
 * The loop head of `file_io_read` exactly as main.c:215-221 evaluates it, in
 * wrapping `size_t` arithmetic, and what that evaluation does in the one
 * case where it differs from `FileIo.Head`: the sum `used + chunk + 1` wraps.
 * Then the test at line 215 is false and the guard at line 218 is never
 * reached: the buffer is not grown, and the next `fread` writes past its end
 * whenever the stream still has more bytes than the room left in it.
 */
module FileIoAsWritten {
  import opened CTypes
  import opened FileIo

  /** Lines 215-221: compare the wrapped sum with `size`, and call a wrapped sum no larger than `used` an overflow. */
  function HeadAsWritten(used: SizeT, size: SizeT): (r: Room)
    ensures used + ChunkSize + 1 <= SizeMax ==> r == Head(used, size)
  {
    var need := Wrap(used + ChunkSize + 1);
    if need > size then
      if need <= used then SizeWraps else Grow(need)
    else HasRoom
  }

  /**
   * One pass of the loop as written when `realloc` succeeds and `fread`
   * returns `n`: the new `used` (line 234, wrapping) and the new `size`.
   */
  function StepAsWritten(used: SizeT, size: SizeT, n: nat): (r: (SizeT, SizeT))
    ensures used + ChunkSize + 1 <= SizeMax && n <= ChunkSize ==> r == (used + n, Capacity(size, Head(used, size)))
  {
    // The `SizeWraps` arm stands for the return at line 220; GuardNeverFires
    // shows that no run of the code as written reaches it.
    match HeadAsWritten(used, size)
    case SizeWraps => (used, size)
    case Grow(s) => (Wrap(used + n), s)
    case HasRoom => (Wrap(used + n), size)
  }

  /**
   * What holds of `used` and `size` at the loop head in every run of the
   * code as written: both are still 0, or the buffer is larger than a chunk.
   */
  ghost predicate HeadState(used: SizeT, size: SizeT)
  {
    (used == 0 && size == 0) || ChunkSize < size
  }

  /** HeadState holds on entry (line 210-211) and is kept by every pass that reads at most a chunk. */
  lemma StepKeepsHeadState(used: SizeT, size: SizeT, n: nat)
    requires HeadState(used, size)
    requires n <= ChunkSize
    ensures HeadState(0, 0)
    ensures var (u, s) := StepAsWritten(used, size, n); HeadState(u, s)
  {
  }

  /**
   * In every reachable state the guard at line 218 is false: a wrapped sum
   * is at most a chunk, smaller than any buffer already allocated, so line
   * 215 never asks for growth when the sum wraps.
   */
  lemma GuardNeverFires(used: SizeT, size: SizeT)
    requires HeadState(used, size)
    ensures HeadAsWritten(used, size) != SizeWraps
  {
  }

  /** After the head has acted on `r`, an `fread` at line 230 that returns `n` writes only inside the buffer. */
  ghost predicate ReadInBounds(used: SizeT, size: SizeT, r: Room, n: nat)
  {
    used + n <= Capacity(size, r)
  }

  /** Whenever the sum does not wrap, the head as written leaves room for any read, as the corrected one always does. */
  lemma ReadInBoundsUnlessWrapped(used: SizeT, size: SizeT, n: nat)
    requires used + ChunkSize + 1 <= SizeMax
    requires n <= ChunkSize
    ensures ReadInBounds(used, size, HeadAsWritten(used, size), n)
  {
  }

  /**
   * Where the two heads part: once `used` is so large that the sum no longer
   * fits, the corrected head fails. The head as written orders no growth,
   * although the buffer no longer holds a chunk and the terminator, and it
   * goes on ordering none for every later `used` up to the end of the buffer;
   * so reads that deliver no more than the room left never make it grow.
   */
  lemma HeadsPartInWrapZone(used: SizeT, size: SizeT)
    requires HeadState(used, size) && used <= size
    requires used + ChunkSize + 1 > SizeMax
    ensures Head(used, size) == SizeWraps
    ensures !ReadInBounds(used, size, HasRoom, ChunkSize + 1)
    ensures forall u: SizeT :: used <= u <= size ==> HeadAsWritten(u, size) == HasRoom
  {
  }

  /** The number of full chunks after which `used + chunk + 1` wraps: 2^43. */
  const ChunksToWrap: nat := SizeModulus / ChunkSize

  /** The loop head state after `k` passes in which every `fread` returned a full chunk. */
  function RunFull(k: nat): (r: (SizeT, SizeT))
    ensures HeadState(r.0, r.1)
  {
    if k == 0 then (0, 0)
    else
      var (u, s) := RunFull(k - 1);
      StepKeepsHeadState(u, s, ChunkSize);
      StepAsWritten(u, s, ChunkSize)
  }

  /** Before the wrap, each pass grows the buffer to `used + chunk + 1` and fills one chunk. */
  lemma {:induction false} RunFullState(k: nat)
    requires 1 <= k < ChunksToWrap
    ensures RunFull(k) == (k * ChunkSize, k * ChunkSize + 1)
  {
    if k > 1 {
      RunFullState(k - 1);
    }
  }

  /**
   * The overrun: after 2^43 - 1 full chunks `used` is 2^64 - 2^21 and the
   * buffer holds 2^64 - 2^21 + 1 bytes, one byte of room. The wrapped sum is
   * 1, so no growth is ordered (the corrected head fails here instead). The
   * next read fits if it returns at most 1 byte; any larger read writes past
   * the end of the buffer, a full chunk by 2^21 - 1 bytes, and `used` then
   * wraps to 0.
   */
  lemma ChunkOverrun()
    ensures RunFull(ChunksToWrap - 1) == (SizeModulus - ChunkSize, SizeModulus - ChunkSize + 1)
    ensures HeadAsWritten(SizeModulus - ChunkSize, SizeModulus - ChunkSize + 1) == HasRoom
    ensures Head(SizeModulus - ChunkSize, SizeModulus - ChunkSize + 1) == SizeWraps
    ensures ReadInBounds(SizeModulus - ChunkSize, SizeModulus - ChunkSize + 1, HasRoom, 1)
    ensures !ReadInBounds(SizeModulus - ChunkSize, SizeModulus - ChunkSize + 1, HasRoom, 2)
    ensures StepAsWritten(SizeModulus - ChunkSize, SizeModulus - ChunkSize + 1, ChunkSize).0 == 0
  {
    assert ChunksToWrap == 0x800_0000_0000;
    RunFullState(ChunksToWrap - 1);
    assert Wrap(SizeModulus - ChunkSize + ChunkSize + 1) == 1;
    assert Wrap(SizeModulus - ChunkSize + ChunkSize) == 0;
  }
}
