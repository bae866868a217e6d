/**
 * `file_io_read` of main.c: read a whole stream into one heap buffer that is
 * grown, one chunk at a time, by `realloc`, then shrunk to the bytes read
 * plus a NUL terminator.
 */
module FileIo {
  import opened CTypes
  import opened Libc

  /** `IO_READ_CHUNK_SIZE`: the most bytes one `fread` call asks for (2 MiB). */
  const ChunkSize: nat := 2097152

  /**
   * `struct File`: the buffer, the number of bytes read (the terminator not
   * counted) and the validity flag (the C `int` 1 or 0 is `true` or `false`).
   */
  datatype File = File(data: array?<Byte>, len: SizeT, valid: bool)

  /** The record every failure path returns: `{NULL, 0, 0}`. */
  const Invalid: File := File(null, 0, false)

  /** How a call of `FileIoRead` ended: success, or which failure path it took. */
  datatype Exit =
    | Succeeded
    | StreamAlreadyFailed  // the error indicator was set before any read
    | SizeOverflow         // the grown size does not fit in a size_t
    | GrowFailed           // realloc failed while growing
    | StreamFailed         // the error indicator was set after the loop
    | ShrinkFailed         // realloc failed while shrinking to used + 1

  /**
   * What the loop head decides before each read, for `used` bytes read into
   * a buffer of `size` bytes: read into the buffer as it is, grow it to a new
   * size first, or give up because the size it needs exceeds `SIZE_MAX`.
   */
  datatype Room = HasRoom | Grow(size: SizeT) | SizeWraps

  /** The buffer's size once the loop head has acted on `r`. */
  function Capacity(size: SizeT, r: Room): (c: SizeT)
  {
    if r.Grow? then r.size else size
  }

  /**
   * The loop head: the buffer must hold one more chunk at offset `used` plus
   * a terminator byte. Its arithmetic cannot wrap: the overflow test comes
   * before the sum is formed (see FileIoAsWritten for the test as written).
   */
  function Head(used: SizeT, size: SizeT): (r: Room)
    ensures r.SizeWraps? <==> used + ChunkSize + 1 > SizeMax
    ensures r.Grow? <==> !r.SizeWraps? && size < used + ChunkSize + 1
    ensures !r.SizeWraps? ==> Capacity(size, r) == Max(size, used + ChunkSize + 1)
  {
    if used > SizeMax - ChunkSize - 1 then SizeWraps
    else if used + ChunkSize + 1 > size then Grow(used + ChunkSize + 1)
    else HasRoom
  }

  /**
   * The buffer is reallocated again after every read that delivered bytes,
   * and grows by exactly the bytes delivered: growth is linear, not geometric.
   */
  lemma RegrowsAfterEveryRead(used: SizeT, n: nat)
    requires used + ChunkSize + 1 <= SizeMax
    requires 0 < n <= ChunkSize
    ensures used + n < SizeModulus
    ensures Head(used + n, used + ChunkSize + 1)
         == if used + n + ChunkSize + 1 > SizeMax then SizeWraps else Grow(used + n + ChunkSize + 1)
  {
  }

  function Sum(s: seq<nat>): (total: nat)
  {
    if s == [] then 0 else s[0] + Sum(s[1..])
  }

  /**
   * The counts successive `fread` calls return on an error-free stream with
   * `remaining` bytes left: full chunks, then what is left over if anything,
   * then the 0 that ends the loop.
   */
  function Deliveries(remaining: nat): (counts: seq<nat>)
    decreases remaining
  {
    if remaining == 0 then [0]
    else
      var n := Min(ChunkSize, remaining);
      [n] + Deliveries(remaining - n)
  }

  /** Together the calls deliver every remaining byte. */
  lemma {:induction false} DeliveriesSum(remaining: nat)
    ensures Sum(Deliveries(remaining)) == remaining
    decreases remaining
  {
    if remaining > 0 {
      var n := Min(ChunkSize, remaining);
      DeliveriesSum(remaining - n);
      assert Deliveries(remaining)[1..] == Deliveries(remaining - n);
    }
  }

  /** Every call but the last returns between 1 and a full chunk; the last returns 0. */
  lemma {:induction false} DeliveriesShape(remaining: nat)
    ensures |Deliveries(remaining)| >= 1 && Deliveries(remaining)[|Deliveries(remaining)| - 1] == 0
    ensures forall i :: 0 <= i < |Deliveries(remaining)| - 1 ==> 0 < Deliveries(remaining)[i] <= ChunkSize
    decreases remaining
  {
    if remaining > 0 {
      var n := Min(ChunkSize, remaining);
      var rest := Deliveries(remaining - n);
      DeliveriesShape(remaining - n);
      assert Deliveries(remaining) == [n] + rest;
    }
  }

  /** The loop calls `fread` once per started chunk, and once more for the final 0. */
  lemma {:induction false} DeliveriesCount(remaining: nat)
    ensures |Deliveries(remaining)| == (remaining + ChunkSize - 1) / ChunkSize + 1
    decreases remaining
  {
    if remaining > ChunkSize {
      DeliveriesCount(remaining - ChunkSize);
    }
  }

  /** The edge cases of an empty stream, a stream of exactly one chunk, and one byte more. */
  lemma DeliveriesAtChunkBoundary()
    ensures Deliveries(0) == [0]
    ensures Deliveries(ChunkSize) == [ChunkSize, 0]
    ensures Deliveries(ChunkSize + 1) == [ChunkSize, 1, 0]
  {
  }

  /**
   * One `fread` call keeps the record of counts in step with `Deliveries`:
   * an error-free call returns exactly the next element.
   */
  lemma ReadAdvances(counts: seq<nat>, err: bool, n: nat, total: nat, remaining: nat)
    requires remaining <= total
    requires !err ==> Deliveries(total) == counts + Deliveries(remaining)
    requires !err ==> n == Min(ChunkSize, remaining)
    ensures !err && n == 0 ==> Deliveries(total) == counts + [n]
    ensures !err && n > 0 ==> Deliveries(total) == (counts + [n]) + Deliveries(remaining - n)
  {
  }

  /**
   * The loop head of `file_io_read` together with the growth it orders: on
   * success the buffer has room for one more chunk at offset `used` and a
   * terminator, and keeps its first `used` bytes; on failure the buffer has
   * been freed.
   */
  method MakeRoom(heap: Allocator, data: array?<Byte>, used: SizeT, size: SizeT)
      returns (buf: array?<Byte>, newSize: SizeT, ghost exit: Exit)
    requires data == null <==> size == 0
    requires data == null ==> used == 0
    requires data != null ==> data.Length == size && used < size && data in heap.live
    modifies heap
    ensures exit in {Succeeded, SizeOverflow, GrowFailed}
    ensures exit == Succeeded <==> buf != null
    ensures exit == SizeOverflow <==> Head(used, size).SizeWraps?
    ensures exit == SizeOverflow ==> used + ChunkSize + 1 > SizeMax
    ensures exit == GrowFailed ==> Head(used, size).Grow? && heap.fails == old(heap.fails) + 1
    ensures exit != GrowFailed ==> heap.fails == old(heap.fails)
    ensures exit == Succeeded ==> newSize == Capacity(size, Head(used, size))
    ensures exit == Succeeded ==> (buf == data <==> Head(used, size).HasRoom?)
    ensures exit != Succeeded ==> heap.live == if data == null then old(heap.live) else old(heap.live) - {data}
    ensures exit == Succeeded ==> buf != null && buf.Length == newSize && used + ChunkSize + 1 <= newSize
    ensures exit == Succeeded ==> buf == data || (fresh(buf) && heap.live == (if data == null then old(heap.live) else old(heap.live) - {data}) + {buf})
    ensures exit == Succeeded && buf == data ==> heap.live == old(heap.live)
    ensures exit == Succeeded && data != null ==> buf[..used] == data[..used]
  {
    buf, newSize := data, size;
    match Head(used, size) {
      case SizeWraps =>
        heap.Free(data);
        buf := null;
        exit := SizeOverflow;
      case Grow(s) =>
        newSize := s;
        buf := heap.Realloc(data, newSize);
        if buf == null {
          heap.Free(data);
          exit := GrowFailed;
          return;
        }
        if data != null {
          assert buf[..Min(newSize, data.Length)] == data[..Min(newSize, data.Length)];
        }
        exit := Succeeded;
      case HasRoom =>
        exit := Succeeded;
    }
  }

  /** Bytes read at offset `used` extend the prefix already read from the stream. */
  lemma PrefixGrows(buf: array<Byte>, content: seq<Byte>, used: nat, n: nat, start: nat, before: nat)
    requires used + n <= buf.Length && start + used == before && before + n <= |content|
    requires buf[..used] == content[start..before]
    requires buf[used..used + n] == content[before..before + n]
    ensures buf[..used + n] == content[start..before + n]
  {
    assert buf[..used + n] == buf[..used] + buf[used..used + n];
    assert content[start..before + n] == content[start..before] + content[before..before + n];
  }

  /**
   * Line 230, the `fread` of one chunk at offset `used`, together with what
   * it does to the two records the loop keeps: the bytes read so far, and
   * the counts returned so far against `Deliveries`.
   */
  method ReadChunk(fp: Stream, data: array<Byte>, used: SizeT, ghost start: nat, ghost counts: seq<nat>)
      returns (n: nat, ghost counts': seq<nat>)
    requires fp.Valid() && start + used == fp.pos && used + ChunkSize <= data.Length
    requires data[..used] == fp.content[start..fp.pos]
    requires !fp.err ==> Deliveries(|fp.content| - start) == counts + Deliveries(|fp.content| - fp.pos)
    modifies fp, data
    ensures fp.Valid() && fp.pos == old(fp.pos) + n && n <= ChunkSize
    ensures data[..used + n] == fp.content[start..fp.pos]
    ensures old(fp.err) ==> fp.err
    ensures counts' == counts + [n]
    ensures !fp.err && n == 0 ==> fp.pos == |fp.content| && Deliveries(|fp.content| - start) == counts'
    ensures !fp.err && n > 0 ==> Deliveries(|fp.content| - start) == counts' + Deliveries(|fp.content| - fp.pos)
  {
    ghost var before := fp.pos;
    n := fp.Read(data, used, ChunkSize);
    PrefixGrows(data, fp.content, used, n, start, before);
    ReadAdvances(counts, fp.err, n, |fp.content| - start, |fp.content| - before);
    counts' := counts + [n];
  }

  /**
   * The `while (1)` loop of `file_io_read`: grow, read one chunk at offset
   * `used`, stop at the first read that returns 0. When it stops there, the
   * buffer holds the bytes read so far, which are all the stream had if no
   * error occurred, and `counts` is then exactly `Deliveries`.
   */
  method ReadChunks(fp: Stream, heap: Allocator)
      returns (data: array?<Byte>, used: SizeT, ghost exit: Exit, ghost counts: seq<nat>)
    requires fp.Valid() && !fp.err
    modifies fp, heap
    ensures fp.Valid() && old(fp.pos) <= fp.pos
    ensures exit in {Succeeded, SizeOverflow, GrowFailed}
    ensures exit == Succeeded <==> data != null
    ensures exit != Succeeded ==> heap.live == old(heap.live)
    ensures exit == SizeOverflow ==> |fp.content| - old(fp.pos) > SizeMax - ChunkSize - 1
    ensures exit == GrowFailed ==> heap.fails == old(heap.fails) + 1
    ensures exit != GrowFailed ==> heap.fails == old(heap.fails)
    ensures !fp.err && heap.fails == old(heap.fails)
        ==> (exit == Succeeded <==> |fp.content| - old(fp.pos) <= SizeMax - ChunkSize - 1)
    ensures exit == Succeeded ==> data != null && fresh(data) && used + ChunkSize + 1 <= data.Length <= SizeMax
    ensures exit == Succeeded ==> heap.live == old(heap.live) + {data}
    ensures exit == Succeeded ==> used == fp.pos - old(fp.pos) && data[..used] == fp.content[old(fp.pos)..fp.pos]
    ensures exit == Succeeded && !fp.err ==> fp.pos == |fp.content|
    ensures exit == Succeeded && !fp.err ==> counts == Deliveries(|fp.content| - old(fp.pos))
  {
    counts := [];
    ghost var start := fp.pos;
    data := null;
    used := 0;
    var size: SizeT := 0;
    while true
      invariant fp.Valid() && start <= fp.pos
      invariant used == fp.pos - start
      invariant data == null <==> size == 0
      invariant data == null ==> used == 0
      invariant data != null ==> fresh(data) && data.Length == size && used < size
      invariant data != null ==> data[..used] == fp.content[start..fp.pos]
      invariant heap.live == if data == null then old(heap.live) else old(heap.live) + {data}
      invariant heap.fails == old(heap.fails)
      invariant !fp.err ==> Deliveries(|fp.content| - start) == counts + Deliveries(|fp.content| - fp.pos)
      decreases |fp.content| - fp.pos
    {
      ghost var was := data;
      data, size, exit := MakeRoom(heap, data, used, size);
      if data == null {
        return;
      }
      assert data[..used] == fp.content[start..fp.pos] by {
        if was != null { assert data[..used] == was[..used]; }
      }
      var n;
      n, counts := ReadChunk(fp, data, used, start, counts);
      if n == 0 {
        exit := Succeeded;
        return;
      }
      used := used + n;
    }
  }

  /**
   * `file_io_read` on an already opened stream `fp`. On success the result
   * holds the rest of the stream followed by a 0 byte, in a block of exactly
   * that size, and that block is the only one left allocated. Every failure
   * returns `Invalid` and leaves nothing allocated. `exit` names the path
   * taken; `counts` lists what each `fread` call returned.
   */
  method FileIoRead(fp: Stream, heap: Allocator) returns (file: File, ghost exit: Exit, ghost counts: seq<nat>)
    requires fp.Valid()
    modifies fp, heap
    ensures fp.Valid()
    ensures file.valid <==> exit == Succeeded
    ensures !file.valid ==> file == Invalid && heap.live == old(heap.live)
    ensures file.valid ==> file.data != null && fresh(file.data) && heap.live == old(heap.live) + {file.data}
    ensures file.valid ==> file.len == |fp.content| - old(fp.pos)
    ensures file.valid ==> file.data[..] == fp.content[old(fp.pos)..] + [0]
    ensures file.valid ==> !fp.err && fp.pos == |fp.content|
    ensures file.valid ==> counts == Deliveries(|fp.content| - old(fp.pos))
    ensures exit == StreamAlreadyFailed <==> old(fp.err)
    ensures exit == StreamFailed ==> fp.err
    ensures exit == SizeOverflow ==> |fp.content| - old(fp.pos) > SizeMax - ChunkSize - 1
    ensures exit in {GrowFailed, ShrinkFailed} ==> heap.fails == old(heap.fails) + 1
    ensures exit !in {GrowFailed, ShrinkFailed} ==> heap.fails == old(heap.fails)
    ensures !old(fp.err) && !fp.err && heap.fails == old(heap.fails)
        ==> (file.valid <==> |fp.content| - old(fp.pos) <= SizeMax - ChunkSize - 1)
  {
    file := Invalid;
    counts := [];
    if fp.err {
      exit := StreamAlreadyFailed;
      return;
    }
    var data, used;
    data, used, exit, counts := ReadChunks(fp, heap);
    if data == null {
      return;
    }
    if fp.err {
      heap.Free(data);
      exit := StreamFailed;
      return;
    }
    var tmp := heap.Realloc(data, used + 1);
    if tmp == null {
      heap.Free(data);
      exit := ShrinkFailed;
      return;
    }
    assert tmp[..used] == data[..used] by {
      assert tmp[..Min(used + 1, data.Length)] == data[..Min(used + 1, data.Length)];
    }
    data := tmp;
    data[used] := 0;
    assert data[..] == data[..used] + [0];
    file := File(data, used, true);
    exit := Succeeded;
  }
}
