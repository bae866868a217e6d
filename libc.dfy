/**
 * The three library services `file_io_read` relies on, reduced to what the
 * C standard promises about them: `fread` and `ferror` on an open stream, and
 * `realloc` and `free` on the heap. Where the standard lets the library fail
 * (a read error, an allocation that cannot be satisfied) the model chooses
 * nondeterministically, so every proof about a caller covers every outcome.
 */
module Libc {
  import opened CTypes

  /**
   * A `FILE *` opened for binary reading: the whole content of the stream,
   * its read position (so `content[pos..]` is what is left to deliver), and
   * the sticky error indicator that `ferror` reports.
   */
  class Stream {
    const content: seq<Byte>
    var pos: nat
    var err: bool

    ghost predicate Valid()
      reads this
    {
      pos <= |content|
    }

    /**
     * `fread(buf + offset, 1, count, stream)`: copies the next bytes of the
     * stream into `buf[offset..]` and returns how many it copied. Without an
     * error it copies `count` bytes, or all that are left if fewer; an error
     * sets the error indicator, and then any shorter prefix may have been
     * copied. Nothing outside the copied range changes.
     */
    method Read(buf: array<Byte>, offset: nat, count: nat) returns (n: nat)
      requires Valid()
      requires offset + count <= buf.Length
      modifies this, buf
      ensures Valid()
      ensures n <= Min(count, |content| - old(pos))
      ensures pos == old(pos) + n
      ensures buf[offset..offset + n] == content[old(pos)..pos]
      ensures buf[..offset] == old(buf[..offset])
      ensures buf[offset + n..] == old(buf[offset + n..])
      ensures old(err) ==> err
      ensures !err ==> n == Min(count, |content| - old(pos))
    {
      var avail := Min(count, |content| - pos);
      var fault: bool :| true;
      if fault {
        n :| 0 <= n <= avail;
        err := true;
      } else {
        n := avail;
      }
      var i := 0;
      while i < n
        modifies buf
        invariant 0 <= i <= n
        invariant forall j :: offset <= j < offset + i ==> buf[j] == content[pos + (j - offset)]
        invariant forall j :: 0 <= j < buf.Length && !(offset <= j < offset + i) ==> buf[j] == old(buf[j])
      {
        buf[offset + i] := content[pos + i];
        i := i + 1;
      }
      assert buf[offset..offset + n] == content[pos..pos + n];
      pos := pos + n;
    }
  }

  /**
   * The C heap as `realloc` and `free` see it: the set of blocks that are
   * allocated and not yet released, and how many requests it has refused.
   */
  class Allocator {
    ghost var live: set<array<Byte>>
    ghost var fails: nat

    /**
     * `realloc(p, n)`: on success a block of exactly `n` bytes whose first
     * bytes, as many as both blocks hold, are those of `p`; `p` itself is
     * released. On failure it returns null and leaves `p` allocated and
     * untouched. `realloc(NULL, n)` behaves as `malloc(n)`.
     */
    method Realloc(p: array?<Byte>, n: SizeT) returns (q: array?<Byte>)
      requires p != null ==> p in live
      modifies this
      ensures q == null ==> live == old(live) && fails == old(fails) + 1
      ensures q != null ==> fails == old(fails)
      ensures q != null ==> fresh(q) && q.Length == n
      ensures q != null ==> live == (if p == null then old(live) else old(live) - {p}) + {q}
      ensures q != null && p != null ==> q[..Min(n, p.Length)] == p[..Min(n, p.Length)]
    {
      var refused: bool :| true;
      if refused {
        fails := fails + 1;
        q := null;
        return;
      }
      var b := new Byte[n];
      if p != null {
        var keep := Min(n, p.Length);
        var i := 0;
        while i < keep
          modifies b
          invariant 0 <= i <= keep
          invariant b[..i] == p[..i]
        {
          b[i] := p[i];
          i := i + 1;
        }
        live := live - {p};
      }
      live := live + {b};
      q := b;
    }

    /** `free(p)`: releases `p`; `free(NULL)` does nothing. */
    method Free(p: array?<Byte>)
      requires p != null ==> p in live
      modifies this
      ensures live == if p == null then old(live) else old(live) - {p}
      ensures fails == old(fails)
    {
      if p != null {
        live := live - {p};
      }
    }
  }
}
