# Whole-file reader of an OpenGL bootstrap, modelled in Dafny

The program is a small SDL2/OpenGL demo. Its one piece of logic that does
not just call a library is `file_io_read` (main.c:199-256). That function
reads a whole stream into one heap buffer. Before every `fread` it makes sure
(except when the sum it computes wraps; see Findings) that the buffer can
take one more chunk of `IO_READ_CHUNK_SIZE` (2 MiB) bytes plus a
terminator, growing it with `realloc`. It stops at the first read that returns
0. It then shrinks the buffer to `used + 1` bytes and writes a NUL at index
`used`. Every failure returns the record `{NULL, 0, 0}` after freeing the buffer.

The model has four modules:

- `CTypes` (c_types.dfy): `size_t` as an integer below 2^64, with `Wrap`
  for its modular arithmetic. The target is assumed to be LP64. `char` is an
  8-bit byte.
- `Libc` (libc.dfy): the library as the C standard describes it.
  - `Stream` is a `FILE *`: its content, read position and error indicator.
    `Stream.Read` is `fread`.
  - `Allocator` is the heap, seen as the ghost set of live blocks and a
    ghost count of the requests it has refused.
    `Allocator.Realloc` and `Allocator.Free` are `realloc` and `free`.
  - Where the standard lets a call fail, the model chooses nondeterministically.
- `FileIo` (file_io.dfy): the `File` record, the loop head `Head`, the
  reference sequence of read counts `Deliveries`, and the reader itself. The
  reader is split into `MakeRoom` (lines 215-229), `ReadChunk` (line 230),
  `ReadChunks` (the loop, lines 207-235) and `FileIoRead` (the whole
  function). The loop works in
  place on an `array<bv8>` with `used` and `size` counters. It terminates
  because each non-zero read moves the stream forward.
- `FileIoAsWritten` (file_io_as_written.dfy): lines 215-221 evaluated in
  wrapping `size_t` arithmetic. It shows that the overflow guard can never
  fire (see Findings).

The `File` record of main.c:27-31 is `FileIo.File`, the record `{NULL, 0, 0}`
built at main.c:200 is `FileIo.Invalid`, and `IO_READ_CHUNK_SIZE` of
main.c:49 is `FileIo.ChunkSize`.

`FileIoRead` uses the corrected loop head `FileIo.Head`, which checks
`used > SIZE_MAX - IO_READ_CHUNK_SIZE - 1` before it forms the sum. It agrees
with the code as written whenever that sum fits in a `size_t`
(`FileIoAsWritten.HeadAsWritten` proves this in its postcondition).

I/O is replaced by parameters: the stream is passed in already opened,
and the allocator is passed in as an object.

## Model

| member | source | states |
|---|---|---|
| `CTypes.Wrap` | main.c:215-216 | a `size_t` sum is the exact sum below 2^64 and the sum minus 2^64 from 2^64 up to 2^65 |
| `Libc.Stream.Read` | main.c:230 | `fread` copies the next `min(count, remaining)` stream bytes to `buf[offset..]` and advances the position by the count returned. On error it sets the sticky indicator, and any shorter prefix may have been copied. Bytes outside the copied range are unchanged |
| `Libc.Allocator.Realloc` | main.c:223-228 | on success the new block has exactly the requested size and keeps the old block's leading bytes (as many as both hold). The old block is released and the new one is live. On failure it returns null, the live blocks stay as they were, and the refusal count goes up by one; on success that count is unchanged |
| `Libc.Allocator.Free` | main.c:218-220 | releases the block; `free(NULL)` does nothing |
| `FileIo.Head` | main.c:215-221 | the head reports overflow exactly when `used + chunk + 1` exceeds `SIZE_MAX`. It grows exactly when the buffer is smaller than that sum. Otherwise the capacity afterwards is `max(size, used + chunk + 1)`, so a full chunk and the terminator fit at offset `used` |
| `FileIo.RegrowsAfterEveryRead` | main.c:215-234 | after a grow and a read of `n > 0` bytes, the next head grows again, to exactly `used + n + chunk + 1`, or reports overflow: the buffer is reallocated on every iteration that made progress |
| `FileIo.DeliveriesSum` | main.c:230-234 | the counts an error-free stream returns (`Deliveries`) add up to the number of bytes the stream had left |
| `FileIo.DeliveriesShape` | main.c:230-233 | every count but the last is between 1 and a full chunk, and the last is 0 |
| `FileIo.DeliveriesCount` | main.c:214-235 | a stream of `r` bytes is read with `ceil(r / chunk) + 1` calls of `fread` |
| `FileIo.DeliveriesAtChunkBoundary` | main.c:230-235 | the empty stream takes one read (`[0]`); exactly one chunk takes `[chunk, 0]`; one byte more takes `[chunk, 1, 0]` |
| `FileIo.ReadAdvances` | main.c:230-234 | an error-free `fread` returns the next element of `Deliveries`, and a 0 completes it |
| `FileIo.ReadChunk` | main.c:230-234 | one `fread` at offset `used` extends the buffer's prefix by exactly the bytes delivered. Without an error, its count is the next element of `Deliveries`, and a 0 means the stream is exhausted |
| `FileIo.MakeRoom` | main.c:215-229 | it fails with overflow exactly when `Head` reports it. It fails to grow only when `Head` orders growth and `realloc` refused. On success the new size is exactly the capacity `Head` orders, the buffer is the same one exactly when no growth was needed, and its first `used` bytes are kept. On failure the old buffer has been freed |
| `FileIo.ReadChunks` | main.c:207-235 | the loop terminates. When it stops at a 0 read, the buffer (the one live block) holds exactly the bytes delivered, `used` counts them, and a chunk plus terminator still fit. Without a stream error those are all the stream's bytes, read in `Deliveries` order. A failed grow means a refused `realloc`. With no stream error and no refusal, it succeeds exactly when the stream has at most `SIZE_MAX - chunk - 1` bytes left, and otherwise reports overflow |
| `FileIo.FileIoRead` | main.c:199-256 | on success `len` is the number of bytes the stream had left, and the buffer is those bytes in order followed by 0, exactly `len + 1` bytes. That buffer is the only new live block. Each failure (error before the loop, overflow, failed grow, error after the loop, failed shrink) returns `{NULL, 0, 0}` and leaves the heap as it was. A failed grow or shrink means `realloc` refused. With no stream error and no refusal, the result is valid exactly when the stream has at most `SIZE_MAX - chunk - 1` bytes left; so an empty stream yields `len == 0` and the buffer `[0]` |
| `FileIoAsWritten.HeadAsWritten` | main.c:215-221 | the head as written decides exactly as `Head` whenever `used + chunk + 1` fits in a `size_t` |
| `FileIoAsWritten.ReadInBoundsUnlessWrapped` | main.c:215-230 | without wrap-around, the head as written leaves room for any read of up to a chunk by the `fread` at line 230 |
| `FileIoAsWritten.StepAsWritten` | main.c:215-234 | one pass of the loop as written with `realloc` succeeding and `fread` returning `n`. Without wrap-around it yields `used + n` and the capacity `Head` orders. In the overflow case it keeps `(used, size)`, standing for the return at line 220; `GuardNeverFires` shows that case cannot arise |
| `FileIoAsWritten.RunFull` | main.c:214-235 | the loop as written run for `k` passes of full-chunk reads; every state it reaches satisfies `HeadState` |
| `FileIoAsWritten.HeadsPartInWrapZone` | main.c:215-230 | once the sum no longer fits, the corrected head fails. The head as written orders no growth although a chunk and the terminator no longer fit, and it orders none at any later `used` up to the end of the buffer, so reads that stay within the room left never grow it |
| `FileIoAsWritten.StepKeepsHeadState` | main.c:210-234 | at every loop head of the code as written, either `used` and `size` are both 0 or the buffer is larger than one chunk |
| `FileIoAsWritten.GuardNeverFires` | main.c:215-221 | in every such state the guard `size <= used` at line 218 is never taken |
| `FileIoAsWritten.RunFullState` | main.c:214-235 | while no wrap occurs, after `k` full chunks `used` is `k * chunk` and `size` is `k * chunk + 1` |
| `FileIoAsWritten.ChunkOverrun` | main.c:215-234 | after 2^43 - 1 full chunks `used` is 2^64 - 2^21 with one byte of room. The head as written orders no growth, where the corrected head fails. A read of 1 byte fits, a read of 2 or more bytes writes past the end of the buffer, and after a full chunk `used` wraps to 0 |

## Left out

- `main` (main.c:51-197): SDL, GLEW and OpenGL setup, geometry upload and the event and draw loop. These are calls into foreign libraries with no logic of their own.
- `create_shader` (main.c:258-291): a wrapper around OpenGL compile and link calls. The driver is not part of this model.
- The orthographic matrix (main.c:16-18, 37-44, 56-74): single-precision float code whose result is never used.
- FileIoRead: opening the file is left out; the caller passes an already opened stream. Line 203 calls `ferror` on the result of `fopen`, which is undefined for a NULL handle, so the model promises nothing for a missing path. Line 203 is modelled as a test of the given stream's error indicator.
- FileIoRead: `fclose` is never called in the source, and stream handles are not modelled as a resource, so that leak is not captured.
- FileIoRead: models the corrected loop head (see Findings), not lines 215-221 as written; the code as written is `FileIoAsWritten.HeadAsWritten`.
- Libc.Allocator.Realloc: always returns a fresh array. Growth in place (the same pointer returned) and pointer identity are not modelled, only contents and liveness. Bytes past the kept prefix are left unspecified.
- Libc.Stream.Read: after a read error C leaves the file position indeterminate; the model takes it to be just past the delivered prefix.
- The `int valid` field of `struct File` is a `bool` (1 is `true`, 0 is `false`).

## Findings

| source | as written | input that shows it | evidently intended | confidence | as-written member | corrected member |
|---|---|---|---|---|---|---|
| main.c:215-221 | `used + IO_READ_CHUNK_SIZE + 1` is formed in wrapping `size_t` before it is compared with `size`. A wrapped sum is at most one chunk, and the buffer is already larger than that, so line 215 orders no growth and the overflow guard at line 218 can never be true | a stream read in full chunks with every `realloc` succeeding, which still has 2 or more bytes left when `used` reaches 2^64 - 2^21. The buffer then holds 2^64 - 2^21 + 1 bytes and is not grown, so the next `fread` writes past its end (a full chunk by 2^21 - 1 bytes), and `used` wraps to 0. For a stream that ends within the room left (2^64 - 2^21 - 1 to 2^64 - 2^21 + 1 bytes), the head as written still orders no growth and calls `fread` for a full chunk with at most 2 bytes of room; the bytes delivered stay inside the buffer, but that call is outside what `fread` is given room for. The corrected head rejects these streams, like every longer one, as an overflow | fail with `{NULL, 0, 0}` once `used + IO_READ_CHUNK_SIZE + 1` would exceed `SIZE_MAX` (test `used > SIZE_MAX - IO_READ_CHUNK_SIZE - 1` first) | not executed; real allocators fail long before such sizes | `FileIoAsWritten.ChunkOverrun` | `FileIo.Head` |
