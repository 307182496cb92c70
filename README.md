# Chunked GridFS downloads of MongoDbUtil

This project models the two chunk-by-chunk read loops of
`MongoDbUtil.downloadFileUseStream` and proves properties of them. Both
loops open a GridFS download stream on a stored file. They never ask a
single `read` for more than one chunk. In the streaming loop, as long as
every earlier read returned all it asked for, each read also starts at a
chunk boundary, so it stays inside one chunk. A short read leaves the next
read misaligned. The in-memory loop's last stretch is not chunk-aligned in
general.

- The streaming overload, `downloadFileUseStream(objectId, out)`, works out
  the number of chunks as a ceiling division. It allocates a buffer of
  `min(len, size)` bytes and makes exactly that many passes. Each pass
  reads into the buffer and writes the bytes just read to `out`.
- The in-memory overload, `downloadFileUseStream(objectId)`, allocates an
  array of the file's length and fills it with an `offset` / remaining-`len`
  loop. Each read asks for one chunk (`readSize`) while more than that
  remains, and for the remainder after that.

The driver's download stream is a class with the file's bytes, a read
position and a `Read` method. Its contract says only what the loops rely
on. It returns some count from 1 to the number requested, never past the end
of the file. It copies that many next bytes of the file into the buffer at
the given offset. A ghost log records every read (where it wrote, what it
asked for, what was left, what it returned). The loops' promises are stated
over that log: for every answer the stream may give, and specifically when
every read is *full*, that is, it returns all it asked for or everything
that was left.

Modules:

- `Chunking` holds the chunk arithmetic. `ChunkCount` is the loop count of
  the streaming overload, and `ChunkLengths` gives the lengths of the
  file's chunks.
- `Streams` holds the GridFS file record, the download stream (`read`) and
  the output sink (`write`).
- `InMemoryFill` is a value-level model of the in-memory loop. `Step` is one
  pass and `Run` is the loop over a log of read answers. It also holds what
  that loop returns.
- `MongoDbUtil` holds the two loops as imperative methods. Each is proved
  against the functions above.

What the in-memory loop returns depends on its `else` branch. There, once
no more than one chunk remains, `offset` is not moved on after a read. So
the array is the file when the reads of that last stretch return all they
ask for. In particular, it is the file when every read is full. When such
a read is short, the next read writes the file's later bytes at the same
offset, too early, and the file's last bytes end up before the array's
end. Whether the array then differs from the file depends on the bytes
involved. `InMemoryFill.ShortFinalReadCorrupts` works one case through on a
four-byte file with two-byte chunks: the result is `[1, 2, 4, 0]`.
`InMemoryFill.FinalReadPlacement` states in general where the last bytes
land: they end at the array's end if and only if the last-stretch reads
were full.

The code relies on the first request for the remainder being answered in
full. That read asks for every byte that is left, so when it is full the
loop ends at once. Whether the driver's stream always answers it in full is
not shown in this code. The model states the condition explicitly and
does not assume it.

## Model

| member | source | states |
|---|---|---|
| Chunking.ChunkCount | src/main/java/mongo/MongoDbUtil.java:256 | `len / size` plus one when a remainder is left is the ceiling of len / size: `cnt` chunks of `size` bytes cover the file, one fewer does not, and it is 0 only for an empty file |
| Chunking.CeilingOfQuotient | src/main/java/mongo/MongoDbUtil.java:256 | for `len == q * size + r` with `r < size`, the two arms of the formula (`q` when `r` is 0, `q + 1` otherwise) satisfy the ceiling bounds |
| Chunking.ChunkCountIsCeiling | src/main/java/mongo/MongoDbUtil.java:256 | the loop count is the only k with `(k - 1) * size < len <= k * size`, so the formula is exactly the ceiling |
| Chunking.OneChunkMore | src/main/java/mongo/MongoDbUtil.java:256 | a file longer than one chunk takes one pass more than what is left after its first chunk |
| Chunking.PassesStayInFile | src/main/java/mongo/MongoDbUtil.java:256-260 | before the last of the `cnt` passes, passes of `min(len, size)` bytes have not reached the end of the file |
| Chunking.ChunkLengths | src/main/java/mongo/MongoDbUtil.java:238-240 | the chunk lengths of a file: there are ChunkCount of them, they sum to the file's length, each is between 1 and `size`, and all but the last are exactly `size` |
| Chunking.ChunkLengthAt | src/main/java/mongo/MongoDbUtil.java:238-240 | chunk i starts inside the file at `i * size` and holds `min(size, len - i * size)` bytes |
| Chunking.FullPassIsChunk | src/main/java/mongo/MongoDbUtil.java:257-260 | after `passes` full passes the stream is at `passes * min(len, size)`, inside the file, and a full read there returns exactly the length of chunk number `passes` |
| Chunking.PassesCoverFile | src/main/java/mongo/MongoDbUtil.java:256-257 | `cnt` passes of `min(len, size)` bytes cover the whole file |
| Chunking.DefaultChunkSizeExample | src/main/java/mongo/MongoDbUtil.java:256 | a 700000-byte file with 261120-byte chunks takes 3 passes, of 261120, 261120 and 177760 bytes |
| Chunking.ChunkBoundary | src/main/java/mongo/MongoDbUtil.java:256 | a file of exactly one chunk takes one pass; one byte more takes two, the second holding one byte |
| Chunking.SumSnoc | src/main/java/mongo/MongoDbUtil.java:260-261 | the total of the counts read grows by the count of each new read |
| Streams.DownloadStream.Open | src/main/java/mongo/MongoDbUtil.java:249-251 | a stream opened on a stored file is at its first byte, with no reads made |
| Streams.DownloadStream.Read | src/main/java/mongo/MongoDbUtil.java:260 | a read returns 1 to n bytes, never past the file's end, copies the next that many bytes of the file to `buf[off..]`, leaves the rest of `buf` as it was, advances the position by the count and logs the call |
| Streams.ByteSink.Write | src/main/java/mongo/MongoDbUtil.java:261 | `write(buf, off, n)` appends exactly `buf[off..off + n]` to what was written |
| Streams.OverwriteAt | src/main/java/mongo/MongoDbUtil.java:331 | after a read's bytes are copied in at `off`, they are found there and everything before `off` is unchanged |
| Streams.AnsweredSnoc | src/main/java/mongo/MongoDbUtil.java:260 | a log the stream can produce (each read returned at least one byte and found the rest of the file ahead of it), extended by one such read, is still one the stream can produce |
| Streams.GotsSnoc | src/main/java/mongo/MongoDbUtil.java:260 | the counts returned by a log extended by one read are the old counts followed by the new one |
| InMemoryFill.Step | src/main/java/mongo/MongoDbUtil.java:329-336 | one pass keeps the loop invariant (array of the file's length, stream at `len` bytes from the end, `offset` not ahead of the stream, and `offset + len` the file's length while a whole chunk remains); its write `offset + Request(len)` stays inside the array; `len` strictly decreases |
| InMemoryFill.StepFields | src/main/java/mongo/MongoDbUtil.java:330-336 | a pass writes the `got` bytes read at `offset`, moves `offset` by `got` only in the `len > readSize` branch, and takes `got` from `len` in both |
| InMemoryFill.Run | src/main/java/mongo/MongoDbUtil.java:328-337 | every state the loop reaches keeps the loop invariant, and the loop makes no more passes than the file has bytes, so it terminates |
| InMemoryFill.RunSnoc | src/main/java/mongo/MongoDbUtil.java:328-337 | running the loop over a log with one more admissible read is one more Step |
| InMemoryFill.RunStep | src/main/java/mongo/MongoDbUtil.java:329-336 | from a state the loop reached, a read of Request(len) bytes at `offset` returning `got` of them is one Step |
| InMemoryFill.FullReadsAreTailFull | src/main/java/mongo/MongoDbUtil.java:333-335 | when every read is full, the reads of the final stretch are full |
| InMemoryFill.StepKeepsFilePrefix | src/main/java/mongo/MongoDbUtil.java:330-336 | a pass whose last-stretch read is full keeps the array equal to the file up to `offset`, with `offset` at the stream's position, and a final such pass leaves the whole file |
| InMemoryFill.TailFullReconstructs | src/main/java/mongo/MongoDbUtil.java:328-338 | while the last-stretch reads are full, the array holds the file up to `offset`; once `len` is 0 it is exactly the file |
| InMemoryFill.RemainderAlignedIffTailFull | src/main/java/mongo/MongoDbUtil.java:330-336 | while bytes remain, `offset + len` is the file's length if and only if every read of the last stretch was full |
| InMemoryFill.LastStepPlacement | src/main/java/mongo/MongoDbUtil.java:333-336 | the last pass reads the whole remainder, the file's last `g` bytes, into the array at `offset`, which does not move |
| InMemoryFill.FinalReadPlacement | src/main/java/mongo/MongoDbUtil.java:328-338 | when the loop ends, the file's last `g` bytes sit at `offset`, inside the array, and `offset + g` is the array's end if and only if the last-stretch reads were full |
| InMemoryFill.FillEnds | src/main/java/mongo/MongoDbUtil.java:325-338 | at the loop's end, an empty file was never read, and the array is the file when the last-stretch reads, or all reads, were full |
| InMemoryFill.ShortStart | src/main/java/mongo/MongoDbUtil.java:325-327 | before the first pass on a four-byte file, the array is four zero bytes, `offset` is 0 and `len` is 4 |
| InMemoryFill.ShortFirstPass | src/main/java/mongo/MongoDbUtil.java:330-332 | a full first read of a two-byte chunk fills bytes 0 and 1 and moves `offset` to 2 |
| InMemoryFill.ShortSecondPass | src/main/java/mongo/MongoDbUtil.java:333-336 | in the else branch a read returning one of two bytes writes it at offset 2 and leaves `offset` at 2 |
| InMemoryFill.ShortFinalReadCorrupts | src/main/java/mongo/MongoDbUtil.java:333-337 | the next read writes the fourth byte at offset 2 too: the array returned is `[1, 2, 4, 0]`, not the file, and the last-stretch reads were not all full |
| MongoDbUtil.StreamedStep | src/main/java/mongo/MongoDbUtil.java:259-262 | before each of the `cnt` passes the stream is still inside the file (no read meets the end of the stream), and a read of the whole buffer keeps the streaming invariant with one pass more |
| MongoDbUtil.FullPassExtends | src/main/java/mongo/MongoDbUtil.java:259-262 | after one more full pass the stream has read one more whole buffer (or up to the end of the file), and the counts returned are one more chunk length |
| MongoDbUtil.FullPassesAligned | src/main/java/mongo/MongoDbUtil.java:238-240 | while every read so far was full, the next read of the streaming loop starts inside the file at a chunk boundary, `passes * size` |
| MongoDbUtil.WrittenGrows | src/main/java/mongo/MongoDbUtil.java:260-261 | writing the `tmp` bytes at the front of the buffer extends the file prefix already written by the next `tmp` bytes of the file |
| MongoDbUtil.StreamedAll | src/main/java/mongo/MongoDbUtil.java:256-262 | after all `cnt` passes with full reads, the counts returned are the file's chunk lengths and the whole file has been read |
| MongoDbUtil.DownloadToStream | src/main/java/mongo/MongoDbUtil.java:245-271 | exactly ChunkCount reads, each into offset 0 of a `min(len, size)` buffer asking for all of it, each returning at least one byte with the rest of the file ahead of it; `out` receives the file's first Sum(counts) bytes in order; with full reads the counts are the chunk lengths and `out` receives the whole file |
| MongoDbUtil.StreamPass | src/main/java/mongo/MongoDbUtil.java:259-262 | one pass: the stream moves forward by 1 to `min(len, size)` bytes, the read is appended to the log, the buffer holds those bytes of the file at its front, and `out` gets exactly those bytes appended; this keeps the streaming invariant with one pass more and `out` the earlier output plus the file up to the stream's position |
| MongoDbUtil.DownloadToMemory | src/main/java/mongo/MongoDbUtil.java:314-343 | returns a newly allocated array of exactly the file's length, in the state Run computes from the reads' answers with `len` 0; an empty file causes no read; the array is the file when the last-stretch reads, and in particular all reads, were full |
| MongoDbUtil.FillRead | src/main/java/mongo/MongoDbUtil.java:329-336 | the pass's statements: one read of `readSize` bytes (moving `offset` by the count) while `len > readSize`, of `len` bytes otherwise (leaving `offset`); the stream moves forward by the count, the read is appended to the log, and the array is its old contents with the bytes read placed at `offset`, the rest untouched |
| MongoDbUtil.FillLoop | src/main/java/mongo/MongoDbUtil.java:328-337 | from the state before the first pass, the loop ends with `len` 0 in the state Run computes from the reads it logged |

## Left out

- The `Properties` load, the `Config` class, the `MongoInstance` client singleton, `destroy` and `getDatabase` are not modelled. They are configuration and connection plumbing.
- The upload overloads, the `downloadFile` overloads and `deleteByObjectId` are not modelled. Each is a single call into the driver's GridFS bucket, whose behaviour is not part of this model.
- The `File` and `FileOutputStream` wrapper overloads are not modelled. These are file I/O.
- Closing the stream, `out.flush()`, and logging and swallowing an `IOException` are not modelled. `Read` and `Write` never fail here.
- Opening the download stream by `ObjectId` is a driver lookup. The download methods take the stored file's record and bytes as parameters instead.
- The `(int)` narrowing of the file's `long` length is not modelled. Lengths are unbounded naturals, so files of 2 GiB or more, which Java would truncate, are out of scope.
- A chunk size of 0 is excluded by a precondition. With it, the Java code divides by zero in the streaming overload and loops without progress in the in-memory one.
- `Streams.DownloadStream.Read` does not model `read` returning -1 at the end of the stream. Its precondition excludes a read at the end, and the loops are proved never to make one.
- `Streams.DownloadStream.Read` picks its count nondeterministically. The driver's own choice of how many bytes to return is not modelled. The loops' properties hold for every count, or are stated for full reads.
- `MongoDbUtil.DownloadToMemory` and `MongoDbUtil.DownloadToStream` are split into separate methods: the in-memory loop is `FillLoop` with its body's statements in `FillRead`, and the streaming loop's body is `StreamPass`. The statements are the same, one pass per call.
- The driver's own guarantee that a read staying inside one chunk returns all it asks for is not modelled. The model makes no such assumption: its results either hold for any counts the stream returns, or name full reads as a condition.
