/** The two chunk-by-chunk download loops of MongoDbUtil's
    `downloadFileUseStream` overloads. Both open a download stream on the
    stored file and never ask one read for more than one chunk. In the
    streaming loop, as long as every earlier read was full, each read starts
    at a chunk boundary and so stays inside one chunk (FullPassesAligned);
    the in-memory loop's last stretch is not chunk-aligned in general (see
    InMemoryFill.FinalReadPlacement). The stored file is given as its GridFS
    record and its bytes; looking it up by ObjectId is the driver's job. */
module MongoDbUtil {
  import opened Chunking
  import opened Streams
  import opened InMemoryFill

  /** What the streaming loop has done after `passes` of its passes,
      given the reads it made and the stream's position: the log is one the
      stream can produce (Answered), every read went to
      offset 0 of the buffer and asked for all of it, `pos` is the sum of
      the counts returned, and, when every read was full, `pos` is where
      `passes` whole buffers end and the counts are the first `passes`
      chunk lengths. */
  ghost predicate Streamed(c: seq<bv8>, size: nat, calls: seq<ReadCall>, passes: nat, pos: nat)
    requires size > 0
  {
    var b := Min(|c|, size);
    && passes <= ChunkCount(|c|, size)
    && |calls| == passes
    && Answered(c, calls)
    && (forall i :: 0 <= i < |calls| ==> calls[i].off == 0 && calls[i].requested == b)
    && pos == Sum(Gots(calls))
    && pos <= passes * b
    && (ReadsFull(calls) ==> pos == Min(|c|, passes * b))
    && (ReadsFull(calls) ==> Gots(calls) == ChunkLengths(|c|, size)[..passes])
  }

  /** Before a pass that is not the last, the stream is still inside the
      file; after the pass (one read of the whole buffer of `b` bytes,
      returning `got`), Streamed holds with one pass more. */
  lemma StreamedStep(c: seq<bv8>, size: nat, calls: seq<ReadCall>, passes: nat, pos: nat,
                     b: nat, got: nat)
    requires size > 0 && Streamed(c, size, calls, passes, pos)
    requires passes < ChunkCount(|c|, size) && b == Min(|c|, size)
    ensures pos < |c|
    ensures 1 <= got <= b && pos + got <= |c| ==>
      Streamed(c, size, calls + [ReadCall(0, b, |c| - pos, got)], passes + 1, pos + got)
  {
    FullPassIsChunk(|c|, size, passes, passes * b);
    if 1 <= got <= b && pos + got <= |c| {
      var call := ReadCall(0, b, |c| - pos, got);
      var after := calls + [call];
      forall i | 0 <= i < |after| ensures after[i].off == 0 && after[i].requested == b {
        if i < |calls| {
          assert after[i] == calls[i];
        }
      }
      AnsweredSnoc(c, calls, call);
      GotsSnoc(calls, call);
      SumSnoc(Gots(calls), got);
      MulSucc(passes, b);
      if ReadsFull(after) {
        FullPassExtends(c, size, calls, passes, pos, b, call);
      }
    }
  }

  /** The full-read half of StreamedStep: after one more full pass, `pos`
      is where one more whole buffer ends and the counts are one more chunk
      length. */
  lemma FullPassExtends(c: seq<bv8>, size: nat, calls: seq<ReadCall>, passes: nat, pos: nat,
                        b: nat, call: ReadCall)
    requires size > 0 && Streamed(c, size, calls, passes, pos)
    requires passes < ChunkCount(|c|, size) && b == Min(|c|, size)
    requires pos + call.got <= |c| && call == ReadCall(0, b, |c| - pos, call.got)
    requires ReadsFull(calls + [call])
    ensures pos + call.got == Min(|c|, (passes + 1) * b)
    ensures Gots(calls + [call]) == ChunkLengths(|c|, size)[..passes + 1]
  {
    var after := calls + [call];
    FullPassIsChunk(|c|, size, passes, passes * b);
    assert ReadsFull(calls) by {
      forall i | 0 <= i < |calls| ensures FullRead(calls[i]) {
        assert calls[i] == after[i];
      }
    }
    assert FullRead(after[|calls|]);
    MulSucc(passes, b);
    GotsSnoc(calls, call);
    TakeOneMore(ChunkLengths(|c|, size), passes);
  }

  /** While every read so far was full, the next read of the streaming
      loop starts at a chunk boundary, `passes * size`, inside the file; as
      it asks for at most one chunk, it stays inside that chunk. (A short
      read leaves the next one misaligned.) */
  lemma FullPassesAligned(c: seq<bv8>, size: nat, calls: seq<ReadCall>, passes: nat, pos: nat)
    requires size > 0 && Streamed(c, size, calls, passes, pos)
    requires passes < ChunkCount(|c|, size) && ReadsFull(calls)
    ensures pos == passes * size && pos < |c|
  {
    PassesStayInFile(|c|, size, passes);
    if |c| < size {
      assert passes * |c| < |c|;
      if passes > 0 {
        MulMonotone(1, passes, |c|);
      }
    }
  }

  /** Writing the `got` bytes a read left at the front of the buffer
      extends what was written, a prefix of the file, by the next `got`
      bytes of the file. */
  lemma WrittenGrows(w: seq<bv8>, c: seq<bv8>, pos: nat, got: nat, old_buf: seq<bv8>, buf: seq<bv8>)
    requires pos + got <= |c| && got <= |old_buf|
    requires buf == Overwrite(old_buf, 0, c[pos..pos + got])
    ensures got <= |buf| && buf[0..got] == c[pos..pos + got]
    ensures (w + c[..pos]) + buf[0..got] == w + c[..pos + got]
  {
    OverwriteAt(old_buf, 0, c[pos..pos + got]);
    assert c[..pos + got] == c[..pos] + c[pos..pos + got];
  }

  /** After all ChunkCount passes with full reads, the counts returned are
      the file's chunk lengths and the stream has delivered the whole file. */
  lemma StreamedAll(c: seq<bv8>, size: nat, calls: seq<ReadCall>, pos: nat)
    requires size > 0 && Streamed(c, size, calls, ChunkCount(|c|, size), pos)
    ensures ReadsFull(calls) ==> Gots(calls) == ChunkLengths(|c|, size) && pos == |c|
  {
    PassesCoverFile(|c|, size);
    assert ChunkLengths(|c|, size)[..ChunkCount(|c|, size)] == ChunkLengths(|c|, size);
  }

  /** `downloadFileUseStream(objectId, out)`: makes exactly ChunkCount
      passes, each reading into a buffer of min(len, size) bytes at offset 0
      and writing to `out` the bytes that read returned; every read finds
      the rest of the file ahead of it and returns at least one byte
      (Answered). What reaches `out`
      is therefore always a prefix of the file, in order; it is the whole
      file when the reads are full, and then the reads return exactly the
      file's chunk lengths. */
  method DownloadToStream(file: GridFSFile, content: seq<bv8>, out: ByteSink)
    returns (ghost calls: seq<ReadCall>)
    requires |content| == file.length && file.chunkSize > 0
    modifies out
    ensures |calls| == ChunkCount(file.length, file.chunkSize) && Answered(content, calls)
    ensures forall i :: 0 <= i < |calls| ==>
      calls[i].off == 0 && calls[i].requested == Min(file.length, file.chunkSize)
    ensures Sum(Gots(calls)) <= |content|
    ensures out.written == old(out.written) + content[..Sum(Gots(calls))]
    ensures ReadsFull(calls) ==> Gots(calls) == ChunkLengths(file.length, file.chunkSize)
    ensures ReadsFull(calls) ==> out.written == old(out.written) + content
  {
    var stream := new DownloadStream.Open(file, content);
    var size := stream.file.chunkSize;
    var len := stream.file.length;
    var cnt: nat := ChunkCount(len, size);
    var bts := new bv8[Min(len, size)];
    ghost var passes, w0 := 0, out.written;
    while cnt > 0
      invariant stream.Valid() && stream.file == file && stream.content == content
      invariant bts.Length == Min(|stream.content|, size)
      invariant passes + cnt == ChunkCount(|stream.content|, size)
      invariant Streamed(stream.content, size, stream.calls, passes, stream.pos)
      invariant out.written == w0 + stream.content[..stream.pos]
      decreases cnt
    {
      cnt := cnt - 1;
      StreamPass(stream, bts, out, size, passes, w0);
      passes := passes + 1;
    }
    calls := stream.calls;
    StreamedAll(content, size, calls, stream.pos);
  }

  /** The body of that loop: one read of up to a whole buffer, logged,
      with the bytes it returned placed at the front of the buffer and then
      written to `out`. It keeps Streamed, with one pass more, and keeps
      `out` the bytes written before plus the file up to the stream's
      position. */
  method StreamPass(stream: DownloadStream, bts: array<bv8>, out: ByteSink, size: nat,
                    ghost passes: nat, ghost w0: seq<bv8>)
    requires stream.Valid() && size > 0
    requires bts.Length == Min(|stream.content|, size)
    requires passes < ChunkCount(|stream.content|, size)
    requires Streamed(stream.content, size, stream.calls, passes, stream.pos)
    requires out.written == w0 + stream.content[..stream.pos]
    modifies stream, bts, out
    ensures stream.Valid() && old(stream.pos) < stream.pos <= |stream.content|
    ensures stream.pos <= old(stream.pos) + bts.Length
    ensures stream.calls == old(stream.calls)
      + [ReadCall(0, bts.Length, |stream.content| - old(stream.pos), stream.pos - old(stream.pos))]
    ensures bts[..] == Overwrite(old(bts[..]), 0, stream.content[old(stream.pos)..stream.pos])
    ensures out.written == old(out.written) + stream.content[old(stream.pos)..stream.pos]
    ensures Streamed(stream.content, size, stream.calls, passes + 1, stream.pos)
    ensures out.written == w0 + stream.content[..stream.pos]
  {
    ghost var before, p, b0 := stream.calls, stream.pos, bts[..];
    StreamedStep(stream.content, size, before, passes, p, bts.Length, 0);
    var tmp := stream.Read(bts, 0, bts.Length);
    StreamedStep(stream.content, size, before, passes, p, bts.Length, tmp);
    WrittenGrows(w0, stream.content, p, tmp, b0, bts[..]);
    out.Write(bts, 0, tmp);
  }

  /** `downloadFileUseStream(objectId)`: fills an array of exactly the
      file's length, asking each read for one chunk (`readSize`) while more
      than that remains and for the remainder after. The loop ends in the
      state InMemoryFill.Run computes from the reads' answers; a zero-length
      file is returned without any read. The array is the file whenever the
      reads of the final stretch are full (in particular when all reads
      are); InMemoryFill.FinalReadPlacement says what it holds otherwise. */
  method DownloadToMemory(file: GridFSFile, content: seq<bv8>)
    returns (returnBts: array<bv8>, ghost calls: seq<ReadCall>)
    requires |content| == file.length && file.chunkSize > 0
    ensures fresh(returnBts) && returnBts.Length == file.length
    ensures var r := Run(content, Min(file.length, file.chunkSize), calls);
      r.Some? && r.value.len == 0 && r.value.buf == returnBts[..]
    ensures file.length == 0 ==> calls == []
    ensures TailReadsFull(content, Min(file.length, file.chunkSize), calls) ==> returnBts[..] == content
    ensures ReadsFull(calls) ==> returnBts[..] == content
  {
    var stream := new DownloadStream.Open(file, content);
    var size := stream.file.chunkSize;
    var len: nat := stream.file.length;
    var readSize := Min(len, size);
    returnBts := new bv8[len](_ => 0);
    assert returnBts[..] == Start(content).buf;
    var offset := FillLoop(stream, returnBts, readSize);
    calls := stream.calls;
    FillEnds(content, readSize, calls, FillState(returnBts[..], offset, 0, stream.pos));
  }

  /** The loop of the in-memory download: passes until nothing remains.
      Each pass is FillRead, whose contract gives the new stream and array
      in terms of the old ones; RunStep then says that the log with the new
      read runs to Step of the old state, and StepFields that this Step is
      the state the pass produced. The two are kept apart so that neither
      proof has to unfold Run and Step together. */
  method FillLoop(stream: DownloadStream, returnBts: array<bv8>, readSize: nat)
    returns (offset: nat)
    requires stream.Valid() && (0 < readSize || |stream.content| == 0)
    requires Run(stream.content, readSize, stream.calls)
          == Some(FillState(returnBts[..], 0, |stream.content|, stream.pos))
    modifies stream, returnBts
    ensures stream.Valid()
    ensures Run(stream.content, readSize, stream.calls)
         == Some(FillState(returnBts[..], offset, 0, stream.pos))
  {
    offset := 0;
    var len: nat := |stream.content|;
    while len > 0
      invariant stream.Valid() && len <= |stream.content|
      invariant Run(stream.content, readSize, stream.calls)
             == Some(FillState(returnBts[..], offset, len, stream.pos))
      decreases len
    {
      ghost var before, b0, p0 := stream.calls, returnBts[..], stream.pos;
      var tmp, newOffset := FillRead(stream, returnBts, readSize, offset, len);
      RunStep(stream.content, readSize, before, b0, offset, len, p0, Request(len, readSize), tmp);
      StepFields(stream.content, readSize, b0, offset, len, p0, tmp, newOffset, stream.pos);
      offset, len := newOffset, len - tmp;
    }
  }

  /** The statements of one pass: one read of Request(len) bytes into the
      array at `offset`, and `offset` moved on by the count read only while
      a whole chunk remained; the rest of the array is untouched. */
  method FillRead(stream: DownloadStream, returnBts: array<bv8>, readSize: nat,
                  offset: nat, len: nat)
    returns (tmp: nat, newOffset: nat)
    requires stream.Valid() && 0 < len && 0 < readSize
    requires stream.pos + len == |stream.content|
    requires offset + Request(len, readSize) <= returnBts.Length
    modifies stream, returnBts
    ensures stream.Valid() && 1 <= tmp <= Request(len, readSize)
    ensures newOffset == if len > readSize then offset + tmp else offset
    ensures stream.pos == old(stream.pos) + tmp
    ensures stream.calls == old(stream.calls) + [ReadCall(offset, Request(len, readSize), len, tmp)]
    ensures returnBts[..]
         == Overwrite(old(returnBts[..]), offset, stream.content[old(stream.pos)..old(stream.pos) + tmp])
  {
    if len > readSize {
      tmp := stream.Read(returnBts, offset, readSize);
      newOffset := offset + tmp;
    } else {
      tmp := stream.Read(returnBts, offset, len);
      newOffset := offset;
    }
  }
}
