/** The collaborators of the download loops: the GridFS file record, the
    driver's download stream and the caller's output stream. The stream's
    reads are the only thing the loops rely on, so each read is stated by
    its contract alone: it may return any count from one byte up to what
    was asked for, and it copies that many of the next file bytes. */
module Streams {
  import opened Chunking

  /** The stored file's record as the loops see it: its byte length and
      the chunk size it was uploaded with. */
  datatype GridFSFile = GridFSFile(length: nat, chunkSize: nat)

  /** One call of `read(b, off, len)`: where it wrote, how many bytes were
      asked for, how many the stream still held, and how many it returned. */
  datatype ReadCall = ReadCall(off: nat, requested: nat, avail: nat, got: nat)

  /** A read is full when it returns all it was asked for, or the rest of
      the file when less than that is left. */
  predicate FullRead(call: ReadCall)
  {
    call.got == Min(call.requested, call.avail)
  }

  predicate ReadsFull(calls: seq<ReadCall>)
  {
    forall i :: 0 <= i < |calls| ==> FullRead(calls[i])
  }

  /** The counts the reads returned, in order. */
  function Gots(calls: seq<ReadCall>): (gots: seq<nat>)
  {
    seq(|calls|, i requires 0 <= i < |calls| => calls[i].got)
  }

  lemma GotsSnoc(calls: seq<ReadCall>, call: ReadCall)
    ensures Gots(calls + [call]) == Gots(calls) + [call.got]
  {
  }

  /** The log is one a stream over `c` can produce: every read returned at
      least one byte, and each found the file less what the reads before it
      returned still to come. */
  ghost predicate Answered(c: seq<bv8>, calls: seq<ReadCall>)
  {
    forall i :: 0 <= i < |calls| ==>
      1 <= calls[i].got && calls[i].avail == |c| - Sum(Gots(calls[..i]))
  }

  /** A read made after the reads of `calls`, at the position they reached
      and returning at least one byte, keeps the log Answered. */
  lemma AnsweredSnoc(c: seq<bv8>, calls: seq<ReadCall>, call: ReadCall)
    requires Answered(c, calls)
    requires 1 <= call.got && call.avail == |c| - Sum(Gots(calls))
    ensures Answered(c, calls + [call])
  {
    var after := calls + [call];
    forall i | 0 <= i < |after|
      ensures 1 <= after[i].got && after[i].avail == |c| - Sum(Gots(after[..i]))
    {
      assert after[..i] == if i < |calls| then calls[..i] else calls;
      if i < |calls| {
        assert after[i] == calls[i];
      }
    }
  }

  /** `b` with `src` copied over it from index `off` on. */
  function Overwrite(b: seq<bv8>, off: nat, src: seq<bv8>): (r: seq<bv8>)
    requires off + |src| <= |b|
    ensures |r| == |b|
  {
    b[..off] + src + b[off + |src|..]
  }

  /** After Overwrite, `src` is found at `off` and what precedes it is
      unchanged. */
  lemma OverwriteAt(b: seq<bv8>, off: nat, src: seq<bv8>)
    requires off + |src| <= |b|
    ensures Overwrite(b, off, src)[off..off + |src|] == src
    ensures Overwrite(b, off, src)[..off] == b[..off]
  {
    var r := Overwrite(b, off, src);
    assert r == b[..off] + src + b[off + |src|..];
  }

  /** The driver's download stream over one stored file: the file's bytes
      and the position of the next byte to be read. `calls` logs every
      read, for the specifications only. */
  class DownloadStream {
    const file: GridFSFile
    const content: seq<bv8>
    var pos: nat
    ghost var calls: seq<ReadCall>

    ghost predicate Valid()
      reads this
    {
      |content| == file.length && file.chunkSize > 0 && pos <= |content|
    }

    /** Opens the stream at the start of the file. */
    constructor Open(file: GridFSFile, content: seq<bv8>)
      requires |content| == file.length && file.chunkSize > 0
      ensures Valid()
      ensures this.file == file && this.content == content
      ensures pos == 0 && calls == []
    {
      this.file := file;
      this.content := content;
      pos := 0;
      calls := [];
    }

    /** `read(buf, off, n)`: returns some count from 1 to n, never past the
        end of the file, and copies that many next bytes of the file into
        buf[off..]; the rest of buf is untouched. The end of the stream is
        excluded: the loops never read there (they are proved not to). */
    method Read(buf: array<bv8>, off: nat, n: nat) returns (tmp: nat)
      requires Valid()
      requires 0 < n && off + n <= buf.Length
      requires pos < |content|
      modifies this, buf
      ensures Valid()
      ensures 1 <= tmp <= n && old(pos) + tmp <= |content|
      ensures pos == old(pos) + tmp
      ensures calls == old(calls) + [ReadCall(off, n, |content| - old(pos), tmp)]
      ensures buf[..] == Overwrite(old(buf[..]), off, content[old(pos)..old(pos) + tmp])
    {
      tmp :| 1 <= tmp <= n && pos + tmp <= |content|;
      var i := 0;
      while i < tmp
        modifies buf
        invariant 0 <= i <= tmp
        invariant forall j :: 0 <= j < buf.Length ==>
          buf[j] == if off <= j < off + i then content[pos + (j - off)] else old(buf[j])
      {
        buf[off + i] := content[pos + i];
        i := i + 1;
      }
      assert buf[..] == Overwrite(old(buf[..]), off, content[pos..pos + tmp]);
      calls := calls + [ReadCall(off, n, |content| - pos, tmp)];
      pos := pos + tmp;
    }
  }

  /** The caller's output stream: everything written to it so far. */
  class ByteSink {
    var written: seq<bv8>

    constructor ()
      ensures written == []
    {
      written := [];
    }

    /** `write(buf, off, n)`: appends buf[off..off + n]. */
    method Write(buf: array<bv8>, off: nat, n: nat)
      requires off + n <= buf.Length
      modifies this
      ensures written == old(written) + buf[off..off + n]
    {
      written := written + buf[off..off + n];
    }
  }
}
