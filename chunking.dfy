/** Chunk arithmetic of a stored GridFS file: how many chunk-sized reads
    cover a file of `len` bytes, and how long each of its chunks is. */
module Chunking {

  function Min(a: nat, b: nat): (m: nat)
    ensures m <= a && m <= b && (m == a || m == b)
  {
    if a < b then a else b
  }

  /** The first n + 1 elements are the first n and then element n. */
  lemma TakeOneMore<T>(s: seq<T>, n: nat)
    requires n < |s|
    ensures s[..n + 1] == s[..n] + [s[n]]
  {
  }

  /** Sum of a sequence of byte counts. */
  function Sum(s: seq<nat>): (total: nat)
  {
    if s == [] then 0 else s[0] + Sum(s[1..])
  }

  lemma {:induction false} SumSnoc(s: seq<nat>, x: nat)
    ensures Sum(s + [x]) == Sum(s) + x
  {
    if s != [] {
      assert (s + [x])[1..] == s[1..] + [x];
      SumSnoc(s[1..], x);
    }
  }

  /** The number of read passes of the streaming download:
      `len / size`, plus one more when a partial last chunk remains.
      It is the ceiling of len / size: `cnt` chunks of `size` bytes cover
      the file, and one chunk fewer does not. */
  function ChunkCount(len: nat, size: nat): (cnt: nat)
    requires size > 0
    ensures len <= cnt * size
    ensures (cnt - 1) * size < len || cnt == 0
    ensures cnt == 0 <==> len == 0
  {
    var q, r := len / size, len % size;
    CeilingOfQuotient(len, size, q, r);
    if r == 0 then q else q + 1
  }

  /** With len == q * size + r and r < size, q (when r is 0) or q + 1
      (otherwise) chunks of `size` bytes cover len, and one fewer does not. */
  lemma CeilingOfQuotient(len: nat, size: nat, q: nat, r: nat)
    requires size > 0 && len == q * size + r && r < size
    ensures var cnt := if r == 0 then q else q + 1;
      len <= cnt * size && ((cnt - 1) * size < len || cnt == 0) && (cnt == 0 <==> len == 0)
  {
    MulSucc(q, size);
    if q > 0 {
      MulPred(q, size);
      MulMonotone(1, q, size);
    }
  }

  lemma MulMonotone(a: nat, b: nat, size: nat)
    requires a <= b
    ensures a * size <= b * size
  {
  }

  /** ChunkCount is THE ceiling: any k with (k - 1) * size < len <= k * size is it. */
  lemma ChunkCountIsCeiling(len: nat, size: nat, k: nat)
    requires size > 0
    requires (k - 1) * size < len <= k * size
    ensures k == ChunkCount(len, size)
  {
    var cnt := ChunkCount(len, size);
    if k < cnt {
      MulMonotone(k, cnt - 1, size);
    } else if k > cnt {
      MulMonotone(cnt, k - 1, size);
    }
  }

  /** Before the last of the ChunkCount passes, reads of one chunk
      (or of the whole file, when it is shorter than a chunk) have not
      yet reached the end of the file. */
  lemma PassesStayInFile(len: nat, size: nat, passes: nat)
    requires size > 0
    requires passes < ChunkCount(len, size)
    ensures passes * Min(len, size) < len
  {
    var cnt := ChunkCount(len, size);
    if len < size {
      assert (cnt - 1) * size < size;
      if cnt >= 2 {
        MulMonotone(1, cnt - 1, size);
      }
      assert passes == 0;
    } else {
      MulMonotone(passes, cnt - 1, size);
    }
  }

  /** The lengths of a file's chunks, in order: every chunk holds `size`
      bytes except the last, which holds what is left. */
  function ChunkLengths(len: nat, size: nat): (ls: seq<nat>)
    requires size > 0
    ensures |ls| == ChunkCount(len, size)
    ensures Sum(ls) == len
    ensures forall i :: 0 <= i < |ls| ==> 0 < ls[i] <= size
    ensures forall i :: 0 <= i < |ls| - 1 ==> ls[i] == size
    decreases len
  {
    if len == 0 then []
    else if len <= size then
      ChunkCountIsCeiling(len, size, 1);
      [len]
    else
      var rest := ChunkLengths(len - size, size);
      OneChunkMore(len, size);
      assert ([size] + rest)[1..] == rest;
      [size] + rest
  }

  /** A file longer than one chunk takes one pass more than what is left
      after its first chunk. */
  lemma OneChunkMore(len: nat, size: nat)
    requires 0 < size < len
    ensures ChunkCount(len, size) == ChunkCount(len - size, size) + 1
  {
    var k := ChunkCount(len - size, size);
    MulSucc(k, size);
    MulPred(k, size);
    ChunkCountIsCeiling(len, size, k + 1);
  }

  lemma MulSucc(i: nat, size: nat)
    ensures (i + 1) * size == i * size + size
  {
  }

  lemma MulPred(i: nat, size: nat)
    requires i > 0
    ensures (i - 1) * size == i * size - size
  {
  }

  /** Chunk i of a file starts inside the file, at i * size, and holds
      min(size, len - i * size) bytes. */
  lemma {:induction false} ChunkLengthAt(len: nat, size: nat, i: nat)
    requires size > 0
    requires i < |ChunkLengths(len, size)|
    ensures i * size < len
    ensures ChunkLengths(len, size)[i] == Min(size, len - i * size)
    decreases len
  {
    if len > size && i > 0 {
      var rest := ChunkLengths(len - size, size);
      assert ChunkLengths(len, size) == [size] + rest;
      ChunkLengthAt(len - size, size, i - 1);
      MulPred(i, size);
    }
  }

  /** Pass number `passes` of the streaming loop, when every earlier pass
      read a whole buffer of min(len, size) bytes, starts at
      `start` = passes * min(len, size), inside the file; a full read there
      returns exactly the length of chunk number `passes`. */
  lemma FullPassIsChunk(len: nat, size: nat, passes: nat, start: nat)
    requires size > 0
    requires passes < ChunkCount(len, size)
    requires start == passes * Min(len, size)
    ensures start < len
    ensures Min(Min(len, size), len - start) == ChunkLengths(len, size)[passes]
  {
    PassesStayInFile(len, size, passes);
    ChunkLengthAt(len, size, passes);
    if len < size {
      ChunkCountIsCeiling(len, size, 1);
      assert passes == 0;
    }
  }

  /** After all ChunkCount passes of min(len, size) bytes the whole file
      is covered. */
  lemma PassesCoverFile(len: nat, size: nat)
    requires size > 0
    ensures Min(len, ChunkCount(len, size) * Min(len, size)) == len
  {
    var cnt := ChunkCount(len, size);
    if 0 < len < size {
      ChunkCountIsCeiling(len, size, 1);
    }
  }

  /** GridFS's conventional default chunk size of 261120 bytes (255 KiB): a 700000-byte file
      takes three passes, of 261120, 261120 and 177760 bytes. */
  lemma DefaultChunkSizeExample()
    ensures ChunkCount(700000, 261120) == 3
    ensures ChunkLengths(700000, 261120) == [261120, 261120, 177760]
  {
    assert ChunkLengths(177760, 261120) == [177760];
    assert ChunkLengths(438880, 261120) == [261120, 177760];
  }

  /** A file of exactly one chunk takes one pass; one byte more takes two,
      the second holding that one byte. */
  lemma ChunkBoundary(size: nat)
    requires size > 0
    ensures ChunkCount(size, size) == 1
    ensures ChunkLengths(size + 1, size) == [size, 1]
  {
    assert ChunkLengths(1, size) == [1];
  }
}
