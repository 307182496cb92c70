/** A value-level model of the in-memory download loop: the state it keeps
    (the result buffer, `offset`, the remaining `len` and the stream
    position), one pass of the loop for a given read answer, and the run of
    the loop over the log of reads the stream answered. The imperative
    loop in MongoDbUtil is proved to end in the state this model computes;
    what the loop returns is then proved here: the file itself whenever
    the read of the final, partial stretch returns all it asks for, and a
    copy with the file's last bytes shifted backwards otherwise. */
module InMemoryFill {
  import opened Streams

  datatype Option<T> = None | Some(value: T)

  /** The loop's variables: the result array, where the next read writes,
      how many bytes are still to come, and where the stream stands. */
  datatype FillState = FillState(buf: seq<bv8>, offset: nat, len: nat, pos: nat)

  /** Before the first pass: a zeroed array of the file's length. */
  function Start(c: seq<bv8>): (s: FillState)
  {
    FillState(seq(|c|, _ => 0), 0, |c|, 0)
  }

  /** The count a pass asks for: one chunk (`readSize`) while more than
      that remains, the remainder otherwise. */
  function Request(len: nat, readSize: nat): (n: nat)
  {
    if len > readSize then readSize else len
  }

  /** What every state of the loop satisfies: the array keeps the file's
      length, the stream has delivered all but `len` bytes, `offset` never
      runs ahead of the stream, and while a whole chunk still remains
      `offset + len` is the file's length. */
  ghost predicate Inv(c: seq<bv8>, readSize: nat, s: FillState)
  {
    && |s.buf| == |c|
    && s.pos + s.len == |c|
    && s.offset <= s.pos
    && (s.len > readSize ==> s.offset + s.len == |c|)
  }

  /** The read a pass makes from state s is the one logged in `call`. */
  predicate Admits(readSize: nat, s: FillState, call: ReadCall)
  {
    && s.len > 0
    && call.off == s.offset
    && call.requested == Request(s.len, readSize)
    && call.avail == s.len
    && 1 <= call.got <= call.requested
  }

  /** One pass: the `got` bytes read land at `offset`; `offset` moves on
      only in the `len > readSize` branch, `len` shrinks in both. Every
      write stays inside the array. */
  function Step(c: seq<bv8>, readSize: nat, s: FillState, got: nat): (t: FillState)
    requires Inv(c, readSize, s)
    requires 1 <= got <= Request(s.len, readSize)
    ensures Inv(c, readSize, t)
    ensures s.offset + Request(s.len, readSize) <= |s.buf|
    ensures t.len < s.len && t.pos == s.pos + got
  {
    var offset := if s.len > readSize then s.offset + got else s.offset;
    FillState(Overwrite(s.buf, s.offset, c[s.pos..s.pos + got]), offset, s.len - got, s.pos + got)
  }

  /** Step spelled out field by field, for a state given by its fields
      and with the new `offset` and position named by the caller. */
  lemma StepFields(c: seq<bv8>, readSize: nat, buf: seq<bv8>, offset: nat, len: nat, pos: nat,
                   got: nat, newOffset: nat, newPos: nat)
    requires Inv(c, readSize, FillState(buf, offset, len, pos))
    requires 1 <= got <= Request(len, readSize)
    requires newOffset == if len > readSize then offset + got else offset
    requires newPos == pos + got
    ensures pos + got <= |c| && offset + got <= |buf|
    ensures Step(c, readSize, FillState(buf, offset, len, pos), got)
        == FillState(Overwrite(buf, offset, c[pos..pos + got]), newOffset, len - got, newPos)
  {
  }

  /** The state after the passes whose reads are logged in `calls`, or None
      when the log is not one the loop can produce. Each pass consumes at
      least one byte, so the loop makes at most |c| passes. */
  function Run(c: seq<bv8>, readSize: nat, calls: seq<ReadCall>): (r: Option<FillState>)
    ensures r.Some? ==> Inv(c, readSize, r.value) && |calls| <= r.value.pos
    decreases |calls|
  {
    if calls == [] then Some(Start(c))
    else
      var prev := Run(c, readSize, calls[..|calls| - 1]);
      var call := calls[|calls| - 1];
      if prev.Some? && Admits(readSize, prev.value, call) then
        Some(Step(c, readSize, prev.value, call.got))
      else None
  }

  /** Every read made once no more than a chunk remained (the
      `len <= readSize` branch) returned all it asked for. */
  ghost predicate TailReadsFull(c: seq<bv8>, readSize: nat, calls: seq<ReadCall>)
    decreases |calls|
  {
    if calls == [] then true
    else
      var prev := Run(c, readSize, calls[..|calls| - 1]);
      var call := calls[|calls| - 1];
      && TailReadsFull(c, readSize, calls[..|calls| - 1])
      && (prev.Some? && prev.value.len <= readSize ==> call.got == call.requested)
  }

  /** Full reads are in particular full in the last stretch. */
  lemma {:induction false} FullReadsAreTailFull(c: seq<bv8>, readSize: nat, calls: seq<ReadCall>)
    requires Run(c, readSize, calls).Some?
    requires ReadsFull(calls)
    ensures TailReadsFull(c, readSize, calls)
    decreases |calls|
  {
    if calls != [] {
      var prefix := calls[..|calls| - 1];
      assert ReadsFull(prefix) by {
        forall i | 0 <= i < |prefix| ensures FullRead(prefix[i]) {
          assert prefix[i] == calls[i];
        }
      }
      FullReadsAreTailFull(c, readSize, prefix);
      assert FullRead(calls[|calls| - 1]);
    }
  }

  /** The one-pass step of TailFullReconstructs. */
  lemma StepKeepsFilePrefix(c: seq<bv8>, readSize: nat, p: FillState, g: nat)
    requires Inv(c, readSize, p) && 1 <= g <= Request(p.len, readSize)
    requires p.buf[..p.offset] == c[..p.offset] && p.offset == p.pos
    requires p.len <= readSize ==> g == p.len
    ensures var s := Step(c, readSize, p, g);
      && s.buf[..s.offset] == c[..s.offset]
      && (s.offset == s.pos || (s.len == 0 && s.buf == c))
  {
    var s := Step(c, readSize, p, g);
    var mid := c[p.pos..p.pos + g];
    assert s.buf == c[..p.offset] + mid + p.buf[p.offset + g..];
    if p.len > readSize {
      assert c[..p.offset + g] == c[..p.offset] + mid;
      assert s.buf[..s.offset] == c[..p.offset] + mid;
    } else {
      assert p.offset + g == |c|;
      assert c == c[..p.offset] + mid;
    }
  }

  /** While the reads of the last stretch are full, the array holds the
      file up to `offset` and `offset` keeps up with the stream; once the
      loop has ended it holds exactly the file. */
  lemma {:induction false} TailFullReconstructs(c: seq<bv8>, readSize: nat, calls: seq<ReadCall>)
    requires Run(c, readSize, calls).Some?
    requires TailReadsFull(c, readSize, calls)
    ensures var s := Run(c, readSize, calls).value;
      && s.buf[..s.offset] == c[..s.offset]
      && (s.offset == s.pos || (s.len == 0 && s.buf == c))
      && (s.len == 0 ==> s.buf == c)
    decreases |calls|
  {
    var s := Run(c, readSize, calls).value;
    if calls != [] {
      var prefix := calls[..|calls| - 1];
      TailFullReconstructs(c, readSize, prefix);
      var p := Run(c, readSize, prefix).value;
      StepKeepsFilePrefix(c, readSize, p, calls[|calls| - 1].got);
    }
    if s.len == 0 && s.offset == s.pos {
      assert s.buf == s.buf[..s.offset];
    }
  }

  /** Whenever bytes remain, `offset + len` is still the file's length
      exactly when the reads of the last stretch have all been full: a
      short one there leaves `offset` in place while `len` shrinks. */
  lemma {:induction false} RemainderAlignedIffTailFull(c: seq<bv8>, readSize: nat, calls: seq<ReadCall>)
    requires Run(c, readSize, calls).Some?
    requires Run(c, readSize, calls).value.len > 0
    ensures var s := Run(c, readSize, calls).value;
      TailReadsFull(c, readSize, calls) <==> s.offset + s.len == |c|
    decreases |calls|
  {
    if calls != [] {
      var prefix := calls[..|calls| - 1];
      var p := Run(c, readSize, prefix).value;
      RemainderAlignedIffTailFull(c, readSize, prefix);
    }
  }

  /** The last pass reads the whole remainder, `g` bytes, in the
      `len <= readSize` branch: they are the file's last `g` bytes and
      land at `offset`, which stays where it is. */
  lemma LastStepPlacement(c: seq<bv8>, readSize: nat, p: FillState, g: nat)
    requires Inv(c, readSize, p) && 1 <= g <= Request(p.len, readSize)
    requires p.len == g && p.len <= readSize
    ensures var s := Step(c, readSize, p, g);
      && s.offset == p.offset && s.offset + g <= |c|
      && s.buf[s.offset..s.offset + g] == c[|c| - g..]
  {
    var src := c[p.pos..p.pos + g];
    OverwriteAt(p.buf, p.offset, src);
    assert p.pos == |c| - g;
    assert src == c[|c| - g..];
  }

  /** How the loop ends: the last read returned the whole remainder, and
      its bytes, the file's last `g`, sit at `offset`. That is their place
      exactly when the reads of the last stretch were all full; after a
      short one `offset + g < |c|`, and the file's tail lands too early. */
  lemma {:induction false} FinalReadPlacement(c: seq<bv8>, readSize: nat, calls: seq<ReadCall>)
    requires Run(c, readSize, calls).Some?
    requires Run(c, readSize, calls).value.len == 0
    requires calls != []
    ensures var s := Run(c, readSize, calls).value;
      var g := calls[|calls| - 1].got;
      && s.offset + g <= |c|
      && s.buf[s.offset..s.offset + g] == c[|c| - g..]
      && (TailReadsFull(c, readSize, calls) <==> s.offset + g == |c|)
  {
    var prefix := calls[..|calls| - 1];
    var p := Run(c, readSize, prefix).value;
    var g := calls[|calls| - 1].got;
    assert Run(c, readSize, calls).value == Step(c, readSize, p, g);
    RemainderAlignedIffTailFull(c, readSize, prefix);
    LastStepPlacement(c, readSize, p, g);
  }

  /** Run over a log extended by one read is one more Step. */
  lemma RunSnoc(c: seq<bv8>, readSize: nat, calls: seq<ReadCall>, call: ReadCall)
    requires Run(c, readSize, calls).Some?
    requires Admits(readSize, Run(c, readSize, calls).value, call)
    ensures Run(c, readSize, calls + [call])
         == Some(Step(c, readSize, Run(c, readSize, calls).value, call.got))
  {
    assert (calls + [call])[..|calls|] == calls;
  }

  /** When the loop has stopped (`len` is 0), the array is the file
      whenever the reads of the final stretch, and in particular all reads,
      were full; a zero-length file is never read. */
  lemma FillEnds(c: seq<bv8>, readSize: nat, calls: seq<ReadCall>, s: FillState)
    requires Run(c, readSize, calls) == Some(s) && s.len == 0
    ensures |c| == 0 ==> calls == []
    ensures TailReadsFull(c, readSize, calls) ==> s.buf == c
    ensures ReadsFull(calls) ==> s.buf == c
  {
    if TailReadsFull(c, readSize, calls) {
      TailFullReconstructs(c, readSize, calls);
    }
    if ReadsFull(calls) {
      FullReadsAreTailFull(c, readSize, calls);
      TailFullReconstructs(c, readSize, calls);
    }
  }

  /** From a state Run reached, a read at `offset` of Request(len) bytes
      that returns `got` of them is one more Step. */
  lemma RunStep(c: seq<bv8>, readSize: nat, calls: seq<ReadCall>, buf: seq<bv8>,
                offset: nat, len: nat, pos: nat, requested: nat, got: nat)
    requires Run(c, readSize, calls) == Some(FillState(buf, offset, len, pos))
    requires len > 0 && requested == Request(len, readSize)
    requires 1 <= got <= requested
    ensures Run(c, readSize, calls + [ReadCall(offset, requested, len, got)])
         == Some(Step(c, readSize, FillState(buf, offset, len, pos), got))
  {
    var s := FillState(buf, offset, len, pos);
    assert Inv(c, readSize, s);
    var call := ReadCall(offset, requested, len, got);
    assert Admits(readSize, s, call);
    RunSnoc(c, readSize, calls, call);
  }

  /** A four-byte file with two-byte chunks. The first pass reads the
      first chunk whole; the second asks for the last two bytes and gets
      one, which the `len <= readSize` branch writes at offset 2 without
      moving on; the third pass then writes the fourth byte over it at the
      same offset. The array returned is [1, 2, 4, 0], not the file. */
  const ShortFile: seq<bv8> := [1, 2, 3, 4]
  const ShortCalls: seq<ReadCall> := [ReadCall(0, 2, 4, 2), ReadCall(2, 2, 2, 1), ReadCall(2, 1, 1, 1)]

  lemma ShortStart()
    ensures Run(ShortFile, 2, []) == Some(FillState([0, 0, 0, 0], 0, 4, 0))
  {
    var z := Start(ShortFile).buf;
    assert |z| == 4;
    assert z[0] == 0 && z[1] == 0 && z[2] == 0 && z[3] == 0;
    assert z == [0, 0, 0, 0];
  }

  lemma ShortFirstPass()
    ensures Run(ShortFile, 2, ShortCalls[..1]) == Some(FillState([1, 2, 0, 0], 2, 2, 2))
  {
    var s0: seq<bv8> := [0, 0, 0, 0];
    ShortStart();
    assert ShortCalls[..1] == [] + [ShortCalls[0]];
    RunSnoc(ShortFile, 2, [], ShortCalls[0]);
    assert s0[..0] + ShortFile[0..2] + s0[2..] == [1, 2, 0, 0];
  }

  lemma ShortSecondPass()
    ensures Run(ShortFile, 2, ShortCalls[..2]) == Some(FillState([1, 2, 3, 0], 2, 1, 3))
  {
    ShortFirstPass();
    var s1: seq<bv8> := [1, 2, 0, 0];
    assert ShortCalls[..2] == ShortCalls[..1] + [ShortCalls[1]];
    RunSnoc(ShortFile, 2, ShortCalls[..1], ShortCalls[1]);
    assert s1[..2] + ShortFile[2..3] + s1[3..] == [1, 2, 3, 0];
  }

  lemma ShortFinalReadCorrupts()
    ensures Run(ShortFile, 2, ShortCalls) == Some(FillState([1, 2, 4, 0], 2, 0, 4))
    ensures Run(ShortFile, 2, ShortCalls).value.buf != ShortFile
    ensures !TailReadsFull(ShortFile, 2, ShortCalls)
  {
    ShortSecondPass();
    var s2: seq<bv8> := [1, 2, 3, 0];
    assert ShortCalls == ShortCalls[..2] + [ShortCalls[2]];
    RunSnoc(ShortFile, 2, ShortCalls[..2], ShortCalls[2]);
    assert s2[..2] + ShortFile[3..4] + s2[3..] == [1, 2, 4, 0];
    var s3: seq<bv8> := [1, 2, 4, 0];
    assert s3[2] != ShortFile[2];
  }
}
