/** The callers of the compressor: the zlib-style call, whole inputs to a callback, and from memory to memory. */
module DeflateCalls {
  import opened Wrappers
  import opened Arithmetic
  import opened LzTokens
  import opened BitBuffers
  import opened Inflate
  import opened DeflateWriter
  import opened DeflateOutlet
  import opened LzCompressor
  import opened Adler32

  datatype Answer = Ok | StreamEnd | BufError | StreamError | ParamError

  /** What the compressor is set up with. */
  datatype Flags = Flags(probes: nat, greedy: bool, runs: bool, stored: bool, filter: bool, zlib: bool, staticOnly: bool)

  method NewStream(f: Flags, callback: bool) returns (stream: Stream)
    ensures fresh(stream) && fresh(stream.lz) && fresh(stream.lz.dict) && fresh(stream.lz.chain) && fresh(stream.lz.hash)
    ensures fresh(stream.lz.codes) && fresh(stream.lz.codes.buf) && fresh(stream.lz.codes.mainCount) && fresh(stream.lz.codes.distCount)
    ensures fresh(stream.lz.writer) && fresh(stream.lz.writer.w) && fresh(stream.lz.writer.Arrays()) && fresh(stream.lz.outlet)
    ensures stream.Sound() && stream.status == Okay && !stream.finished && !stream.wantsToFinish && stream.calls == 0
    ensures stream.lz.h == [] && stream.lz.outlet.callback == callback && stream.lz.writer.zlib == f.zlib
    ensures stream.lz.outlet.Open([])
    ensures stream.lz.probesShort == 1 + (f.probes + 2) / 3 && stream.lz.probesLong == 1 + (f.probes / 4 + 2) / 3
    ensures stream.lz.greedy == f.greedy && stream.lz.runsOnly == f.runs && stream.lz.storedOnly == f.stored
    ensures stream.lz.filter == f.filter && stream.lz.writer.forceStatic == f.staticOnly
  {
    hide Compressor.Valid, Compressor.Written, Compressor.Sturdy, Stream.Sound, BlockWriter.Valid, ExpandBlocks;
    var lz := new Compressor(f.probes, f.greedy, f.runs, f.stored, f.filter, f.zlib, f.staticOnly, callback);
    stream := new Stream(lz);
  }

  /** Gives the compressor the whole input and the wish to finish, with a callback for its output: it succeeds exactly if the
      callback never fails, and then the callback has got bytes that inflate to the input. */
  method CompressToOutput(src: seq<Byte>, f: Flags) returns (ok: bool, outlet: Outlet)
    ensures outlet.callback && (ok <==> !outlet.failed)
    ensures ok && (f.zlib ==> |src| / SPACING < 0x1_0000_0000) ==> Decompress(f.zlib, outlet.handed) == Some(src)
  {
    hide Compressor.Valid, Compressor.Written, Compressor.Sturdy, Stream.Sound, BlockWriter.Valid, ExpandBlocks, Decompress, Checksum;
    var stream := NewStream(f, true);
    var consumed, s;
    ghost var held;
    stream.DeliveringIs();
    consumed, s, held := stream.Compress(src, Finish, 0);
    ok, outlet := s == Done, stream.lz.outlet;
    stream.DeliveringIs();
    if ok {
      assert src[..|src|] == src && [] + src == src;
      assert outlet.handed + [] == outlet.handed;
      assert stream.lz.h == src;
      assert stream.Moderate() <==> 1 + |src| / SPACING <= 0x1_0000_0000;
    }
  }

  // ----- the zlib-style call, with a buffer for the output

  /** How much has been handed over since. */
  twostate function Got(stream: Stream): int
    reads stream.lz.outlet
  {
    |stream.lz.outlet.handed| - |old(stream.lz.outlet.handed)|
  }

  /** What holds all through a loop of calls: nothing taken in is lost, and no more is handed over than the buffer takes. */
  twostate predicate Going(stream: Stream, src: seq<Byte>, availOut: nat, consumed: nat)
    reads stream, stream.lz, stream.lz.outlet
  {
    && consumed <= |src| && stream.lz.h == old(stream.lz.h) + src[..consumed]
    && old(stream.lz.outlet.handed) <= stream.lz.outlet.handed && Got(stream) <= availOut
    && !stream.lz.outlet.callback && !stream.lz.outlet.failed
  }

  /** Calls the compressor until it is done, or the output is full, or, unless it is to finish, the input is used up. */
  method Deflate(stream: Stream, src: seq<Byte>, flush: Flush, availOut: nat) returns (answer: Answer, consumed: nat)
    requires stream.Sound() && !stream.lz.outlet.callback
    modifies stream, stream.lz, stream.lz.dict, stream.lz.chain, stream.lz.hash, stream.lz.codes, stream.lz.codes.buf
    modifies stream.lz.codes.mainCount, stream.lz.codes.distCount, stream.lz.writer, stream.lz.writer.w, stream.lz.writer.Arrays()
    modifies stream.lz.outlet
    ensures stream.Sound() && Going(stream, src, availOut, consumed) && stream.calls <= old(stream.calls) + 2
    ensures answer != ParamError && (availOut == 0 ==> answer == BufError && consumed == 0)
    ensures availOut > 0 && old(stream.status) == Done ==> answer == (if flush == Finish then StreamEnd else BufError) && consumed == 0
    ensures availOut > 0 && old(stream.status) != Done ==> (answer == StreamError <==> old(stream.Refuses(flush)))
    ensures availOut > 0 && old(stream.status) != Done && !old(stream.Refuses(flush)) ==>
      (answer == StreamEnd <==> stream.status == Done) && (answer == StreamEnd && !old(stream.finished) ==> consumed == |src|)
      && (stream.lz.outlet.pending != [] ==> Got(stream) == availOut)
      && (answer == BufError ==> flush == NoFlush && src == [] && Got(stream) == 0)
      && (answer == Ok ==> Got(stream) == availOut || (flush != Finish && consumed == |src|))
      && (answer == Ok && flush == FullFlush && Got(stream) < availOut && (src != [] || old(stream.lz.outlet.pending) == []) ==>
            stream.lz.floor == |stream.lz.h|)
      && (answer == Ok && flush != NoFlush && Got(stream) < availOut && (src != [] || old(stream.lz.outlet.pending) == []) ==>
            stream.lz.start == |stream.lz.h|)
  {
    hide Compressor.Valid, Compressor.Written, Compressor.Sturdy, Stream.Sound, BlockWriter.Valid, ExpandBlocks, Decompress, Checksum;
    stream.DeliveringIs();
    consumed := 0;
    assert src[..0] == [] && stream.lz.h + [] == stream.lz.h;
    if availOut == 0 { return BufError, 0; }
    if stream.status == Done { return if flush == Finish then StreamEnd else BufError, 0; }
    var room, rest := availOut, src;
    ghost var first := true;
    while true
      invariant stream.Sound() && Going(stream, src, availOut, consumed) && rest == src[consumed..]
      invariant room == availOut - Got(stream) > 0 && stream.calls == old(stream.calls) + (if first then 0 else 1)
      invariant first ==> consumed == 0 && Got(stream) == 0 && stream.status == old(stream.status) && stream.wantsToFinish == old(stream.wantsToFinish)
      invariant first ==> stream.finished == old(stream.finished) && stream.lz.outlet.pending == old(stream.lz.outlet.pending)
      invariant !first ==> stream.status == Okay && !stream.Refuses(flush) && !old(stream.Refuses(flush)) && !stream.finished
      invariant !first ==> stream.lz.outlet.pending == [] && consumed == 0 && (src == [] ==> flush == Finish) && old(stream.lz.outlet.pending) != []
      decreases first
    {
      var used, s;
      ghost var held;
      stream.DeliveringIs();
      used, s, held := stream.Compress(rest, flush, room);
      stream.DeliveringIs();
      assert src[..consumed + used] == src[..consumed] + rest[..used];
      consumed, room, rest := consumed + used, stream.lz.outlet.room, rest[used..];
      if s == BadParam || s == PutBufFailed { return StreamError, consumed; }
      if s == Done { return StreamEnd, consumed; }
      if room == 0 { return Ok, consumed; }
      if rest == [] && flush != Finish {
        answer := if flush != NoFlush || consumed != 0 || room != availOut then Ok else BufError;
        return;
      }
      first := false;
    }
  }

  /** A stream that is done: what has been handed over is the whole output, and inflates to what has been taken in. */
  lemma DoneMeans(stream: Stream)
    requires stream.Sound() && stream.status == Done
    ensures stream.finished && (stream.lz.writer.zlib ==> stream.Moderate()) ==>
      Decompress(stream.lz.writer.zlib, stream.lz.outlet.handed) == Some(stream.lz.h)
  {
    hide Compressor.Valid, Compressor.Written, Compressor.Sturdy, Stream.Sound, BlockWriter.Valid, ExpandBlocks, Decompress, Checksum;
    stream.DeliveringIs();
    if stream.finished {
      stream.AllDone();
      if stream.Moderate() { stream.FewFlushes(); }
      assert stream.lz.outlet.handed + [] == stream.lz.outlet.handed;
    }
  }

  lemma DoneIsFinished(stream: Stream)
    requires stream.Sound() && stream.status == Done
    ensures stream.finished && Bytes(stream.lz.outlet.handed)
  {
    hide Compressor.Valid, Compressor.Written, Compressor.Sturdy, BlockWriter.Valid, ExpandBlocks, Decompress, Checksum, MarkBits;
    assert stream.lz.writer.w.Valid();
    assert stream.lz.outlet.handed + [] == stream.lz.outlet.handed;
  }

  /** From memory to memory: with room enough what is put there inflates to the input, and without the room is used up. */
  method CompressToMemory(src: seq<Byte>, f: Flags, destLen: nat) returns (answer: Answer, dest: seq<nat>)
    ensures answer == ParamError <==> |src| > 0xFFFF_FFFF || destLen > 0xFFFF_FFFF
    ensures answer != ParamError ==> answer == Ok || answer == BufError
    ensures answer == Ok ==> |dest| <= destLen && Bytes(dest) && Decompress(f.zlib, dest) == Some(src)
    ensures answer == BufError ==> |dest| == destLen
  {
    hide Compressor.Valid, Compressor.Written, Compressor.Sturdy, Stream.Sound, BlockWriter.Valid, ExpandBlocks, Decompress, Checksum, Bytes;
    if |src| > 0xFFFF_FFFF || destLen > 0xFFFF_FFFF { return ParamError, []; }
    var stream := NewStream(f, false);
    var status, consumed := Deflate(stream, src, Finish, destLen);
    dest := stream.lz.outlet.handed;
    if status != StreamEnd { return if status == Ok then BufError else status, dest; }
    answer := Ok;
    assert src[..|src|] == src && [] + src == src;
    assert stream.status == Done && consumed == |src|;
    assert stream.lz.h == src;
    DoneIsFinished(stream);
    assert stream.Moderate();
    DoneMeans(stream);
  }
}
