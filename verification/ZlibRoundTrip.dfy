/** Compressing and inflating again. */
module ZlibRoundTrip {
  import opened Wrappers
  import opened BitBuffers
  import opened Inflate
  import opened BitReaders
  import opened Inflater
  import opened DeflateWriter
  import opened LzTokens
  import opened LzCompressor
  import opened DeflateCalls
  import opened Adler32

  lemma WholeIfInflated(bytes: seq<nat>, room: nat)
    requires InflateZlib(bytes).Some? && |InflateZlib(bytes).value| <= room
    ensures WholeInput(bytes, room)
  {
    hide InflateFrom, Checksum, BytesOf, BigEndian;
  }

  /** Inflates from memory to memory. */
  method InflateToMemory(bytes: seq<nat>, zlib: bool, output: array<nat>, ghost result: seq<nat>) returns (ok: bool, length: nat)
    requires Bytes(bytes) && Decompress(zlib, bytes) == Some(result) && |result| <= output.Length
    modifies output
    ensures ok && length <= output.Length && output[..length] == result
  {
    hide InflateZlib, WholeInput, InflateFrom, Bytes, Ahead;
    var d := new Decompressor(bytes, output);
    assert output[..0] == [];
    if zlib {
      WholeIfInflated(bytes, output.Length);
      ok := d.RunZlib();
    } else {
      ghost var inflated := InflateFrom(ByteBits(bytes), []);
      d.Run(inflated.out, inflated.rest);
      ok := true;
    }
    length := d.cursor;
  }

  /** What a finished compressor has put out inflates to what it was given, in however many calls. */
  method CompressedAndInflated(stream: Stream, output: array<nat>) returns (ok: bool, length: nat)
    requires stream.Sound() && stream.finished && |stream.lz.h| <= output.Length
    requires stream.lz.writer.zlib ==> stream.lz.writer.flushes <= 0x1_0000_0000
    modifies output
    ensures ok && length <= output.Length && output[..length] == old(stream.lz.h)
  {
    hide Compressor.Valid, Decompress, Bytes, ExpandBlocks, Checksum;
    stream.AllDone();
    BytesOut(stream.lz.writer.w);
    ok, length := InflateToMemory(stream.lz.writer.w.out, stream.lz.writer.zlib, output, stream.lz.h);
  }

  /** From memory to memory and back: if the compressed bytes have room, inflating them gives the input. */
  method CompressAndBack(src: seq<Byte>, f: Flags, destLen: nat, output: array<nat>) returns (answer: Answer, dest: seq<nat>)
    requires |src| <= output.Length
    modifies output
    ensures answer == Ok ==> |dest| <= destLen && output[..|src|] == src
    ensures answer == BufError ==> |dest| == destLen
    ensures answer == ParamError <==> |src| > 0xFFFF_FFFF || destLen > 0xFFFF_FFFF
    ensures answer == Ok || answer == BufError || answer == ParamError
  {
    hide Decompress, Bytes;
    answer, dest := CompressToMemory(src, f, destLen);
    if answer == Ok {
      var ok, length := InflateToMemory(dest, f.zlib, output, src);
    }
  }

  lemma BytesOut(w: BitWriter)
    requires w.Valid()
    ensures Bytes(w.out)
  {
  }
}
