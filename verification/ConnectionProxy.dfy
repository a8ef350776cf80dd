/** The stream source behind the proxy: its methods, one critical section each, carry out the steps of StreamRing. */
module ConnectionProxy {
  import opened Arithmetic
  import opened StreamRing

  class Streambuf {
    var offset: nat
    var available: nat
    /** In the wait loop of a read. */
    var waiting: bool
    ghost var got: seq<int>

    ghost function Value(): Reader
      reads this
    {
      Reader(offset, available, waiting, got)
    }

    constructor ()
      ensures Value() == Reader(0, 0, false, [])
    {
      offset, available, waiting, got := 0, 0, false, [];
    }
  }

  class Source {
    const stream: seq<int>
    const block: nat
    const preload: nat
    const detach: nat
    const buffer: array<int>
    var streamEnd: bool
    var inputGood: bool
    var offset: nat
    var used: nat
    var streambufs: set<Streambuf>
    var producer: Producer

    function Conf(): Config {
      Config(stream, block, preload, detach, buffer.Length)
    }

    ghost function Abs(): State<Streambuf>
      reads this, buffer, streambufs
    {
      State(buffer[..], offset, used, streamEnd, inputGood, map r | r in streambufs :: r.Value(), producer)
    }

    constructor (stream: seq<int>, block: nat, rate: nat)
      requires block > 0 && rate > 0
      ensures Conf() == Configure(stream, block, rate) && Abs() == Start(Conf()) && Inv(Conf(), Abs())
      ensures fresh(buffer)
    {
      var count := (rate * 30 + block - 1) / block;
      var ahead := Max(count / 10, 1) * block;
      this.stream, this.block, preload, detach := stream, block, ahead, ahead + block;
      ConfiguredIsSized(stream, block, rate);
      var size := Max(count * block, ahead + block + block);
      buffer := new int[size](_ => 0);
      streamEnd, inputGood, offset, used, streambufs, producer := false, true, 0, 0, {}, Idle;
      new;
      assert Conf() == Configure(stream, block, rate);
      assert buffer[..] == seq(size, _ => 0);
      assert Abs().readers.Keys == {};
      StartInv<Streambuf>(Conf());
    }

    /** The least position of the attached readers. */
    method LeastOffset() returns (m: nat, none: bool)
      ensures none <==> streambufs == {}
      ensures !none ==> IsLeast(Abs().readers, m)
    {
      m, none := 0, true;
      var rest := streambufs;
      while rest != {}
        invariant rest <= streambufs && (none <==> rest == streambufs)
        invariant forall r :: r in streambufs - rest ==> m <= r.offset
        invariant !none ==> exists r :: r in streambufs - rest && r.offset == m
        decreases |rest|
      {
        var r :| r in rest;
        if none || r.offset < m { m := r.offset; }
        none := false;
        rest := rest - {r};
      }
      if !none {
        ghost var r :| r in streambufs && r.offset == m;
        assert r in Abs().readers && Abs().readers[r].offset == m;
      }
    }

    method RecomputeBufferOffset()
      requires Loose(Conf(), Abs())
      modifies this`offset, this`used
      ensures Recomputed(Conf(), old(Abs()), Abs()) && Inv(Conf(), Abs())
    {
      hide Loose, IsLeast, Recomputed;
      ghost var s := Abs();
      var m, none := LeastOffset();
      if !none {
        assert s.readers.Keys == streambufs;
        LeastWithin(Conf(), s, m);
        if m >= offset + block && (offset > 0 || m >= detach) {
          var proceed := (m - offset) - (m - offset) % block;
          offset := offset + proceed;
          used := used - proceed;
        }
        RecomputedBy(Conf(), s, Abs(), m);
      } else {
        NoReaders(Conf(), s);
      }
      RecomputeKeeps(Conf(), s, Abs());
    }

    method Attach(r: Streambuf) returns (ok: bool)
      requires Inv(Conf(), Abs()) && r !in streambufs && r.Value() == Reader(0, 0, false, [])
      modifies this`streambufs
      ensures Attached(Conf(), old(Abs()), Abs(), r, ok) && Inv(Conf(), Abs())
      ensures old(streambufs) != {} ==> (ok <==> exists b :: b in old(streambufs) && b.offset < detach)
    {
      hide Inv;
      ghost var s := Abs();
      LetIn();
      ok := offset == 0;
      if ok {
        streambufs := streambufs + {r};
        assert Abs().readers == s.readers[r := r.Value()];
      }
      AttachKeeps(Conf(), s, Abs(), r, ok);
    }

    /** The readers, as the ring's law sees them. */
    lemma LetIn()
      requires Inv(Conf(), Abs())
      ensures streambufs != {} ==> (offset == 0 <==> exists b :: b in streambufs && b.offset < detach)
    {
      hide Inv;
      ghost var s := Abs();
      ThresholdsKept(Conf(), s);
      assert s.readers.Keys == streambufs;
      if b :| b in streambufs && b.offset < detach { assert b in s.readers && s.readers[b].offset < detach; }
    }

    method Detach(r: Streambuf)
      requires Inv(Conf(), Abs()) && r in streambufs
      modifies this`streambufs, this`offset, this`used
      ensures Detached(Conf(), old(Abs()), Abs(), r) && Inv(Conf(), Abs())
    {
      hide Inv, Loose, Recomputed;
      ghost var s := Abs();
      WithoutKeeps(Conf(), s, r);
      streambufs := streambufs - {r};
      assert Abs().readers == s.readers - {r};
      assert Abs() == s.(readers := s.readers - {r});
      RecomputeBufferOffset();
    }

    /** The first critical section of a read. */
    method BeginRead(r: Streambuf)
      requires Inv(Conf(), Abs()) && r in streambufs && !r.waiting
      modifies r, this`offset, this`used
      ensures ReadBegun(Conf(), old(Abs()), Abs(), r) && Inv(Conf(), Abs())
    {
      hide Inv, Loose, Recomputed;
      ghost var s := Abs();
      PastWindowKeeps(Conf(), s, r);
      r.offset := r.offset + r.available;
      r.available := 0;
      r.waiting := true;
      assert Abs().readers == s.readers[r := PastWindow(s.readers[r])];
      assert Abs() == s.(readers := s.readers[r := PastWindow(s.readers[r])]);
      RecomputeBufferOffset();
    }

    /** The end of a read: points the reader at the next bytes that lie in one piece, if there are any. */
    method TakeWindow(r: Streambuf) returns (ok: bool, at: nat, length: nat)
      requires buffer.Length > 0 && r in streambufs
      modifies r
      ensures r.Value() == Handed(Conf(), old(Abs()), old(r.Value()))
      ensures r.offset == old(r.offset) && (ok <==> offset + used > r.offset)
      ensures ok ==> at == r.offset % buffer.Length && length == r.available
    {
      r.waiting := false;
      ok, at, length := offset + used > r.offset, 0, 0;
      if ok {
        at := r.offset % buffer.Length;
        length := Least(Least(buffer.Length - at, offset + used - r.offset), block);
        r.available := length;
        r.got := r.got + buffer[at..at + length];
      }
    }

    /** Woken in its wait loop a read goes on waiting, takes a window, or reports the end. */
    method ContinueRead(r: Streambuf) returns (blocked: bool, ok: bool, at: nat, length: nat)
      requires Inv(Conf(), Abs()) && r in streambufs && r.waiting
      modifies r
      ensures blocked <==> MustWait(Conf(), old(Abs()), old(r.Value()))
      ensures blocked ==> Abs() == old(Abs()) && !ok
      ensures !blocked ==> ReadEnded(Conf(), old(Abs()), Abs(), r, ok) && Inv(Conf(), Abs())
      ensures ok ==> at + length <= buffer.Length && length == r.available > 0 && buffer[at..at + length] == r.got[r.offset..]
      ensures !blocked && !ok ==> r.got == stream
      ensures ok ==> streamEnd || preload <= offset + used
    {
      hide Inv, Handed;
      ghost var s := Abs();
      Shape(Conf(), s);
      blocked := !streamEnd && (offset + used <= r.offset || (offset == 0 && used < preload));
      ok, at, length := false, 0, 0;
      if !blocked {
        ok, at, length := TakeWindow(r);
        assert Abs().readers == s.readers[r := Handed(Conf(), s, s.readers[r])];
        assert Abs() == s.(readers := s.readers[r := Handed(Conf(), s, s.readers[r])]);
        WindowTaken(Conf(), s, Abs(), r, ok);
      }
    }

    // ----- the producer

    /** Reserves the next region, or decides to wait. */
    method LookForRoom() returns (found: bool)
      requires Inv(Conf(), Abs()) && (producer == Idle || producer == Waiting) && !streamEnd && inputGood
      modifies this`producer
      ensures Looked(Conf(), old(Abs()), Abs()) && Inv(Conf(), Abs())
      ensures found <==> producer.Filling?
      ensures found <==> used + block <= buffer.Length
      ensures found ==> producer.written == 0 && producer.length <= block
      ensures found ==> producer.length == block || (offset + used) % buffer.Length + producer.length == buffer.Length
    {
      hide RingOk, ReaderOk, ProducerOk, HoldsBack;
      ghost var s := Abs();
      found := used + block <= buffer.Length;
      if found {
        var pos := (offset + used) % buffer.Length;
        producer := Filling(Least(block, buffer.Length - pos), 0);
      } else {
        producer := Waiting;
      }
      LookKeeps(Conf(), s, Abs());
    }

    /** The input puts its next byte into the reserved region. */
    method WriteByte()
      requires Inv(Conf(), Abs()) && producer.Filling? && producer.written < producer.length
      requires offset + used + producer.written < |stream|
      modifies buffer, this`producer
      ensures Wrote(Conf(), old(Abs()), Abs()) && Inv(Conf(), Abs())
    {
      hide RingOk, ReaderOk, HoldsBack;
      ghost var s := Abs();
      var n := producer.written;
      buffer[(offset + used) % buffer.Length + n] := stream[offset + used + n];
      producer := Filling(producer.length, n + 1);
      assert Abs().readers == s.readers;
      WriteKeeps(Conf(), s, Abs());
    }

    method Commit()
      requires Inv(Conf(), Abs()) && producer.Filling?
      requires producer.written == producer.length || offset + used + producer.written == |stream|
      modifies this`used, this`inputGood, this`producer
      ensures Committed(Conf(), old(Abs()), Abs()) && Inv(Conf(), Abs())
    {
      hide RingOk, ReaderOk, ProducerOk, HoldsBack;
      ghost var s := Abs();
      var read := producer.written;
      used := used + read;
      inputGood := read == producer.length;
      producer := Idle;
      CommitKeeps(Conf(), s, Abs());
    }

    method EndStream()
      requires Inv(Conf(), Abs()) && producer == Idle && !inputGood
      modifies this`streamEnd, this`producer
      ensures EndedStream(Conf(), old(Abs()), Abs()) && Inv(Conf(), Abs())
    {
      hide RingOk, ReaderOk, ProducerOk, HoldsBack;
      ghost var s := Abs();
      streamEnd := true;
      producer := Ended;
      EndStreamKeeps(Conf(), s, Abs());
    }
  }
}
