/** Where a compressor's output goes: to a callback, or to a buffer that the caller gives anew with every call. */
module DeflateOutlet {
  import opened Arithmetic

  lemma Split(front: seq<nat>, bytes: seq<nat>, k: nat)
    requires k <= |bytes|
    ensures (front + bytes[..k]) + bytes[k..] == front + bytes
    ensures k == 0 ==> front + bytes[..k] == front && bytes[k..] == bytes
  {
  }

  class Outlet {
    const callback: bool
    /** What is left of the buffer given with this call. */
    var room: nat
    /** All bytes the callback has taken, or that have been copied to the caller's buffers. */
    var handed: seq<nat>
    /** Bytes of the last flush that found no room. */
    var pending: seq<nat>
    /** The callback has refused bytes. */
    var failed: bool

    ghost function All(): seq<nat>
      reads this
    {
      handed + pending
    }

    /** How much will have been handed over when the buffer is full. */
    ghost function Reach(): nat
      reads this
    {
      if callback then 0 else |handed| + room
    }

    /** Ready for another flush: nothing waits to be copied, nothing has been lost. */
    ghost predicate Open(out: seq<nat>)
      reads this
    {
      !failed && pending == [] && handed == out
    }

    constructor (callback: bool)
      ensures this.callback == callback && Open([])
    {
      this.callback, room, handed, pending, failed := callback, 0, [], [], false;
    }

    /** A call begins. */
    method Give(size: nat)
      modifies this`room
      ensures room == size
    {
      room := size;
    }

    /** The end of a flush that has put out these bytes. A callback takes all or refuses; to a buffer goes what has room. */
    method Emit(bytes: seq<nat>) returns (n: int)
      requires pending == [] && !failed
      modifies this
      ensures n == (if failed then -1 else |pending|) && (failed ==> callback && bytes != []) && (callback ==> pending == [])
      ensures !failed ==> All() == old(handed) + bytes && |handed| == |old(handed)| + (if callback then |bytes| else Least(|bytes|, old(room)))
      ensures (failed ==> handed == old(handed)) && old(handed) <= handed
      ensures Reach() == old(Reach()) && (pending != [] ==> room == 0)
    {
      if bytes == [] {
        assert handed + bytes == handed;
        return 0;
      }
      if callback {
        var taken: bool := *;
        if taken { handed := handed + bytes; } else { failed := true; }
        return if failed then -1 else 0;
      }
      var copied := Least(|bytes|, room);
      Split(handed, bytes, copied);
      handed, pending, room := handed + bytes[..copied], bytes[copied..], room - copied;
      n := |pending|;
    }

    /** Copies what was left over, as far as there is room. */
    method Drain()
      modifies this`room, this`handed, this`pending
      ensures All() == old(All()) && |handed| == |old(handed)| + Least(old(room), |old(pending)|)
      ensures (!callback ==> Reach() == old(Reach())) && (pending != [] ==> room == 0) && old(handed) <= handed
      ensures old(room) == 0 ==> pending == old(pending) && handed == old(handed)
    {
      var copied := Least(room, |pending|);
      Split(handed, pending, copied);
      handed, pending, room := handed + pending[..copied], pending[copied..], room - copied;
    }
  }
}
