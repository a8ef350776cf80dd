/** The inflater's copying of a match within its output buffer, linear or a ring, against copying byte by byte. */
module MatchCopy {
  import opened Arithmetic
  import opened LzTokens

  // ----- the output buffer

  ghost predicate InBuffer(buf: seq<nat>, h: seq<nat>, p: nat)
    requires |buf| > 0 && p < |h|
  {
    buf[p % |buf|] == h[p]
  }

  /** The buffer holds the last of the output. */
  ghost predicate Holds(buf: seq<nat>, h: seq<nat>) {
    |buf| > 0 && forall p :: 0 <= p < |h| && |h| - |buf| <= p ==> InBuffer(buf, h, p)
  }

  /** One more byte of output, in its cell. */
  lemma HoldsMore(buf: seq<nat>, h: seq<nat>, c: nat, cell: nat)
    requires Holds(buf, h) && cell == |h| % |buf|
    ensures cell < |buf| && Holds(buf[cell := c], h + [c])
  {
    var buf', h' := buf[cell := c], h + [c];
    forall p | 0 <= p < |h'| && |h'| - |buf'| <= p ensures InBuffer(buf', h', p) {
      if p < |h| {
        assert InBuffer(buf, h, p);
        ModApart(p, |h|, |buf|);
      }
    }
  }

  /** The output after k bytes of the match. */
  function After(h: seq<nat>, dist: nat, k: nat): (r: seq<nat>)
    requires 1 <= dist <= |h|
    ensures |r| == |h| + k
  {
    CopyBack(h, dist, k)
  }

  lemma {:induction false} AfterMore(h: seq<nat>, dist: nat, k: nat)
    requires 1 <= dist <= |h|
    ensures After(h, dist, k + 1) == After(h, dist, k) + [After(h, dist, k)[|h| + k - dist]]
    decreases k
  {
    if k > 0 {
      AfterMore(h + [h[|h| - dist]], dist, k - 1);
    }
  }

  /** k bytes of the match have been copied. */
  ghost predicate Copied(buf: seq<nat>, h: seq<nat>, dist: nat, k: nat) {
    1 <= dist <= |h| && dist <= |buf| && Holds(buf, After(h, dist, k))
  }

  /** Copying the next byte from its cell to the next cell. */
  lemma CopyOne(buf: seq<nat>, h: seq<nat>, dist: nat, k: nat, from: nat, to: nat)
    requires Copied(buf, h, dist, k) && from == (|h| + k - dist) % |buf| && to == (|h| + k) % |buf|
    ensures from < |buf| && to < |buf| && Copied(buf[to := buf[from]], h, dist, k + 1)
  {
    var out := After(h, dist, k);
    assert InBuffer(buf, out, |h| + k - dist);
    AfterMore(h, dist, k);
    HoldsMore(buf, out, buf[from], to);
  }

  /** Cells of the match when neither source nor target wraps. */
  ghost predicate Straight(n: nat, h: nat, dist: nat, src: nat, pos: nat, len: nat) {
    n > 0 && 1 <= dist <= h && dist <= n && src + len <= n && pos + len <= n
    && src % n == (h - dist) % n && pos % n == h % n && (src + dist == pos || src + dist == pos + n)
  }

  lemma StraightCells(n: nat, h: nat, dist: nat, src: nat, pos: nat, len: nat, k: nat)
    requires Straight(n, h, dist, src, pos, len) && k < len
    ensures src + k == (h + k - dist) % n && pos + k == (h + k) % n
  {
    SmallMod(src, n);
    SmallMod(pos, n);
    ModWithin(h - dist, k, n);
    ModWithin(h, k, n);
  }

  // ----- the three paths

  method CopyByte(buf: array<nat>, from: nat, to: nat, ghost h: seq<nat>, ghost dist: nat, ghost k: nat)
    requires Copied(buf[..], h, dist, k) && from == (|h| + k - dist) % buf.Length && to == (|h| + k) % buf.Length
    modifies buf
    ensures Copied(buf[..], h, dist, k + 1)
  {
    hide Copied;
    ghost var b := buf[..];
    CopiedShape(b, h, dist, k);
    CopyOne(b, h, dist, k, from, to);
    buf[to] := buf[from];
    assert buf[..] == b[to := b[from]];
  }

  lemma CopiedShape(buf: seq<nat>, h: seq<nat>, dist: nat, k: nat)
    requires Copied(buf, h, dist, k)
    ensures |buf| > 0 && 1 <= dist <= |h| && dist <= |buf|
  {
  }

  /** Three bytes at a time, and then what is left. */
  method CopyThrees(buf: array<nat>, src: nat, pos: nat, counter: nat, ghost h: seq<nat>, ghost dist: nat, ghost k: nat, ghost len: nat)
      returns (pos': nat)
    requires Copied(buf[..], h, dist, k) && k + counter == len && counter >= 3
    requires src >= k && pos >= k && Straight(buf.Length, |h|, dist, src - k, pos - k, len)
    modifies buf
    ensures Copied(buf[..], h, dist, len) && pos' == pos + counter
  {
    hide Copied, Straight;
    ghost var n, s0, p0 := buf.Length, src - k, pos - k;
    var s, left := src, counter;
    ghost var done := k;
    pos' := pos;
    while left > 2
      invariant left >= 0 && done + left == len && s == s0 + done && pos' == p0 + done
      invariant Copied(buf[..], h, dist, done)
      decreases left
    {
      StraightCells(n, |h|, dist, s0, p0, len, done);
      CopyByte(buf, s, pos', h, dist, done);
      StraightCells(n, |h|, dist, s0, p0, len, done + 1);
      CopyByte(buf, s + 1, pos' + 1, h, dist, done + 1);
      StraightCells(n, |h|, dist, s0, p0, len, done + 2);
      CopyByte(buf, s + 2, pos' + 2, h, dist, done + 2);
      s, pos', left, done := s + 3, pos' + 3, left - 3, done + 3;
    }
    pos' := CopyRest(buf, s, pos', left, h, dist, done, len);
  }

  /** None, one or two bytes. */
  method CopyRest(buf: array<nat>, src: nat, pos: nat, counter: nat, ghost h: seq<nat>, ghost dist: nat, ghost k: nat, ghost len: nat)
      returns (pos': nat)
    requires Copied(buf[..], h, dist, k) && k + counter == len && counter < 3
    requires src >= k && pos >= k && Straight(buf.Length, |h|, dist, src - k, pos - k, len)
    modifies buf
    ensures Copied(buf[..], h, dist, len) && pos' == pos + counter
  {
    hide Copied, Straight;
    ghost var n, s0, p0 := buf.Length, src - k, pos - k;
    if counter > 0 {
      StraightCells(n, |h|, dist, s0, p0, len, k);
      CopyByte(buf, src, pos, h, dist, k);
      if counter > 1 {
        StraightCells(n, |h|, dist, s0, p0, len, k + 1);
        CopyByte(buf, src + 1, pos + 1, h, dist, k + 1);
      }
    }
    pos' := pos + counter;
  }

  /** A 32-bit load and store: all four bytes are read before any is written. */
  method CopyWord(buf: array<nat>, src: nat, pos: nat, ghost h: seq<nat>, ghost dist: nat, ghost k: nat, ghost len: nat)
    requires Copied(buf[..], h, dist, k) && k + 4 <= len && dist >= 4
    requires src >= k && pos >= k && Straight(buf.Length, |h|, dist, src - k, pos - k, len)
    requires src + 4 <= buf.Length && pos + 4 <= buf.Length
    modifies buf
    ensures Copied(buf[..], h, dist, k + 4)
  {
    hide Copied, Straight;
    ghost var b := buf[..];
    WordIsBytes(b, src, pos, h, dist, k, len);
    var c0, c1, c2, c3 := buf[src], buf[src + 1], buf[src + 2], buf[src + 3];
    buf[pos] := c0;
    buf[pos + 1] := c1;
    buf[pos + 2] := c2;
    buf[pos + 3] := c3;
    assert buf[..] == b[pos := b[src]][pos + 1 := b[src + 1]][pos + 2 := b[src + 2]][pos + 3 := b[src + 3]];
  }

  /** With the source at least four bytes behind, or ahead, word and bytes agree. */
  lemma WordIsBytes(buf: seq<nat>, src: nat, pos: nat, h: seq<nat>, dist: nat, k: nat, len: nat)
    requires Copied(buf, h, dist, k) && k + 4 <= len && dist >= 4
    requires src >= k && pos >= k && Straight(|buf|, |h|, dist, src - k, pos - k, len)
    ensures src + 4 <= |buf| && pos + 4 <= |buf|
    ensures Copied(buf[pos := buf[src]][pos + 1 := buf[src + 1]][pos + 2 := buf[src + 2]][pos + 3 := buf[src + 3]], h, dist, k + 4)
  {
    hide Copied, Straight;
    Apart(|buf|, |h|, dist, src - k, pos - k, len);
    var b1 := ByteOf(buf, buf, src, pos, h, dist, k, len, 0);
    var b2 := ByteOf(buf, b1, src, pos, h, dist, k, len, 1);
    var b3 := ByteOf(buf, b2, src, pos, h, dist, k, len, 2);
    var b4 := ByteOf(buf, b3, src, pos, h, dist, k, len, 3);
  }

  /** The byte i of the word: as long as its source has not been overwritten, copying it is copying the old byte. */
  lemma ByteOf(buf: seq<nat>, b: seq<nat>, src: nat, pos: nat, h: seq<nat>, dist: nat, k: nat, len: nat, i: nat) returns (b': seq<nat>)
    requires i < 4 && k + 4 <= len && |b| == |buf| && Copied(b, h, dist, k + i)
    requires src >= k && pos >= k && Straight(|buf|, |h|, dist, src - k, pos - k, len)
    requires src + 4 <= |buf| && pos + 4 <= |buf| && b[src + i] == buf[src + i]
    ensures b' == b[pos + i := buf[src + i]] && Copied(b', h, dist, k + i + 1)
  {
    hide Copied, Straight;
    StraightCells(|buf|, |h|, dist, src - k, pos - k, len, k + i);
    CopyOne(b, h, dist, k + i, src + i, pos + i);
    b' := b[pos + i := buf[src + i]];
  }

  lemma Apart(n: nat, h: nat, dist: nat, s0: nat, p0: nat, len: nat)
    requires Straight(n, h, dist, s0, p0, len) && dist >= 4
    ensures s0 + len <= n && p0 + len <= n
    ensures s0 + 1 != p0 && s0 + 2 != p0 && s0 + 3 != p0
  {
  }

  lemma StraightBounds(n: nat, h: nat, dist: nat, src: nat, pos: nat, len: nat)
    requires Straight(n, h, dist, src, pos, len)
    ensures src + len <= n && pos + len <= n
  {
  }

  /** Eight bytes at a time while source and target cannot overlap, and then what is left. */
  method CopyEights(buf: array<nat>, src: nat, pos: nat, counter: nat, ghost h: seq<nat>, ghost dist: nat) returns (pos': nat)
    requires Copied(buf[..], h, dist, 0) && 9 <= counter <= dist
    requires Straight(buf.Length, |h|, dist, src, pos, counter)
    modifies buf
    ensures Copied(buf[..], h, dist, counter) && pos' == pos + counter
  {
    hide Copied, Straight;
    var whole, left := counter / 8, counter % 8;
    var s, end := src, src + 8 * whole;
    ghost var done, round := 0, 0;
    pos' := pos;
    StraightBounds(buf.Length, |h|, dist, src, pos, counter);
    while s < end
      invariant s == src + done && pos' == pos + done && done == 8 * round && 0 <= round <= whole
      invariant Copied(buf[..], h, dist, done)
      decreases end - s
    {
      round := round + 1;
      CopyWord(buf, s, pos', h, dist, done, counter);
      CopyWord(buf, s + 4, pos' + 4, h, dist, done + 4, counter);
      s, pos', done := s + 8, pos' + 8, done + 8;
    }
    if left < 3 {
      pos' := CopyRest(buf, s, pos', left, h, dist, done, counter);
    } else {
      pos' := CopyThrees(buf, s, pos', left, h, dist, done, counter);
    }
  }

  /** Where the slow path stands: the count goes on past the end of a ring, the cursor is set back. */
  ghost predicate SlowAt(n: nat, h: nat, k: nat, count: nat, cur: nat, wrapping: bool) {
    n > 0 && cur <= n && (if wrapping then count % n == (h + k) % n && cur % n == (h + k) % n else count == cur == h + k)
  }

  lemma SlowCells(n: nat, h: nat, dist: nat, k: nat, count: nat, cur: nat, wrapping: bool)
    requires SlowAt(n, h, k, count, cur, wrapping) && 1 <= dist <= h && cur < n
    ensures cur == (h + k) % n
    ensures (if wrapping then (count - dist) % n else count - dist) == (h + k - dist) % n
  {
    SmallMod(cur, n);
    if wrapping {
      SameDifference(count, h + k, dist, n);
    } else {
      SmallMod(cur - dist, n);
    }
  }

  lemma SameDifference(a: int, b: int, dist: nat, n: nat)
    requires n > 0 && a % n == b % n
    ensures (a - dist) % n == (b - dist) % n
  {
    var d := a / n - b / n;
    assert a - b == d * n;
    ShiftMod(b - dist, d, n);
  }

  lemma ShiftMod(x: int, d: int, n: nat)
    requires n > 0
    ensures (x + d * n) % n == x % n
  {
    var q, r := x / n, x % n;
    var q', r' := (x + d * n) / n, (x + d * n) % n;
    var e := q' - q - d;
    assert e * n == r - r';
    assert e > 0 ==> e * n >= n;
    assert e < 0 ==> e * n <= -(n as int);
  }

  lemma SlowNext(n: nat, h: nat, k: nat, count: nat, cur: nat, wrapping: bool, next: nat)
    requires SlowAt(n, h, k, count, cur, wrapping) && cur < n && next == k + 1
    ensures SlowAt(n, h, next, count + 1, cur + 1, wrapping)
  {
    if wrapping {
      SameNext(count, h + k, n);
      SameNext(cur, h + k, n);
    }
  }

  lemma SameNext(a: nat, b: nat, n: nat)
    requires n > 0 && a % n == b % n
    ensures (a + 1) % n == (b + 1) % n
  {
    var d := a / n - b / n;
    assert a - b == d * n;
    ShiftMod(b + 1, d, n);
  }

  lemma SetBack(n: nat, h: nat, k: nat, count: nat, cur: nat)
    requires SlowAt(n, h, k, count, cur, true) && cur == n
    ensures SlowAt(n, h, k, count, 0, true)
  {
    SmallMod(0, n);
    ShiftMod(0, 1, n);
  }

  /** Byte by byte through the mask. A full ring is taken away and the cursor set back to its start; a full linear
      buffer ends the copying. */
  method CopySlowly(buf: array<nat>, pos: nat, dist: nat, counter: nat, wrapping: bool, ghost h: seq<nat>)
      returns (pos': nat, left: nat)
    requires Copied(buf[..], h, dist, 0) && SlowAt(buf.Length, |h|, 0, pos, pos, wrapping)
    modifies buf
    ensures left <= counter && Copied(buf[..], h, dist, counter - left)
    ensures wrapping ==> left == 0 && pos' <= buf.Length && pos' % buf.Length == (|h| + counter) % buf.Length
    ensures !wrapping ==> pos' == pos + (counter - left) && (left > 0 ==> pos' == buf.Length)
  {
    hide Copied, SlowAt;
    var count: nat := pos;
    ghost var k: nat := 0;
    pos', left := pos, counter;
    CopiedShape(buf[..], h, dist, 0);
    SlowShape(buf.Length, |h|, k, count, pos', wrapping);
    while left > 0
      invariant left <= counter && k == counter - left && Copied(buf[..], h, dist, k)
      invariant SlowAt(buf.Length, |h|, k, count, pos', wrapping)
      decreases left
    {
      SlowShape(buf.Length, |h|, k, count, pos', wrapping);
      if pos' >= buf.Length {
        if !wrapping { return; }
        SetBack(buf.Length, |h|, k, count, pos');
        pos' := 0;
      }
      SlowCells(buf.Length, |h|, dist, k, count, pos', wrapping);
      SlowNext(buf.Length, |h|, k, count, pos', wrapping, k + 1);
      var from: int := if wrapping then (count - dist) % buf.Length else count - dist;
      CopyByte(buf, from, pos', h, dist, k);
      pos', count, left, k := pos' + 1, count + 1, left - 1, k + 1;
    }
    SlowShape(buf.Length, |h|, k, count, pos', wrapping);
  }

  lemma SlowShape(n: nat, h: nat, k: nat, count: nat, cur: nat, wrapping: bool)
    requires SlowAt(n, h, k, count, cur, wrapping)
    ensures n > 0 && cur <= n && (!wrapping ==> count == cur == h + k)
    ensures wrapping ==> cur % n == (h + k) % n
  {
  }

  lemma NothingCopied(buf: seq<nat>, h: seq<nat>, dist: nat)
    requires Holds(buf, h) && 1 <= dist <= |h| && dist <= |buf|
    ensures Copied(buf, h, dist, 0)
  {
  }

  lemma SourceCell(n: nat, h: nat, dist: nat, pos: nat, counter: nat, wrapping: bool, src: nat)
    requires SlowAt(n, h, 0, pos, pos, wrapping) && 1 <= dist <= h && dist <= n
    requires src == (if wrapping then (pos - dist) % n else pos - dist) && src + counter <= n && pos + counter <= n && counter > 0
    ensures Straight(n, h, dist, src, pos, counter)
  {
    if wrapping {
      SameDifference(pos, h, dist, n);
      SmallMod(src, n);
      if dist <= pos { SmallMod(pos - dist, n); } else {
        ShiftMod(pos - dist, 1, n);
        SmallMod(pos - dist + n, n);
      }
    }
  }

  /** How many bytes the loop over three bytes and the conditions behind it put out: the loop runs once before it looks. */
  function ThreesWritten(counter: nat): nat {
    3 + if counter > 5 then ThreesWritten(counter - 3) else if counter > 3 then counter - 3 else 0
  }

  /** They are as many as asked for just if these are three at least. */
  lemma {:induction false} ThreesWrittenIs(counter: nat)
    ensures ThreesWritten(counter) == counter <==> counter >= 3
    ensures counter < 3 ==> ThreesWritten(counter) == 3
  {
    if counter > 5 { ThreesWrittenIs(counter - 3); }
  }

  /** Where a match starts in the buffer. */
  function SourceAt(n: nat, pos: nat, dist: nat, wrapping: bool): int
    requires n > 0
  {
    if wrapping then (pos - dist) % n else pos - dist
  }

  /** Source or target comes too near to the end of the buffer for a straight copy. */
  predicate Crowded(n: nat, pos: nat, dist: nat, counter: nat, wrapping: bool)
    requires n > 0
  {
    (if pos < SourceAt(n, pos, dist, wrapping) then SourceAt(n, pos, dist, wrapping) else pos) + counter > n
  }

  /** Copies a match by whichever path its place allows: the output grows by what copying byte by byte would add. No match
      of the format is shorter than three bytes; the source would copy three for one that is, and straight: `right` says
      that it is not so, and the method stops where it is. */
  method CopyMatch(buf: array<nat>, pos: nat, dist: nat, counter: nat, wrapping: bool, ghost h: seq<nat>)
      returns (right: bool, pos': nat, left: nat)
    requires Holds(buf[..], h) && 1 <= dist <= |h| && dist <= buf.Length
    requires pos <= buf.Length && if wrapping then pos % buf.Length == |h| % buf.Length else pos == |h|
    modifies buf
    ensures right <==> ThreesWritten(counter) == counter || Crowded(buf.Length, pos, dist, counter, wrapping)
    ensures right ==> left <= counter && Holds(buf[..], CopyBack(h, dist, counter - left))
    ensures right && wrapping ==> left == 0 && pos' <= buf.Length && pos' % buf.Length == (|h| + counter) % buf.Length
    ensures right && !wrapping ==> pos' == pos + (counter - left) && (left > 0 ==> pos' == buf.Length)
  {
    hide Holds;
    NothingCopied(buf[..], h, dist);
    ThreesWrittenIs(counter);
    right, left := true, 0;
    var src: int := if wrapping then (pos - dist) % buf.Length else pos - dist;
    if (if pos < src then src else pos) + counter > buf.Length {
      pos', left := CopySlowly(buf, pos, dist, counter, wrapping, h);
      return;
    }
    if counter < 3 { return false, pos, counter; }
    SourceCell(buf.Length, |h|, dist, pos, counter, wrapping, src);
    if counter >= 9 && counter <= dist {
      pos' := CopyEights(buf, src, pos, counter, h, dist);
    } else {
      pos' := CopyThrees(buf, src, pos, counter, h, dist, 0, counter);
    }
    if wrapping { EndCell(pos, |h|, counter, buf.Length); }
  }

  lemma EndCell(pos: nat, h: nat, counter: nat, n: nat)
    requires n > 0 && pos % n == h % n
    ensures (pos + counter) % n == (h + counter) % n
  {
    var d := pos / n - h / n;
    assert pos - h == d * n;
    ShiftMod(h + counter, d, n);
  }

  /** In a linear buffer that is: the bytes in front of the cursor are the output. */
  lemma LinearOutput(buf: seq<nat>, h: seq<nat>)
    requires Holds(buf, h) && |h| <= |buf|
    ensures buf[..|h|] == h
  {
    forall p | 0 <= p < |h| ensures buf[p] == h[p] {
      assert InBuffer(buf, h, p);
      SmallMod(p, |buf|);
    }
  }
}
