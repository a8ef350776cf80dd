/** A byte stream shared by several readers through one ring buffer, as a transition system: one step for every
    critical section, the producer's unlocked filling byte by byte. */
module StreamRing {
  import opened Arithmetic

  /** The stream's bytes and the sizes the source is set up with. */
  datatype Config = Config(stream: seq<int>, block: nat, preload: nat, detach: nat, size: nat)

  /** A reader's position, the window it holds behind it, and all it has been handed so far. */
  datatype Reader = Reader(offset: nat, available: nat, waiting: bool, got: seq<int>)

  /** The producer is between blocks, waits for room, fills a reserved region, or has ended. */
  datatype Producer = Idle | Waiting | Filling(length: nat, written: nat) | Ended

  datatype State<K(==)> = State(
    buffer: seq<int>, offset: nat, used: nat, streamEnd: bool, inputGood: bool, readers: map<K, Reader>, producer: Producer)

  function Max(a: nat, b: nat): nat { if a <= b then b else a }

  // ----- sizes

  ghost predicate Sized(c: Config) {
    && c.block > 0 && c.size >= c.detach + c.block && c.detach == c.preload + c.block && c.preload >= c.block
    && c.size % c.block == 0 && c.detach % c.block == 0
  }

  /** Half a minute of data, whole blocks. */
  function Configure(stream: seq<int>, block: nat, rate: nat): (c: Config)
    requires block > 0 && rate > 0
  {
    var count := (rate * 30 + block - 1) / block;
    var preload := Max(count / 10, 1) * block;
    var detach := preload + block;
    Config(stream, block, preload, detach, Max(count * block, detach + block))
  }

  lemma ConfiguredIsSized(stream: seq<int>, block: nat, rate: nat)
    requires block > 0 && rate > 0
    ensures Sized(Configure(stream, block, rate)) && Configure(stream, block, rate).stream == stream
    ensures Configure(stream, block, rate).size >= rate * 30
  {
    var count := (rate * 30 + block - 1) / block;
    var k := Max(count / 10, 1);
    WholeBlocks(block, k);
    MultipleMod(block, count);
    RoundedUp(rate * 30, block);
  }

  lemma WholeBlocks(block: nat, k: nat)
    requires block > 0 && k >= 1
    ensures k * block >= block && (k * block + block) % block == 0 && (k * block + block + block) % block == 0
  {
    MultipleMod(block, k);
    SameMod(k * block, block);
    SameMod(k * block + block, block);
    ProductMonotone(block, 1, k);
  }

  /** Half a minute of data has room, and hardly more; readers wait for a tenth of it, in whole blocks, but for one at least. */
  lemma ConfiguredForRate(stream: seq<int>, block: nat, rate: nat)
    requires block > 0 && rate > 0
    ensures var c := Configure(stream, block, rate);
      && c.block == block && rate * 30 <= c.size && (c.size < rate * 30 + block || c.size == c.detach + block)
      && rate * 30 < 10 * (c.preload + block) && (c.preload == block || 10 * c.preload < rate * 30 + block)
  {
    var count := (rate * 30 + block - 1) / block;
    RoundedUp(rate * 30, block);
    RoundedUpLess(rate * 30, block);
    Tenths(block, count);
  }

  lemma RoundedUpLess(x: nat, n: nat)
    requires n > 0
    ensures (x + n - 1) / n * n < x + n
  {
    var q, r := DivParts(x + n - 1, n);
    assert q * n == n * q;
  }

  lemma Tenths(block: nat, count: nat)
    ensures 10 * (count / 10 * block) <= count * block
    ensures block > 0 ==> count * block < 10 * (Max(count / 10, 1) * block + block)
  {
    var q, r := DivParts(count, 10);
    var k := Max(q, 1);
    ProductMonotone(block, 10 * q, count);
    ProductMonotone(block, count + 1, 10 * (k + 1));
    Products(block, q, count, k);
  }

  lemma Products(block: nat, q: nat, count: nat, k: nat)
    ensures block * (10 * q) == 10 * (q * block) && block * count == count * block
    ensures block * (count + 1) == count * block + block && block * (10 * (k + 1)) == 10 * (k * block + block)
  {
  }

  lemma MultipleMod(block: nat, a: nat)
    requires block > 0
    ensures a * block % block == 0
  {
    if a > 0 {
      MultipleMod(block, a - 1);
      assert a * block == (a - 1) * block + block;
      SameMod((a - 1) * block, block);
    }
  }

  lemma SameMod(x: nat, n: nat)
    requires n > 0
    ensures (x + n) % n == x % n
  {
    var q, r := x / n, x % n;
    assert x + n == (q + 1) * n + r;
    ModUnique(x + n, n, q + 1, r);
  }

  lemma RoundedUp(x: nat, n: nat)
    requires n > 0
    ensures (x + n - 1) / n * n >= x
  {
  }

  // ----- steps

  function Start<K>(c: Config): State<K> {
    State(seq(c.size, _ => 0), 0, 0, false, true, map[], Idle)
  }

  ghost predicate IsLeast<K>(readers: map<K, Reader>, m: nat) {
    && (forall k :: k in readers ==> m <= readers[k].offset)
    && (exists k :: k in readers && readers[k].offset == m)
  }

  /** Whole blocks before m are given up, at first only once m is past the detach threshold. */
  function Proceed<K>(c: Config, s: State<K>, m: nat): (r: State<K>)
    requires c.block > 0 && (s.readers == map[] || m <= s.offset + s.used)
  {
    if s.readers != map[] && m >= s.offset + c.block && (s.offset > 0 || m >= c.detach) then
      var proceed := (m - s.offset) - (m - s.offset) % c.block;
      s.(offset := s.offset + proceed, used := s.used - proceed)
    else s
  }

  ghost predicate Recomputed<K>(c: Config, s: State<K>, s': State<K>) {
    if s.readers == map[] then s' == s
    else c.block > 0 && exists m: nat :: IsLeast(s.readers, m) && m <= s.offset + s.used && s' == Proceed(c, s, m)
  }

  /** Joining succeeds only while nothing has been given up. */
  ghost predicate Attached<K>(c: Config, s: State<K>, s': State<K>, k: K, ok: bool) {
    && k !in s.readers && ok == (s.offset == 0)
    && s' == if ok then s.(readers := s.readers[k := Reader(0, 0, false, [])]) else s
  }

  ghost predicate Detached<K>(c: Config, s: State<K>, s': State<K>, k: K) {
    k in s.readers && Recomputed(c, s.(readers := s.readers - {k}), s')
  }

  /** A reader asks for more: its window is behind it now. */
  function PastWindow(r: Reader): Reader {
    Reader(r.offset + r.available, 0, true, r.got)
  }

  ghost predicate ReadBegun<K>(c: Config, s: State<K>, s': State<K>, k: K) {
    && k in s.readers && !s.readers[k].waiting
    && Recomputed(c, s.(readers := s.readers[k := PastWindow(s.readers[k])]), s')
  }

  predicate MustWait<K>(c: Config, s: State<K>, r: Reader) {
    !s.streamEnd && (s.offset + s.used <= r.offset || (s.offset == 0 && s.used < c.preload))
  }

  function WindowLength<K>(c: Config, s: State<K>, r: Reader): (n: nat)
    requires c.size > 0 && s.offset + s.used > r.offset
  {
    Least(Least(c.size - r.offset % c.size, s.offset + s.used - r.offset), c.block)
  }

  function Handed<K>(c: Config, s: State<K>, r: Reader): (r': Reader)
    requires c.size == |s.buffer| > 0
  {
    if s.offset + s.used > r.offset then
      var n, at := WindowLength(c, s, r), r.offset % c.size;
      Reader(r.offset, n, false, r.got + s.buffer[at..at + n])
    else r.(waiting := false)
  }

  /** The wait is over: the reader gets a window, or learns that there is no more. */
  ghost predicate ReadEnded<K>(c: Config, s: State<K>, s': State<K>, k: K, ok: bool) {
    && c.size == |s.buffer| > 0 && k in s.readers && s.readers[k].waiting && !MustWait(c, s, s.readers[k])
    && ok == (s.offset + s.used > s.readers[k].offset)
    && s' == s.(readers := s.readers[k := Handed(c, s, s.readers[k])])
  }

  predicate HasRoom<K>(c: Config, s: State<K>) {
    s.used + c.block <= c.size
  }

  function WritePos<K>(c: Config, s: State<K>): (p: nat)
    requires c.size > 0
    ensures p < c.size
  {
    (s.offset + s.used) % c.size
  }

  /** The producer looks for room: it reserves a region, or waits. */
  ghost predicate Looked<K>(c: Config, s: State<K>, s': State<K>) {
    && c.size > 0 && (s.producer == Idle || s.producer == Waiting) && !s.streamEnd && s.inputGood
    && s' == s.(producer := if HasRoom(c, s) then Filling(Least(c.block, c.size - WritePos(c, s)), 0) else Waiting)
  }

  /** One more byte has been put into the reserved region, outside the lock. */
  ghost predicate Wrote<K>(c: Config, s: State<K>, s': State<K>) {
    && c.size > 0 && s.producer.Filling? && s.producer.written < s.producer.length
    && s.offset + s.used + s.producer.written < |c.stream|
    && WritePos(c, s) + s.producer.written < |s.buffer|
    && s' == s.(buffer := s.buffer[WritePos(c, s) + s.producer.written := c.stream[s.offset + s.used + s.producer.written]],
                producer := Filling(s.producer.length, s.producer.written + 1))
  }

  /** The input has delivered all that was asked for, or all it had. */
  ghost predicate Committed<K>(c: Config, s: State<K>, s': State<K>) {
    && s.producer.Filling?
    && (s.producer.written == s.producer.length || s.offset + s.used + s.producer.written == |c.stream|)
    && s' == s.(used := s.used + s.producer.written, inputGood := s.producer.written == s.producer.length, producer := Idle)
  }

  ghost predicate EndedStream<K>(c: Config, s: State<K>, s': State<K>) {
    s.producer == Idle && !s.inputGood && s' == s.(streamEnd := true, producer := Ended)
  }

  ghost predicate Next<K>(c: Config, s: State<K>, s': State<K>, k: K, ok: bool) {
    || Attached(c, s, s', k, ok) || Detached(c, s, s', k) || ReadBegun(c, s, s', k) || ReadEnded(c, s, s', k, ok)
    || Looked(c, s, s') || Wrote(c, s, s') || Committed(c, s, s') || EndedStream(c, s, s')
  }

  // ----- what every step keeps

  /** Position p of the stream is in its cell of the ring. */
  ghost predicate InRing(c: Config, buffer: seq<int>, p: nat)
    requires c.size == |buffer| > 0
  {
    p < |c.stream| && buffer[p % c.size] == c.stream[p]
  }

  ghost predicate RingOk(c: Config, buffer: seq<int>, from: nat, to: nat) {
    && c.size == |buffer| > 0 && to <= |c.stream|
    && forall p :: from <= p < to ==> InRing(c, buffer, p)
  }

  ghost predicate ReaderOk(c: Config, from: nat, to: nat, r: Reader)
    requires c.size > 0
  {
    && from <= r.offset && r.offset + r.available <= to <= |c.stream|
    && r.offset % c.size + r.available <= c.size && r.available <= c.block
    && (r.waiting ==> r.available == 0)
    && r.got == c.stream[..r.offset + r.available]
  }

  ghost predicate ProducerOk<K>(c: Config, s: State<K>)
    requires c.size > 0
  {
    && (s.producer.Filling? ==>
          && 1 <= s.producer.length <= c.block && s.used + s.producer.length <= c.size
          && WritePos(c, s) + s.producer.length <= c.size && s.producer.written <= s.producer.length
          && RingOk(c, s.buffer, s.offset, s.offset + s.used + s.producer.written))
    && (!s.inputGood ==> s.offset + s.used == |c.stream| && (s.producer == Idle || s.producer == Ended))
    && (s.streamEnd <==> s.producer == Ended) && (s.streamEnd ==> !s.inputGood)
  }

  /** A reader that holds the given-up position back. */
  ghost predicate HoldsBack(c: Config, offset: nat, r: Reader) {
    r.offset < offset + c.block || (offset == 0 && r.offset < c.detach)
  }

  ghost predicate Tight<K>(c: Config, offset: nat, readers: map<K, Reader>) {
    readers == map[] || exists k :: k in readers && HoldsBack(c, offset, readers[k])
  }

  ghost predicate ReadersOk<K>(c: Config, from: nat, to: nat, readers: map<K, Reader>)
    requires c.size > 0
  {
    forall k :: k in readers ==> ReaderOk(c, from, to, readers[k])
  }

  /** Nothing is given up, or all before the detach threshold. */
  ghost predicate Crossed(c: Config, offset: nat) {
    offset == 0 || offset >= c.detach
  }

  /** No reader has been handed anything before the preload was there, or the stream had ended. */
  ghost predicate Preloaded<K>(c: Config, s: State<K>) {
    c.preload <= s.offset + s.used || s.streamEnd || forall k :: k in s.readers ==> s.readers[k].got == []
  }

  ghost predicate Inv<K>(c: Config, s: State<K>) {
    && Sized(c) && s.used <= c.size && s.offset % c.block == 0 && Crossed(c, s.offset) && Preloaded(c, s)
    && RingOk(c, s.buffer, s.offset, s.offset + s.used)
    && ProducerOk(c, s)
    && ReadersOk(c, s.offset, s.offset + s.used, s.readers)
    && Tight(c, s.offset, s.readers)
  }

  /** All but the last conjunct: what holds until the given-up position has been recomputed. */
  ghost predicate Loose<K>(c: Config, s: State<K>) {
    && Sized(c) && s.used <= c.size && s.offset % c.block == 0 && Crossed(c, s.offset) && Preloaded(c, s)
    && RingOk(c, s.buffer, s.offset, s.offset + s.used)
    && ProducerOk(c, s)
    && ReadersOk(c, s.offset, s.offset + s.used, s.readers)
  }

  lemma StartInv<K>(c: Config)
    requires Sized(c)
    ensures Inv<K>(c, Start(c))
  {
  }

  lemma BlocksGivenUp(c: Config, offset: nat, m: nat)
    requires Sized(c) && offset % c.block == 0 && offset <= m
    ensures var proceed := (m - offset) - (m - offset) % c.block;
      0 <= proceed <= m - offset && m < offset + proceed + c.block && (offset + proceed) % c.block == 0
      && (m >= offset + c.block ==> proceed > 0)
  {
    var d := m - offset;
    var q := d / c.block;
    var a := offset / c.block;
    assert d - d % c.block == q * c.block;
    assert offset == a * c.block;
    assert offset + q * c.block == (a + q) * c.block;
    MultipleMod(c.block, a + q);
    if m >= offset + c.block { assert q >= 1; }
  }

  lemma ReaderStays(c: Config, from: nat, from': nat, to: nat, r: Reader)
    requires c.size > 0 && ReaderOk(c, from, to, r) && from' <= r.offset
    ensures ReaderOk(c, from', to, r)
  {
  }

  /** What giving up whole blocks before m does to the two positions. */
  ghost predicate GivenUp(c: Config, offset: nat, used: nat, m: nat, offset': nat, used': nat) {
    && offset <= offset' && offset' + used' == offset + used && offset' <= m
    && c.block > 0 && offset' % c.block == 0
    && (m < offset' + c.block || (offset' == 0 && m < c.detach))
  }

  lemma ProceedGivesUp<K>(c: Config, s: State<K>, m: nat)
    requires Sized(c) && s.offset % c.block == 0 && s.offset <= m <= s.offset + s.used && s.readers != map[] && Crossed(c, s.offset)
    ensures Crossed(c, Proceed(c, s, m).offset)
    ensures var s' := Proceed(c, s, m);
      && GivenUp(c, s.offset, s.used, m, s'.offset, s'.used)
      && s' == s.(offset := s'.offset, used := s'.used)
  {
    BlocksGivenUp(c, s.offset, m);
    if s.offset == 0 && m >= c.detach { WholeBlocksBelow(c.detach, m, c.block); }
  }

  lemma WholeBlocksBelow(d: nat, m: nat, block: nat)
    requires block > 0 && d % block == 0 && d <= m
    ensures d <= m - m % block
  {
    var q, r := DivParts(m, block);
    var a, z := DivParts(d, block);
    if q < a { ProductMonotone(block, q + 1, a); }
    ProductMonotone(block, a, q);
  }

  lemma RingPart(c: Config, buffer: seq<int>, from: nat, from': nat, to: nat)
    requires RingOk(c, buffer, from, to) && from <= from'
    ensures RingOk(c, buffer, from', to)
  {
  }

  lemma ProducerStays<K>(c: Config, s: State<K>, s': State<K>)
    requires c.size > 0 && ProducerOk(c, s) && s.offset <= s'.offset && s'.offset + s'.used == s.offset + s.used
    requires s' == s.(offset := s'.offset, used := s'.used)
    ensures ProducerOk(c, s')
  {
    hide InRing, RingOk;
    if s.producer.Filling? {
      RingPart(c, s.buffer, s.offset, s'.offset, s.offset + s.used + s.producer.written);
    }
  }

  /** Giving up blocks keeps everything and leaves some reader holding back. */
  lemma RecomputeKeeps<K>(c: Config, s: State<K>, s': State<K>)
    requires Loose(c, s) && Recomputed(c, s, s')
    ensures Inv(c, s') && s'.readers == s.readers && s'.offset + s'.used == s.offset + s.used
    ensures s'.buffer == s.buffer && s'.producer == s.producer && s'.streamEnd == s.streamEnd && s.offset <= s'.offset
  {
    hide InRing, ReaderOk, RingOk, ProducerOk, Proceed;
    if s.readers != map[] {
      var m: nat :| IsLeast(s.readers, m) && m <= s.offset + s.used && s' == Proceed(c, s, m);
      var k :| k in s.readers && s.readers[k].offset == m;
      ReaderAbove(c, s, k);
      ProceedGivesUp(c, s, m);
      assert HoldsBack(c, s'.offset, s'.readers[k]);
      forall j | j in s.readers ensures ReaderOk(c, s'.offset, s'.offset + s'.used, s.readers[j]) {
        ReaderStays(c, s.offset, s'.offset, s.offset + s.used, s.readers[j]);
      }
      RingPart(c, s.buffer, s.offset, s'.offset, s.offset + s.used);
      ProducerStays(c, s, s');
    }
  }

  lemma LeastWithin<K>(c: Config, s: State<K>, m: nat)
    requires Loose(c, s) && IsLeast(s.readers, m)
    ensures s.offset <= m <= s.offset + s.used && c.block > 0
  {
    hide RingOk;
    var k :| k in s.readers && s.readers[k].offset == m;
    ReaderAbove(c, s, k);
  }

  lemma NoReaders<K>(c: Config, s: State<K>)
    requires s.readers == map[]
    ensures Recomputed(c, s, s)
  {
  }

  lemma RecomputedBy<K>(c: Config, s: State<K>, s': State<K>, m: nat)
    requires c.block > 0 && s.readers != map[] && IsLeast(s.readers, m) && m <= s.offset + s.used && s' == Proceed(c, s, m)
    ensures Recomputed(c, s, s')
  {
  }

  lemma ReaderAbove<K>(c: Config, s: State<K>, k: K)
    requires Loose(c, s) && k in s.readers
    ensures s.offset <= s.readers[k].offset && s.readers[k].offset + s.readers[k].available <= s.offset + s.used
  {
    assert ReaderOk(c, s.offset, s.offset + s.used, s.readers[k]);
  }

  lemma AttachKeeps<K>(c: Config, s: State<K>, s': State<K>, k: K, ok: bool)
    requires Inv(c, s) && Attached(c, s, s', k, ok)
    ensures Inv(c, s')
  {
    if ok {
      var r := s'.readers[k];
      assert HoldsBack(c, 0, r);
      assert ReaderOk(c, 0, s.used, r);
    }
  }

  lemma DetachKeeps<K>(c: Config, s: State<K>, s': State<K>, k: K)
    requires Inv(c, s) && Detached(c, s, s', k)
    ensures Inv(c, s')
  {
    hide Inv, Loose, Recomputed;
    WithoutKeeps(c, s, k);
    RecomputeKeeps(c, s.(readers := s.readers - {k}), s');
  }

  lemma WithoutKeeps<K>(c: Config, s: State<K>, k: K)
    requires Inv(c, s)
    ensures Loose(c, s.(readers := s.readers - {k}))
  {
    hide RingOk, ReaderOk, HoldsBack;
  }

  lemma Shape<K>(c: Config, s: State<K>)
    requires Inv(c, s)
    ensures |s.buffer| == c.size > 0 && c.block > 0 && (s.offset == 0 || c.preload <= s.offset)
  {
  }

  lemma BeginKeeps<K>(c: Config, s: State<K>, s': State<K>, k: K)
    requires Inv(c, s) && ReadBegun(c, s, s', k)
    ensures Inv(c, s')
  {
    hide Inv, Loose, Recomputed;
    PastWindowKeeps(c, s, k);
    RecomputeKeeps(c, s.(readers := s.readers[k := PastWindow(s.readers[k])]), s');
  }

  lemma PastWindowKeeps<K>(c: Config, s: State<K>, k: K)
    requires Inv(c, s) && k in s.readers
    ensures Loose(c, s.(readers := s.readers[k := PastWindow(s.readers[k])]))
  {
    var r := s.readers[k];
    assert ReaderOk(c, s.offset, s.offset + s.used, r);
    assert (r.offset + r.available) % c.size < c.size;
    assert ReaderOk(c, s.offset, s.offset + s.used, PastWindow(r));
  }

  lemma EndKeeps<K>(c: Config, s: State<K>, s': State<K>, k: K, ok: bool)
    requires Inv(c, s) && ReadEnded(c, s, s', k, ok)
    ensures Inv(c, s')
    ensures s'.readers[k].got == s.readers[k].got + c.stream[s.readers[k].offset..s'.readers[k].offset + s'.readers[k].available]
    ensures ok ==> s'.readers[k].available > 0
    ensures !ok ==> s.streamEnd && s.readers[k].got == c.stream
  {
    hide Inv, RingOk, ReaderOk, Handed;
    var r := s.readers[k];
    EndFacts(c, s);
    ReaderFacts(c, s, k);
    HandedFacts(c, s, r);
    ReplaceReader(c, s, k, Handed(c, s, r));
  }

  lemma ReaderFacts<K>(c: Config, s: State<K>, k: K)
    requires Inv(c, s) && k in s.readers
    ensures RingOk(c, s.buffer, s.offset, s.offset + s.used) && ReaderOk(c, s.offset, s.offset + s.used, s.readers[k])
    ensures s.offset <= s.readers[k].offset <= s.offset + s.used && c.block > 0
    ensures s.readers[k].waiting ==> s.readers[k].available == 0
    ensures s.readers[k].got == c.stream[..s.readers[k].offset + s.readers[k].available]
  {
  }

  lemma HandedFacts<K>(c: Config, s: State<K>, r: Reader)
    requires RingOk(c, s.buffer, s.offset, s.offset + s.used) && ReaderOk(c, s.offset, s.offset + s.used, r)
    requires c.block > 0 && r.available == 0
    ensures ReaderOk(c, s.offset, s.offset + s.used, Handed(c, s, r)) && Handed(c, s, r).offset == r.offset
    ensures r.offset + Handed(c, s, r).available <= |c.stream|
    ensures Handed(c, s, r).got == r.got + c.stream[r.offset..r.offset + Handed(c, s, r).available]
    ensures s.offset + s.used > r.offset ==> Handed(c, s, r).available > 0
    ensures s.offset + s.used <= r.offset ==> r.offset == s.offset + s.used && Handed(c, s, r).available == 0
    ensures r.offset == |c.stream| ==> r.got == c.stream
  {
    hide InRing;
    if s.offset + s.used > r.offset { HandedBytes(c, s, r); }
  }

  lemma ReplaceReader<K>(c: Config, s: State<K>, k: K, r: Reader)
    requires Inv(c, s) && k in s.readers && ReaderOk(c, s.offset, s.offset + s.used, r) && r.offset == s.readers[k].offset
    requires c.preload <= s.offset + s.used || s.streamEnd
    ensures Inv(c, s.(readers := s.readers[k := r]))
  {
    hide RingOk, ReaderOk, HoldsBack;
    TightStays(c, s, s.(readers := s.readers[k := r]), k);
  }

  lemma EndFacts<K>(c: Config, s: State<K>)
    requires Inv(c, s)
    ensures s.offset + s.used <= |c.stream| && (s.streamEnd ==> s.offset + s.used == |c.stream|)
    ensures |s.buffer| == c.size && (s.offset == 0 || c.preload <= s.offset)
  {
  }

  /** A reader's own step does not change who holds back: its position stays. */
  lemma TightStays<K>(c: Config, s: State<K>, s': State<K>, k: K)
    requires Tight(c, s.offset, s.readers) && k in s.readers && k in s'.readers && s'.offset == s.offset
    requires s'.readers == s.readers[k := s'.readers[k]] && s'.readers[k].offset == s.readers[k].offset
    ensures Tight(c, s'.offset, s'.readers)
  {
    var j :| j in s.readers && HoldsBack(c, s.offset, s.readers[j]);
    assert HoldsBack(c, s.offset, s'.readers[j]);
  }

  /** The window handed out holds the stream's bytes at the reader's position, in one piece. */
  lemma HandedBytes<K>(c: Config, s: State<K>, r: Reader)
    requires RingOk(c, s.buffer, s.offset, s.offset + s.used) && ReaderOk(c, s.offset, s.offset + s.used, r)
    requires c.block > 0 && r.available == 0 && s.offset + s.used > r.offset
    ensures var n, at := WindowLength(c, s, r), r.offset % c.size;
      && 1 <= n <= c.block && at + n <= c.size && r.offset + n <= s.offset + s.used
      && s.buffer[at..at + n] == c.stream[r.offset..r.offset + n]
      && ReaderOk(c, s.offset, s.offset + s.used, Handed(c, s, r))
  {
    var n, at := WindowLength(c, s, r), r.offset % c.size;
    assert at < c.size;
    WindowBytes(c, s.buffer, s.offset, s.offset + s.used, r.offset, n);
    assert c.stream[..r.offset] + c.stream[r.offset..r.offset + n] == c.stream[..r.offset + n];
  }

  lemma WindowBytes(c: Config, buffer: seq<int>, from: nat, to: nat, offset: nat, n: nat)
    requires RingOk(c, buffer, from, to) && from <= offset && offset + n <= to && offset % c.size + n <= c.size
    ensures buffer[offset % c.size..offset % c.size + n] == c.stream[offset..offset + n]
  {
    var at := offset % c.size;
    var window, bytes := buffer[at..at + n], c.stream[offset..offset + n];
    forall i | 0 <= i < n ensures window[i] == bytes[i] {
      ModWithin(offset, i, c.size);
      assert InRing(c, buffer, offset + i);
    }
    assert window == bytes;
  }

  lemma RingWrite(c: Config, buffer: seq<int>, from: nat, to: nat, cell: nat)
    requires RingOk(c, buffer, from, to) && to < from + c.size && to < |c.stream| && cell == to % c.size
    ensures RingOk(c, buffer[cell := c.stream[to]], from, to + 1)
  {
    var buffer' := buffer[cell := c.stream[to]];
    forall p | from <= p < to + 1 ensures InRing(c, buffer', p) {
      if p < to {
        assert InRing(c, buffer, p);
        ModApart(p, to, c.size);
      }
    }
  }

  lemma LookKeeps<K>(c: Config, s: State<K>, s': State<K>)
    requires Inv(c, s) && Looked(c, s, s')
    ensures Inv(c, s')
  {
  }

  lemma WriteKeeps<K>(c: Config, s: State<K>, s': State<K>)
    requires Inv(c, s) && Wrote(c, s, s')
    ensures Inv(c, s')
  {
    hide InRing, ReaderOk, HoldsBack;
    var at := s.offset + s.used + s.producer.written;
    ModWithin(s.offset + s.used, s.producer.written, c.size);
    RingWrite(c, s.buffer, s.offset, at, at % c.size);
    RingFront(c, s'.buffer, s.offset, s.offset + s.used, at + 1);
  }

  lemma RingFront(c: Config, buffer: seq<int>, from: nat, to: nat, to': nat)
    requires RingOk(c, buffer, from, to') && to <= to'
    ensures RingOk(c, buffer, from, to)
  {
  }

  lemma CommitKeeps<K>(c: Config, s: State<K>, s': State<K>)
    requires Inv(c, s) && Committed(c, s, s')
    ensures Inv(c, s')
  {
  }

  // ----- whole runs

  lemma EndStreamKeeps<K>(c: Config, s: State<K>, s': State<K>)
    requires Inv(c, s) && EndedStream(c, s, s')
    ensures Inv(c, s')
  {
    hide InRing, RingOk, ReaderOk, HoldsBack;
  }

  lemma StepKeeps<K>(c: Config, s: State<K>, s': State<K>, k: K, ok: bool)
    requires Inv(c, s) && Next(c, s, s', k, ok)
    ensures Inv(c, s')
  {
    hide Inv, Attached, Detached, ReadBegun, ReadEnded, Looked, Wrote, Committed, EndedStream;
    if Attached(c, s, s', k, ok) { AttachKeeps(c, s, s', k, ok); }
    if Detached(c, s, s', k) { DetachKeeps(c, s, s', k); }
    if ReadBegun(c, s, s', k) { BeginKeeps(c, s, s', k); }
    if ReadEnded(c, s, s', k, ok) { EndKeeps(c, s, s', k, ok); }
    if Looked(c, s, s') { LookKeeps(c, s, s'); }
    if Wrote(c, s, s') { WriteKeeps(c, s, s'); }
    if Committed(c, s, s') { CommitKeeps(c, s, s'); }
    if EndedStream(c, s, s') { EndStreamKeeps(c, s, s'); }
  }

  /** States of a run from the start, whatever the readers do and however the steps interleave. */
  ghost predicate Run<K(!new)>(c: Config, states: seq<State<K>>) {
    && states != [] && states[0] == Start(c)
    && forall i :: 0 < i < |states| ==> Stepped(c, states, i)
  }

  ghost predicate Stepped<K(!new)>(c: Config, states: seq<State<K>>, i: nat)
    requires 0 < i < |states|
  {
    SomeStep(c, states[i - 1], states[i])
  }

  ghost predicate SomeStep<K(!new)>(c: Config, s: State<K>, s': State<K>) {
    exists k, ok :: Next(c, s, s', k, ok)
  }

  /** In every state of every run each reader has been handed a prefix of the stream, from its first byte on,
      and its window holds the bytes that end that prefix. */
  lemma {:induction false} EveryReaderSeesTheStream<K(!new)>(c: Config, states: seq<State<K>>, i: nat)
    requires Sized(c) && Run(c, states) && i < |states|
    ensures Inv(c, states[i])
    ensures forall k :: k in states[i].readers ==>
      var r := states[i].readers[k];
      && r.got <= c.stream && r.offset % c.size + r.available <= |states[i].buffer|
      && states[i].buffer[r.offset % c.size..r.offset % c.size + r.available] == r.got[r.offset..]
  {
    hide Inv, Next;
    if i == 0 {
      StartInv<K>(c);
    } else {
      EveryReaderSeesTheStream(c, states, i - 1);
      assert Stepped(c, states, i);
      var k, ok :| Next(c, states[i - 1], states[i], k, ok);
      StepKeeps(c, states[i - 1], states[i], k, ok);
    }
    WindowsHold(c, states[i]);
  }

  lemma WindowsHold<K>(c: Config, s: State<K>)
    requires Inv(c, s)
    ensures forall k :: k in s.readers ==>
      var r := s.readers[k];
      && r.got <= c.stream && |r.got| == r.offset + r.available && r.offset % c.size + r.available <= |s.buffer|
      && s.buffer[r.offset % c.size..r.offset % c.size + r.available] == r.got[r.offset..]
  {
    hide InRing, ProducerOk, HoldsBack;
    forall k | k in s.readers
      ensures var r := s.readers[k];
        && r.got <= c.stream && |r.got| == r.offset + r.available && r.offset % c.size + r.available <= |s.buffer|
        && s.buffer[r.offset % c.size..r.offset % c.size + r.available] == r.got[r.offset..]
    {
      var r := s.readers[k];
      assert ReaderOk(c, s.offset, s.offset + s.used, r);
      WindowBytes(c, s.buffer, s.offset, s.offset + s.used, r.offset, r.available);
    }
  }

  /** The region the producer fills outside the lock shares no cell with any reader's window. */
  lemma RegionsAreDisjoint<K>(c: Config, s: State<K>, k: K, i: nat, j: nat)
    requires Inv(c, s) && k in s.readers && s.producer.Filling?
    requires i < s.readers[k].available && j < s.producer.length
    ensures s.readers[k].offset % c.size + i != WritePos(c, s) + j
  {
    var r := s.readers[k];
    assert ReaderOk(c, s.offset, s.offset + s.used, r);
    ModWithin(r.offset, i, c.size);
    ModWithin(s.offset + s.used, j, c.size);
    ModApart(r.offset + i, s.offset + s.used + j, c.size);
  }

  /** What a reader holds once its read has ended. */
  lemma WindowTaken<K>(c: Config, s: State<K>, s': State<K>, k: K, ok: bool)
    requires Inv(c, s) && ReadEnded(c, s, s', k, ok)
    ensures Inv(c, s')
    ensures var r, at := s'.readers[k], s'.readers[k].offset % c.size;
      && r.offset == s.readers[k].offset && at + r.available <= |s'.buffer| && r.offset <= |r.got|
      && s'.buffer[at..at + r.available] == r.got[r.offset..] && (ok ==> r.available > 0)
      && (!ok ==> r.got == c.stream)
  {
    hide Inv;
    EndKeeps(c, s, s', k, ok);
    WindowsHold(c, s');
  }

  /** A read fails only at the end of the stream, when the reader has been handed all of it. */
  lemma FailedReadMeansEnd<K>(c: Config, s: State<K>, s': State<K>, k: K)
    requires Inv(c, s) && ReadEnded(c, s, s', k, false)
    ensures s.streamEnd && s'.readers[k].got == c.stream
  {
    hide Inv;
    EndKeeps(c, s, s', k, false);
  }

  /** A successful read hands out at least one byte: the next ones of the stream. */
  lemma SuccessfulReadIsNext<K>(c: Config, s: State<K>, s': State<K>, k: K)
    requires Inv(c, s) && ReadEnded(c, s, s', k, true)
    ensures |s'.readers[k].got| > |s.readers[k].got|
    ensures s.readers[k].got <= s'.readers[k].got <= c.stream
  {
    EndKeeps(c, s, s', k, true);
    WindowsHold(c, s');
    WindowsHold(c, s);
  }

  /** It hands out a whole block, unless the ring or what is there ends before. */
  lemma SuccessfulReadIsFull<K>(c: Config, s: State<K>, s': State<K>, k: K)
    requires Inv(c, s) && ReadEnded(c, s, s', k, true)
    ensures var r := s'.readers[k];
      r.available <= c.block && (r.available == c.block || (r.offset + r.available) % c.size == 0 || r.offset + r.available == s.offset + s.used)
  {
    hide Inv;
    Shape(c, s);
    ToRingEnd(s.readers[k].offset, c.size);
  }

  lemma ToRingEnd(offset: nat, size: nat)
    requires size > 0
    ensures (offset + (size - offset % size)) % size == 0
  {
    var q, r := DivParts(offset, size);
    MultipleMod(size, q + 1);
    assert size * q + size == (q + 1) * size;
  }

  /** The producer waits for room that is not there. */
  ghost predicate ProducerBlocked<K>(c: Config, s: State<K>) {
    s.producer == Waiting && !HasRoom(c, s)
  }

  ghost predicate ReaderBlocked<K>(c: Config, s: State<K>, r: Reader) {
    r.waiting && MustWait(c, s, r)
  }

  /** With a reader attached, the producer never waits for room while all readers wait for data. */
  lemma NoDeadlock<K>(c: Config, s: State<K>)
    requires Inv(c, s) && s.readers != map[] && ProducerBlocked(c, s)
    ensures exists k :: k in s.readers && !ReaderBlocked(c, s, s.readers[k])
  {
    var k :| k in s.readers && HoldsBack(c, s.offset, s.readers[k]);
    assert ReaderOk(c, s.offset, s.offset + s.used, s.readers[k]);
  }

  /** Unless the stream has ended, then, someone can always go on: the producer, or a reader that is not blocked. */
  lemma SomeoneCanGoOn<K>(c: Config, s: State<K>, k: K) returns (s': State<K>)
    requires Inv(c, s) && k in s.readers && s.producer != Ended
    requires forall j :: j in s.readers ==> ReaderBlocked(c, s, s.readers[j])
    ensures s' != s && (Looked(c, s, s') || Wrote(c, s, s') || Committed(c, s, s') || EndedStream(c, s, s'))
  {
    hide InRing, ReaderOk, HoldsBack;
    if ProducerBlocked(c, s) { NoDeadlock(c, s); }
    match s.producer
    case Filling(length, written) =>
      if written == length || s.offset + s.used + written == |c.stream| {
        s' := s.(used := s.used + written, inputGood := written == length, producer := Idle);
      } else {
        s' := s.(buffer := s.buffer[WritePos(c, s) + written := c.stream[s.offset + s.used + written]],
                 producer := Filling(length, written + 1));
      }
    case Idle =>
      if s.inputGood {
        s' := s.(producer := if HasRoom(c, s) then Filling(Least(c.block, c.size - WritePos(c, s)), 0) else Waiting);
      } else {
        s' := s.(streamEnd := true, producer := Ended);
      }
    case Waiting =>
      s' := s.(producer := Filling(Least(c.block, c.size - WritePos(c, s)), 0));
  }

  /** Joining works exactly while the first byte is still there, and a reader that joins starts with it. */
  lemma JoiningReaderStartsAtZero<K>(c: Config, s: State<K>, s': State<K>, k: K, ok: bool)
    requires Inv(c, s) && Attached(c, s, s', k, ok)
    ensures ok <==> s.offset == 0
    ensures ok ==> Inv(c, s') && s'.readers[k].got == [] && RingOk(c, s'.buffer, 0, s'.used)
  {
    hide InRing;
    AttachKeeps(c, s, s', k, ok);
  }

  /** Who joins is let in exactly as long as some reader has not passed the detach threshold. */
  lemma LateReadersAreLetIn<K>(c: Config, s: State<K>, s': State<K>, k: K, ok: bool)
    requires Inv(c, s) && Attached(c, s, s', k, ok) && s.readers != map[]
    ensures ok <==> exists j :: j in s.readers && s.readers[j].offset < c.detach
  {
    hide Inv;
    ThresholdsKept(c, s);
  }

  /** That is so in every state of every run; and no reader has been handed a byte before the preload was there or the stream
      had ended. */
  lemma ThresholdsHold<K(!new)>(c: Config, states: seq<State<K>>, i: nat)
    requires Sized(c) && Run(c, states) && i < |states|
    ensures var s := states[i];
      && (s.offset == 0 || s.offset >= c.detach)
      && (s.readers != map[] ==> (s.offset == 0 <==> exists j :: j in s.readers && s.readers[j].offset < c.detach))
      && (s.offset + s.used < c.preload && !s.streamEnd ==> forall j :: j in s.readers ==> s.readers[j].got == [])
  {
    hide Inv, Run;
    EveryReaderSeesTheStream(c, states, i);
    ThresholdsKept(c, states[i]);
  }

  lemma ThresholdsKept<K>(c: Config, s: State<K>)
    requires Inv(c, s)
    ensures s.offset == 0 || s.offset >= c.detach
    ensures s.readers != map[] ==> (s.offset == 0 <==> exists j :: j in s.readers && s.readers[j].offset < c.detach)
    ensures s.offset + s.used < c.preload && !s.streamEnd ==> forall j :: j in s.readers ==> s.readers[j].got == []
  {
    hide RingOk, ProducerOk;
    if j :| j in s.readers && s.readers[j].offset < c.detach {
      assert ReaderOk(c, s.offset, s.offset + s.used, s.readers[j]);
    }
    if s.offset == 0 && s.readers != map[] {
      var j :| j in s.readers && HoldsBack(c, s.offset, s.readers[j]);
    }
  }
}
