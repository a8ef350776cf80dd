/** The match finder: hash chains over the mirrored ring, what they hold, and the longest match they lead to. */
module LzMatch {
  import opened Wrappers
  import opened Arithmetic
  import opened LzTokens
  import opened LzWindow

  const HASH_SIZE: nat := 32768
  const HASH_SHIFT_FACTOR: nat := 32
  /** Longer matches are not deferred. */
  const LAZY_LIMIT: nat := 128

  /** Positions are kept modulo 2^32; what lies ahead and what may be referred to share the ring. */
  ghost predicate Positions(h: seq<nat>, floor: nat, pos32: nat, lookahead: nat, dictSize: nat) {
    && lookahead <= MAX_MATCH && lookahead <= |h|
    && pos32 == (|h| - lookahead) % 0x1_0000_0000
    && floor + dictSize <= |h| - lookahead && dictSize + lookahead <= DICT_SIZE
  }

  /** A match of what lies ahead that the ring still holds. */
  ghost predicate GoodMatch(h: seq<nat>, at: nat, dictSize: nat, dist: nat, len: nat) {
    Matches(h, at, dist, len) && 1 <= dist <= dictSize && MIN_MATCH <= len <= MAX_MATCH
  }

  // ----- hashes

  function Xor(a: nat, b: nat): nat
    decreases a + b
  {
    if a == 0 && b == 0 then 0 else (if a % 2 != b % 2 then 1 else 0) + 2 * Xor(a / 2, b / 2)
  }

  function HashStep(hash: nat, c: nat): (r: nat)
    ensures r < HASH_SIZE
  {
    Xor(hash * HASH_SHIFT_FACTOR, c) % HASH_SIZE
  }

  lemma XorStep(a: nat, b: nat)
    ensures Xor(a, b) == (if a % 2 != b % 2 then 1 else 0) + 2 * Xor(a / 2, b / 2)
  {
    if a == 0 && b == 0 { assert Xor(0, 0) == 0; }
  }

  lemma XorTwice(a: nat, b: nat)
    ensures Xor(2 * a, 2 * b) == 2 * Xor(a, b)
  {
    hide Xor;
    XorStep(2 * a, 2 * b);
  }

  lemma XorShift(a: nat, b: nat)
    ensures Xor(32 * a, 32 * b) == 32 * Xor(a, b)
  {
    hide Xor;
    XorTwice(a, b);
    XorTwice(2 * a, 2 * b);
    XorTwice(4 * a, 4 * b);
    XorTwice(8 * a, 8 * b);
    XorTwice(16 * a, 16 * b);
  }

  lemma {:induction false} XorZero(b: nat)
    ensures Xor(0, b) == b
  {
    if b > 0 { XorZero(b / 2); }
  }

  lemma LowAndRest(a: nat, m: nat)
    requires m > 0
    ensures a % (2 * m) == a % 2 + 2 * (a / 2 % m)
    ensures a % (2 * m) % 2 == a % 2 && a % (2 * m) / 2 == a / 2 % m
  {
    var q, r := DivParts(a / 2, m);
    assert a == 2 * (a / 2) + a % 2 && 2 * (m * q) == q * (2 * m);
    ModUnique(a, 2 * m, q, 2 * r + a % 2);
  }

  /** Low bits depend on low bits only. */
  lemma {:induction false} XorMod(a: nat, b: nat, n: nat)
    ensures Xor(a, b) % Pow2(n) == Xor(a % Pow2(n), b % Pow2(n))
  {
    hide Xor;
    if n == 0 {
      NothingXored();
    } else {
      var m := Pow2(n - 1);
      XorMod(a / 2, b / 2, n - 1);
      LowAndRest(a, m);
      LowAndRest(b, m);
      XorStep(a, b);
      XorStep(a % (2 * m), b % (2 * m));
      LowAndRest(Xor(a, b), m);
    }
  }

  lemma NothingXored()
    ensures Xor(0, 0) == 0
  {
  }

  lemma XorHash(a: nat, b: nat)
    ensures Xor(a, b) % HASH_SIZE == Xor(a % HASH_SIZE, b % HASH_SIZE)
  {
    hide Xor;
    assert Pow2(15) == HASH_SIZE;
    XorMod(a, b, 15);
  }

  /** The hash of the three bytes from p on. */
  function Hash3(h: seq<nat>, p: nat): (r: nat)
    requires p + 3 <= |h|
    ensures r < HASH_SIZE
  {
    Xor(Xor(h[p] * 1024, h[p + 1] * 32), h[p + 2]) % HASH_SIZE
  }

  /** The last two bytes are in the hash. */
  ghost predicate RollReady(bucket: nat, h: seq<nat>) {
    |h| >= 2 && bucket * 32 % HASH_SIZE == Xor(h[|h| - 2] * 1024, h[|h| - 1] * 32) % HASH_SIZE
  }

  lemma RollStarts(h: seq<nat>, a: nat, b: nat)
    requires |h| >= 2 && a == h[|h| - 2] && b == h[|h| - 1]
    ensures RollReady(Xor(a * HASH_SHIFT_FACTOR, b), h)
  {
    hide Xor;
    XorShift(a * 32, b);
  }

  lemma ModTimes(z: nat)
    ensures z % HASH_SIZE * 32 % HASH_SIZE == z * 32 % HASH_SIZE
  {
    var q, r := DivParts(z, HASH_SIZE);
    var q', r' := DivParts(r * 32, HASH_SIZE);
    ModUnique(z * 32, HASH_SIZE, 32 * q + q', r');
  }

  /** A byte more: the hash is that of the last three bytes. */
  lemma RollOn(bucket: nat, h: seq<nat>, c: nat)
    requires RollReady(bucket, h)
    ensures HashStep(bucket, c) == Hash3(h + [c], |h| - 2) && RollReady(HashStep(bucket, c), h + [c])
  {
    hide Xor;
    var a, b := h[|h| - 2], h[|h| - 1];
    var z := Xor(Xor(a * 1024, b * 32), c);
    XorHash(bucket * 32, c);
    XorHash(Xor(a * 1024, b * 32), c);
    RollShift(a, b, c);
    ModTimes(z);
  }

  lemma RollShift(a: nat, b: nat, c: nat)
    ensures Xor(Xor(a * 1024, b * 32), c) * 32 % HASH_SIZE == Xor(b * 1024, c * 32) % HASH_SIZE
  {
    hide Xor;
    XorShift(Xor(a * 1024, b * 32), c);
    XorShift(a * 1024, b * 32);
    XorHash(Xor(a * 32768, b * 1024), c * 32);
    XorHash(a * 32768, b * 1024);
    ModUnique(a * 32768, HASH_SIZE, a, 0);
    XorZero(b * 1024 % HASH_SIZE);
    XorHash(b * 1024, c * 32);
  }

  // ----- what the chains hold

  /** The last position of a stretch whose three bytes have this hash, or -1. */
  ghost function LastWith(h: seq<nat>, from: nat, end: int, x: nat): (p: int)
    requires end + 2 <= |h|
    ensures p == -1 || (from <= p < end && Hash3(h, p) == x)
    ensures forall q :: from <= q < end && Hash3(h, q) == x ==> q <= p
    decreases end
  {
    if end <= from then -1 else if Hash3(h, end - 1) == x then end - 1 else LastWith(h, from, end - 1, x)
  }

  /** Positions have 16 bits; 0 is for none as well. */
  function Slot(p: int): nat { if p < 0 then 0 else p % 65536 }

  ghost predicate Headed(hash: seq<nat>, h: seq<nat>, floor: nat, x: nat)
    requires |hash| == HASH_SIZE && x < HASH_SIZE
  {
    hash[x] == Slot(LastWith(h, floor, |h| - 2, x))
  }

  ghost predicate Chained(chain: seq<nat>, h: seq<nat>, floor: nat, p: nat)
    requires |chain| == DICT_SIZE && p + 3 <= |h|
  {
    chain[p % DICT_SIZE] == Slot(LastWith(h, floor, p, Hash3(h, p)))
  }

  /** Each bucket has the last position with its hash, and each position the one before it with the same hash. */
  ghost predicate Indexed(hash: seq<nat>, chain: seq<nat>, h: seq<nat>, floor: nat) {
    && |hash| == HASH_SIZE && |chain| == DICT_SIZE
    && (forall x :: 0 <= x < HASH_SIZE ==> Headed(hash, h, floor, x))
    && (forall p: nat :: floor <= p && p + 3 <= |h| <= p + 2 + DICT_SIZE ==> Chained(chain, h, floor, p))
  }

  lemma {:induction false} LastWithMore(h: seq<nat>, c: nat, from: nat, end: int, x: nat)
    requires end + 2 <= |h|
    ensures LastWith(h + [c], from, end, x) == LastWith(h, from, end, x)
    decreases end
  {
    if end > from {
      assert Hash3(h + [c], end - 1) == Hash3(h, end - 1);
      LastWithMore(h, c, from, end - 1, x);
    }
  }

  /** One more byte makes one more position known. */
  lemma LinkKeepsIndex(hash: seq<nat>, chain: seq<nat>, h: seq<nat>, floor: nat, c: nat)
    requires Indexed(hash, chain, h, floor) && floor + 2 <= |h|
    ensures var p := |h| - 2; var x := Hash3(h + [c], p);
      Indexed(hash[x := p % 65536], chain[p % DICT_SIZE := hash[x]], h + [c], floor)
  {
    hide Hash3, LastWith;
    var p, h' := |h| - 2, h + [c];
    var x := Hash3(h', p);
    var hash', chain' := hash[x := p % 65536], chain[p % DICT_SIZE := hash[x]];
    forall y | 0 <= y < HASH_SIZE ensures Headed(hash', h', floor, y) {
      assert Headed(hash, h, floor, y);
      LastWithMore(h, c, floor, p, y);
      LastStep(h', floor, p, y);
    }
    forall q: nat | floor <= q && q + 3 <= |h'| <= q + 2 + DICT_SIZE ensures Chained(chain', h', floor, q) {
      if q == p {
        assert Headed(hash, h, floor, x);
        LastWithMore(h, c, floor, p, x);
      } else {
        assert Chained(chain, h, floor, q);
        ModApart(q, p, DICT_SIZE);
        SameHash(h, c, q);
        LastWithMore(h, c, floor, q, Hash3(h, q));
      }
    }
  }

  lemma SameHash(h: seq<nat>, c: nat, q: nat)
    requires q + 3 <= |h|
    ensures Hash3(h + [c], q) == Hash3(h, q)
  {
  }

  lemma LastStep(h: seq<nat>, from: nat, p: nat, x: nat)
    requires from <= p && p + 3 <= |h|
    ensures LastWith(h, from, p + 1, x) == if Hash3(h, p) == x then p else LastWith(h, from, p, x)
  {
  }

  /** Too few bytes for a position. */
  lemma TooFew(hash: seq<nat>, chain: seq<nat>, h: seq<nat>, floor: nat, c: nat)
    requires Indexed(hash, chain, h, floor) && |h| <= floor + 1
    ensures Indexed(hash, chain, h + [c], floor)
  {
    forall x | 0 <= x < HASH_SIZE ensures Headed(hash, h + [c], floor, x) {
      assert Headed(hash, h, floor, x);
    }
  }

  /** Empty tables are those of a history that starts here. */
  lemma FreshIndex(hash: seq<nat>, chain: seq<nat>, h: seq<nat>)
    requires |hash| == HASH_SIZE && |chain| == DICT_SIZE
    requires forall x :: 0 <= x < HASH_SIZE ==> hash[x] == 0
    ensures Indexed(hash, chain, h, |h|)
  {
    forall x | 0 <= x < HASH_SIZE ensures Headed(hash, h, |h|, x) { }
  }

  // ----- finding a match

  /** Equal bytes from two ring positions on. */
  method EqualRun(dict: array<Byte>, pos: nat, probe: nat, maxLen: nat, ghost h: seq<nat>, ghost at: nat, ghost dist: nat)
      returns (n: nat)
    requires Window(dict[..], h) && 1 <= dist <= at && maxLen <= MAX_MATCH && at + maxLen <= |h|
    requires |h| <= at - dist + DICT_SIZE && pos == at % DICT_SIZE && probe == (at - dist) % DICT_SIZE
    ensures n <= maxLen && Matches(h, at, dist, n)
    ensures n < maxLen ==> h[at + n] != h[at + n - dist]
  {
    n := 0;
    while n < maxLen
      invariant n <= maxLen && Matches(h, at, dist, n)
    {
      WindowAt(dict[..], h, at, n);
      WindowAt(dict[..], h, at - dist, n);
      if dict[pos + n] != dict[probe + n] { break; }
      n := n + 1;
      assert Repeats(h, dist, at + n - 1);
    }
  }

  datatype Probe = Stop | Skip | Hit

  /** Where so many links lead from a cell. */
  ghost function Follow(chain: seq<nat>, cell: nat, k: nat): (r: nat)
    requires |chain| == DICT_SIZE && cell < DICT_SIZE
    ensures r < DICT_SIZE
  {
    if k == 0 then cell else chain[Follow(chain, cell, k - 1)] % DICT_SIZE
  }

  /** How far back the link behind them points. */
  ghost function Reach(chain: seq<nat>, pos32: nat, k: nat): nat
    requires |chain| == DICT_SIZE
  {
    (pos32 - chain[Follow(chain, pos32 % DICT_SIZE, k)]) % 65536
  }

  /** That link is there and points back, not too far. */
  ghost predicate Linked(chain: seq<nat>, pos32: nat, maxDist: nat, k: nat)
    requires |chain| == DICT_SIZE
  {
    chain[Follow(chain, pos32 % DICT_SIZE, k)] != 0 && 1 <= Reach(chain, pos32, k) <= maxDist
  }

  /** No match at that distance is longer. */
  ghost predicate Beaten(h: seq<nat>, at: nat, maxLen: nat, dist: nat, len: nat) {
    forall n: nat :: n <= maxLen && Matches(h, at, dist, n) ==> n <= len
  }

  ghost predicate AllLinked(chain: seq<nat>, pos32: nat, maxDist: nat, k: nat)
    requires |chain| == DICT_SIZE
  {
    forall i: nat :: i < k ==> Linked(chain, pos32, maxDist, i)
  }

  ghost predicate AllBeaten(chain: seq<nat>, pos32: nat, h: seq<nat>, at: nat, maxLen: nat, k: nat, len: nat)
    requires |chain| == DICT_SIZE
  {
    forall i: nat :: i < k ==> Beaten(h, at, maxLen, Reach(chain, pos32, i), len)
  }

  /** As far as the chain goes on, up to one link less than there are probes, no link has a longer match. */
  ghost predicate Longest(chain: seq<nat>, pos32: nat, maxDist: nat, h: seq<nat>, at: nat, maxLen: nat, probes: nat, len: nat)
    requires |chain| == DICT_SIZE
  {
    forall i: nat :: i + 1 < probes && AllLinked(chain, pos32, maxDist, i + 1) ==>
      Beaten(h, at, maxLen, Reach(chain, pos32, i), len)
  }

  lemma LongestSofar(chain: seq<nat>, pos32: nat, maxDist: nat, h: seq<nat>, at: nat, maxLen: nat, probes: nat, len: nat, k: nat)
    requires |chain| == DICT_SIZE && AllBeaten(chain, pos32, h, at, maxLen, k, len)
    requires k + 1 >= probes || !Linked(chain, pos32, maxDist, k) || maxLen <= len
    ensures Longest(chain, pos32, maxDist, h, at, maxLen, probes, len)
  {
    hide Reach, Matches, Linked;
    forall i: nat | i + 1 < probes && AllLinked(chain, pos32, maxDist, i + 1)
      ensures Beaten(h, at, maxLen, Reach(chain, pos32, i), len)
    {
      if k <= i { assert Linked(chain, pos32, maxDist, k); }
    }
  }

  lemma MatchedByte(h: seq<nat>, at: nat, dist: nat, len: nat, i: nat)
    requires Matches(h, at, dist, len) && i < len
    ensures 1 <= dist <= at && at + i < |h| && h[at + i] == h[at + i - dist]
  {
    assert Repeats(h, dist, at + i);
  }

  /** A longer match would have the bytes at the end agree. */
  lemma SkippedIsBeaten(dict: seq<nat>, h: seq<nat>, at: nat, maxLen: nat, dist: nat, len: nat)
    requires Window(dict, h) && at + maxLen == |h| && 1 <= dist <= at && 2 <= len < maxLen <= MAX_MATCH && |h| <= at - dist + DICT_SIZE
    requires dict[(at - dist) % DICT_SIZE + len] != dict[at % DICT_SIZE + len]
      || dict[(at - dist) % DICT_SIZE + len - 1] != dict[at % DICT_SIZE + len - 1]
    ensures Beaten(h, at, maxLen, dist, len)
  {
    hide Window, Matches;
    WindowAt(dict, h, at, len);
    WindowAt(dict, h, at, len - 1);
    WindowAt(dict, h, at - dist, len);
    WindowAt(dict, h, at - dist, len - 1);
    forall n: nat | n <= maxLen && Matches(h, at, dist, n) ensures n <= len {
      if n > len {
        MatchedByte(h, at, dist, n, len);
        MatchedByte(h, at, dist, n, len - 1);
      }
    }
  }

  lemma RunIsBeaten(h: seq<nat>, at: nat, maxLen: nat, dist: nat, n: nat)
    requires n <= maxLen && Matches(h, at, dist, n) && at + maxLen <= |h|
    requires n < maxLen ==> h[at + n] != h[at + n - dist]
    ensures Beaten(h, at, maxLen, dist, n)
  {
    forall m: nat | m <= maxLen && Matches(h, at, dist, m) ensures m <= n {
      if m > n { MatchedByte(h, at, dist, m, n); }
    }
  }

  lemma BeatenMore(chain: seq<nat>, pos32: nat, h: seq<nat>, at: nat, maxLen: nat, k: nat, len: nat, longer: nat)
    requires |chain| == DICT_SIZE && len <= longer && AllBeaten(chain, pos32, h, at, maxLen, k, len)
    requires Beaten(h, at, maxLen, Reach(chain, pos32, k), longer)
    ensures AllBeaten(chain, pos32, h, at, maxLen, k + 1, longer)
  {
    hide Reach, Matches;
    forall i: nat | i < k + 1 ensures Beaten(h, at, maxLen, Reach(chain, pos32, i), longer) {
      if i < k { assert Beaten(h, at, maxLen, Reach(chain, pos32, i), len); }
    }
  }

  /** The link that has been read. */
  ghost predicate Probed(chain: seq<nat>, pos32: nat, maxDist: nat, at: nat, k: nat, probe: nat, reach: nat)
    requires |chain| == DICT_SIZE
  {
    && reach == Reach(chain, pos32, k) && reach <= maxDist && reach <= at && probe == (at - reach) % DICT_SIZE
    && probe == Follow(chain, pos32 % DICT_SIZE, k + 1)
  }

  lemma IsReach(chain: seq<nat>, pos32: nat, maxDist: nat, at: nat, k: nat, probe: nat, reach: nat)
    requires |chain| == DICT_SIZE
    requires var link := chain[Follow(chain, pos32 % DICT_SIZE, k)]; probe == link % DICT_SIZE && reach == (pos32 - link) % 65536
    requires reach <= maxDist && reach <= at && probe == (at - reach) % DICT_SIZE
    ensures Probed(chain, pos32, maxDist, at, k, probe, reach)
  {
  }

  lemma NoLink(chain: seq<nat>, pos32: nat, maxDist: nat, k: nat)
    requires |chain| == DICT_SIZE
    requires var link := chain[Follow(chain, pos32 % DICT_SIZE, k)];
      link == 0 || (pos32 - link) % 65536 > maxDist || Reach(chain, pos32, k) == 0
    ensures !Linked(chain, pos32, maxDist, k)
  {
  }

  lemma NoneYet(chain: seq<nat>, pos32: nat, h: seq<nat>, at: nat, maxLen: nat, len: nat)
    requires |chain| == DICT_SIZE
    ensures AllBeaten(chain, pos32, h, at, maxLen, 0, len)
  {
  }

  lemma NotLonger(h: seq<nat>, at: nat, maxLen: nat, dist: nat, n: nat, len: nat)
    requires Beaten(h, at, maxLen, dist, n) && n <= len
    ensures Beaten(h, at, maxLen, dist, len)
  {
  }

  lemma WindowIsLong(dict: seq<nat>, h: seq<nat>)
    requires Window(dict, h)
    ensures |dict| == WINDOW_LENGTH
  {
  }

  /** Three links for each probe, until one leads to a place where the next bytes of a longer match agree. */
  method NextHit(dict: array<Byte>, chain: array<nat>, pos32: nat, maxDist: nat, maxLen: nat, len: nat, c0: Byte, c1: Byte,
                 probe0: nat, left0: nat, ghost h: seq<nat>, ghost at: nat, ghost probes: nat, ghost k0: nat)
      returns (found: bool, probe: nat, left: nat, reach: nat, ghost k: nat)
    requires chain.Length == DICT_SIZE && Window(dict[..], h) && Positions(h, 0, pos32, maxLen, maxDist)
    requires at == |h| - maxLen && 2 <= len < maxLen && dict.Length == WINDOW_LENGTH && left0 >= 1
    requires c0 == dict[pos32 % DICT_SIZE + len] && c1 == dict[pos32 % DICT_SIZE + len - 1]
    requires probe0 == Follow(chain[..], pos32 % DICT_SIZE, k0) && k0 + left0 >= probes
    requires AllBeaten(chain[..], pos32, h, at, maxLen, k0, len)
    ensures found ==> 1 <= left < left0 && Probed(chain[..], pos32, maxDist, at, k, probe, reach) && k + left + 1 >= probes
    ensures found ==> AllBeaten(chain[..], pos32, h, at, maxLen, k, len)
    ensures !found ==> Longest(chain[..], pos32, maxDist, h, at, maxLen, probes, len)
  {
    hide Window, Reach, Linked, AllBeaten, Beaten, Longest;
    ghost var cells, links, pos := dict[..], chain[..], pos32 % DICT_SIZE;
    MaskOf32(at);
    found, probe, left, reach, k := false, probe0, left0, 0, k0;
    while !found
      invariant 1 <= left <= left0 && probe < DICT_SIZE
      invariant found ==> left < left0 && Probed(links, pos32, maxDist, at, k, probe, reach)
      invariant k + left + (if found then 1 else 0) >= probes && AllBeaten(links, pos32, h, at, maxLen, k, len)
      invariant !found ==> probe == Follow(links, pos, k)
      decreases left, !found
    {
      ghost var before := k;
      left := left - 1;
      if left == 0 {
        LongestSofar(links, pos32, maxDist, h, at, maxLen, probes, len, k);
        return;
      }
      var tries := 3;
      while tries > 0 && !found
        invariant 0 <= tries <= 3 && probe < DICT_SIZE && (found ==> tries < 3)
        invariant found ==> Probed(links, pos32, maxDist, at, k, probe, reach)
        invariant before + 3 == k + tries + (if found then 1 else 0) && AllBeaten(links, pos32, h, at, maxLen, k, len)
        invariant !found ==> probe == Follow(links, pos, k)
      {
        tries := tries - 1;
        var link := chain[probe];
        if link == 0 || (pos32 - link) % 65536 > maxDist {
          NoLink(links, pos32, maxDist, k);
          LongestSofar(links, pos32, maxDist, h, at, maxLen, probes, len, k);
          return;
        }
        reach := (pos32 - link) % 65536;
        ProbeCell(at, pos32, link, reach);
        probe := link % DICT_SIZE;
        IsReach(links, pos32, maxDist, at, k, probe, reach);
        found := dict[probe + len] == c0 && dict[probe + len - 1] == c1;
        if !found {
          SkippedIsBeaten(cells, h, at, maxLen, reach, len);
          BeatenMore(links, pos32, h, at, maxLen, k, len, len);
          k := k + 1;
        }
      }
    }
  }

  /** The match finder follows a chain of earlier positions; nothing is assumed about what the chain holds. */
  method FindMatch(dict: array<Byte>, chain: array<nat>, pos32: nat, maxDist: nat, maxLen: nat, dist0: nat, len0: nat,
                   probes: nat, ghost h: seq<nat>, ghost at: nat) returns (dist: nat, len: nat)
    requires chain.Length == DICT_SIZE && Window(dict[..], h) && Positions(h, 0, pos32, maxLen, maxDist)
    requires at == |h| - maxLen && 2 <= len0 < LAZY_LIMIT && probes >= 1
    ensures (dist == dist0 && len == len0) || (len0 < len <= maxLen && GoodMatch(h, at, maxDist, dist, len))
    ensures Longest(chain[..], pos32, maxDist, h, at, maxLen, probes, len)
  {
    hide Window, Reach, Linked, AllBeaten, Beaten, Longest, Matches;
    WindowIsLong(dict[..], h);
    dist, len := dist0, len0;
    var pos: nat := pos32 % DICT_SIZE;
    MaskOf32(at);
    ghost var links: seq<nat>, k: nat := chain[..], 0;
    NoneYet(links, pos32, h, at, maxLen, len);
    if maxLen <= len {
      LongestSofar(links, pos32, maxDist, h, at, maxLen, probes, len, 0);
      return;
    }
    var probe, left := pos, probes;
    while true
      invariant len0 <= len < maxLen && probe < DICT_SIZE && left >= 1
      invariant (dist == dist0 && len == len0) || (len0 < len && GoodMatch(h, at, maxDist, dist, len))
      invariant probe == Follow(links, pos, k) && k + left >= probes && AllBeaten(links, pos32, h, at, maxLen, k, len)
      decreases left
    {
      var found: bool, reach: nat;
      found, probe, left, reach, k := NextHit(dict, chain, pos32, maxDist, maxLen, len, dict[pos + len], dict[pos + len - 1],
        probe, left, h, at, probes, k);
      if !found { return; }
      if reach == 0 {
        NoLink(links, pos32, maxDist, k);
        LongestSofar(links, pos32, maxDist, h, at, maxLen, probes, len, k);
        return;
      }
      var n := EqualRun(dict, pos, probe, maxLen, h, at, reach);
      var longer := if n > len then n else len;
      RunIsBeaten(h, at, maxLen, reach, n);
      NotLonger(h, at, maxLen, reach, n, longer);
      BeatenMore(links, pos32, h, at, maxLen, k, len, longer);
      k := k + 1;
      if n > len {
        dist, len := reach, n;
        if len == maxLen {
          LongestSofar(links, pos32, maxDist, h, at, maxLen, probes, len, k);
          return;
        }
      }
    }
  }

  /** So two probes are enough for the nearest position in the chain. */
  lemma NearestIsTried(chain: seq<nat>, pos32: nat, maxDist: nat, h: seq<nat>, at: nat, maxLen: nat, probes: nat, len: nat, n: nat)
    requires |chain| == DICT_SIZE && probes >= 2 && Longest(chain, pos32, maxDist, h, at, maxLen, probes, len)
    requires chain[pos32 % DICT_SIZE] != 0 && 1 <= (pos32 - chain[pos32 % DICT_SIZE]) % 65536 <= maxDist
    requires n <= maxLen && Matches(h, at, (pos32 - chain[pos32 % DICT_SIZE]) % 65536, n)
    ensures n <= len
  {
    hide Matches;
    assert Reach(chain, pos32, 0) == (pos32 - chain[pos32 % DICT_SIZE]) % 65536;
    assert AllLinked(chain, pos32, maxDist, 0 + 1);
    assert Beaten(h, at, maxLen, Reach(chain, pos32, 0), len);
  }

  /** A run of the byte before: the only matches the run-length mode takes. */
  method FindRun(dict: array<Byte>, curPos: nat, dictSize: nat, lookahead: nat, ghost h: seq<nat>, ghost at: nat)
      returns (dist: nat, len: nat)
    requires Window(dict[..], h) && lookahead <= MAX_MATCH && at + lookahead == |h| && curPos == at % DICT_SIZE
    requires 1 <= dictSize <= at && dictSize + lookahead <= DICT_SIZE
    ensures (dist == 0 && len == 0) || (dist == 1 && GoodMatch(h, at, dictSize, dist, len) && len <= lookahead)
    ensures Beaten(h, at, lookahead, 1, if dist == 0 then MIN_MATCH - 1 else len)
  {
    WindowMasked(dict[..], h, at - 1);
    var c := dict[(curPos - 1) % DICT_SIZE];
    len := 0;
    while len < lookahead
      invariant len <= lookahead && c == h[at - 1]
      invariant forall i :: at - 1 <= i < at + len ==> h[i] == c
      invariant Matches(h, at, 1, len)
    {
      WindowAt(dict[..], h, at, len);
      if dict[curPos + len] != c { break; }
      len := len + 1;
      assert Repeats(h, 1, at + len - 1);
    }
    if len < MIN_MATCH {
      RunIsBeaten(h, at, lookahead, 1, len);
      NotLonger(h, at, lookahead, 1, len, MIN_MATCH - 1);
      dist, len := 0, 0;
    } else {
      dist := 1;
      RunIsBeaten(h, at, lookahead, 1, len);
    }
  }

  // ----- what it misses

  /** How many positions of a stretch have this hash. */
  ghost function Rivals(h: seq<nat>, from: nat, end: int, x: nat): (n: nat)
    requires end + 2 <= |h|
    decreases end
  {
    if end <= from then 0 else Rivals(h, from, end - 1, x) + if Hash3(h, end - 1) == x then 1 else 0
  }

  ghost predicate OddPosition(h: seq<nat>, p: nat, x: nat)
    requires p + 3 <= |h|
  {
    p % 65536 == 0 && Hash3(h, p) == x
  }

  /** Between there and here, both ends of the stretch counted but the last, are as many positions with the hash of what lies
      ahead as there are probes, or one whose 16 bits are 0. */
  ghost predicate Crowded(h: seq<nat>, at: nat, dist: nat, probes: nat)
    requires at + 3 <= |h| && dist <= at
  {
    || Rivals(h, at - dist, at, Hash3(h, at)) >= probes
    || exists p: nat :: at - dist <= p < at && OddPosition(h, p, Hash3(h, at))
  }

  lemma {:induction false} RivalsSkip(h: seq<nat>, from: nat, q: nat, end: nat, x: nat)
    requires from <= q < end && end + 2 <= |h| && Hash3(h, q) == x
    requires forall p :: q < p < end ==> Hash3(h, p) != x
    ensures Rivals(h, from, end, x) == Rivals(h, from, q, x) + 1
    decreases end
  {
    hide Hash3;
    if q < end - 1 { RivalsSkip(h, from, q, end - 1, x); }
  }

  /** The chain leads from position p to one further back with the same hash. */
  lemma {:induction false} ChainLeads(hash: seq<nat>, chain: seq<nat>, h: seq<nat>, floor: nat, pos32: nat, maxLen: nat, maxDist: nat,
                                      at: nat, dist: nat, k: nat, p: nat) returns (i: nat)
    requires Indexed(hash, chain, h, floor) && Positions(h, floor, pos32, maxLen, maxDist) && at == |h| - maxLen && at + 3 <= |h|
    requires at - dist < p <= at && 1 <= dist <= maxDist
    requires Hash3(h, p) == Hash3(h, at - dist) == Hash3(h, at) && AllLinked(chain, pos32, maxDist, k)
    requires Follow(chain, pos32 % DICT_SIZE, k) == p % DICT_SIZE
    requires forall q: nat :: at - dist <= q < at ==> !OddPosition(h, q, Hash3(h, at))
    ensures i + 1 <= k + Rivals(h, at - dist, p, Hash3(h, at)) && AllLinked(chain, pos32, maxDist, i + 1)
    ensures Reach(chain, pos32, i) == dist
    decreases p
  {
    hide Hash3, Indexed, Linked;
    var x := Hash3(h, at);
    var q := LastWith(h, floor, p, x);
    ChainedAt(hash, chain, h, floor, p);
    assert q >= at - dist && !OddPosition(h, q, x);
    ReachOf(chain, pos32, at, k, q);
    IsLinked(chain, pos32, maxDist, k, q);
    RivalsSkip(h, at - dist, q, p, x);
    if q == at - dist {
      i := k;
    } else {
      i := ChainLeads(hash, chain, h, floor, pos32, maxLen, maxDist, at, dist, k + 1, q);
    }
  }

  lemma ChainedAt(hash: seq<nat>, chain: seq<nat>, h: seq<nat>, floor: nat, p: nat)
    requires Indexed(hash, chain, h, floor) && floor <= p && p + 3 <= |h| <= p + 2 + DICT_SIZE
    ensures |chain| == DICT_SIZE && chain[p % DICT_SIZE] == Slot(LastWith(h, floor, p, Hash3(h, p)))
  {
    hide Hash3;
    assert Chained(chain, h, floor, p);
  }

  lemma ReachOf(chain: seq<nat>, pos32: nat, at: nat, k: nat, q: nat)
    requires |chain| == DICT_SIZE && pos32 == at % 0x1_0000_0000 && q < at < q + 65536
    requires chain[Follow(chain, pos32 % DICT_SIZE, k)] == q % 65536
    ensures Reach(chain, pos32, k) == at - q && Follow(chain, pos32 % DICT_SIZE, k + 1) == q % DICT_SIZE
  {
    hide Follow;
    Back16(at, q);
    NextFollow(chain, pos32 % DICT_SIZE, k);
    assert q % 65536 % DICT_SIZE == q % DICT_SIZE;
  }

  lemma NextFollow(chain: seq<nat>, cell: nat, k: nat)
    requires |chain| == DICT_SIZE && cell < DICT_SIZE
    ensures Follow(chain, cell, k + 1) == chain[Follow(chain, cell, k)] % DICT_SIZE
  {
  }

  lemma Back16(at: nat, q: nat)
    requires q < at < q + 65536
    ensures (at % 0x1_0000_0000 - q % 65536) % 65536 == at - q
  {
    var a, b := at / 0x1_0000_0000, q / 65536;
    assert at % 0x1_0000_0000 - q % 65536 == (at - q) + 65536 * (b - 65536 * a);
  }

  lemma IsLinked(chain: seq<nat>, pos32: nat, maxDist: nat, k: nat, q: nat)
    requires |chain| == DICT_SIZE && AllLinked(chain, pos32, maxDist, k) && 1 <= Reach(chain, pos32, k) <= maxDist
    requires chain[Follow(chain, pos32 % DICT_SIZE, k)] == q % 65536 != 0
    ensures AllLinked(chain, pos32, maxDist, k + 1)
  {
    hide Reach;
    assert Linked(chain, pos32, maxDist, k);
    forall i: nat | i < k + 1 ensures Linked(chain, pos32, maxDist, i) { }
  }

  /** A longer match than the one it has found can only be missed behind many others. */
  lemma MissedOnlyInCrowds(hash: seq<nat>, chain: seq<nat>, h: seq<nat>, floor: nat, pos32: nat, maxLen: nat, maxDist: nat, at: nat,
                           probes: nat, len: nat, dist: nat, n: nat)
    requires Indexed(hash, chain, h, floor) && Positions(h, floor, pos32, maxLen, maxDist) && at == |h| - maxLen
    requires Longest(chain, pos32, maxDist, h, at, maxLen, probes, len)
    requires 1 <= dist <= maxDist && MIN_MATCH <= n <= maxLen && Matches(h, at, dist, n)
    ensures n <= len || Crowded(h, at, dist, probes)
  {
    hide Hash3, Headed, Chained, Longest, Reach;
    EqualHash(h, at, dist, n);
    if !Crowded(h, at, dist, probes) {
      MaskOf32(at);
      var i := ChainLeads(hash, chain, h, floor, pos32, maxLen, maxDist, at, dist, 0, at);
      LongestAt(chain, pos32, maxDist, h, at, maxLen, probes, len, i);
    }
  }

  lemma LongestAt(chain: seq<nat>, pos32: nat, maxDist: nat, h: seq<nat>, at: nat, maxLen: nat, probes: nat, len: nat, i: nat)
    requires |chain| == DICT_SIZE && Longest(chain, pos32, maxDist, h, at, maxLen, probes, len)
    requires i + 1 < probes && AllLinked(chain, pos32, maxDist, i + 1)
    ensures Beaten(h, at, maxLen, Reach(chain, pos32, i), len)
  {
  }

  /** Three equal bytes have one hash. */
  lemma EqualHash(h: seq<nat>, at: nat, dist: nat, n: nat)
    requires Matches(h, at, dist, n) && n >= 3
    ensures Hash3(h, at - dist) == Hash3(h, at)
  {
    MatchedByte(h, at, dist, n, 0);
    MatchedByte(h, at, dist, n, 1);
    MatchedByte(h, at, dist, n, 2);
  }

  /** No match that the ring still holds is longer, but such as are crowded out. */
  ghost predicate NoneMissed(h: seq<nat>, at: nat, maxDist: nat, maxLen: nat, probes: nat, len: nat) {
    forall dist: nat, n: nat :: 1 <= dist <= maxDist && MIN_MATCH <= n <= maxLen && Matches(h, at, dist, n) ==>
      n <= len || Crowded(h, at, dist, probes)
  }

  lemma NoneIsMissed(hash: seq<nat>, chain: seq<nat>, h: seq<nat>, floor: nat, pos32: nat, maxLen: nat, maxDist: nat, at: nat,
                     probes: nat, len: nat)
    requires Indexed(hash, chain, h, floor) && Positions(h, floor, pos32, maxLen, maxDist) && at == |h| - maxLen
    requires Longest(chain, pos32, maxDist, h, at, maxLen, probes, len)
    ensures NoneMissed(h, at, maxDist, maxLen, probes, len)
  {
    hide Indexed, Positions, Longest, Matches, Crowded;
    forall dist: nat, n: nat | 1 <= dist <= maxDist && MIN_MATCH <= n <= maxLen && Matches(h, at, dist, n)
      ensures n <= len || (dist <= at && at + 3 <= |h| && Crowded(h, at, dist, probes))
    {
      InHistory(h, at, dist, n);
      MissedOnlyInCrowds(hash, chain, h, floor, pos32, maxLen, maxDist, at, probes, len, dist, n);
    }
  }

  lemma InHistory(h: seq<nat>, at: nat, dist: nat, n: nat)
    requires Matches(h, at, dist, n)
    ensures dist <= at && at + n <= |h|
  {
  }
}
