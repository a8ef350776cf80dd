/** The compressor's dictionary: a ring of the last 32 KB, whose start is repeated behind its end. */
module LzWindow {
  import opened LzTokens

  /** The ring and the mirror of all but one of the longest match's bytes. */
  const WINDOW_LENGTH: nat := DICT_SIZE + MAX_MATCH - 1

  ghost predicate Kept(dict: seq<nat>, h: seq<nat>, p: nat)
    requires |dict| == WINDOW_LENGTH && p < |h|
  {
    && dict[p % DICT_SIZE] == h[p]
    && (p % DICT_SIZE < MAX_MATCH - 1 ==> dict[DICT_SIZE + p % DICT_SIZE] == h[p])
  }

  /** The last DICT_SIZE bytes of the history h are in the ring. */
  ghost predicate Window(dict: seq<nat>, h: seq<nat>) {
    && |dict| == WINDOW_LENGTH
    && forall p :: 0 <= p < |h| && |h| - DICT_SIZE <= p ==> Kept(dict, h, p)
  }

  /** The ring after byte c has been put in cell dst. */
  function Put(dict: seq<nat>, dst: nat, c: nat): (r: seq<nat>)
    requires |dict| == WINDOW_LENGTH && dst < DICT_SIZE
    ensures |r| == WINDOW_LENGTH
  {
    if dst < MAX_MATCH - 1 then dict[dst := c][DICT_SIZE + dst := c] else dict[dst := c]
  }

  lemma PutKeepsWindow(dict: seq<nat>, h: seq<nat>, c: nat)
    requires Window(dict, h)
    ensures Window(Put(dict, |h| % DICT_SIZE, c), h + [c])
  {
    var dst, dict', h' := |h| % DICT_SIZE, Put(dict, |h| % DICT_SIZE, c), h + [c];
    forall p | 0 <= p < |h'| && |h'| - DICT_SIZE <= p ensures Kept(dict', h', p) {
      if p < |h| {
        assert Kept(dict, h, p);
        assert p % DICT_SIZE != dst;
      }
    }
  }

  /** Reading on from a ring position without wrapping finds the history, thanks to the mirror. */
  lemma WindowAt(dict: seq<nat>, h: seq<nat>, at: nat, i: nat)
    requires Window(dict, h) && i < MAX_MATCH
    requires at + i < |h| && |h| <= at + i + DICT_SIZE
    ensures dict[at % DICT_SIZE + i] == h[at + i]
  {
    assert Kept(dict, h, at + i);
    if at % DICT_SIZE + i < DICT_SIZE {
      assert (at + i) % DICT_SIZE == at % DICT_SIZE + i;
    } else {
      assert (at + i) % DICT_SIZE == at % DICT_SIZE + i - DICT_SIZE;
    }
  }

  /** Reading through the mask. */
  lemma WindowMasked(dict: seq<nat>, h: seq<nat>, at: nat)
    requires Window(dict, h) && at < |h| && |h| <= at + DICT_SIZE
    ensures dict[at % DICT_SIZE] == h[at]
  {
    assert Kept(dict, h, at);
  }

  /** A 16-bit chain entry within reach names the ring cell at its distance, whatever put it there. */
  lemma ProbeCell(pos: nat, pos32: nat, next: nat, dist: nat)
    requires pos32 == pos % 0x1_0000_0000 && dist == (pos32 - next) % 65536 && dist <= pos
    ensures (pos - dist) % DICT_SIZE == next % DICT_SIZE
  {
  }

  lemma MaskOf32(pos: nat)
    ensures pos % 0x1_0000_0000 % DICT_SIZE == pos % DICT_SIZE
  {
  }
}
