/** Run-length packing of code lengths (section 3.2.7 of RFC 1951). */
module CodeLengthRuns {
  import opened Wrappers
  import opened LzTokens

  const ITEM_CODES: nat := 19
  const MAX_SIZES: nat := 320

  // ----- what packed lengths mean

  /** A length, or a repeat code with what its extra bits say. */
  datatype Item = Item(code: nat, extra: nat)

  function ExtraBits(code: nat): (n: nat)
    ensures n <= 7
  {
    if code < 16 then 0 else if code == 16 then 2 else if code == 17 then 3 else 7
  }

  predicate GoodItem(item: Item) {
    && item.code < ITEM_CODES
    && item.extra < (if item.code < 16 then 1 else if item.code == 16 then 4 else if item.code == 17 then 8 else 128)
  }

  function Copies(x: nat, n: nat): (r: seq<nat>)
    ensures |r| == n && forall i :: 0 <= i < n ==> r[i] == x
  {
    seq(n, _ => x)
  }

  function UnpackItem(sofar: seq<nat>, item: Item): Option<seq<nat>> {
    if item.code < 16 then Some(sofar + [item.code])
    else if item.code == 16 then
      if sofar == [] then None else Some(sofar + Copies(sofar[|sofar| - 1], item.extra + 3))
    else Some(sofar + Copies(0, item.extra + if item.code == 17 then 3 else 11))
  }

  /** The lengths that items stand for, unless they begin with a repeat of nothing. */
  function Unpack(items: seq<Item>): Option<seq<nat>> {
    if items == [] then Some([])
    else
      match Unpack(items[..|items| - 1])
      case None => None
      case Some(sofar) => UnpackItem(sofar, items[|items| - 1])
  }

  lemma {:induction false} UnpackSnoc(items: seq<Item>, item: Item)
    requires Unpack(items).Some?
    ensures Unpack(items + [item]) == UnpackItem(Unpack(items).value, item)
  {
    assert (items + [item])[..|items|] == items;
  }

  /** Every item adds at least one length to what the items before it stand for. */
  lemma {:induction false} UnpackPrefix(items: seq<Item>, j: nat)
    requires Unpack(items).Some? && j <= |items|
    ensures Unpack(items[..j]).Some? && Unpack(items[..j]).value <= Unpack(items).value
    ensures j < |items| ==> |Unpack(items[..j]).value| < |Unpack(items).value|
    decreases |items|
  {
    if j < |items| {
      var init := items[..|items| - 1];
      UnpackPrefix(init, j);
      assert init[..j] == items[..j];
    } else {
      assert items[..j] == items;
    }
  }

  function ItemCount(items: seq<Item>, code: nat): (n: nat)
    ensures n <= |items|
  {
    if items == [] then 0
    else ItemCount(items[..|items| - 1], code) + if items[|items| - 1].code == code then 1 else 0
  }

  lemma {:induction false} ItemCountSnoc(items: seq<Item>, item: Item, code: nat)
    ensures ItemCount(items + [item], code) == ItemCount(items, code) + if item.code == code then 1 else 0
  {
    assert (items + [item])[..|items|] == items;
  }

  lemma {:induction false} ItemIsCounted(items: seq<Item>, k: nat)
    requires k < |items|
    ensures ItemCount(items, items[k].code) > 0
  {
    if k < |items| - 1 { ItemIsCounted(items[..|items| - 1], k); }
  }

  // ----- how items are kept: a repeat code is followed by its extra

  function ItemBytes(item: Item): (r: seq<nat>) {
    if item.code < 16 then [item.code] else [item.code, item.extra]
  }

  function Flat(items: seq<Item>): (r: seq<nat>)
    ensures |r| >= |items|
  {
    if items == [] then [] else Flat(items[..|items| - 1]) + ItemBytes(items[|items| - 1])
  }

  lemma {:induction false} FlatSnoc(items: seq<Item>, item: Item)
    ensures Flat(items + [item]) == Flat(items) + ItemBytes(item)
  {
    assert (items + [item])[..|items|] == items;
  }

  /** Where item j lies. */
  lemma {:induction false} FlatAt(items: seq<Item>, j: nat)
    requires j < |items|
    ensures |Flat(items[..j])| + |ItemBytes(items[j])| <= |Flat(items)|
    ensures Flat(items)[|Flat(items[..j])|..|Flat(items[..j])| + |ItemBytes(items[j])|] == ItemBytes(items[j])
    ensures |Flat(items[..j + 1])| == |Flat(items[..j])| + |ItemBytes(items[j])|
    decreases |items|
  {
    hide ItemBytes;
    var init := items[..|items| - 1];
    if j < |items| - 1 {
      FlatAt(init, j);
      assert init[..j] == items[..j] && init[..j + 1] == items[..j + 1];
    } else {
      assert items[..j + 1] == items;
    }
  }

  ghost predicate AllGood(items: seq<Item>) {
    forall i :: 0 <= i < |items| ==> GoodItem(items[i])
  }

  ghost predicate ItemTally(counts: seq<nat>, items: seq<Item>) {
    |counts| == ITEM_CODES && forall c :: 0 <= c < ITEM_CODES ==> counts[c] == ItemCount(items, c)
  }

  lemma CountsMore(counts: seq<nat>, items: seq<Item>, item: Item)
    requires ItemTally(counts, items) && GoodItem(item)
    ensures ItemTally(counts[item.code := counts[item.code] + 1], items + [item])
  {
    forall c | 0 <= c < ITEM_CODES
      ensures counts[item.code := counts[item.code] + 1][c] == ItemCount(items + [item], c)
    {
      ItemCountSnoc(items, item, c);
    }
  }

  // ----- the packer

  ghost predicate Sizes(sizes: seq<nat>) {
    |sizes| <= MAX_SIZES && forall k :: 0 <= k < |sizes| ==> sizes[k] < 16
  }

  /** Of the first i lengths all but the last z zeros, or rep repeats of `prev`, have been packed. */
  ghost predicate Packing(sizes: seq<nat>, i: nat, items: seq<Item>, z: nat, rep: nat, prev: nat) {
    && Sizes(sizes) && i <= |sizes| && z + rep <= i && z <= 138 && rep <= 6 && (z == 0 || rep == 0)
    && prev == (if i > 0 then sizes[i - 1] else 0xFF)
    && AllGood(items) && Unpack(items) == Some(sizes[..i - z - rep]) && |Flat(items)| + z + rep <= i
    && (forall k :: i - z <= k < i ==> sizes[k] == 0) && (rep > 0 ==> prev != 0)
    && (rep > 0 ==> rep < i) && (forall k :: i - rep - 1 <= k < i && k >= 0 ==> sizes[k] == prev || rep == 0)
  }

  lemma PackedOne(sizes: seq<nat>, i: nat, items: seq<Item>, z: nat, rep: nat, prev: nat, size: nat)
    requires Packing(sizes, i, items, z, rep, prev) && z + rep < i + 1 <= |sizes| + 1
    requires z + rep > 0 && size == (if z > 0 then 0 else prev)
    ensures GoodItem(Item(size, 0))
    ensures Packing(sizes, i, items + [Item(size, 0)], if z > 0 then z - 1 else 0, if z > 0 then rep else rep - 1, prev)
  {
    hide Unpack, Flat;
    var done := i - z - rep;
    UnpackSnoc(items, Item(size, 0));
    FlatSnoc(items, Item(size, 0));
    assert sizes[..done] + [sizes[done]] == sizes[..done + 1];
  }

  lemma PackedRun(sizes: seq<nat>, i: nat, items: seq<Item>, z: nat, rep: nat, prev: nat, item: Item)
    requires Packing(sizes, i, items, z, rep, prev) && z + rep >= 3
    requires item == if rep > 0 then Item(16, rep - 3) else if z <= 10 then Item(17, z - 3) else Item(18, z - 11)
    ensures GoodItem(item) && Packing(sizes, i, items + [item], 0, 0, prev)
  {
    hide Unpack, Flat;
    var done := i - z - rep;
    UnpackSnoc(items, item);
    FlatSnoc(items, item);
    assert sizes[..done] + Copies(if rep > 0 then prev else 0, z + rep) == sizes[..i];
  }

  lemma Pending(sizes: seq<nat>, i: nat, items: seq<Item>, z: nat, rep: nat, prev: nat)
    requires Packing(sizes, i, items, z, rep, prev)
    ensures |Flat(items)| + z + rep <= i <= MAX_SIZES && (rep > 0 ==> 0 < prev < 16) && (z > 0 ==> prev == 0)
    ensures z <= 138 && rep <= 6 && (z == 0 || rep == 0) && Sizes(sizes) && i <= |sizes|
    ensures prev == if i > 0 then sizes[i - 1] else 0xFF
  {
  }

  /** The next length, when nothing is pending or it goes on what is pending. */
  lemma PackMore(sizes: seq<nat>, i: nat, items: seq<Item>, z: nat, rep: nat, prev: nat, next: nat)
    requires Packing(sizes, i, items, z, rep, prev) && i < |sizes| && next == i + 1
    ensures sizes[i] == 0 && rep == 0 && z < 138 ==> Packing(sizes, next, items, z + 1, 0, 0)
    ensures sizes[i] == prev && sizes[i] != 0 && z == 0 && rep < 6 ==> Packing(sizes, next, items, 0, rep + 1, prev)
    ensures z == 0 && rep == 0 ==> GoodItem(Item(sizes[i], 0)) && Packing(sizes, next, items + [Item(sizes[i], 0)], 0, 0, sizes[i])
  {
    hide Unpack, Flat;
    if z == 0 && rep == 0 {
      var item := Item(sizes[i], 0);
      UnpackSnoc(items, item);
      FlatSnoc(items, item);
      assert sizes[..i] + [sizes[i]] == sizes[..next];
    }
  }

  // ----- repeats are made use of

  /** How many items at the end are this code. */
  function Tail(items: seq<Item>, code: nat): (n: nat)
  {
    if items == [] || items[|items| - 1].code != code then 0 else 1 + Tail(items[..|items| - 1], code)
  }

  /** No three zeros and no four other equal lengths in a row are sent one by one. */
  ghost predicate Tight(items: seq<Item>) {
    forall j :: 0 <= j < |items| && items[j].code < 16 ==> ShortTail(items[..j + 1], items[j].code)
  }

  ghost predicate ShortTail(items: seq<Item>, code: nat) {
    Tail(items, code) <= if code == 0 then 2 else 3
  }

  lemma TightMore(items: seq<Item>, item: Item)
    requires Tight(items) && (item.code < 16 ==> ShortTail(items + [item], item.code))
    ensures Tight(items + [item])
  {
    hide Tail;
    var all := items + [item];
    forall j | 0 <= j < |all| && all[j].code < 16 ensures ShortTail(all[..j + 1], all[j].code) {
      if j < |items| { assert all[..j + 1] == items[..j + 1]; } else { assert all[..j + 1] == all; }
    }
  }

  lemma TailMore(items: seq<Item>, item: Item, code: nat)
    ensures Tail(items + [item], code) == if item.code == code then Tail(items, code) + 1 else 0
  {
    assert (items + [item])[..|items|] == items;
  }

  /** Between two lengths: at most one item is the last length, unless it is 0, and none a 0. */
  ghost predicate Neat(items: seq<Item>, z: nat, prev: nat) {
    && Tight(items) && Tail(items, 0) == 0 && (prev != 0 ==> Tail(items, prev) <= 1)
    && (z == 0 ==> items == [] || items[|items| - 1].code == prev || items[|items| - 1].code >= 16)
  }

  function OneByOne(size: nat, n: nat): (r: seq<Item>)
    ensures |r| == n && forall i :: 0 <= i < n ==> r[i] == Item(size, 0)
  {
    seq(n, _ => Item(size, 0))
  }

  lemma OneMore(items: seq<Item>, size: nat, n: nat)
    ensures (items + OneByOne(size, n)) + [Item(size, 0)] == items + OneByOne(size, n + 1)
  {
  }

  /** What stands for so many pending lengths. */
  function Run(size: nat, n: nat): (r: seq<Item>) {
    if n < 3 then OneByOne(size, n)
    else if size != 0 then [Item(16, n - 3)]
    else if n <= 10 then [Item(17, n - 3)]
    else [Item(18, n - 11)]
  }

  lemma RunEnds(items: seq<Item>, size: nat, n: nat, code: nat)
    requires n > 0 && code < 16
    ensures code != size || n >= 3 ==> Tail(items + Run(size, n), code) == 0
  {
    hide Tail;
    var r := Run(size, n);
    var init := r[..|r| - 1];
    assert items + r == (items + init) + [r[|r| - 1]];
    TailMore(items + init, r[|r| - 1], code);
  }

  lemma RunIsTight(items: seq<Item>, size: nat, n: nat)
    requires Tight(items) && size < 16 && Tail(items, size) <= if size == 0 then 0 else 1
    ensures Tight(items + Run(size, n))
    ensures n >= 3 ==> Run(size, n)[0].code >= 16
    ensures n > 0 ==> forall code :: code != size && code < 16 ==> Tail(items + Run(size, n), code) == 0
    ensures n >= 3 ==> Tail(items + Run(size, n), size) == 0
  {
    hide Tight, Tail;
    var r, one := Run(size, n), items + [Item(size, 0)];
    TailMore(items, Item(size, 0), size);
    if n > 0 {
      forall code | code != size && code < 16 ensures Tail(items + r, code) == 0 { RunEnds(items, size, n, code); }
      RunEnds(items, size, n, size);
    }
    if n == 0 {
      assert items + r == items;
    } else if n == 1 {
      assert r == [Item(size, 0)];
      TightMore(items, Item(size, 0));
    } else if n == 2 {
      assert items + r == one + [Item(size, 0)];
      TailMore(one, Item(size, 0), size);
      TightMore(items, Item(size, 0));
      TightMore(one, Item(size, 0));
    } else {
      TightMore(items, r[0]);
    }
  }

  lemma NothingRun(items: seq<Item>, size: nat)
    ensures items + Run(size, 0) == items
  {
  }

  /** Pending repeats are flushed before a zero. */
  lemma NeatZero(items: seq<Item>, z: nat, rep: nat, prev: nat)
    requires Neat(items, z, prev) && (z == 0 || rep == 0) && (rep > 0 ==> 0 < prev < 16)
    ensures Neat(items + Run(prev, rep), z + 1, 0)
  {
    hide Tight, Tail, Run;
    NothingRun(items, prev);
    if rep > 0 { RunIsTight(items, prev, rep); }
  }

  /** A full run of zeros, or of repeats. */
  lemma NeatRun(items: seq<Item>, z: nat, size: nat, n: nat)
    requires Neat(items, z, size) && size < 16 && n >= 3
    ensures Neat(items + Run(size, n), 0, size)
  {
    hide Tight, Tail;
    RunIsTight(items, size, n);
  }

  /** What is pending is flushed before another length. */
  lemma NeatLiteral(items: seq<Item>, z: nat, rep: nat, prev: nat, size: nat)
    requires Neat(items, z, prev) && (z == 0 || rep == 0) && (rep > 0 ==> 0 < prev < 16) && (z > 0 ==> prev == 0)
    requires 0 < size < 16 && size != prev
    ensures Neat(items + Run(0, z) + Run(prev, rep) + [Item(size, 0)], 0, size)
  {
    hide Tight, Run;
    NothingRun(items, 0);
    var a := items + Run(0, z);
    NothingRun(a, prev);
    if z > 0 { RunIsTight(items, 0, z); }
    if rep > 0 { RunIsTight(a, prev, rep); }
    var b := a + Run(prev, rep);
    assert Tail(b, size) == 0;
    TailMore(b, Item(size, 0), size);
    TailMore(b, Item(size, 0), 0);
    TightMore(b, Item(size, 0));
  }

  lemma NeatEnd(items: seq<Item>, z: nat, rep: nat, prev: nat)
    requires Neat(items, z, prev) && (rep > 0 ==> 0 < prev < 16)
    ensures Tight(items + Run(prev, rep)) && Tight(items + Run(0, z))
  {
    hide Tight, Tail, Run;
    NothingRun(items, prev);
    NothingRun(items, 0);
    if rep > 0 { RunIsTight(items, prev, rep); }
    if z > 0 { RunIsTight(items, 0, z); }
  }

  lemma NeatStart()
    ensures Neat([], 0, 0xFF)
  {
  }

  class Packer {
    const packed: array<nat>
    const counts: array<nat>
    var n: nat
    var zeros: nat
    var repeats: nat
    var prev: nat
    ghost var items: seq<Item>

    ghost predicate Holding()
      reads this, packed, counts
    {
      && packed != counts && packed.Length == MAX_SIZES && n <= MAX_SIZES
      && packed[..n] == Flat(items) && ItemTally(counts[..], items)
    }

    ghost predicate Valid(sizes: seq<nat>, i: nat)
      reads this, packed, counts
    {
      Holding() && Packing(sizes, i, items, zeros, repeats, prev)
    }

    constructor ()
      ensures items == [] && zeros == 0 && repeats == 0 && prev == 0xFF && Holding() && fresh(packed) && fresh(counts)
    {
      packed := new nat[MAX_SIZES](_ => 0);
      counts := new nat[ITEM_CODES](_ => 0);
      n, zeros, repeats, prev, items := 0, 0, 0, 0xFF, [];
    }

    method Put(code: nat, extra: nat)
      requires Holding() && GoodItem(Item(code, extra)) && n + |ItemBytes(Item(code, extra))| <= MAX_SIZES
      modifies this`n, this`items, packed, counts
      ensures Holding() && items == old(items) + [Item(code, extra)]
    {
      hide Flat, ItemTally;
      ghost var p, c := packed[..n], counts[..];
      CountsMore(c, items, Item(code, extra));
      FlatSnoc(items, Item(code, extra));
      CountsShape(c, items);
      counts[code] := counts[code] + 1;
      assert counts[..] == c[code := c[code] + 1];
      assert packed[..n] == p;
      packed[n] := code;
      n := n + 1;
      assert packed[..n] == p + [code];
      if code >= 16 {
        packed[n] := extra;
        n := n + 1;
        assert packed[..n] == p + [code, extra];
      }
      items := items + [Item(code, extra)];
    }

    /** Packs the repeats that are pending. */
    method FlushRepeats(ghost sizes: seq<nat>, ghost i: nat)
      requires Valid(sizes, i)
      modifies this`n, this`items, this`repeats, packed, counts
      ensures Valid(sizes, i) && repeats == 0 && items == old(items) + Run(prev, old(repeats))
    {
      hide Packing, Flat, ItemTally;
      ghost var items0, repeats0 := items, repeats;
      Pending(sizes, i, items, zeros, repeats, prev);
      if repeats > 0 {
        if repeats < 3 {
          while repeats > 0
            invariant Valid(sizes, i) && zeros == 0 && repeats <= repeats0
            invariant items == items0 + OneByOne(prev, repeats0 - repeats)
            decreases repeats
          {
            Pending(sizes, i, items, zeros, repeats, prev);
            PackedOne(sizes, i, items, zeros, repeats, prev, prev);
            Put(prev, 0);
            OneMore(items0, prev, repeats0 - repeats);
            repeats := repeats - 1;
          }
        } else {
          PackedRun(sizes, i, items, zeros, repeats, prev, Item(16, repeats - 3));
          Put(16, repeats - 3);
          repeats := 0;
        }
      }
    }

    /** Packs the zeros that are pending. */
    method FlushZeros(ghost sizes: seq<nat>, ghost i: nat)
      requires Valid(sizes, i)
      modifies this`n, this`items, this`zeros, packed, counts
      ensures Valid(sizes, i) && zeros == 0 && items == old(items) + Run(0, old(zeros))
    {
      hide Packing, Flat, ItemTally;
      ghost var items0, zeros0 := items, zeros;
      Pending(sizes, i, items, zeros, repeats, prev);
      if zeros > 0 {
        if zeros < 3 {
          while zeros > 0
            invariant Valid(sizes, i) && repeats == 0 && zeros <= zeros0
            invariant items == items0 + OneByOne(0, zeros0 - zeros)
            decreases zeros
          {
            Pending(sizes, i, items, zeros, repeats, prev);
            PackedOne(sizes, i, items, zeros, repeats, prev, 0);
            Put(0, 0);
            OneMore(items0, 0, zeros0 - zeros);
            zeros := zeros - 1;
          }
        } else if zeros <= 10 {
          PackedRun(sizes, i, items, zeros, repeats, prev, Item(17, zeros - 3));
          Put(17, zeros - 3);
          zeros := 0;
        } else {
          PackedRun(sizes, i, items, zeros, repeats, prev, Item(18, zeros - 11));
          Put(18, zeros - 11);
          zeros := 0;
        }
      }
    }

    method Next(size: nat, ghost sizes: seq<nat>, ghost i: nat)
      requires Valid(sizes, i) && zeros < 138 && repeats < 6 && i < |sizes| && size == sizes[i] && Neat(items, zeros, prev)
      modifies this, packed, counts
      ensures Valid(sizes, i + 1) && zeros < 138 && repeats < 6 && Neat(items, zeros, prev)
    {
      hide Packing, Flat, ItemTally, Neat, Run;
      Pending(sizes, i, items, zeros, repeats, prev);
      if size == 0 {
        NeatZero(items, zeros, repeats, prev);
        FlushRepeats(sizes, i);
        PackMore(sizes, i, items, zeros, repeats, prev, i + 1);
        zeros := zeros + 1;
        prev := size;
        if zeros == 138 {
          NeatRun(items, zeros, 0, zeros);
          FlushZeros(sizes, i + 1);
        }
      } else {
        if size != prev { NeatLiteral(items, zeros, repeats, prev, size); } else { NothingRun(items, 0); }
        FlushZeros(sizes, i);
        if size != prev {
          FlushRepeats(sizes, i);
          PackMore(sizes, i, items, zeros, repeats, prev, i + 1);
          Pending(sizes, i, items, zeros, repeats, prev);
          Put(size, 0);
          prev := size;
        } else {
          PackMore(sizes, i, items, zeros, repeats, prev, i + 1);
          repeats := repeats + 1;
          if repeats == 6 {
            NeatRun(items, zeros, prev, repeats);
            FlushRepeats(sizes, i + 1);
          }
        }
      }
    }

    /** Packs all lengths; the packed form is no longer than they are. */
    method Pack(sizes: seq<nat>)
      requires Holding() && items == [] && zeros == 0 && repeats == 0 && prev == 0xFF && Sizes(sizes)
      modifies this, packed, counts
      ensures Holding() && AllGood(items) && Unpack(items) == Some(sizes) && n <= |sizes| && Tight(items)
    {
      hide Packing, Flat, ItemTally, Neat, Run, Tight;
      PackingStarts(sizes);
      NeatStart();
      for i := 0 to |sizes|
        invariant Valid(sizes, i) && zeros < 138 && repeats < 6 && Neat(items, zeros, prev)
      {
        Next(sizes[i], sizes, i);
      }
      PackingEnds(sizes, items, zeros, repeats, prev);
      Pending(sizes, |sizes|, items, zeros, repeats, prev);
      NeatEnd(items, zeros, repeats, prev);
      if repeats > 0 { FlushRepeats(sizes, |sizes|); } else { FlushZeros(sizes, |sizes|); }
      PackingEnds(sizes, items, zeros, repeats, prev);
    }
  }

  lemma PackingStarts(sizes: seq<nat>)
    requires Sizes(sizes)
    ensures Packing(sizes, 0, [], 0, 0, 0xFF)
  {
    assert sizes[..0] == [];
  }

  lemma PackingEnds(sizes: seq<nat>, items: seq<Item>, z: nat, rep: nat, prev: nat)
    requires Packing(sizes, |sizes|, items, z, rep, prev)
    ensures z == 0 || rep == 0
    ensures z == 0 && rep == 0 ==> AllGood(items) && Unpack(items) == Some(sizes) && |Flat(items)| <= |sizes|
  {
    assert sizes[..|sizes|] == sizes;
  }

  lemma CountsShape(counts: seq<nat>, items: seq<Item>)
    requires ItemTally(counts, items)
    ensures |counts| == ITEM_CODES
  {
  }
}
