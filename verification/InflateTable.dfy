/** The decompressor's decoding table: a look-up by the next ten bits and a tree for longer
    codes, against plain canonical decoding. */
module InflateTable {
  import opened Arithmetic
  import opened PrefixCodes
  import opened CanonicalCodes
  import opened BitBuffers
  import opened HuffmanTables

  const FAST_BITS: nat := 10
  const FAST_SIZE: nat := 1024
  const MAX_BITS: nat := 15
  const MAX_SYMBOLS: nat := 288

  // ----- what the cells of the table hold

  /** Symbol s decides at path q: its short code starts the ten bits, or its long code ends here. */
  ghost predicate Claims(sizes: seq<nat>, s: nat, q: Word) {
    && Used(sizes, s)
    && if sizes[s] <= FAST_BITS then |q| == FAST_BITS && CodeWord(sizes, s) <= q else CodeWord(sizes, s) == q
  }

  /** What a cell holds for the symbol that claims it. */
  function Entry(sizes: seq<nat>, s: nat): (r: nat)
    requires s < |sizes|
  {
    if sizes[s] <= FAST_BITS then 512 * sizes[s] + s else s
  }

  function NodeRef(k: nat): (r: int)
    ensures r < 0
  {
    -2 * k - 1
  }

  /** Path q leads to an inner node: some longer code continues it beyond the fast bits. */
  ghost predicate Inner(sizes: seq<nat>, q: Word) {
    |q| >= FAST_BITS && exists s: nat :: Used(sizes, s) && |q| < sizes[s] && q <= CodeWord(sizes, s)
  }

  /** Codes of the first `done` symbols have been entered; node k of the tree stands at nodes[k]. */
  ghost predicate Cell(sizes: seq<nat>, done: nat, nodes: seq<Word>, q: Word, v: int) {
    && (forall k :: 0 <= k < |nodes| && nodes[k] == q ==> v == NodeRef(k))
    && (forall s :: 0 <= s < done && s < |sizes| && Claims(sizes, s, q) ==> v == Entry(sizes, s))
    && (q !in nodes && (forall s :: 0 <= s < done && s < |sizes| ==> !Claims(sizes, s, q)) ==> v == 0)
  }

  function LookPath(i: nat): Word {
    LowBits(i, FAST_BITS)
  }

  function TreePath(nodes: seq<Word>, c: nat): Word
    requires c / 2 < |nodes|
  {
    nodes[c / 2] + [c % 2 == 1]
  }

  ghost predicate NodesOk(sizes: seq<nat>, nodes: seq<Word>) {
    && (forall i, j :: 0 <= i < j < |nodes| ==> nodes[i] != nodes[j])
    && (forall k :: 0 <= k < |nodes| ==> Inner(sizes, nodes[k]))
    && (forall k :: 0 <= k < |nodes| ==> HasParent(nodes, nodes[k]))
  }

  ghost predicate HasParent(nodes: seq<Word>, q: Word) {
    |q| > FAST_BITS ==> q[..|q| - 1] in nodes
  }

  /** Node paths of a long code, from the fast bits up to length n. */
  ghost predicate PathIn(word: Word, n: nat, nodes: seq<Word>) {
    n <= |word| && forall j :: FAST_BITS <= j < n ==> word[..j] in nodes
  }

  ghost predicate LongDone(sizes: seq<nat>, done: nat, nodes: seq<Word>) {
    forall s :: 0 <= s < done && Used(sizes, s) && sizes[s] > FAST_BITS ==> PathIn(CodeWord(sizes, s), sizes[s], nodes)
  }

  ghost predicate LookCell(look: seq<int>, sizes: seq<nat>, done: nat, nodes: seq<Word>, i: nat)
    requires i < |look|
  {
    Cell(sizes, done, nodes, LookPath(i), look[i])
  }

  ghost predicate TreeCell(tree: seq<int>, sizes: seq<nat>, done: nat, nodes: seq<Word>, c: nat)
    requires c < |tree| && c / 2 < |nodes|
  {
    Cell(sizes, done, nodes, TreePath(nodes, c), tree[c])
  }

  ghost predicate Table(look: seq<int>, tree: seq<int>, sizes: seq<nat>, done: nat, nodes: seq<Word>) {
    && |look| == FAST_SIZE && |tree| == 2 * MAX_SYMBOLS && |nodes| <= MAX_SYMBOLS
    && NodesOk(sizes, nodes) && LongDone(sizes, done, nodes)
    && (forall i :: 0 <= i < FAST_SIZE ==> LookCell(look, sizes, done, nodes, i))
    && (forall c :: 0 <= c < 2 * |nodes| ==> TreeCell(tree, sizes, done, nodes, c))
    && (forall c :: 2 * |nodes| <= c < |tree| ==> tree[c] == 0)
  }

  // ----- a cell serves one purpose only

  /** No symbol claims an inner path. */
  lemma {:induction false} InnerUnclaimed(sizes: seq<nat>, q: Word, s: nat)
    requires Fits(sizes, MAX_BITS) && Inner(sizes, q)
    ensures !Claims(sizes, s, q)
  {
    if Claims(sizes, s, q) {
      var u: nat :| Used(sizes, u) && |q| < sizes[u] && q <= CodeWord(sizes, u);
      assert CodeWord(sizes, s) <= CodeWord(sizes, u);
      if s != u { CodesArePrefixFree(sizes, MAX_BITS, s, u); }
    }
  }

  /** At most one symbol claims a path. */
  lemma {:induction false} OneClaim(sizes: seq<nat>, q: Word, s: nat, u: nat)
    requires Fits(sizes, MAX_BITS) && Claims(sizes, s, q) && Claims(sizes, u, q)
    ensures s == u
  {
    if s != u {
      var a, b := CodeWord(sizes, s), CodeWord(sizes, u);
      CodesArePrefixFree(sizes, MAX_BITS, s, u);
      CodesArePrefixFree(sizes, MAX_BITS, u, s);
      ComparablePrefixes(a, b, q);
    }
  }

  lemma ComparablePrefixes(a: Word, b: Word, q: Word)
    requires a <= q && b <= q
    ensures a <= b || b <= a
  {
  }

  lemma {:induction false} LookPathOf(q: Word)
    requires |q| == FAST_BITS
    ensures Reversed(q) < FAST_SIZE && LookPath(Reversed(q)) == q
  {
    LowBitsOfReversed(q);
    assert Pow2(10) == 1024;
  }

  lemma {:induction false} LookPathsDiffer(i: nat, j: nat)
    requires i < FAST_SIZE && j < FAST_SIZE && LookPath(i) == LookPath(j)
    ensures i == j
  {
    assert Pow2(10) == 1024;
    ReversedOfLowBits(i, FAST_BITS);
    ReversedOfLowBits(j, FAST_BITS);
  }

  lemma {:induction false} TreePathsDiffer(sizes: seq<nat>, nodes: seq<Word>, c: nat, d: nat)
    requires NodesOk(sizes, nodes) && c < 2 * |nodes| && d < 2 * |nodes| && TreePath(nodes, c) == TreePath(nodes, d)
    ensures c == d
  {
    var p, q := nodes[c / 2], nodes[d / 2];
    assert p == TreePath(nodes, c)[..|p|] && q == TreePath(nodes, d)[..|q|];
    assert |p| == |q|;
    assert TreePath(nodes, c)[|p|] == (c % 2 == 1) && TreePath(nodes, d)[|q|] == (d % 2 == 1);
  }

  // ----- how one step changes the cells

  /** A new node q leaves every other cell right. */
  lemma {:induction false} OtherCell(sizes: seq<nat>, done: nat, nodes: seq<Word>, q: Word, p: Word, v: int)
    requires Cell(sizes, done, nodes, p, v) && p != q
    ensures Cell(sizes, done, nodes + [q], p, v)
  {
    var nodes' := nodes + [q];
    forall k | 0 <= k < |nodes'| && nodes'[k] == p ensures v == NodeRef(k) {
      assert nodes[k] == p;
    }
    assert p in nodes ==> p in nodes';
  }

  lemma {:induction false} NewNodeCell(sizes: seq<nat>, done: nat, nodes: seq<Word>, q: Word)
    requires Fits(sizes, MAX_BITS) && Inner(sizes, q) && q !in nodes
    ensures Cell(sizes, done, nodes + [q], q, NodeRef(|nodes|))
  {
    forall s: nat ensures !Claims(sizes, s, q) { InnerUnclaimed(sizes, q, s); }
  }

  lemma NodeHasParent(sizes: seq<nat>, nodes: seq<Word>, p: Word)
    requires NodesOk(sizes, nodes) && p in nodes && |p| > FAST_BITS
    ensures p[..|p| - 1] in nodes
  {
    var k :| 0 <= k < |nodes| && nodes[k] == p;
    assert HasParent(nodes, nodes[k]);
  }

  /** The two cells of a new node are still empty. */
  lemma {:induction false} FreshCell(sizes: seq<nat>, done: nat, nodes: seq<Word>, q: Word, b: bool)
    requires NodesOk(sizes, nodes) && LongDone(sizes, done, nodes)
    requires |q| >= FAST_BITS && q !in nodes
    ensures Cell(sizes, done, nodes + [q], q + [b], 0)
  {
    var p, nodes' := q + [b], nodes + [q];
    assert p[..|p| - 1] == q;
    if p in nodes { NodeHasParent(sizes, nodes, p); }
    assert p != q;
    forall k | 0 <= k < |nodes'| ensures nodes'[k] != p { }
    forall s | 0 <= s < done && s < |sizes| ensures !Claims(sizes, s, p) {
      if Claims(sizes, s, p) { ClaimPath(sizes, done, nodes, q, b, s); }
    }
  }

  lemma ClaimPath(sizes: seq<nat>, done: nat, nodes: seq<Word>, q: Word, b: bool, s: nat)
    requires LongDone(sizes, done, nodes) && s < done && |q| >= FAST_BITS && Claims(sizes, s, q + [b])
    ensures q in nodes
  {
    assert (q + [b])[..|q|] == q;
    assert PathIn(CodeWord(sizes, s), sizes[s], nodes);
  }

  lemma MoreNodes(sizes: seq<nat>, nodes: seq<Word>, q: Word)
    requires NodesOk(sizes, nodes)
    requires Inner(sizes, q) && q !in nodes && HasParent(nodes, q)
    ensures NodesOk(sizes, nodes + [q])
  {
    hide Inner, HasParent;
    var nodes' := nodes + [q];
    forall k | 0 <= k < |nodes'| ensures HasParent(nodes', nodes'[k]) {
      ParentStays(nodes, q, nodes'[k]);
    }
  }

  lemma ParentStays(nodes: seq<Word>, q: Word, p: Word)
    requires HasParent(nodes, p)
    ensures HasParent(nodes + [q], p)
  {
  }

  lemma MorePaths(sizes: seq<nat>, done: nat, nodes: seq<Word>, q: Word)
    requires LongDone(sizes, done, nodes)
    ensures LongDone(sizes, done, nodes + [q])
  {
    forall s | 0 <= s < done && Used(sizes, s) && sizes[s] > FAST_BITS
      ensures PathIn(CodeWord(sizes, s), sizes[s], nodes + [q])
    {
      assert PathIn(CodeWord(sizes, s), sizes[s], nodes);
    }
  }

  // ----- the tree array is large enough

  lemma {:induction false} Pigeonhole(s: seq<nat>, n: nat)
    requires forall i, j :: 0 <= i < j < |s| ==> s[i] != s[j]
    requires forall i :: 0 <= i < |s| ==> s[i] < n
    ensures |s| <= n
  {
    if s != [] {
      assert s[0] < n;
      if k :| 0 <= k < |s| && s[k] == n - 1 {
        Pigeonhole(Without(s, k), n - 1);
      } else {
        Pigeonhole(s, n - 1);
      }
    }
  }

  function Zeros(n: nat): (word: Word)
    ensures |word| == n && forall i :: 0 <= i < n ==> !word[i]
  {
    seq(n, _ => false)
  }

  /** The word up to before its last 1 bit. */
  function BeforeLastOne(word: Word): (q: Word)
  {
    if word == [] then [] else if word[|word| - 1] then word[..|word| - 1] else BeforeLastOne(word[..|word| - 1])
  }

  lemma {:induction false} BeforeLastOneOf(q: Word, n: nat)
    ensures BeforeLastOne(q + [true] + Zeros(n)) == q
  {
    var word := q + [true] + Zeros(n);
    if n == 0 {
      assert word == q + [true];
      assert word[..|word| - 1] == q;
    } else {
      BeforeLastOneOf(q, n - 1);
      assert word[..|word| - 1] == q + [true] + Zeros(n - 1);
    }
  }

  /** In a complete code some symbol's word goes on from an inner path with a 1 and then zeros. */
  lemma {:induction false} SymbolBelow(sizes: seq<nat>, q: Word) returns (s: nat)
    requires Complete(sizes, MAX_BITS) && Inner(sizes, q)
    ensures Used(sizes, s) && BeforeLastOne(CodeWord(sizes, s)) == q
  {
    hide Decode, CodeWord, BeforeLastOne, Zeros, First, CountOf;
    var bits := q + [true] + Zeros(MAX_BITS);
    CompleteDecodes(sizes, MAX_BITS, bits);
    s := Decode(sizes, MAX_BITS, bits).sym;
    var word := CodeWord(sizes, s);
    var u: nat :| Used(sizes, u) && |q| < sizes[u] && q <= CodeWord(sizes, u);
    if |word| <= |q| {
      PrefixOfPrefix(word, q, bits, CodeWord(sizes, u));
      assert s != u;
      CodesArePrefixFree(sizes, MAX_BITS, s, u);
    }
    CutOfZeros(q, MAX_BITS, word);
    BeforeLastOneOf(q, |word| - |q| - 1);
  }

  lemma PrefixOfPrefix(word: Word, q: Word, bits: Word, long: Word)
    requires word <= bits && q <= bits && |word| <= |q| && q <= long
    ensures word <= long
  {
  }

  lemma CutOfZeros(q: Word, n: nat, word: Word)
    requires word <= q + [true] + Zeros(n) && |word| > |q|
    ensures word == q + [true] + Zeros(|word| - |q| - 1)
  {
    assert word == (q + [true] + Zeros(n))[..|word|];
  }

  /** At most one symbol is used. */
  ghost predicate Lone(sizes: seq<nat>) {
    forall i, j :: Used(sizes, i) && Used(sizes, j) ==> i == j
  }

  lemma {:induction false} NodesBelowLone(sizes: seq<nat>, nodes: seq<Word>)
    requires Lone(sizes) && (forall i :: 0 <= i < |sizes| ==> sizes[i] <= MAX_BITS) && NodesOk(sizes, nodes)
    ensures |nodes| <= MAX_BITS
  {
    var lens: seq<nat> := seq(|nodes|, k requires 0 <= k < |nodes| => |nodes[k]|);
    forall i, j | 0 <= i < j < |lens| ensures lens[i] != lens[j] {
      if |nodes[i]| == |nodes[j]| { SamePrefix(sizes, nodes[i], nodes[j]); }
    }
    forall i | 0 <= i < |lens| ensures lens[i] < MAX_BITS { assert Inner(sizes, nodes[i]); }
    Pigeonhole(lens, MAX_BITS);
  }

  lemma SamePrefix(sizes: seq<nat>, p: Word, q: Word)
    requires Lone(sizes) && Inner(sizes, p) && Inner(sizes, q) && |p| == |q|
    ensures p == q
  {
    var s: nat :| Used(sizes, s) && |p| < sizes[s] && p <= CodeWord(sizes, s);
    var u: nat :| Used(sizes, u) && |q| < sizes[u] && q <= CodeWord(sizes, u);
  }

  lemma {:induction false} NodesBelowSymbols(sizes: seq<nat>, nodes: seq<Word>)
    requires Complete(sizes, MAX_BITS) && NodesOk(sizes, nodes)
    ensures |nodes| <= |sizes|
  {
    var syms: seq<nat> := [];
    while |syms| < |nodes|
      invariant |syms| <= |nodes|
      invariant forall k :: 0 <= k < |syms| ==> Used(sizes, syms[k]) && BeforeLastOne(CodeWord(sizes, syms[k])) == nodes[k]
    {
      var s := SymbolBelow(sizes, nodes[|syms|]);
      syms := syms + [s];
    }
    forall i, j | 0 <= i < j < |syms| ensures syms[i] != syms[j] {
      assert nodes[i] != nodes[j];
    }
    Pigeonhole(syms, |sizes|);
  }

  // ----- building the table

  lemma {:induction false} CellAfterNode(sizes: seq<nat>, done: nat, nodes: seq<Word>, q: Word, p: Word, v: int, v': int)
    requires Fits(sizes, MAX_BITS) && Inner(sizes, q) && q !in nodes && Cell(sizes, done, nodes, p, v)
    requires v' == if p == q then NodeRef(|nodes|) else v
    ensures Cell(sizes, done, nodes + [q], p, v')
  {
    if p == q { NewNodeCell(sizes, done, nodes, q); } else { OtherCell(sizes, done, nodes, q, p, v); }
  }

  /** A new node: exactly the cell of its path changes. */
  lemma {:induction false} AddNode(look: seq<int>, tree: seq<int>, sizes: seq<nat>, done: nat, nodes: seq<Word>, q: Word,
                                   look': seq<int>, tree': seq<int>)
    requires Fits(sizes, MAX_BITS) && Table(look, tree, sizes, done, nodes) && |nodes| < MAX_SYMBOLS
    requires Inner(sizes, q) && q !in nodes && HasParent(nodes, q)
    requires |look'| == |look| && |tree'| == |tree|
    requires forall i :: 0 <= i < FAST_SIZE ==> look'[i] == if LookPath(i) == q then NodeRef(|nodes|) else look[i]
    requires forall c :: 0 <= c < 2 * |nodes| ==> tree'[c] == if TreePath(nodes, c) == q then NodeRef(|nodes|) else tree[c]
    requires forall c :: 2 * |nodes| <= c < |tree| ==> tree'[c] == 0
    ensures Table(look', tree', sizes, done, nodes + [q])
  {
    hide Inner, NodesOk, LongDone, Cell, Fits, NodeRef, LookPath;
    var nodes' := nodes + [q];
    assert |q| >= FAST_BITS by { InnerIsDeep(sizes, q); }
    MoreNodes(sizes, nodes, q);
    MorePaths(sizes, done, nodes, q);
    forall i | 0 <= i < FAST_SIZE ensures LookCell(look', sizes, done, nodes', i) {
      assert LookCell(look, sizes, done, nodes, i);
      CellAfterNode(sizes, done, nodes, q, LookPath(i), look[i], look'[i]);
    }
    forall c | 0 <= c < 2 * |nodes'| ensures TreeCell(tree', sizes, done, nodes', c) {
      if c < 2 * |nodes| {
        assert TreeCell(tree, sizes, done, nodes, c);
        assert TreePath(nodes', c) == TreePath(nodes, c);
        CellAfterNode(sizes, done, nodes, q, TreePath(nodes, c), tree[c], tree'[c]);
      } else {
        assert TreePath(nodes', c) == q + [c % 2 == 1];
        FreshCell(sizes, done, nodes, q, c % 2 == 1);
      }
    }
  }

  lemma InnerIsDeep(sizes: seq<nat>, q: Word)
    requires Inner(sizes, q)
    ensures |q| >= FAST_BITS
  {
  }

  lemma {:induction false} CellAfterSymbol(sizes: seq<nat>, s: nat, nodes: seq<Word>, p: Word, v: int, v': int)
    requires Fits(sizes, MAX_BITS) && s < |sizes| && NodesOk(sizes, nodes) && Cell(sizes, s, nodes, p, v)
    requires v' == if Claims(sizes, s, p) then Entry(sizes, s) else v
    ensures Cell(sizes, s + 1, nodes, p, v')
  {
    hide Entry, NodeRef, Inner, Fits;
    if Claims(sizes, s, p) {
      ClaimedIsNoNode(sizes, s, nodes, p);
      forall u | 0 <= u < s && Claims(sizes, u, p) ensures false { OneClaim(sizes, p, s, u); }
    }
  }

  lemma ClaimedIsNoNode(sizes: seq<nat>, s: nat, nodes: seq<Word>, p: Word)
    requires Fits(sizes, MAX_BITS) && NodesOk(sizes, nodes) && Claims(sizes, s, p)
    ensures p !in nodes
  {
    if p in nodes { InnerUnclaimed(sizes, p, s); }
  }

  /** Symbol s has been entered: exactly the cells it claims change. */
  lemma {:induction false} AddSymbol(look: seq<int>, tree: seq<int>, sizes: seq<nat>, s: nat, nodes: seq<Word>,
                                     look': seq<int>, tree': seq<int>, next: nat)
    requires next == s + 1
    requires Fits(sizes, MAX_BITS) && s < |sizes| && Table(look, tree, sizes, s, nodes)
    requires Used(sizes, s) && sizes[s] > FAST_BITS ==> PathIn(CodeWord(sizes, s), sizes[s], nodes)
    requires |look'| == |look| && |tree'| == |tree|
    requires forall i :: 0 <= i < FAST_SIZE ==>
      look'[i] == if Claims(sizes, s, LookPath(i)) then Entry(sizes, s) else look[i]
    requires forall c :: 0 <= c < 2 * |nodes| ==>
      tree'[c] == if Claims(sizes, s, TreePath(nodes, c)) then Entry(sizes, s) else tree[c]
    requires forall c :: 2 * |nodes| <= c < |tree| ==> tree'[c] == 0
    ensures Table(look', tree', sizes, next, nodes)
  {
    hide Inner, NodesOk, Cell, Fits, LookPath, Claims, Entry, PathIn, CodeWord;
    forall i | 0 <= i < FAST_SIZE ensures LookCell(look', sizes, next, nodes, i) {
      assert LookCell(look, sizes, s, nodes, i);
      CellAfterSymbol(sizes, s, nodes, LookPath(i), look[i], look'[i]);
    }
    forall c | 0 <= c < 2 * |nodes| ensures TreeCell(tree', sizes, next, nodes, c) {
      assert TreeCell(tree, sizes, s, nodes, c);
      CellAfterSymbol(sizes, s, nodes, TreePath(nodes, c), tree[c], tree'[c]);
    }
  }

  /** Short codes: the cells whose index ends in the reversed code. */
  lemma {:induction false} ShortClaims(sizes: seq<nat>, s: nat, i: nat)
    requires Used(sizes, s) && sizes[s] <= FAST_BITS
    ensures Claims(sizes, s, LookPath(i)) <==> i % Pow2(sizes[s]) == Reversed(CodeWord(sizes, s))
  {
    PrefixIsRemainder(i, FAST_BITS, CodeWord(sizes, s));
  }

  /** Writes k into every cell whose index ends in the low bits rev. */
  method FillCells(look: array<int>, rev: nat, step: nat, k: int)
    requires look.Length == FAST_SIZE && rev < step
    modifies look
    ensures forall i :: 0 <= i < FAST_SIZE ==> look[i] == if i % step == rev then k else old(look[i])
  {
    ghost var before := look[..];
    var cell := rev;
    DivUnique(rev, step, 0, rev);
    NoneBelow(rev, step);
    while cell < FAST_SIZE
      invariant cell % step == rev
      invariant forall i :: cell <= i < FAST_SIZE ==> look[i] == before[i]
      invariant forall i :: 0 <= i < FAST_SIZE && i < cell ==> look[i] == if i % step == rev then k else before[i]
    {
      look[cell] := k;
      forall i | cell < i < cell + step ensures i % step != rev { NoneBetween(cell, i, step, rev); }
      NextCell(cell, step);
      cell := cell + step;
    }
  }

  lemma NoneBelow(rev: nat, step: nat)
    requires rev < step
    ensures forall i :: 0 <= i < rev ==> i % step != rev
  {
    forall i | 0 <= i < rev ensures i % step != rev { DivUnique(i, step, 0, i); }
  }

  method EnterShort(look: array<int>, tree: array<int>, ghost sizes: seq<nat>, s: nat, codeSize: nat, rev: nat,
                    ghost nodes: seq<Word>)
    requires Fits(sizes, MAX_BITS) && Table(look[..], tree[..], sizes, s, nodes) && look != tree
    requires Used(sizes, s) && codeSize == sizes[s] <= FAST_BITS && rev == Reversed(CodeWord(sizes, s))
    modifies look
    ensures Table(look[..], tree[..], sizes, s + 1, nodes)
  {
    ghost var before := look[..];
    LowBitsOfReversed(CodeWord(sizes, s));
    TableShape(look[..], tree[..], sizes, s, nodes);
    hide Table, Pow2, Reversed, CodeWord, Fits, Claims, LookPath, NodesOk;
    var step := Power(codeSize);
    FillCells(look, rev, step, codeSize * 512 + s);
    forall i | 0 <= i < FAST_SIZE
      ensures look[i] == if Claims(sizes, s, LookPath(i)) then Entry(sizes, s) else before[i]
    {
      ShortClaims(sizes, s, i);
    }
    TreeUnclaimed(sizes, s, nodes, look[..], before, tree[..]);
  }

  lemma TableShape(look: seq<int>, tree: seq<int>, sizes: seq<nat>, done: nat, nodes: seq<Word>)
    requires Table(look, tree, sizes, done, nodes)
    ensures |look| == FAST_SIZE && |tree| == 2 * MAX_SYMBOLS && |nodes| <= MAX_SYMBOLS && NodesOk(sizes, nodes)
  {
  }

  lemma {:induction false} TreeUnclaimed(sizes: seq<nat>, s: nat, nodes: seq<Word>, look: seq<int>, before: seq<int>, tree: seq<int>)
    requires Fits(sizes, MAX_BITS) && Used(sizes, s) && sizes[s] <= FAST_BITS && Table(before, tree, sizes, s, nodes)
    requires |look| == FAST_SIZE
    requires forall i :: 0 <= i < FAST_SIZE ==>
      look[i] == if Claims(sizes, s, LookPath(i)) then Entry(sizes, s) else before[i]
    ensures Table(look, tree, sizes, s + 1, nodes)
  {
    forall c | 0 <= c < 2 * |nodes| ensures !Claims(sizes, s, TreePath(nodes, c)) {
      assert Inner(sizes, nodes[c / 2]);
    }
    hide Fits, Claims, Entry, LookPath, Cell, NodesOk, LongDone, CodeWord;
    AddSymbol(before, tree, sizes, s, nodes, look, tree, s + 1);
  }

  lemma NextCell(cell: nat, step: nat)
    requires step > 0
    ensures (cell + step) % step == cell % step
  {
    var q, r := DivParts(cell, step);
    assert step * (q + 1) == step * q + step;
    DivUnique(cell + step, step, q + 1, r);
  }

  /** Between two neighbouring multiples there is no third. */
  lemma NoneBetween(cell: nat, i: nat, step: nat, rev: nat)
    requires step > 0 && cell % step == rev
    ensures cell < i < cell + step ==> i % step != rev
  {
    var q, r := DivParts(cell, step);
    if cell < i < cell + step && i % step == rev {
      var q', r' := DivParts(i, step);
      MultipleGap(step, q, q');
    }
  }

  /** A cell on the way of a long code is empty or refers to its node. */
  lemma {:induction false} ReadCell(sizes: seq<nat>, done: nat, nodes: seq<Word>, q: Word, v: int) returns (k: nat)
    requires Fits(sizes, MAX_BITS) && Inner(sizes, q) && Cell(sizes, done, nodes, q, v)
    ensures v == 0 <==> q !in nodes
    ensures v != 0 ==> k < |nodes| && nodes[k] == q && v == NodeRef(k)
  {
    forall s: nat ensures !Claims(sizes, s, q) { InnerUnclaimed(sizes, q, s); }
    k := 0;
    if q in nodes { k :| 0 <= k < |nodes| && nodes[k] == q; }
  }

  /** What the decompressor accepts: the code is complete, or at most one symbol is used. */
  ghost predicate Accepted(sizes: seq<nat>) {
    && |sizes| <= MAX_SYMBOLS && Fits(sizes, MAX_BITS)
    && (Complete(sizes, MAX_BITS) || Lone(sizes))
  }

  lemma {:induction false} RoomForNode(sizes: seq<nat>, nodes: seq<Word>, q: Word)
    requires Accepted(sizes) && NodesOk(sizes, nodes)
    requires Inner(sizes, q) && q !in nodes && HasParent(nodes, q)
    ensures |nodes| < MAX_SYMBOLS
  {
    MoreNodes(sizes, nodes, q);
    if Complete(sizes, MAX_BITS) { NodesBelowSymbols(sizes, nodes + [q]); } else { NodesBelowLone(sizes, nodes + [q]); }
  }

  ghost predicate At(nodes: seq<Word>, cur: int, q: Word) {
    exists k: nat :: k < |nodes| && nodes[k] == q && cur == NodeRef(k)
  }

  lemma {:induction false} NodeAtLook(look: seq<int>, tree: seq<int>, sizes: seq<nat>, s: nat, nodes: seq<Word>, q: Word, cell: nat)
    requires Accepted(sizes) && Table(look, tree, sizes, s, nodes)
    requires |q| == FAST_BITS && Inner(sizes, q) && cell == Reversed(q)
    ensures cell < FAST_SIZE
    ensures look[cell] != 0 ==> At(nodes, look[cell], q)
    ensures look[cell] == 0 ==>
      |nodes| < MAX_SYMBOLS && Table(look[cell := NodeRef(|nodes|)], tree, sizes, s, nodes + [q])
  {
    LookPathOf(q);
    assert LookCell(look, sizes, s, nodes, cell);
    var k := ReadCell(sizes, s, nodes, q, look[cell]);
    hide Fits, Inner, Reversed, LookPath, Cell, NodeRef, LongDone, NodesOk;
    if look[cell] == 0 {
      RoomForNode(sizes, nodes, q);
      var look' := look[cell := NodeRef(|nodes|)];
      forall i | 0 <= i < FAST_SIZE ensures look'[i] == if LookPath(i) == q then NodeRef(|nodes|) else look[i] {
        if LookPath(i) == q { LookPathsDiffer(i, cell); }
      }
      forall c | 0 <= c < 2 * |nodes| ensures TreePath(nodes, c) != q {
        NodeIsDeep(sizes, nodes, c / 2);
      }
      AddNode(look, tree, sizes, s, nodes, q, look', tree);
    }
  }

  lemma NodeIsDeep(sizes: seq<nat>, nodes: seq<Word>, k: nat)
    requires NodesOk(sizes, nodes) && k < |nodes|
    ensures |nodes[k]| >= FAST_BITS
  {
    assert Inner(sizes, nodes[k]);
  }

  lemma {:induction false} NodeAtTree(look: seq<int>, tree: seq<int>, sizes: seq<nat>, s: nat, nodes: seq<Word>, k: nat, bit: nat, q: Word)
    requires Accepted(sizes) && Table(look, tree, sizes, s, nodes)
    requires k < |nodes| && bit < 2 && q == nodes[k] + [bit == 1] && Inner(sizes, q)
    ensures tree[2 * k + bit] != 0 ==> At(nodes, tree[2 * k + bit], q)
    ensures tree[2 * k + bit] == 0 ==>
      |nodes| < MAX_SYMBOLS && Table(look, tree[2 * k + bit := NodeRef(|nodes|)], sizes, s, nodes + [q])
  {
    var cell := 2 * k + bit;
    assert TreeCell(tree, sizes, s, nodes, cell);
    assert TreePath(nodes, cell) == q;
    var n := ReadCell(sizes, s, nodes, q, tree[cell]);
    NodeIsDeep(sizes, nodes, k);
    hide Fits, Inner, LookPath, Cell, NodeRef, LongDone, NodesOk, TreePath;
    if tree[cell] == 0 {
      assert q[..|q| - 1] == nodes[k];
      RoomForNode(sizes, nodes, q);
      var tree' := tree[cell := NodeRef(|nodes|)];
      forall c | 0 <= c < 2 * |nodes|
        ensures tree'[c] == if TreePath(nodes, c) == q then NodeRef(|nodes|) else tree[c]
      {
        if TreePath(nodes, c) == q { TreePathsDiffer(sizes, nodes, c, cell); }
      }
      AddNode(look, tree, sizes, s, nodes, q, look, tree');
    }
  }

  /** A long code claims one cell of the tree. */
  lemma {:induction false} LongClaims(sizes: seq<nat>, s: nat, nodes: seq<Word>, k: nat, bit: nat)
    requires NodesOk(sizes, nodes) && Used(sizes, s) && sizes[s] > FAST_BITS
    requires k < |nodes| && bit < 2 && CodeWord(sizes, s) == nodes[k] + [bit == 1]
    ensures forall i :: 0 <= i < FAST_SIZE ==> !Claims(sizes, s, LookPath(i))
    ensures forall c :: 0 <= c < 2 * |nodes| ==> (Claims(sizes, s, TreePath(nodes, c)) <==> c == 2 * k + bit)
  {
    var cell := 2 * k + bit;
    var word := CodeWord(sizes, s);
    assert TreePath(nodes, cell) == word;
    hide NodesOk, CodeWord, TreePath;
    forall c | 0 <= c < 2 * |nodes| ensures TreePath(nodes, c) == word <==> c == cell {
      if TreePath(nodes, c) == word { TreePathsDiffer(sizes, nodes, c, cell); }
    }
  }

  lemma {:induction false} LeafAtTree(look: seq<int>, tree: seq<int>, sizes: seq<nat>, s: nat, nodes: seq<Word>, k: nat, bit: nat, next: nat)
    requires Accepted(sizes) && Table(look, tree, sizes, s, nodes) && next == s + 1
    requires Used(sizes, s) && sizes[s] > FAST_BITS && PathIn(CodeWord(sizes, s), sizes[s], nodes)
    requires k < |nodes| && bit < 2 && CodeWord(sizes, s) == nodes[k] + [bit == 1]
    ensures Table(look, tree[2 * k + bit := s], sizes, next, nodes)
  {
    LongClaims(sizes, s, nodes, k, bit);
    hide Fits, LookPath, Cell, LongDone, NodesOk, CodeWord, TreePath, PathIn, Claims;
    AddSymbol(look, tree, sizes, s, nodes, look, tree[2 * k + bit := s], next);
  }

  /** The ways of a code: every prefix beyond the fast bits is an inner path. */
  lemma WayIsInner(sizes: seq<nat>, s: nat, d: nat)
    requires Used(sizes, s) && FAST_BITS <= d < sizes[s]
    ensures Inner(sizes, CodeWord(sizes, s)[..d])
  {
  }

  /** The bit after the first d of a reversed code. */
  lemma BitOfCode(word: Word, d: nat)
    requires d < |word|
    ensures Shifted(Reversed(word), d) % 2 == if word[d] then 1 else 0
    ensures word[..d + 1] == word[..d] + [word[d]]
  {
    LowBitsOfReversed(word);
    LowBitsAt(Reversed(word), |word|, d);
    ShiftedIs(Reversed(word), d);
  }

  ghost predicate Extends(nodes: seq<Word>, nodes': seq<Word>) {
    nodes <= nodes'
  }

  /** Node `cur` for path q is new, at the end of `nodes'`, or was there. */
  ghost predicate Linked(look: seq<int>, tree: seq<int>, sizes: seq<nat>, s: nat, nodes: seq<Word>, nodes': seq<Word>,
                         cur: int, next: int, q: Word) {
    && Table(look, tree, sizes, s, nodes') && Extends(nodes, nodes')
    && At(nodes', cur, q) && next == NodeRef(|nodes'|)
  }

  lemma AtNode(nodes: seq<Word>, cur: int, q: Word) returns (k: nat)
    requires At(nodes, cur, q)
    ensures k < |nodes| && nodes[k] == q && cur == -2 * k - 1
  {
    k :| k < |nodes| && nodes[k] == q && cur == NodeRef(k);
  }

  lemma AtEnd(nodes: seq<Word>, q: Word)
    ensures At(nodes + [q], NodeRef(|nodes|), q) && Extends(nodes, nodes + [q]) && Extends(nodes, nodes)
    ensures NodeRef(|nodes + [q]|) == NodeRef(|nodes|) - 2
  {
    assert (nodes + [q])[|nodes|] == q;
  }

  lemma LinkLook(look: seq<int>, tree: seq<int>, sizes: seq<nat>, s: nat, nodes: seq<Word>, cell: nat, next: int, q: Word)
    requires Accepted(sizes) && Table(look, tree, sizes, s, nodes) && next == NodeRef(|nodes|)
    requires |q| == FAST_BITS && Inner(sizes, q) && cell == Reversed(q)
    ensures cell < |look|
    ensures look[cell] == 0 ==> Linked(look[cell := next], tree, sizes, s, nodes, nodes + [q], next, next - 2, q)
    ensures look[cell] != 0 ==> Linked(look, tree, sizes, s, nodes, nodes, look[cell], next, q)
  {
    hide Accepted, Table, Inner, Reversed, NodesOk, At, Extends, NodeRef;
    NodeAtLook(look, tree, sizes, s, nodes, q, cell);
    TableShape(look, tree, sizes, s, nodes);
    AtEnd(nodes, q);
  }

  lemma LinkTree(look: seq<int>, tree: seq<int>, sizes: seq<nat>, s: nat, nodes: seq<Word>, cur: int, bit: nat, next: int,
                 p: Word, q: Word)
    requires Accepted(sizes) && Table(look, tree, sizes, s, nodes) && next == NodeRef(|nodes|)
    requires At(nodes, cur, p) && bit < 2 && q == p + [bit == 1] && Inner(sizes, q)
    ensures 0 <= bit - cur - 1 < |tree|
    ensures tree[bit - cur - 1] == 0 ==>
      Linked(look, tree[bit - cur - 1 := next], sizes, s, nodes, nodes + [q], next, next - 2, q)
    ensures tree[bit - cur - 1] != 0 ==> Linked(look, tree, sizes, s, nodes, nodes, tree[bit - cur - 1], next, q)
  {
    hide Accepted, Table, Inner, NodesOk, At, Extends, NodeRef;
    var k := AtNode(nodes, cur, p);
    TableShape(look, tree, sizes, s, nodes);
    NodeAtTree(look, tree, sizes, s, nodes, k, bit, q);
    AtEnd(nodes, q);
  }

  /** Takes the next step down: the node for the path so far and one more bit. */
  method StepDown(look: array<int>, tree: array<int>, cur: int, bit: nat, next: int,
                  ghost sizes: seq<nat>, ghost s: nat, ghost nodes: seq<Word>, ghost p: Word, ghost q: Word)
      returns (cur': int, next': int, ghost nodes': seq<Word>)
    requires Accepted(sizes) && Table(look[..], tree[..], sizes, s, nodes) && look != tree
    requires At(nodes, cur, p) && next == NodeRef(|nodes|) && bit < 2 && q == p + [bit == 1] && Inner(sizes, q)
    modifies tree
    ensures Linked(look[..], tree[..], sizes, s, nodes, nodes', cur', next', q)
  {
    ghost var t, l := tree[..], look[..];
    LinkTree(l, t, sizes, s, nodes, cur, bit, next, p, q);
    hide Table, Accepted, Inner, At, Extends, Linked, NodeRef;
    cur' := cur - bit;
    ghost var c := bit - cur - 1;
    nodes', next' := nodes, next;
    if tree[-cur' - 1] == 0 {
      tree[-cur' - 1] := next;
      assert tree[..] == t[c := next];
      cur' := next;
      next' := next - 2;
      nodes' := nodes + [q];
    } else {
      cur' := tree[-cur' - 1];
    }
    assert look[..] == l;
  }

  /** Takes the first step: the node for the fast bits. */
  method StepIn(look: array<int>, tree: array<int>, cell: nat, next: int,
                ghost sizes: seq<nat>, ghost s: nat, ghost nodes: seq<Word>, ghost q: Word)
      returns (cur': int, next': int, ghost nodes': seq<Word>)
    requires Accepted(sizes) && Table(look[..], tree[..], sizes, s, nodes) && look != tree
    requires next == NodeRef(|nodes|) && |q| == FAST_BITS && Inner(sizes, q) && cell == Reversed(q)
    modifies look
    ensures Linked(look[..], tree[..], sizes, s, nodes, nodes', cur', next', q)
  {
    ghost var t, l := tree[..], look[..];
    LinkLook(l, t, sizes, s, nodes, cell, next, q);
    hide Table, Accepted, Inner, At, Extends, Linked, NodeRef, Reversed;
    nodes', next' := nodes, next;
    cur' := look[cell];
    if cur' == 0 {
      look[cell] := next;
      assert look[..] == l[cell := next];
      cur' := next;
      next' := next - 2;
      nodes' := nodes + [q];
    }
    assert tree[..] == t;
  }

  lemma FirstStep(sizes: seq<nat>, s: nat, rev: nat)
    requires Used(sizes, s) && sizes[s] > FAST_BITS && rev == Reversed(CodeWord(sizes, s))
    ensures rev % FAST_SIZE == Reversed(CodeWord(sizes, s)[..FAST_BITS])
    ensures rev / 512 == Shifted(rev, FAST_BITS - 1)
  {
    var word := CodeWord(sizes, s);
    LowBitsOfReversed(word);
    PrefixIsRemainder(rev, |word|, word[..FAST_BITS]);
    assert Pow2(9) == 512 && Pow2(10) == FAST_SIZE;
    ShiftedIs(rev, FAST_BITS - 1);
  }

  lemma FirstPath(word: Word, nodes: seq<Word>, cur: int)
    requires |word| > FAST_BITS && At(nodes, cur, word[..FAST_BITS])
    ensures PathIn(word, FAST_BITS + 1, nodes)
  {
  }

  lemma LongerPath(word: Word, d: nat, was: seq<Word>, nodes: seq<Word>, cur: int)
    requires d < |word| && PathIn(word, d, was) && was <= nodes && At(nodes, cur, word[..d])
    ensures PathIn(word, d + 1, nodes)
  {
  }

  lemma EnterLeaf(look: seq<int>, tree: seq<int>, sizes: seq<nat>, s: nat, nodes: seq<Word>, cur: int, bit: nat, d: nat, next: nat)
    requires Accepted(sizes) && Table(look, tree, sizes, s, nodes) && Used(sizes, s) && d >= FAST_BITS && next == s + 1
    requires sizes[s] == d + 1 && PathIn(CodeWord(sizes, s), d + 1, nodes) && At(nodes, cur, CodeWord(sizes, s)[..d])
    requires bit < 2 && CodeWord(sizes, s)[..d + 1] == CodeWord(sizes, s)[..d] + [bit == 1]
    ensures 0 <= bit - cur - 1 < |tree| && Table(look, tree[bit - cur - 1 := s], sizes, next, nodes)
  {
    hide Table, Accepted, CodeWord, PathIn, At, NodesOk;
    var word := CodeWord(sizes, s);
    var k := AtNode(nodes, cur, word[..d]);
    TableShape(look, tree, sizes, s, nodes);
    assert word[..d + 1] == word;
    LeafAtTree(look, tree, sizes, s, nodes, k, bit, next);
  }

  /** Half-way down the code of symbol s, d bits deep. */
  ghost predicate Entering(look: seq<int>, tree: seq<int>, sizes: seq<nat>, s: nat, nodes: seq<Word>, cur: int, next: int, d: nat) {
    && Used(sizes, s) && FAST_BITS <= d < sizes[s]
    && Table(look, tree, sizes, s, nodes) && next == NodeRef(|nodes|)
    && At(nodes, cur, CodeWord(sizes, s)[..d]) && PathIn(CodeWord(sizes, s), d + 1, nodes)
  }

  lemma EnteringStarts(look: seq<int>, tree: seq<int>, sizes: seq<nat>, s: nat, nodes: seq<Word>, nodes': seq<Word>, cur: int, next: int)
    requires Used(sizes, s) && sizes[s] > FAST_BITS
    requires Linked(look, tree, sizes, s, nodes, nodes', cur, next, CodeWord(sizes, s)[..FAST_BITS])
    ensures Entering(look, tree, sizes, s, nodes', cur, next, FAST_BITS)
  {
    hide Table, CodeWord;
    FirstPath(CodeWord(sizes, s), nodes', cur);
  }

  lemma EnteringGoesOn(look: seq<int>, tree: seq<int>, look': seq<int>, tree': seq<int>, sizes: seq<nat>, s: nat,
                       nodes: seq<Word>, nodes': seq<Word>, cur: int, next: int, cur': int, next': int, d: nat)
    requires Entering(look, tree, sizes, s, nodes, cur, next, d) && d + 1 < sizes[s]
    requires Linked(look', tree', sizes, s, nodes, nodes', cur', next', CodeWord(sizes, s)[..d + 1])
    ensures Entering(look', tree', sizes, s, nodes', cur', next', d + 1)
  {
    hide Table, CodeWord, PathIn, At;
    LongerPath(CodeWord(sizes, s), d + 1, nodes, nodes', cur');
  }

  method Descend(look: array<int>, tree: array<int>, cur: int, rest: nat, next: int,
                 ghost sizes: seq<nat>, ghost s: nat, ghost nodes: seq<Word>, ghost rev: nat, ghost d: nat)
      returns (cur': int, next': int, ghost nodes': seq<Word>)
    requires Accepted(sizes) && Entering(look[..], tree[..], sizes, s, nodes, cur, next, d) && look != tree
    requires d + 1 < sizes[s] && rev == Reversed(CodeWord(sizes, s)) && rest == Shifted(rev, d)
    modifies tree
    ensures Entering(look[..], tree[..], sizes, s, nodes', cur', next', d + 1)
  {
    ghost var word := CodeWord(sizes, s);
    BitOfCode(word, d);
    WayIsInner(sizes, s, d + 1);
    ghost var l, t := look[..], tree[..];
    hide Table, Accepted, Inner, Reversed, CodeWord, Pow2, PathIn, At, Linked;
    cur', next', nodes' := StepDown(look, tree, cur, rest % 2, next, sizes, s, nodes, word[..d], word[..d + 1]);
    EnteringGoesOn(l, t, look[..], tree[..], sizes, s, nodes, nodes', cur, next, cur', next', d);
  }

  method PutLeaf(look: array<int>, tree: array<int>, cur: int, rest: nat, s: nat, ghost next: int,
                 ghost sizes: seq<nat>, ghost nodes: seq<Word>, ghost rev: nat, ghost d: nat)
    requires Accepted(sizes) && Entering(look[..], tree[..], sizes, s, nodes, cur, next, d) && look != tree
    requires d + 1 == sizes[s] && rev == Reversed(CodeWord(sizes, s)) && rest == Shifted(rev, d)
    modifies tree
    ensures Table(look[..], tree[..], sizes, s + 1, nodes)
  {
    hide Table, Accepted, Inner, Reversed, CodeWord, Pow2, PathIn, At, Shifted, Entering, NodeRef;
    ghost var l, t, c := look[..], tree[..], rest % 2 - cur - 1;
    EnterLastBit(l, t, sizes, s, nodes, cur, next, rest, rev, d, s + 1);
    var leaf := cur - rest % 2;
    tree[-leaf - 1] := s;
    assert tree[..] == t[c := s];
    assert look[..] == l;
  }

  lemma EnterLastBit(look: seq<int>, tree: seq<int>, sizes: seq<nat>, s: nat, nodes: seq<Word>, cur: int, next: int,
                     rest: nat, rev: nat, d: nat, done: nat)
    requires Accepted(sizes) && Entering(look, tree, sizes, s, nodes, cur, next, d) && done == s + 1
    requires d + 1 == sizes[s] && rev == Reversed(CodeWord(sizes, s)) && rest == Shifted(rev, d)
    ensures 0 <= rest % 2 - cur - 1 < |tree| && Table(look, tree[rest % 2 - cur - 1 := s], sizes, done, nodes)
  {
    hide Table, Accepted, Inner, Reversed, CodeWord, Pow2, PathIn, At, Shifted;
    BitOfCode(CodeWord(sizes, s), d);
    EnterLeaf(look, tree, sizes, s, nodes, cur, rest % 2, d, done);
  }

  method BeginDescent(look: array<int>, tree: array<int>, rev: nat, next: int,
                      ghost sizes: seq<nat>, ghost s: nat, ghost nodes: seq<Word>)
      returns (cur: int, next': int, ghost nodes': seq<Word>)
    requires Accepted(sizes) && Table(look[..], tree[..], sizes, s, nodes) && look != tree
    requires Used(sizes, s) && sizes[s] > FAST_BITS && rev == Reversed(CodeWord(sizes, s))
    requires next == NodeRef(|nodes|)
    modifies look
    ensures Entering(look[..], tree[..], sizes, s, nodes', cur, next', FAST_BITS)
    ensures rev / 512 == Shifted(rev, FAST_BITS - 1)
  {
    FirstStep(sizes, s, rev);
    WayIsInner(sizes, s, FAST_BITS);
    hide Table, Accepted, Inner, Reversed, CodeWord, Pow2, PathIn, At, Linked, Entering, Shifted;
    cur, next', nodes' := StepIn(look, tree, rev % FAST_SIZE, next, sizes, s, nodes, CodeWord(sizes, s)[..FAST_BITS]);
    EnteringStarts(look[..], tree[..], sizes, s, nodes, nodes', cur, next');
  }

  method EnterLong(look: array<int>, tree: array<int>, ghost sizes: seq<nat>, s: nat, codeSize: nat, rev: nat,
                   next: int, ghost nodes: seq<Word>) returns (next': int, ghost nodes': seq<Word>)
    requires Accepted(sizes) && Table(look[..], tree[..], sizes, s, nodes) && look != tree
    requires Used(sizes, s) && codeSize == sizes[s] > FAST_BITS && rev == Reversed(CodeWord(sizes, s))
    requires next == NodeRef(|nodes|)
    modifies look, tree
    ensures Table(look[..], tree[..], sizes, s + 1, nodes') && next' == NodeRef(|nodes'|)
  {
    hide Table, Accepted, Reversed, CodeWord, Pow2, PathIn, At, Entering, Shifted, NodeRef;
    var cur;
    cur, next', nodes' := BeginDescent(look, tree, rev, next, sizes, s, nodes);
    var rest := rev / 512;
    ghost var d: nat := FAST_BITS;
    var j := codeSize;
    while j > FAST_BITS + 1
      invariant FAST_BITS + 1 <= j <= codeSize && d == FAST_BITS + (codeSize - j)
      invariant rest == Shifted(rev, d - 1)
      invariant Entering(look[..], tree[..], sizes, s, nodes', cur, next', d)
    {
      ShiftOnce(rev, d - 1);
      rest := rest / 2;
      cur, next', nodes' := Descend(look, tree, cur, rest, next', sizes, s, nodes', rev, d);
      d := d + 1;
      j := j - 1;
    }
    ShiftOnce(rev, d - 1);
    rest := rest / 2;
    EnteringRef(look[..], tree[..], sizes, s, nodes', cur, next', d);
    PutLeaf(look, tree, cur, rest, s, next', sizes, nodes', rev, d);
  }

  lemma EnteringRef(look: seq<int>, tree: seq<int>, sizes: seq<nat>, s: nat, nodes: seq<Word>, cur: int, next: int, d: nat)
    requires Entering(look, tree, sizes, s, nodes, cur, next, d)
    ensures next == NodeRef(|nodes|)
  {
  }

  // ----- which code lengths are accepted

  /** How many symbols have each length from 1 to MAX_BITS. */
  ghost predicate UsedCounts(sizes: seq<nat>, t: seq<nat>) {
    |t| == MAX_BITS && Counted(sizes, t)
  }

  ghost predicate Counted(sizes: seq<nat>, t: seq<nat>) {
    forall l :: 1 <= l <= |t| ==> CountIs(sizes, t, l)
  }

  ghost predicate CountIs(sizes: seq<nat>, t: seq<nat>, l: nat)
    requires 1 <= l <= |t|
  {
    t[l - 1] == CountOf(sizes, l)
  }

  lemma {:induction false} SumOfTwo(t: seq<nat>, i: nat, j: nat)
    requires i < |t| && j < |t| && i != j
    ensures t[i] + t[j] <= Sum(t)
  {
    SumUpdate(t, i, 0);
    SumPart(t[i := 0], j);
  }

  lemma {:induction false} PositivePart(t: seq<nat>) returns (i: nat)
    requires Sum(t) > 0
    ensures i < |t| && t[i] > 0
  {
    if t[|t| - 1] > 0 { i := |t| - 1; } else { i := PositivePart(t[..|t| - 1]); }
  }

  lemma {:induction false} TwoAlike(sizes: seq<nat>, i: nat, j: nat)
    requires i < j < |sizes| && sizes[i] == sizes[j]
    ensures CountOf(sizes, sizes[i]) >= 2
  {
    CountOfPrefix(sizes, j, sizes[i]);
    RankDistinct(sizes, i, j);
  }

  lemma {:induction false} OneAtLeast(sizes: seq<nat>, i: nat)
    requires i < |sizes|
    ensures CountOf(sizes, sizes[i]) >= 1
  {
    CountOfPrefix(sizes, i, sizes[i]);
  }

  /** Two symbols that share no place use two of the counted places. */
  lemma {:induction false} TwoUsedCount(sizes: seq<nat>, t: seq<nat>, i: nat, j: nat)
    requires UsedCounts(sizes, t) && (forall k :: 0 <= k < |sizes| ==> sizes[k] <= MAX_BITS)
    requires Used(sizes, i) && Used(sizes, j) && i < j
    ensures Sum(t) >= 2
  {
    assert CountIs(sizes, t, sizes[i]) && CountIs(sizes, t, sizes[j]);
    if sizes[i] == sizes[j] {
      TwoAlike(sizes, i, j);
      SumPart(t, sizes[i] - 1);
    } else {
      OneAtLeast(sizes, i);
      OneAtLeast(sizes, j);
      SumOfTwo(t, sizes[i] - 1, sizes[j] - 1);
    }
  }

  lemma {:induction false} CountedIsUsed(sizes: seq<nat>, t: seq<nat>, l: nat, rank: nat) returns (sym: nat)
    requires UsedCounts(sizes, t) && 1 <= l <= MAX_BITS && rank < t[l - 1]
    ensures Used(sizes, sym) && sizes[sym] == l && CountOf(sizes[..sym], l) == rank
  {
    assert CountIs(sizes, t, l);
    sym := SymbolAt(sizes, l, rank);
  }

  lemma {:induction false} LoneIsCounted(sizes: seq<nat>, t: seq<nat>)
    requires UsedCounts(sizes, t) && forall k :: 0 <= k < |sizes| ==> sizes[k] <= MAX_BITS
    ensures Lone(sizes) <==> Sum(t) <= 1
  {
    if Sum(t) <= 1 {
      forall i, j | Used(sizes, i) && Used(sizes, j) ensures i == j {
        if i < j { TwoUsedCount(sizes, t, i, j); } else if j < i { TwoUsedCount(sizes, t, j, i); }
      }
    } else {
      var l := PositivePart(t);
      var a := CountedIsUsed(sizes, t, l + 1, 0);
      var b;
      if t[l] >= 2 {
        b := CountedIsUsed(sizes, t, l + 1, 1);
      } else {
        SumUpdate(t, l, 0);
        var m := PositivePart(t[l := 0]);
        b := CountedIsUsed(sizes, t, m + 1, 0);
      }
      assert a != b;
    }
  }

  /** A lone symbol leaves half of the code space free, of whatever length its code is. */
  lemma {:induction false} LonePast(sizes: seq<nat>, len: nat)
    requires Lone(sizes) && len >= 1
    ensures Past(sizes, len) <= Pow2(len - 1)
    ensures (forall i :: 0 <= i < |sizes| ==> sizes[i] == 0 || sizes[i] > len) ==> Past(sizes, len) == 0
  {
    if len > 1 { LonePast(sizes, len - 1); }
    if CountOf(sizes, len) > 0 {
      var i := SymbolAt(sizes, len, 0);
      assert Used(sizes, i);
      forall k | 0 <= k < |sizes| ensures k == i || sizes[k] == 0 { assert Used(sizes, k) ==> k == i; }
      if CountOf(sizes, len) > 1 {
        var j := SymbolAt(sizes, len, 1);
        assert Used(sizes, j);
      }
    }
  }

  lemma LoneFits(sizes: seq<nat>)
    requires Lone(sizes) && forall i :: 0 <= i < |sizes| ==> sizes[i] <= MAX_BITS
    ensures Fits(sizes, MAX_BITS)
  {
    LonePast(sizes, MAX_BITS);
    Pow2Monotone(MAX_BITS - 1, MAX_BITS);
  }

  /** The running total stays far below 2^32. */
  lemma {:induction false} FirstBound(sizes: seq<nat>, len: nat)
    requires len >= 1
    ensures First(sizes, len) + 2 * |sizes| <= |sizes| * Pow2(len)
  {
    if len == 1 {
      assert Pow2(1) == 2;
    } else {
      FirstBound(sizes, len - 1);
      assert |sizes| * Pow2(len) == 2 * (|sizes| * Pow2(len - 1));
    }
  }

  /** Counts code lengths, finds the first code of every length and decides whether to go on. */
  method CheckCode(sizes: array<nat>, tableLen: nat) returns (ok: bool, next: array<nat>)
    requires tableLen <= sizes.Length && tableLen <= MAX_SYMBOLS
    requires forall i :: 0 <= i < tableLen ==> sizes[i] <= MAX_BITS
    ensures fresh(next) && next.Length == MAX_BITS + 2 && NextCodes(next[..], sizes[..tableLen], MAX_BITS, 0)
    ensures ok <==> Complete(sizes[..tableLen], MAX_BITS) || Lone(sizes[..tableLen])
    ensures ok ==> Accepted(sizes[..tableLen])
  {
    hide Lone, Complete, Fits, First, CountOf, Counted, Sum, NextCodes, Accepted, Pow2;
    ghost var s := sizes[..tableLen];
    var totals := CountLengths(sizes, tableLen);
    next := new nat[MAX_BITS + 2](_ => 0);
    ghost var t: seq<nat> := [];
    var used, total := 0, 0;
    NothingCounted(s);
    for i := 1 to MAX_BITS + 1
      invariant sizes[..tableLen] == s && next.Length == MAX_BITS + 2
      invariant forall l :: 1 <= l <= MAX_BITS ==> totals[l] == CountOf(s, l)
      invariant |t| == i - 1 && used == Sum(t) && Counted(s, t)
      invariant total == First(s, i) < 0x1_0000_0000
      invariant forall l :: 1 <= l <= i ==> next[l] == First(s, l)
    {
      used := used + totals[i];
      CountMore(s, t, totals[i]);
      t := t + [totals[i]];
      NextTotal(s, i);
      total := 2 * (total + totals[i]);
      next[i + 1] := total;
    }
    ok := !(total != 65536 && used > 1);
    Verdict(s, t, total);
    NextCodesStart(next[..], s, MAX_BITS);
  }

  lemma NothingCounted(s: seq<nat>)
    ensures First(s, 1) == 0 && Sum([]) == 0 && Counted(s, [])
  {
  }

  lemma CountMore(s: seq<nat>, t: seq<nat>, x: nat)
    requires Counted(s, t) && x == CountOf(s, |t| + 1)
    ensures Counted(s, t + [x]) && Sum(t + [x]) == Sum(t) + x
  {
    SumSnoc(t, x);
    forall l | 1 <= l <= |t| + 1 ensures CountIs(s, t + [x], l) {
      if l <= |t| { assert CountIs(s, t, l); }
    }
  }

  lemma NextTotal(s: seq<nat>, i: nat)
    requires |s| <= MAX_SYMBOLS && 1 <= i <= MAX_BITS
    ensures First(s, i + 1) == 2 * (First(s, i) + CountOf(s, i)) < 0x1_0000_0000
  {
    FirstBound(s, i + 1);
    assert Pow2(16) == 65536 by { Pow2Add(8, 8); }
    Pow2Monotone(i + 1, 16);
    ProductMonotone(|s|, Pow2(i + 1), 65536);
  }

  lemma {:induction false} Verdict(s: seq<nat>, t: seq<nat>, total: nat)
    requires |t| == MAX_BITS && Counted(s, t) && total == First(s, MAX_BITS + 1) && |s| <= MAX_SYMBOLS
    requires forall k :: 0 <= k < |s| ==> s[k] <= MAX_BITS
    ensures Complete(s, MAX_BITS) <==> total == 65536
    ensures Lone(s) <==> Sum(t) <= 1
    ensures Complete(s, MAX_BITS) || Lone(s) ==> Accepted(s)
  {
    assert total == 2 * Past(s, MAX_BITS);
    assert Pow2(15) == 32768 by { Pow2Add(10, 5); }
    LoneIsCounted(s, t);
    if Lone(s) { LoneFits(s); }
  }

  method CountLengths(sizes: array<nat>, tableLen: nat) returns (totals: array<nat>)
    requires tableLen <= sizes.Length && forall i :: 0 <= i < tableLen ==> sizes[i] <= MAX_BITS
    ensures fresh(totals) && totals.Length == MAX_BITS + 1
    ensures forall l :: 0 <= l <= MAX_BITS ==> totals[l] == CountOf(sizes[..tableLen], l)
  {
    totals := new nat[MAX_BITS + 1](_ => 0);
    for i := 0 to tableLen
      invariant forall l :: 0 <= l <= MAX_BITS ==> totals[l] == CountOf(sizes[..i], l)
    {
      assert sizes[..i + 1][..i] == sizes[..i];
      totals[sizes[i]] := totals[sizes[i]] + 1;
    }
  }

  // ----- the whole table

  lemma {:induction false} EmptyTable(look: seq<int>, tree: seq<int>, sizes: seq<nat>)
    requires |look| == FAST_SIZE && |tree| == 2 * MAX_SYMBOLS
    requires (forall i :: 0 <= i < |look| ==> look[i] == 0) && (forall i :: 0 <= i < |tree| ==> tree[i] == 0)
    ensures Table(look, tree, sizes, 0, [])
  {
    hide LookPath;
    forall i | 0 <= i < FAST_SIZE ensures LookCell(look, sizes, 0, [], i) { }
  }

  lemma {:induction false} UnusedSymbol(look: seq<int>, tree: seq<int>, sizes: seq<nat>, s: nat, nodes: seq<Word>)
    requires Accepted(sizes) && Table(look, tree, sizes, s, nodes) && s < |sizes| && sizes[s] == 0
    ensures Table(look, tree, sizes, s + 1, nodes)
  {
    hide LookPath, TreePath, Cell, NodesOk, Inner, Fits, CodeWord;
    AddSymbol(look, tree, sizes, s, nodes, look, tree, s + 1);
  }

  method ClearTable(look: array<int>, tree: array<int>)
    requires look != tree
    modifies look, tree
    ensures forall i :: 0 <= i < look.Length ==> look[i] == 0
    ensures forall i :: 0 <= i < tree.Length ==> tree[i] == 0
  {
    for i := 0 to look.Length
      modifies look
      invariant forall k :: 0 <= k < i ==> look[k] == 0
    {
      look[i] := 0;
    }
    for i := 0 to tree.Length
      modifies tree
      invariant forall k :: 0 <= k < i ==> tree[k] == 0
    {
      tree[i] := 0;
    }
  }

  method EnterSymbol(look: array<int>, tree: array<int>, ghost sizes: seq<nat>, s: nat, codeSize: nat, code: nat,
                     next: int, ghost nodes: seq<Word>) returns (next': int, ghost nodes': seq<Word>)
    requires Accepted(sizes) && Table(look[..], tree[..], sizes, s, nodes) && look != tree
    requires Used(sizes, s) && codeSize == sizes[s] && code == Code(sizes, s) && next == NodeRef(|nodes|)
    modifies look, tree
    ensures Table(look[..], tree[..], sizes, s + 1, nodes') && next' == NodeRef(|nodes'|)
  {
    hide Table, Reversed, Code, Complete, Fits, Lone;
    var rev := ReverseBits(code, codeSize);
    if codeSize <= FAST_BITS {
      EnterShort(look, tree, sizes, s, codeSize, rev, nodes);
      next', nodes' := next, nodes;
    } else {
      next', nodes' := EnterLong(look, tree, sizes, s, codeSize, rev, next, nodes);
    }
  }

  method EnterAll(sizes: array<nat>, tableLen: nat, codes: array<nat>, look: array<int>, tree: array<int>)
      returns (ghost nodes: seq<Word>)
    requires tableLen <= sizes.Length && codes.Length == MAX_BITS + 2 && look != tree && codes != sizes
    requires Accepted(sizes[..tableLen]) && NextCodes(codes[..], sizes[..tableLen], MAX_BITS, 0)
    requires Table(look[..], tree[..], sizes[..tableLen], 0, [])
    modifies look, tree, codes
    ensures Table(look[..], tree[..], sizes[..tableLen], tableLen, nodes)
  {
    ghost var s := sizes[..tableLen];
    nodes := [];
    var next := -1;
    AcceptedSizes(s);
    hide Table, Accepted, NextCodes, CodeWord, Code, NodeRef;
    assert NodeRef(0) == -1 by { FirstRef(); }
    for i := 0 to tableLen
      invariant sizes[..tableLen] == s && next == NodeRef(|nodes|)
      invariant NextCodes(codes[..], s, MAX_BITS, i) && Table(look[..], tree[..], s, i, nodes)
    {
      var codeSize := sizes[i];
      ghost var before := codes[..];
      if codeSize == 0 {
        NextCodesStep(before, s, MAX_BITS, i, before);
        UnusedSymbol(look[..], tree[..], s, i, nodes);
      } else {
        var code := codes[codeSize];
        codes[codeSize] := code + 1;
        NextCodesStep(before, s, MAX_BITS, i, codes[..]);
        next, nodes := EnterSymbol(look, tree, s, i, codeSize, code, next, nodes);
      }
    }
  }

  lemma FirstRef()
    ensures NodeRef(0) == -1
  {
  }

  lemma AcceptedSizes(sizes: seq<nat>)
    requires Accepted(sizes)
    ensures forall i :: 0 <= i < |sizes| ==> sizes[i] <= MAX_BITS
  {
  }

  /** Builds the table of a code, unless the code is neither complete nor has at most one symbol. */
  method BuildTable(sizes: array<nat>, tableLen: nat, look: array<int>, tree: array<int>)
      returns (ok: bool, ghost nodes: seq<Word>)
    requires tableLen <= sizes.Length && tableLen <= MAX_SYMBOLS
    requires forall i :: 0 <= i < tableLen ==> sizes[i] <= MAX_BITS
    requires look.Length == FAST_SIZE && tree.Length == 2 * MAX_SYMBOLS && look != tree
    modifies look, tree
    ensures ok <==> Complete(sizes[..tableLen], MAX_BITS) || Lone(sizes[..tableLen])
    ensures ok ==> Accepted(sizes[..tableLen]) && Table(look[..], tree[..], sizes[..tableLen], tableLen, nodes)
  {
    ghost var s := sizes[..tableLen];
    ClearTable(look, tree);
    EmptyTable(look[..], tree[..], s);
    nodes := [];
    var codes;
    ok, codes := CheckCode(sizes, tableLen);
    if ok {
      nodes := EnterAll(sizes, tableLen, codes, look, tree);
    }
  }

  // ----- decoding with the table

  ghost predicate Ready(look: seq<int>, tree: seq<int>, sizes: seq<nat>, nodes: seq<Word>) {
    Accepted(sizes) && Table(look, tree, sizes, |sizes|, nodes)
  }

  /** Word w is what the bits in the buffer start with. */
  ghost predicate StartsWith(buf: nat, n: nat, w: Word) {
    w <= LowBits(buf, n)
  }

  /** The look-up by the ten lowest bits. */
  lemma {:induction false} LookHit(look: seq<int>, tree: seq<int>, sizes: seq<nat>, nodes: seq<Word>, s: nat, buf: nat, n: nat)
    requires Ready(look, tree, sizes, nodes) && Used(sizes, s) && StartsWith(buf, n, CodeWord(sizes, s))
    ensures |look| == FAST_SIZE
    ensures sizes[s] <= FAST_BITS ==> look[buf % FAST_SIZE] == 512 * sizes[s] + s
    ensures sizes[s] > FAST_BITS ==> At(nodes, look[buf % FAST_SIZE], CodeWord(sizes, s)[..FAST_BITS])
  {
    var word, q := CodeWord(sizes, s), LowBits(buf, FAST_BITS);
    assert LookPath(buf % FAST_SIZE) == q by {
      LowBitsMod(buf, FAST_BITS);
      assert Pow2(10) == FAST_SIZE;
    }
    assert LookCell(look, sizes, |sizes|, nodes, buf % FAST_SIZE);
    LowBitsPrefix(buf, n, |word|);
    if |word| <= FAST_BITS {
      LowBitsPrefix(buf, FAST_BITS, |word|);
      assert q[..|word|] == word;
      assert Claims(sizes, s, q);
    } else {
      LowBitsPrefix(buf, |word|, FAST_BITS);
      assert word[..FAST_BITS] == q;
      assert PathIn(word, sizes[s], nodes);
      var k :| 0 <= k < |nodes| && nodes[k] == q;
    }
  }

  function NextBit(buf: nat, d: nat): (bit: nat)
    ensures bit < 2
  {
    Shifted(buf, d) % 2
  }

  lemma {:induction false} BufferBit(buf: nat, n: nat, word: Word, d: nat)
    requires StartsWith(buf, n, word) && d < |word|
    ensures NextBit(buf, d) == if word[d] then 1 else 0
    ensures word[..d + 1] == word[..d] + [NextBit(buf, d) == 1]
  {
    LowBitsAt(buf, n, d);
    ShiftedIs(buf, d);
  }

  lemma {:induction false} TreeValue(look: seq<int>, tree: seq<int>, sizes: seq<nat>, nodes: seq<Word>, s: nat, k: nat, bit: nat, q: Word)
    requires Ready(look, tree, sizes, nodes) && Used(sizes, s) && k < |nodes| && bit < 2
    requires q == nodes[k] + [bit == 1] && q <= CodeWord(sizes, s) && |q| > FAST_BITS
    ensures if |q| < sizes[s] then At(nodes, tree[2 * k + bit], q) else tree[2 * k + bit] == s
  {
    hide CodeWord, TreePath, NodesOk, Accepted, At, NodeRef;
    var cell, word := 2 * k + bit, CodeWord(sizes, s);
    TreePathOf(nodes, k, bit, cell);
    assert TreeCell(tree, sizes, |sizes|, nodes, cell);
    assert word[..|q|] == q;
    if |q| < sizes[s] {
      assert PathIn(word, sizes[s], nodes);
      var n := NodeIn(nodes, q);
    } else {
      assert Claims(sizes, s, q);
    }
  }

  lemma TreePathOf(nodes: seq<Word>, k: nat, bit: nat, cell: nat)
    requires k < |nodes| && bit < 2 && cell == 2 * k + bit
    ensures TreePath(nodes, cell) == nodes[k] + [bit == 1]
  {
  }

  lemma NodeIn(nodes: seq<Word>, q: Word) returns (n: nat)
    requires q in nodes
    ensures n < |nodes| && nodes[n] == q && At(nodes, NodeRef(n), q)
  {
    n :| 0 <= n < |nodes| && nodes[n] == q;
  }

  lemma ReadyShape(look: seq<int>, tree: seq<int>, sizes: seq<nat>, nodes: seq<Word>)
    requires Ready(look, tree, sizes, nodes)
    ensures |look| == FAST_SIZE && 2 * |nodes| <= |tree|
  {
    hide Accepted, NodesOk, LongDone, Cell;
  }

  /** One step down the tree, by the next bit of the buffer. */
  lemma {:induction false} TreeHit(look: seq<int>, tree: seq<int>, sizes: seq<nat>, nodes: seq<Word>, s: nat, buf: nat, n: nat,
                                   cur: int, d: nat, next: nat)
    requires Ready(look, tree, sizes, nodes) && Used(sizes, s) && StartsWith(buf, n, CodeWord(sizes, s))
    requires FAST_BITS <= d < sizes[s] && At(nodes, cur, CodeWord(sizes, s)[..d]) && next == d + 1
    ensures 0 <= -cur - 1 + NextBit(buf, d) < |tree|
    ensures var v := tree[-cur - 1 + NextBit(buf, d)];
      if next < sizes[s] then At(nodes, v, CodeWord(sizes, s)[..next]) else v == s
  {
    hide Ready, Accepted, Table, Decode, CodeWord, LowBits, Walking, NextBit, Fits, Complete, Lone, StartsWith, Pow2, Loaded, Bytes, BitsOfBytes, Shifted, At, NodesOk;
    var word := CodeWord(sizes, s);
    var k := AtNode(nodes, cur, word[..d]);
    ReadyShape(look, tree, sizes, nodes);
    BufferBit(buf, n, word, d);
    TreeValue(look, tree, sizes, nodes, s, k, NextBit(buf, d), word[..next]);
  }

  /** The walk towards symbol s, d bits deep, stands at a node or has read the symbol. */
  ghost predicate Walking(sizes: seq<nat>, nodes: seq<Word>, s: nat, cur: int, d: nat) {
    && Used(sizes, s) && d <= sizes[s]
    && if d < sizes[s] then At(nodes, cur, CodeWord(sizes, s)[..d]) else cur == s
  }

  lemma WalkSign(sizes: seq<nat>, nodes: seq<Word>, s: nat, cur: int, d: nat)
    requires Walking(sizes, nodes, s, cur, d)
    ensures cur < 0 <==> d < sizes[s]
    ensures cur >= 0 ==> cur == s
  {
  }

  lemma WalkStart(look: seq<int>, tree: seq<int>, sizes: seq<nat>, nodes: seq<Word>, s: nat, buf: nat, n: nat)
    requires Ready(look, tree, sizes, nodes) && Used(sizes, s) && StartsWith(buf, n, CodeWord(sizes, s))
    ensures |look| == FAST_SIZE
    ensures sizes[s] <= FAST_BITS ==> look[buf % FAST_SIZE] == 512 * sizes[s] + s && s < MAX_SYMBOLS
    ensures sizes[s] > FAST_BITS ==> look[buf % FAST_SIZE] < 0 && Walking(sizes, nodes, s, look[buf % FAST_SIZE], FAST_BITS)
  {
    LookHit(look, tree, sizes, nodes, s, buf, n);
  }

  lemma WalkStep(look: seq<int>, tree: seq<int>, sizes: seq<nat>, nodes: seq<Word>, s: nat, buf: nat, n: nat,
                 cur: int, d: nat, next: nat)
    requires Ready(look, tree, sizes, nodes) && Used(sizes, s) && StartsWith(buf, n, CodeWord(sizes, s))
    requires Walking(sizes, nodes, s, cur, d) && cur < 0 && d >= FAST_BITS && next == d + 1
    ensures 0 <= -cur - 1 + NextBit(buf, d) < |tree| && next <= sizes[s]
    ensures Walking(sizes, nodes, s, tree[-cur - 1 + NextBit(buf, d)], next)
  {
    hide NextBit, StartsWith, Ready, CodeWord, At;
    WalkSign(sizes, nodes, s, cur, d);
    TreeHit(look, tree, sizes, nodes, s, buf, n, cur, d, next);
  }

  lemma {:induction false} DecodedWord(sizes: seq<nat>, bits: Word)
    requires Fits(sizes, MAX_BITS) && Decode(sizes, MAX_BITS, bits).Symbol?
    ensures var r := Decode(sizes, MAX_BITS, bits);
      Used(sizes, r.sym) && r.len == sizes[r.sym] && CodeWord(sizes, r.sym) <= bits
  {
    DecodeIsSound(sizes, MAX_BITS, bits, 1);
  }

  lemma ReadySymbol(look: seq<int>, tree: seq<int>, sizes: seq<nat>, nodes: seq<Word>, buf: nat, n: nat) returns (s: nat)
    requires Ready(look, tree, sizes, nodes) && Decode(sizes, MAX_BITS, LowBits(buf, n)).Symbol?
    ensures Used(sizes, s) && s < |sizes| && StartsWith(buf, n, CodeWord(sizes, s))
    ensures Decode(sizes, MAX_BITS, LowBits(buf, n)) == Symbol(s, sizes[s])
  {
    DecodedWord(sizes, LowBits(buf, n));
    s := Decode(sizes, MAX_BITS, LowBits(buf, n)).sym;
  }

  /** Decodes the symbol whose code the buffer starts with, as bit-by-bit decoding would. */
  method DecodeSymbol(look: array<int>, tree: array<int>, buf: nat, ghost n: nat, ghost sizes: seq<nat>, ghost nodes: seq<Word>)
      returns (sym: nat, codeLen: nat)
    requires Ready(look[..], tree[..], sizes, nodes)
    requires Decode(sizes, MAX_BITS, LowBits(buf, n)).Symbol?
    ensures Decode(sizes, MAX_BITS, LowBits(buf, n)) == Symbol(sym, codeLen)
  {
    hide Ready, Accepted, Table, Decode, CodeWord, LowBits, Walking, NextBit, Fits, Complete, Lone, StartsWith, Pow2, Loaded, Bytes, BitsOfBytes, Shifted, At, NodesOk;
    ghost var s := ReadySymbol(look[..], tree[..], sizes, nodes, buf, n);
    WalkStart(look[..], tree[..], sizes, nodes, s, buf, n);
    var temp := look[buf % FAST_SIZE];
    if temp >= 0 {
      codeLen, sym := temp / 512, temp % 512;
    } else {
      codeLen := FAST_BITS;
      while temp < 0
        invariant FAST_BITS <= codeLen <= sizes[s] && Walking(sizes, nodes, s, temp, codeLen)
        decreases sizes[s] - codeLen
      {
        WalkStep(look[..], tree[..], sizes, nodes, s, buf, n, temp, codeLen, codeLen + 1);
        temp := tree[-temp - 1 + NextBit(buf, codeLen)];
        codeLen := codeLen + 1;
      }
      WalkSign(sizes, nodes, s, temp, codeLen);
      sym := temp;
    }
  }

  /** The symbol that the buffer, filled up with zeros, starts with. */
  lemma {:induction false} PaddedSymbol(sizes: seq<nat>, buf: nat, n: nat) returns (s: nat)
    requires Fits(sizes, MAX_BITS) && Decode(sizes, MAX_BITS, LowBits(buf, MAX_BITS)).Symbol? && n <= MAX_BITS
    ensures Used(sizes, s) && s < |sizes| && StartsWith(buf, MAX_BITS, CodeWord(sizes, s))
    ensures Decode(sizes, MAX_BITS, LowBits(buf, n)).Symbol? <==> sizes[s] <= n
  {
    DecodedWord(sizes, LowBits(buf, MAX_BITS));
    s := Decode(sizes, MAX_BITS, LowBits(buf, MAX_BITS)).sym;
    LowBitsPrefix(buf, MAX_BITS, n);
    var word, bits := CodeWord(sizes, s), LowBits(buf, n);
    if sizes[s] <= n {
      LowBitsPrefix(buf, MAX_BITS, |word|);
      LowBitsPrefix(buf, n, |word|);
      DecodeReachesWord(sizes, MAX_BITS, s, bits, 1);
    } else if Decode(sizes, MAX_BITS, bits).Symbol? {
      DecodedWord(sizes, bits);
      var u := Decode(sizes, MAX_BITS, bits).sym;
      ComparablePrefixes(CodeWord(sizes, u), word, LowBits(buf, MAX_BITS));
      CodesArePrefixFree(sizes, MAX_BITS, u, s);
    }
  }

  lemma ReadyFits(look: seq<int>, tree: seq<int>, sizes: seq<nat>, nodes: seq<Word>)
    requires Ready(look, tree, sizes, nodes)
    ensures Fits(sizes, MAX_BITS) && (Complete(sizes, MAX_BITS) || Lone(sizes))
  {
  }

  /** Do the n bits of the buffer hold a whole code? */
  method HoldsCode(look: array<int>, tree: array<int>, buf: nat, n: nat, ghost sizes: seq<nat>, ghost nodes: seq<Word>)
      returns (found: bool)
    requires Ready(look[..], tree[..], sizes, nodes) && n < MAX_BITS
    requires Decode(sizes, MAX_BITS, LowBits(buf, MAX_BITS)).Symbol?
    ensures found <==> Decode(sizes, MAX_BITS, LowBits(buf, n)).Symbol?
  {
    hide Ready, Accepted, Table, Decode, CodeWord, LowBits, Walking, NextBit, Fits, Complete, Lone, StartsWith, Pow2, Loaded, Bytes, BitsOfBytes, Shifted, At, NodesOk;
    ReadyFits(look[..], tree[..], sizes, nodes);
    ghost var s := PaddedSymbol(sizes, buf, n);
    WalkStart(look[..], tree[..], sizes, nodes, s, buf, MAX_BITS);
    var temp := look[buf % FAST_SIZE];
    found := false;
    if temp >= 0 {
      var codeLen := temp / 512;
      found := codeLen != 0 && n >= codeLen;
    } else if n > FAST_BITS {
      var codeLen := FAST_BITS;
      while temp < 0 && n >= codeLen + 1
        invariant FAST_BITS <= codeLen <= sizes[s] && codeLen <= n
        invariant Walking(sizes, nodes, s, temp, codeLen)
        decreases sizes[s] - codeLen
      {
        WalkStep(look[..], tree[..], sizes, nodes, s, buf, MAX_BITS, temp, codeLen, codeLen + 1);
        temp := tree[-temp - 1 + NextBit(buf, codeLen)];
        codeLen := codeLen + 1;
      }
      WalkSign(sizes, nodes, s, temp, codeLen);
      found := temp >= 0;
    }
  }

  // ----- refilling the bit buffer

  /** The bits to come, with zeros past the end of the input, start with a code: of a code with a single symbol
      that has to be asked for. */
  ghost predicate Expected(sizes: seq<nat>, buf: nat, n: nat, input: seq<nat>, pos: nat) {
    Complete(sizes, MAX_BITS) || Decode(sizes, MAX_BITS, LowBits(buf, n) + BitsOfBytes(input, pos, 2)).Symbol?
  }

  lemma {:induction false} LoneFirst(sizes: seq<nat>, sym: nat, len: nat)
    requires Lone(sizes) && Used(sizes, sym) && 1 <= len <= sizes[sym]
    ensures First(sizes, len) == 0
  {
    if len > 1 {
      LoneFirst(sizes, sym, len - 1);
      if CountOf(sizes, len - 1) > 0 {
        var i := SymbolAt(sizes, len - 1, 0);
        assert Used(sizes, i);
      }
    }
  }

  lemma {:induction false} ZeroBits(len: nat)
    ensures Bits(0, len) == Zeros(len)
  {
    if len > 0 { ZeroBits(len - 1); }
  }

  lemma LoneIs(sizes: seq<nat>, i: nat, sym: nat)
    requires Lone(sizes) && Used(sizes, sym) && i < |sizes| && sizes[i] > 0
    ensures i == sym
  {
    assert Used(sizes, i);
  }

  /** A lone symbol's code is all zeros. */
  lemma LoneWord(sizes: seq<nat>, sym: nat)
    requires Lone(sizes) && Used(sizes, sym)
    ensures CodeWord(sizes, sym) == Zeros(sizes[sym])
  {
    hide First, CountOf, Bits, Zeros;
    LoneFirst(sizes, sym, sizes[sym]);
    ZeroBits(sizes[sym]);
    if CountOf(sizes[..sym], sizes[sym]) > 0 {
      var i := SymbolAt(sizes[..sym], sizes[sym], 0);
      LoneIs(sizes, i, sym);
    }
  }

  /** Two bit strings that agree as far as they both go, or go on with zeros. */
  lemma ZerosGoOn(n: nat, a: Word, b: Word, m: nat)
    requires n <= |b| && Zeros(n) <= a && m <= |a| && m <= |b| && a[..m] == b[..m]
    requires forall i :: m <= i < |b| ==> !b[i]
    ensures Zeros(n) <= b
  {
    forall i | 0 <= i < n ensures b[i] == Zeros(n)[i] {
      if i < m { assert b[i] == b[..m][i] == a[..m][i] == a[i] == a[..n][i]; }
    }
    assert b[..n] == Zeros(n);
  }

  lemma {:induction false} BitsAbove(v: nat, n: nat, m: nat, i: nat)
    requires v < Pow2(n) && n <= i < m
    ensures !LowBits(v, m)[i]
  {
    if n == 0 {
      NoBits(m, i);
    } else {
      BitsAbove(v / 2, n - 1, m - 1, i - 1);
      assert LowBits(v, m)[i] == LowBits(v / 2, m - 1)[i - 1];
    }
  }

  lemma {:induction false} NoBits(m: nat, i: nat)
    requires i < m
    ensures !LowBits(0, m)[i]
  {
    if i > 0 { NoBits(m - 1, i - 1); }
  }

  /** As long as no code is in the buffer, filling it up with zeros would complete one. */
  lemma ExpectedPadded(sizes: seq<nat>, buf: nat, n: nat, input: seq<nat>, pos: nat, k: nat, buf': nat, n': nat, pos': nat)
    requires Fits(sizes, MAX_BITS) && (Complete(sizes, MAX_BITS) || Lone(sizes)) && Expected(sizes, buf, n, input, pos)
    requires Loaded(buf, n, input, pos, k, buf', n', pos') && n' < MAX_BITS
    ensures Decode(sizes, MAX_BITS, LowBits(buf', MAX_BITS)).Symbol?
  {
    hide LowBits, Pow2, DecodeFrom, Fits, Complete, Lone, Zeros;
    if Complete(sizes, MAX_BITS) {
      CompleteDecodes(sizes, MAX_BITS, LowBits(buf', MAX_BITS));
    } else {
      var stream := LowBits(buf, n) + BitsOfBytes(input, pos, 2);
      DecodedWord(sizes, stream);
      var s := Decode(sizes, MAX_BITS, stream).sym;
      LoneWord(sizes, s);
      FitsSize(sizes, s);
      LoadedPrefix(buf, n, input, pos, k);
      LowBitsPrefix(buf', MAX_BITS, n');
      forall i | n' <= i < MAX_BITS ensures !LowBits(buf', MAX_BITS)[i] { BitsAbove(buf', n', MAX_BITS, i); }
      ZerosGoOn(sizes[s], stream, LowBits(buf', MAX_BITS), n');
      DecodeReachesWord(sizes, MAX_BITS, s, LowBits(buf', MAX_BITS), 1);
    }
  }

  lemma FitsSize(sizes: seq<nat>, s: nat)
    requires Fits(sizes, MAX_BITS) && Used(sizes, s)
    ensures 1 <= sizes[s] <= MAX_BITS
  {
  }

  lemma LoadedPrefix(buf: nat, n: nat, input: seq<nat>, pos: nat, k: nat)
    requires k <= 2
    ensures LowBits(buf, n) + BitsOfBytes(input, pos, k) <= LowBits(buf, n) + BitsOfBytes(input, pos, 2)
  {
    hide LowBits;
    if k < 2 {
      BitsOfOneMore(input, pos, 1, 2);
      if k == 0 { BitsOfOneMore(input, pos, 0, 1); }
    }
  }

  /** Near the end of the input: reads bytes only as long as the buffer holds no whole code. */
  method FillForCode(look: array<int>, tree: array<int>, buf: nat, n: nat, input: seq<nat>, pos: nat,
                     ghost sizes: seq<nat>, ghost nodes: seq<Word>) returns (buf': nat, n': nat, pos': nat, ghost k: nat)
    requires Ready(look[..], tree[..], sizes, nodes) && Expected(sizes, buf, n, input, pos)
    requires Bytes(input) && pos <= |input| && n < MAX_BITS && buf < Pow2(n)
    ensures Loaded(buf, n, input, pos, k, buf', n', pos') && n' == n + 8 * k < MAX_BITS + 8
    ensures n' < MAX_BITS ==> Decode(sizes, MAX_BITS, LowBits(buf', n')).Symbol?
    ensures k > 0 ==> Decode(sizes, MAX_BITS, LowBits(buf', n' - 8)) == NoSymbol
  {
    hide Ready, Accepted, Table, Decode, CodeWord, LowBits, Walking, NextBit, Fits, Complete, Lone, Expected, StartsWith, Pow2, Loaded, Bytes, BitsOfBytes, Shifted, At, NodesOk;
    ReadyFits(look[..], tree[..], sizes, nodes);
    LoadedNothing(buf, n, input, pos);
    buf', n', pos', k := buf, n, pos, 0;
    var found := false;
    while n' < MAX_BITS && !found
      invariant Loaded(buf, n, input, pos, k, buf', n', pos') && n' < MAX_BITS + 8 && n' == n + 8 * k
      invariant found ==> Decode(sizes, MAX_BITS, LowBits(buf', n')).Symbol?
      invariant k > 0 ==> Decode(sizes, MAX_BITS, LowBits(buf', n' - 8)) == NoSymbol
      decreases MAX_BITS + 8 - n', !found
    {
      ExpectedPadded(sizes, buf, n, input, pos, k, buf', n', pos');
      found := HoldsCode(look, tree, buf', n', sizes, nodes);
      if !found {
        buf', n', pos' := LoadOne(buf', n', input, pos', buf, n, pos, k);
        k := k + 1;
      }
    }
  }

  lemma EnoughBits(sizes: seq<nat>, buf: nat, n: nat, input: seq<nat>, pos: nat, k: nat, buf': nat, n': nat, pos': nat)
    requires Fits(sizes, MAX_BITS) && Expected(sizes, buf, n, input, pos)
    requires Loaded(buf, n, input, pos, k, buf', n', pos') && n' >= MAX_BITS && k <= 2
    ensures Decode(sizes, MAX_BITS, LowBits(buf', n')).Symbol?
  {
    hide LowBits, Pow2, DecodeFrom, Fits, Complete, CodeWord;
    if Complete(sizes, MAX_BITS) {
      CompleteDecodes(sizes, MAX_BITS, LowBits(buf', n'));
    } else {
      var stream := LowBits(buf, n) + BitsOfBytes(input, pos, 2);
      DecodedWord(sizes, stream);
      var s := Decode(sizes, MAX_BITS, stream).sym;
      FitsSize(sizes, s);
      LoadedPrefix(buf, n, input, pos, k);
      PrefixWithin(CodeWord(sizes, s), LowBits(buf', n'), stream);
      DecodeReachesWord(sizes, MAX_BITS, s, LowBits(buf', n'), 1);
    }
  }

  lemma PrefixWithin(word: Word, part: Word, whole: Word)
    requires word <= whole && part <= whole && |word| <= |part|
    ensures word <= part
  {
  }

  /** Decodes one symbol: what plain canonical decoding finds in the bits of the buffer followed by those of
      the input; at the end of the input no byte is read that the code does not need. */
  method HuffDecode(look: array<int>, tree: array<int>, buf: nat, n: nat, input: seq<nat>, pos: nat,
                    ghost sizes: seq<nat>, ghost nodes: seq<Word>)
      returns (sym: nat, buf': nat, n': nat, pos': nat, ghost k: nat, ghost stream: Word, ghost len: nat)
    requires Ready(look[..], tree[..], sizes, nodes) && Expected(sizes, buf, n, input, pos)
    requires Bytes(input) && pos <= |input| && buf < Pow2(n)
    ensures stream == LowBits(buf, n) + BitsOfBytes(input, pos, k)
    ensures pos' == if pos + k <= |input| then pos + k else |input|
    ensures Decode(sizes, MAX_BITS, stream) == Symbol(sym, len) && len <= |stream|
    ensures n' == |stream| - len && buf' < Pow2(n') && LowBits(buf', n') == stream[len..]
    ensures if |input| - pos < 2 then k > 0 ==> Decode(sizes, MAX_BITS, stream[..|stream| - 8]) == NoSymbol else k <= 2
  {
    hide Ready, Accepted, Table, Decode, CodeWord, LowBits, Walking, NextBit, Fits, Complete, Lone, Expected, StartsWith, Pow2, Loaded, Bytes, BitsOfBytes, Shifted, At, NodesOk;
    LoadedNothing(buf, n, input, pos);
    buf', n', pos', k := buf, n, pos, 0;
    if n < MAX_BITS {
      if |input| - pos < 2 {
        buf', n', pos', k := FillForCode(look, tree, buf, n, input, pos, sizes, nodes);
      } else {
        buf', n', pos' := LoadOne(buf, n, input, pos, buf, n, pos, 0);
        buf', n', pos' := LoadOne(buf', n', input, pos', buf, n, pos, 1);
        k := 2;
      }
    }
    stream := LowBits(buf', n');
    ReadyFits(look[..], tree[..], sizes, nodes);
    if n' >= MAX_BITS { EnoughBits(sizes, buf, n, input, pos, k, buf', n', pos'); }
    var codeLen;
    sym, codeLen := DecodeSymbol(look, tree, buf', n', sizes, nodes);
    len := codeLen;
    LenWithin(look[..], tree[..], sizes, nodes, stream);
    LoadedStream(buf, n, input, pos, k, buf', n', pos');
    if k > 0 { LowBitsPrefix(buf', n', n' - 8); }
    DropBits(buf', n', codeLen);
    buf', n' := Shifted(buf', codeLen), n' - codeLen;
  }

  lemma LenWithin(look: seq<int>, tree: seq<int>, sizes: seq<nat>, nodes: seq<Word>, bits: Word)
    requires Ready(look, tree, sizes, nodes) && Decode(sizes, MAX_BITS, bits).Symbol?
    ensures Decode(sizes, MAX_BITS, bits).len <= |bits|
  {
    DecodedWord(sizes, bits);
  }

  /** The table inverts the codes the compressor gives out: the bit-reversed code of a symbol at the bottom of
      the buffer decodes to that symbol. */
  lemma {:induction false} TableInvertsCodes(sizes: seq<nat>, codes: seq<nat>, s: nat, buf: nat, n: nat)
    requires Fits(sizes, MAX_BITS) && Used(sizes, s) && Coded(codes, sizes, |sizes|)
    requires sizes[s] <= n && buf % Pow2(sizes[s]) == codes[s]
    ensures Decode(sizes, MAX_BITS, LowBits(buf, n)) == Symbol(s, sizes[s])
  {
    PrefixIsRemainder(buf, n, CodeWord(sizes, s));
    DecodeReachesWord(sizes, MAX_BITS, s, LowBits(buf, n), 1);
  }
}
