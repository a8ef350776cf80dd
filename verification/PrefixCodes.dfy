/** Prefix-free sets of code words and Kraft's inequality. */
module PrefixCodes {
  import opened Arithmetic
  import opened HuffmanCost

  type Word = seq<bool>

  predicate Unrelated(a: Word, b: Word) {
    !(a <= b) && !(b <= a)
  }

  /** No word of the sequence is a prefix of another one (nor equal to it). */
  predicate PrefixFree(words: seq<Word>) {
    words == [] ||
    (PrefixFree(words[..|words| - 1]) &&
     forall k :: 0 <= k < |words| - 1 ==> Unrelated(words[k], words[|words| - 1]))
  }

  lemma {:induction false} PrefixFreeIsPairwise(words: seq<Word>, i: nat, j: nat)
    requires PrefixFree(words) && i < j < |words|
    ensures Unrelated(words[i], words[j])
  {
    if j < |words| - 1 {
      PrefixFreeIsPairwise(words[..|words| - 1], i, j);
    }
  }

  lemma {:induction false} PairwiseIsPrefixFree(words: seq<Word>)
    requires forall i, j :: 0 <= i < j < |words| ==> Unrelated(words[i], words[j])
    ensures PrefixFree(words)
  {
    if words != [] {
      PairwiseIsPrefixFree(words[..|words| - 1]);
    }
  }

  function Lengths(words: seq<Word>): (r: seq<nat>)
    ensures |r| == |words|
    ensures forall k :: 0 <= k < |r| ==> r[k] == |words[k]|
  {
    seq(|words|, k requires 0 <= k < |words| => |words[k]|)
  }

  /** The words that start with bit b, without that bit. */
  function Branch(words: seq<Word>, b: bool): (r: seq<Word>)
  {
    if words == [] then []
    else
      var last := words[|words| - 1];
      Branch(words[..|words| - 1], b) + if last != [] && last[0] == b then [last[1..]] else []
  }

  lemma {:induction false} BranchMember(words: seq<Word>, b: bool, t: Word)
    requires t in Branch(words, b)
    ensures [b] + t in words
  {
    var last := words[|words| - 1];
    if t in Branch(words[..|words| - 1], b) {
      BranchMember(words[..|words| - 1], b, t);
    } else {
      assert last == [b] + t;
    }
  }

  lemma {:induction false} BranchPrefixFree(words: seq<Word>, b: bool)
    requires PrefixFree(words)
    ensures PrefixFree(Branch(words, b))
  {
    if words != [] {
      var init, last := words[..|words| - 1], words[|words| - 1];
      BranchPrefixFree(init, b);
      if last != [] && last[0] == b {
        var br := Branch(init, b);
        assert Branch(words, b)[..|br|] == br;
        forall k | 0 <= k < |br| ensures Unrelated(br[k], last[1..]) {
          BranchMember(init, b, br[k]);
          UnrelatedTails(b, br[k], last);
        }
      } else {
        assert Branch(words, b) == Branch(init, b);
      }
    }
  }

  lemma UnrelatedTails(b: bool, t: Word, last: Word)
    requires last != [] && last[0] == b && Unrelated([b] + t, last)
    ensures Unrelated(t, last[1..])
  {
    assert last == [b] + last[1..];
    assert t <= last[1..] ==> [b] + t <= last;
    assert last[1..] <= t ==> last <= [b] + t;
  }

  predicate WordsAtMost(words: seq<Word>, m: nat) {
    forall k :: 0 <= k < |words| ==> |words[k]| <= m
  }

  lemma {:induction false} BranchAtMost(words: seq<Word>, b: bool, m: nat)
    requires WordsAtMost(words, m + 1)
    ensures WordsAtMost(Branch(words, b), m)
  {
    forall k | 0 <= k < |Branch(words, b)| ensures |Branch(words, b)[k]| <= m {
      BranchMember(words, b, Branch(words, b)[k]);
    }
  }

  lemma {:induction false} SpaceSnoc(words: seq<Word>, word: Word, m: nat)
    requires WordsAtMost(words, m) && |word| <= m
    ensures WordsAtMost(words + [word], m)
    ensures Kraft(Lengths(words + [word]), m) == Kraft(Lengths(words), m) + Pow2(m - |word|)
  {
    assert Lengths(words + [word]) == Lengths(words) + [|word|];
    KraftSnoc(Lengths(words), |word|, m);
  }

  /** Code space is split exactly between the two branches. */
  lemma {:induction false} KraftBranches(words: seq<Word>, m: nat)
    requires WordsAtMost(words, m + 1)
    requires forall k :: 0 <= k < |words| ==> words[k] != []
    ensures WordsAtMost(Branch(words, false), m) && WordsAtMost(Branch(words, true), m)
    ensures Kraft(Lengths(words), m + 1)
         == Kraft(Lengths(Branch(words, false)), m) + Kraft(Lengths(Branch(words, true)), m)
  {
    BranchAtMost(words, false, m);
    BranchAtMost(words, true, m);
    if words != [] {
      var init, last := words[..|words| - 1], words[|words| - 1];
      KraftBranches(init, m);
      assert words == init + [last];
      SpaceSnoc(init, last, m + 1);
      SpaceSnoc(Branch(init, last[0]), last[1..], m);
      assert Branch(words, !last[0]) == Branch(init, !last[0]);
    }
  }

  lemma {:induction false} EmptyWordIsAlone(words: seq<Word>, e: nat, m: nat)
    requires PrefixFree(words) && e < |words| && words[e] == []
    ensures words == [[]]
    ensures WordsAtMost(words, m) && Kraft(Lengths(words), m) == Pow2(m)
  {
    if e > 0 {
      PrefixFreeIsPairwise(words, 0, e);
    } else if |words| > 1 {
      PrefixFreeIsPairwise(words, 0, 1);
    }
    assert words == [] + [[]];
    SpaceSnoc([], [], m);
  }

  /** Kraft's inequality: a prefix-free set of words fits the code space. */
  lemma {:induction false} KraftInequality(words: seq<Word>, m: nat)
    requires PrefixFree(words) && WordsAtMost(words, m)
    ensures Kraft(Lengths(words), m) <= Pow2(m)
    decreases m, 1
  {
    if e :| 0 <= e < |words| && words[e] == [] {
      EmptyWordIsAlone(words, e, m);
    } else if words != [] {
      assert words[0] != [] && |words[0]| <= m;
      KraftOfBranches(words, m);
    }
  }

  lemma {:induction false} KraftOfBranches(words: seq<Word>, m: nat)
    requires PrefixFree(words) && WordsAtMost(words, m) && m > 0
    requires forall k :: 0 <= k < |words| ==> words[k] != []
    ensures Kraft(Lengths(words), m) <= Pow2(m)
    decreases m, 0
  {
    hide Kraft, Branch, PrefixFree, WordsAtMost, Lengths;
    KraftBranches(words, m - 1);
    BranchPrefixFree(words, false);
    BranchPrefixFree(words, true);
    KraftInequality(Branch(words, false), m - 1);
    KraftInequality(Branch(words, true), m - 1);
  }

  /** No prefix code for the weights `w` needs fewer bits than Huffman's sum. */
  lemma {:induction false} NoPrefixCodeIsCheaper(w: seq<nat>, words: seq<Word>)
    requires |words| == |w| && PrefixFree(words)
    ensures Cost(w, Lengths(words)) >= Huffman(multiset(w))
  {
    var lens := Lengths(words);
    var m := 0;
    if lens != [] {
      var p := MaxPosition(lens);
      m := lens[p];
    }
    KraftInequality(words, m);
    NoLengthsAreCheaper(w, lens, m);
  }
}
