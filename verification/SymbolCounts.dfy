/** The records that the Huffman code builders sort and overwrite in place. */
module SymbolCounts {

  /** A symbol with its frequency; the code builders reuse `key` for weights, links and lengths. */
  datatype SymFreq = SymFreq(key: nat, symIndex: nat)

  function Keys(s: seq<SymFreq>): (r: seq<nat>)
    ensures |r| == |s|
    ensures forall i :: 0 <= i < |s| ==> r[i] == s[i].key
  {
    seq(|s|, i requires 0 <= i < |s| => s[i].key)
  }

  /** Nothing but the keys of the first n records has changed. */
  twostate predicate OnlyKeysChanged(a: array<SymFreq>, n: nat)
    reads a
  {
    && (forall i :: 0 <= i < a.Length ==> a[i].symIndex == old(a[i].symIndex))
    && (forall i :: n <= i < a.Length ==> a[i] == old(a[i]))
  }
}
