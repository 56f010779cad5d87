/**
  The finite-state transducer as the term file sees it: an ordered map from
  byte strings to 64-bit outputs, built by inserting keys in strictly
  ascending order and, once finished, read by exact lookup or by streaming
  every (key, output) pair in key order.

  The engine itself (index_fst.c) is not part of this model; this module is
  the contract index_tfile.c relies on. Keys are C strings, since the term
  file builds each key from `strlen` of a column value, and byte order on
  them is `LexLess`.
 */
module Fst {
  import opened Bytes
  import opened CStrings
  import opened Wrappers

  type Pair = (CStr, u64)

  /** Keys strictly ascending: the shape of everything a builder accepts. */
  predicate StrictlySorted(pairs: seq<Pair>) {
    forall i, j :: 0 <= i < j < |pairs| ==> LexLess(pairs[i].0, pairs[j].0)
  }

  /** An unfinished builder: the pairs accepted so far. */
  datatype Builder = Builder(pairs: seq<Pair>)

  /** A finished, immutable transducer. */
  datatype Fst = Fst(pairs: seq<Pair>)

  /** `fstBuilderInsert`: the key is accepted, and the builder grows by one
      pair, exactly when it is greater than the last key accepted; a
      duplicate or out-of-order key is refused and changes nothing. */
  function Insert(b: Builder, key: CStr, out: u64): (r: (bool, Builder))
    ensures r.0 <==> (|b.pairs| == 0 || LexLess(b.pairs[|b.pairs| - 1].0, key))
    ensures r.1 == if r.0 then Builder(b.pairs + [(key, out)]) else b
  {
    if |b.pairs| == 0 || LexLess(b.pairs[|b.pairs| - 1].0, key) then
      (true, Builder(b.pairs + [(key, out)]))
    else
      (false, b)
  }

  /** Insertion keeps a builder's keys strictly ascending. */
  lemma InsertKeepsSorted(b: Builder, key: CStr, out: u64)
    requires StrictlySorted(b.pairs)
    ensures StrictlySorted(Insert(b, key, out).1.pairs)
  {
    var r := Insert(b, key, out).1.pairs;
    if r != b.pairs {
      forall i, j | 0 <= i < j < |r| ensures LexLess(r[i].0, r[j].0) {
        if j == |r| - 1 && i < |b.pairs| - 1 {
          LexLessTransitive(r[i].0, b.pairs[|b.pairs| - 1].0, key);
        }
      }
    }
  }

  /** `fstBuilderFinish`. */
  function Finish(b: Builder): Fst {
    Fst(b.pairs)
  }

  /** `fstGet`: the output stored for `key`, if any. */
  function Get(pairs: seq<Pair>, key: string): (r: Option<u64>)
    ensures r == None <==> forall i :: 0 <= i < |pairs| ==> pairs[i].0 != key
    ensures r.Some? ==> exists i :: 0 <= i < |pairs| && pairs[i] == (key, r.value)
  {
    if |pairs| == 0 then None
    else if pairs[0].0 == key then Some(pairs[0].1)
    else
      var r := Get(pairs[1..], key);
      assert forall i :: 1 <= i < |pairs| ==> pairs[i] == pairs[1..][i - 1];
      r
  }

  /** In a transducer every key is stored once, so looking up the key of a
      pair finds that pair's output. */
  lemma GetFindsPair(pairs: seq<Pair>, i: nat)
    requires StrictlySorted(pairs) && i < |pairs|
    ensures Get(pairs, pairs[i].0) == Some(pairs[i].1)
  {
    var r := Get(pairs, pairs[i].0);
    var j :| 0 <= j < |pairs| && pairs[j] == (pairs[i].0, r.value);
    if j != i {
      if i < j { LexLessIrreflexive(pairs[i].0); } else { LexLessIrreflexive(pairs[j].0); }
    }
  }
}
