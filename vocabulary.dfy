/**
 * The append-only term-to-id table of the text pipeline. A term's id is the number of terms
 * that were in the table when it was first seen, so the ids are exactly 0, 1, ..., size-1.
 */
module Vocab {

  /**
   * `order` lists the terms of `vocab` by id: the two together are a bijection between the
   * terms and the ids 0 .. |vocab|-1.
   */
  ghost predicate InsertionOrdered(vocab: map<string, nat>, order: seq<string>)
  {
    && |vocab| == |order|
    && (forall i | 0 <= i < |order| :: order[i] in vocab && vocab[order[i]] == i)
    && (forall w | w in vocab :: vocab[w] < |order| && order[vocab[w]] == w)
  }

  /** The table after `map(word)`: unchanged for a known word, otherwise `word` gets the next id. */
  function Assign(vocab: map<string, nat>, word: string): (r: map<string, nat>)
    ensures word in r
    ensures word in vocab ==> r == vocab
    ensures word !in vocab ==> r[word] == |vocab| && |r| == |vocab| + 1
    ensures forall w | w in vocab :: w in r && r[w] == vocab[w]
    ensures r.Keys == vocab.Keys + {word}
  {
    if word in vocab then vocab else vocab[word := |vocab|]
  }

  /** The table after mapping every word of `words`, first to last. */
  function AssignAll(vocab: map<string, nat>, words: seq<string>): map<string, nat>
    decreases |words|
  {
    if words == [] then vocab else AssignAll(Assign(vocab, words[0]), words[1..])
  }

  lemma {:induction false} AssignAllSnoc(vocab: map<string, nat>, words: seq<string>, word: string)
    ensures AssignAll(vocab, words + [word]) == Assign(AssignAll(vocab, words), word)
    decreases |words|
  {
    if words == [] {
      assert ([] + [word])[1..] == [];
    } else {
      assert (words + [word])[1..] == words[1..] + [word];
      AssignAllSnoc(Assign(vocab, words[0]), words[1..], word);
    }
  }

  /** The insertion order after `map(word)`. */
  ghost function Extend(vocab: map<string, nat>, order: seq<string>, word: string): seq<string>
  {
    if word in vocab then order else order + [word]
  }

  lemma AssignKeepsOrder(vocab: map<string, nat>, order: seq<string>, word: string)
    requires InsertionOrdered(vocab, order)
    ensures InsertionOrdered(Assign(vocab, word), Extend(vocab, order, word))
  {
  }

  /** The insertion order after mapping every word of `words`. */
  ghost function ExtendAll(vocab: map<string, nat>, order: seq<string>, words: seq<string>): seq<string>
    decreases |words|
  {
    if words == [] then order
    else ExtendAll(Assign(vocab, words[0]), Extend(vocab, order, words[0]), words[1..])
  }

  /** After any sequence of `map` calls the table is still an insertion-ordered bijection. */
  lemma {:induction false} AssignAllKeepsOrder(vocab: map<string, nat>, order: seq<string>, words: seq<string>)
    requires InsertionOrdered(vocab, order)
    ensures InsertionOrdered(AssignAll(vocab, words), ExtendAll(vocab, order, words))
    decreases |words|
  {
    if words != [] {
      AssignKeepsOrder(vocab, order, words[0]);
      AssignAllKeepsOrder(Assign(vocab, words[0]), Extend(vocab, order, words[0]), words[1..]);
    }
  }

  /** The ids in use are exactly 0 .. size-1 and no two terms share one. */
  lemma IdsAreRange(vocab: map<string, nat>, order: seq<string>)
    requires InsertionOrdered(vocab, order)
    ensures forall i | 0 <= i < |vocab| :: i in vocab.Values
    ensures forall v | v in vocab.Values :: v < |vocab|
    ensures forall a, b | a in vocab && b in vocab && vocab[a] == vocab[b] :: a == b
  {
    forall i | 0 <= i < |vocab| ensures i in vocab.Values {
      assert order[i] in vocab && vocab[order[i]] == i;
    }
  }

  /** Mapping words never changes the id of a term already present, and each mapped word is present afterwards. */
  lemma {:induction false} AssignAllStable(vocab: map<string, nat>, words: seq<string>)
    ensures forall w | w in vocab :: w in AssignAll(vocab, words) && AssignAll(vocab, words)[w] == vocab[w]
    ensures forall k | 0 <= k < |words| :: words[k] in AssignAll(vocab, words)
    decreases |words|
  {
    if words != [] {
      var v1 := Assign(vocab, words[0]);
      AssignAllStable(v1, words[1..]);
      forall k | 0 <= k < |words| ensures words[k] in AssignAll(vocab, words) {
        if k > 0 {
          assert words[k] == words[1..][k - 1];
        }
      }
    }
  }

  /** Mapping the same word twice gives the same table and the same id. */
  lemma AssignIdempotent(vocab: map<string, nat>, word: string)
    ensures Assign(Assign(vocab, word), word) == Assign(vocab, word)
  {
  }

  class Vocabulary {
    var vocab: map<string, nat>
    /** The terms in insertion order; `vocab[order[i]] == i`. */
    ghost var order: seq<string>

    ghost predicate Valid()
      reads this
    {
      InsertionOrdered(vocab, order)
    }

    constructor ()
      ensures Valid() && vocab == map[] && order == []
    {
      vocab := map[];
      order := [];
    }

    /** Returns the id of `word`, assigning the next id on first sight. */
    method Map(word: string) returns (id: nat)
      requires Valid()
      modifies this
      ensures Valid()
      ensures vocab == Assign(old(vocab), word) && order == Extend(old(vocab), old(order), word)
      ensures id == vocab[word] && id < |vocab|
      ensures word in old(vocab) ==> id == old(vocab)[word]
      ensures word !in old(vocab) ==> id == old(|vocab|)
    {
      if word !in vocab {
        vocab := vocab[word := |vocab|];
        order := order + [word];
      }
      id := vocab[word];
    }

    /** Maps each word of `words` in turn, collecting the ids. */
    method MapAll(words: seq<string>) returns (ids: seq<nat>)
      requires Valid()
      modifies this
      ensures Valid()
      ensures vocab == AssignAll(old(vocab), words)
      ensures |ids| == |words|
      ensures forall k | 0 <= k < |words| :: words[k] in vocab && ids[k] == vocab[words[k]]
    {
      ids := [];
      for i := 0 to |words|
        invariant Valid()
        invariant vocab == AssignAll(old(vocab), words[..i])
        invariant |ids| == i
        invariant forall k | 0 <= k < i :: words[k] in vocab && ids[k] == vocab[words[k]]
      {
        var id := Map(words[i]);
        assert words[..i + 1] == words[..i] + [words[i]];
        AssignAllSnoc(old(vocab), words[..i], words[i]);
        ids := ids + [id];
      }
      assert words[..|words|] == words;
    }

    /** The table itself: every id is below the size, and the ids are exactly 0 .. size-1. */
    function Dictionary(): (d: map<string, nat>)
      requires Valid()
      reads this
      ensures d == vocab
      ensures forall w | w in d :: d[w] < |d|
      ensures forall i | 0 <= i < |d| :: i in d.Values
    {
      IdsAreRange(vocab, order);
      vocab
    }
  }
}
