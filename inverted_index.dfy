/**
 * Construction of the title and body inverted indexes from the forward index: one entry per
 * term id, each holding the term's posting list of `[page_id, count]` pairs.
 */
module InvertedIndex {
  import opened Seqs

  /** One `[page_id, count]` pair of a posting list. */
  datatype Posting = Posting(page: nat, count: nat)

  /** One `{"id": i, "doc": [...]}` entry of an inverted index. */
  datatype Entry = Entry(id: nat, doc: seq<Posting>)

  /** One page of the forward index: its id and the term ids of its title and body. */
  datatype ForwardRecord = ForwardRecord(id: nat, title: seq<nat>, body: seq<nat>)

  datatype Field = Title | Body

  function Words(r: ForwardRecord, f: Field): seq<nat>
  {
    match f
    case Title => r.title
    case Body => r.body
  }

  /** Every title term id of every page names an entry of an index of size `vocabSize`. */
  predicate TitleInVocabulary(pages: seq<ForwardRecord>, vocabSize: nat)
  {
    forall i, k | 0 <= i < |pages| && 0 <= k < |pages[i].title| :: pages[i].title[k] < vocabSize
  }

  /** Every body term id of every page names an entry of an index of size `vocabSize`. */
  predicate BodyInVocabulary(pages: seq<ForwardRecord>, vocabSize: nat)
  {
    forall i, k | 0 <= i < |pages| && 0 <= k < |pages[i].body| :: pages[i].body[k] < vocabSize
  }

  predicate FieldInVocabulary(pages: seq<ForwardRecord>, f: Field, vocabSize: nat)
  {
    match f
    case Title => TitleInVocabulary(pages, vocabSize)
    case Body => BodyInVocabulary(pages, vocabSize)
  }

  /** A posting list in which every count is at least 1 and adjacent entries name different pages. */
  predicate WellFormed(doc: seq<Posting>)
  {
    && (forall i | 0 <= i < |doc| :: doc[i].count >= 1)
    && (forall i | 0 < i < |doc| :: doc[i - 1].page != doc[i].page)
  }

  /** The page ids of a posting list, in order. */
  function Pages(doc: seq<Posting>): (r: seq<int>)
    ensures |r| == |doc| && forall i | 0 <= i < |doc| :: r[i] == doc[i].page
  {
    seq(|doc|, i requires 0 <= i < |doc| => doc[i].page)
  }

  function SumCounts(doc: seq<Posting>): nat
  {
    if doc == [] then 0 else SumCounts(doc[..|doc| - 1]) + doc[|doc| - 1].count
  }

  /** The posting list after one occurrence of its term on page `p`: bump the last entry if it is for `p`, else append `[p, 1]`. */
  function AddOccurrence(doc: seq<Posting>, p: nat): seq<Posting>
  {
    if |doc| > 0 && doc[|doc| - 1].page == p then
      doc[..|doc| - 1] + [Posting(p, doc[|doc| - 1].count + 1)]
    else
      doc + [Posting(p, 1)]
  }

  /**
   * The posting list after `k` occurrences of its term on page `p`, in closed form: nothing
   * changes when `k` is 0, the last entry grows by `k` when it is for `p`, otherwise `[p, k]` is
   * appended.
   */
  function Merge(doc: seq<Posting>, p: nat, k: nat): (r: seq<Posting>)
    ensures SumCounts(r) == SumCounts(doc) + k
    ensures WellFormed(doc) ==> WellFormed(r)
    ensures k > 0 ==> |r| > 0 && r[|r| - 1].page == p
  {
    if k == 0 then doc
    else if |doc| > 0 && doc[|doc| - 1].page == p then
      var r := doc[..|doc| - 1] + [Posting(p, doc[|doc| - 1].count + k)];
      assert r[..|r| - 1] == doc[..|doc| - 1];
      r
    else
      var r := doc + [Posting(p, k)];
      assert r[..|r| - 1] == doc;
      r
  }

  lemma MergeStep(doc: seq<Posting>, p: nat, k: nat)
    ensures AddOccurrence(Merge(doc, p, k), p) == Merge(doc, p, k + 1)
  {
  }

  /** The index after one occurrence of term `w` on page `p` (one turn of the loop of `aggregate`). */
  function Step(idx: seq<Entry>, p: nat, w: nat): seq<Entry>
    requires w < |idx|
  {
    idx[w := idx[w].(doc := AddOccurrence(idx[w].doc, p))]
  }

  predicate AllBelow(words: seq<nat>, n: nat)
  {
    forall k | 0 <= k < |words| :: words[k] < n
  }

  /** The index after `aggregate(p, words, idx)`. */
  function AggregateSpec(idx: seq<Entry>, p: nat, words: seq<nat>): (r: seq<Entry>)
    requires AllBelow(words, |idx|)
    ensures |r| == |idx|
  {
    if words == [] then idx
    else Step(AggregateSpec(idx, p, words[..|words| - 1]), p, words[|words| - 1])
  }

  /** One unfolding of `AggregateSpec`, with the count of every term split the same way. */
  lemma AggregateSnoc(idx: seq<Entry>, p: nat, words: seq<nat>)
    requires AllBelow(words, |idx|) && words != []
    ensures AllBelow(words[..|words| - 1], |idx|)
    ensures AggregateSpec(idx, p, words) == Step(AggregateSpec(idx, p, words[..|words| - 1]), p, words[|words| - 1])
    ensures forall t: nat :: Count(words, t) == Count(words[..|words| - 1], t) + (if words[|words| - 1] == t then 1 else 0)
  {
  }

  /**
   * What `aggregate` does to one entry: the posting list of term `t` absorbs the occurrences of
   * `t` in `words` as one merge; the entry's id is kept; entries of terms absent from `words`
   * do not change.
   */
  lemma {:induction false} AggregatePerTerm(idx: seq<Entry>, p: nat, words: seq<nat>, t: nat)
    requires AllBelow(words, |idx|) && t < |idx|
    ensures AggregateSpec(idx, p, words)[t] == idx[t].(doc := Merge(idx[t].doc, p, Count(words, t)))
    decreases |words|
  {
    if words != [] {
      var n := |words| - 1;
      AggregateSnoc(idx, p, words);
      var prev := AggregateSpec(idx, p, words[..n]);
      AggregatePerTerm(idx, p, words[..n], t);
      if words[n] == t {
        MergeStep(idx[t].doc, p, Count(words[..n], t));
      } else {
        assert Step(prev, p, words[n])[t] == prev[t];
      }
    }
  }

  /** The index of field `f` after `aggregate` has run on every page, in order, from empty lists. */
  function BuildSpec(vocabSize: nat, pages: seq<ForwardRecord>, f: Field): (r: seq<Entry>)
    requires FieldInVocabulary(pages, f, vocabSize)
    ensures |r| == vocabSize
    decreases |pages|
  {
    if pages == [] then seq(vocabSize, i requires 0 <= i < vocabSize => Entry(i, []))
    else
      var n := |pages| - 1;
      assert FieldInVocabulary(pages[..n], f, vocabSize);
      assert AllBelow(Words(pages[n], f), vocabSize);
      AggregateSpec(BuildSpec(vocabSize, pages[..n], f), pages[n].id, Words(pages[n], f))
  }

  /** One unfolding of `BuildSpec`: the last page is aggregated into the index of the others. */
  lemma BuildSnoc(vocabSize: nat, pages: seq<ForwardRecord>, f: Field)
    requires FieldInVocabulary(pages, f, vocabSize) && pages != []
    ensures FieldInVocabulary(pages[..|pages| - 1], f, vocabSize)
    ensures AllBelow(Words(pages[|pages| - 1], f), vocabSize)
    ensures BuildSpec(vocabSize, pages, f) ==
      AggregateSpec(BuildSpec(vocabSize, pages[..|pages| - 1], f), pages[|pages| - 1].id, Words(pages[|pages| - 1], f))
  {
  }

  /** Number of occurrences of term `t` in field `f` over all pages. */
  function TotalCount(pages: seq<ForwardRecord>, f: Field, t: nat): nat
  {
    if pages == [] then 0 else TotalCount(pages[..|pages| - 1], f, t) + Count(Words(pages[|pages| - 1], f), t)
  }

  /**
   * The reference posting list of term `t`: one `[id, count]` pair per page that contains `t`,
   * in page order, where count is the number of occurrences of `t` in that page.
   */
  function Expected(pages: seq<ForwardRecord>, f: Field, t: nat): seq<Posting>
  {
    if pages == [] then []
    else
      var last := pages[|pages| - 1];
      var c := Count(Words(last, f), t);
      Expected(pages[..|pages| - 1], f, t) + (if c > 0 then [Posting(last.id, c)] else [])
  }

  function Ids(pages: seq<ForwardRecord>): (r: seq<int>)
    ensures |r| == |pages| && forall i | 0 <= i < |pages| :: r[i] == pages[i].id
  {
    seq(|pages|, i requires 0 <= i < |pages| => pages[i].id)
  }

  /**
   * Whatever the page order, every entry keeps its id, every posting list is well formed, and
   * the counts of term `t`'s list sum to the number of occurrences of `t`.
   */
  lemma {:induction false} BuildInvariant(vocabSize: nat, pages: seq<ForwardRecord>, f: Field, t: nat)
    requires FieldInVocabulary(pages, f, vocabSize) && t < vocabSize
    ensures BuildSpec(vocabSize, pages, f)[t].id == t
    ensures WellFormed(BuildSpec(vocabSize, pages, f)[t].doc)
    ensures SumCounts(BuildSpec(vocabSize, pages, f)[t].doc) == TotalCount(pages, f, t)
    decreases |pages|
  {
    if pages != [] {
      var n := |pages| - 1;
      BuildSnoc(vocabSize, pages, f);
      BuildInvariant(vocabSize, pages[..n], f, t);
      AggregatePerTerm(BuildSpec(vocabSize, pages[..n], f), pages[n].id, Words(pages[n], f), t);
    }
  }

  /** Every page of the reference list is a page below `bound` when every page id is. */
  lemma {:induction false} ExpectedBelow(pages: seq<ForwardRecord>, f: Field, t: nat, bound: int)
    requires forall i | 0 <= i < |pages| :: pages[i].id < bound
    ensures forall i | 0 <= i < |Expected(pages, f, t)| :: Expected(pages, f, t)[i].page < bound
    decreases |pages|
  {
    if pages != [] {
      var n := |pages| - 1;
      assert forall i | 0 <= i < n :: pages[..n][i] == pages[i];
      ExpectedBelow(pages[..n], f, t, bound);
    }
  }

  /** The ids of a prefix of pages in strictly increasing id order are increasing and below the last one. */
  lemma IdsSplit(pages: seq<ForwardRecord>, init: seq<ForwardRecord>)
    requires pages != [] && StrictlyIncreasing(Ids(pages)) && init == pages[..|pages| - 1]
    ensures StrictlyIncreasing(Ids(init))
    ensures forall i | 0 <= i < |init| :: init[i].id < pages[|pages| - 1].id
  {
    assert Ids(init) == Ids(pages)[..|pages| - 1];
  }

  /** Merging into a list of earlier pages appends one posting, or nothing when there is no occurrence. */
  lemma MergeLater(doc: seq<Posting>, p: nat, k: nat)
    requires forall i | 0 <= i < |doc| :: doc[i].page < p
    ensures Merge(doc, p, k) == doc + (if k > 0 then [Posting(p, k)] else [])
  {
  }

  /** Appending a posting for a later page keeps the page ids strictly increasing. */
  lemma IncreasingAppend(doc: seq<Posting>, x: Posting)
    requires StrictlyIncreasing(Pages(doc))
    requires forall i | 0 <= i < |doc| :: doc[i].page < x.page
    ensures StrictlyIncreasing(Pages(doc + [x]))
  {
    var r := doc + [x];
    assert forall i | 0 <= i < |doc| :: r[i] == doc[i];
  }

  /**
   * When the pages come in strictly increasing id order (as the forward index is sorted), term
   * `t`'s posting list is exactly the reference list, so its page ids are strictly increasing.
   */
  lemma {:induction false} BuildMatchesExpected(vocabSize: nat, pages: seq<ForwardRecord>, f: Field, t: nat)
    requires FieldInVocabulary(pages, f, vocabSize) && t < vocabSize
    requires StrictlyIncreasing(Ids(pages))
    ensures BuildSpec(vocabSize, pages, f)[t].doc == Expected(pages, f, t)
    ensures StrictlyIncreasing(Pages(Expected(pages, f, t)))
    decreases |pages|
  {
    if pages != [] {
      var n := |pages| - 1;
      BuildSnoc(vocabSize, pages, f);
      IdsSplit(pages, pages[..n]);
      BuildMatchesExpected(vocabSize, pages[..n], f, t);
      var prev := Expected(pages[..n], f, t);
      var c := Count(Words(pages[n], f), t);
      AggregatePerTerm(BuildSpec(vocabSize, pages[..n], f), pages[n].id, Words(pages[n], f), t);
      ExpectedBelow(pages[..n], f, t, pages[n].id);
      MergeLater(prev, pages[n].id, c);
      if c > 0 {
        IncreasingAppend(prev, Posting(pages[n].id, c));
      }
    }
  }

  /** The title index depends on the titles alone (and the body index on the bodies alone). */
  lemma {:induction false} FieldIndependence(vocabSize: nat, a: seq<ForwardRecord>, b: seq<ForwardRecord>, f: Field)
    requires FieldInVocabulary(a, f, vocabSize) && FieldInVocabulary(b, f, vocabSize)
    requires |a| == |b| && forall i | 0 <= i < |a| :: a[i].id == b[i].id && Words(a[i], f) == Words(b[i], f)
    ensures BuildSpec(vocabSize, a, f) == BuildSpec(vocabSize, b, f)
    decreases |a|
  {
    if a != [] {
      var n := |a| - 1;
      BuildSnoc(vocabSize, a, f);
      BuildSnoc(vocabSize, b, f);
      assert forall i | 0 <= i < n :: a[..n][i] == a[i] && b[..n][i] == b[i];
      FieldIndependence(vocabSize, a[..n], b[..n], f);
      assert a[n].id == b[n].id && Words(a[n], f) == Words(b[n], f);
    }
  }

  /** `aggregate(page_id, word_list, target_index)`: folds the page's term ids into `index` in place. */
  method Aggregate(pageId: nat, words: seq<nat>, index: array<Entry>)
    requires AllBelow(words, index.Length)
    modifies index
    ensures index[..] == AggregateSpec(old(index[..]), pageId, words)
  {
    for i := 0 to |words|
      invariant index[..] == AggregateSpec(old(index[..]), pageId, words[..i])
    {
      assert words[..i + 1][..i] == words[..i];
      var w := words[i];
      var d := index[w].doc;
      if |d| > 0 && d[|d| - 1].page == pageId {
        index[w] := index[w].(doc := d[..|d| - 1] + [Posting(pageId, d[|d| - 1].count + 1)]);
      } else {
        index[w] := index[w].(doc := d + [Posting(pageId, 1)]);
      }
    }
    assert words[..|words|] == words;
  }

  /**
   * `build_inverted_index` on an already loaded forward index: both indexes have one entry per
   * term id, entry `t` has id `t`, each posting list is well formed with counts summing to the
   * term's occurrences, and on pages sorted by id each list is exactly the reference list.
   */
  method BuildInvertedIndex(vocabSize: nat, forwardIndex: seq<ForwardRecord>) returns (title: seq<Entry>, body: seq<Entry>)
    requires TitleInVocabulary(forwardIndex, vocabSize) && BodyInVocabulary(forwardIndex, vocabSize)
    ensures title == BuildSpec(vocabSize, forwardIndex, Title) && body == BuildSpec(vocabSize, forwardIndex, Body)
    ensures |title| == vocabSize && |body| == vocabSize
    ensures forall t | 0 <= t < vocabSize ::
      && title[t].id == t && WellFormed(title[t].doc) && SumCounts(title[t].doc) == TotalCount(forwardIndex, Title, t)
      && body[t].id == t && WellFormed(body[t].doc) && SumCounts(body[t].doc) == TotalCount(forwardIndex, Body, t)
    ensures StrictlyIncreasing(Ids(forwardIndex)) ==> forall t | 0 <= t < vocabSize ::
      title[t].doc == Expected(forwardIndex, Title, t) && body[t].doc == Expected(forwardIndex, Body, t)
  {
    var titleIndex := new Entry[vocabSize](i => Entry(i, []));
    var bodyIndex := new Entry[vocabSize](i => Entry(i, []));
    for i := 0 to |forwardIndex|
      invariant titleIndex[..] == BuildSpec(vocabSize, forwardIndex[..i], Title)
      invariant bodyIndex[..] == BuildSpec(vocabSize, forwardIndex[..i], Body)
    {
      var page := forwardIndex[i];
      assert forwardIndex[..i + 1][..i] == forwardIndex[..i];
      assert FieldInVocabulary(forwardIndex[..i + 1], Title, vocabSize);
      assert FieldInVocabulary(forwardIndex[..i + 1], Body, vocabSize);
      assert AllBelow(page.title, vocabSize) && AllBelow(page.body, vocabSize);
      Aggregate(page.id, page.title, titleIndex);
      Aggregate(page.id, page.body, bodyIndex);
    }
    assert forwardIndex[..|forwardIndex|] == forwardIndex;
    title, body := titleIndex[..], bodyIndex[..];
    forall t | 0 <= t < vocabSize
      ensures title[t].id == t && WellFormed(title[t].doc) && SumCounts(title[t].doc) == TotalCount(forwardIndex, Title, t)
      ensures body[t].id == t && WellFormed(body[t].doc) && SumCounts(body[t].doc) == TotalCount(forwardIndex, Body, t)
    {
      BuildInvariant(vocabSize, forwardIndex, Title, t);
      BuildInvariant(vocabSize, forwardIndex, Body, t);
    }
    if StrictlyIncreasing(Ids(forwardIndex)) {
      forall t | 0 <= t < vocabSize
        ensures title[t].doc == Expected(forwardIndex, Title, t) && body[t].doc == Expected(forwardIndex, Body, t)
      {
        BuildMatchesExpected(vocabSize, forwardIndex, Title, t);
        BuildMatchesExpected(vocabSize, forwardIndex, Body, t);
      }
    }
  }
}
