/**
 * The integer and sequence logic of the migration step: inverting the dictionary, filtering
 * the inverted indexes, the per-document maximum term frequency, splitting a document's
 * surviving terms into runs of consecutive positions, and counting the n-grams of those runs.
 */
module Migrate {
  import opened Wrappers
  import opened Seqs
  import opened PyStr
  import opened Vocab
  import opened InvertedIndex

  // ---------------------------------------------------------------------------------------
  // load_dictionary

  /**
   * `{v: k for k, v in data.items()}` over the items in dictionary order: every value becomes a
   * key, mapped to the key of the LAST item carrying it.
   */
  function LoadDictionary(items: seq<(string, nat)>): (r: map<nat, string>)
    ensures forall i | 0 <= i < |items| :: items[i].1 in r
    ensures forall v | v in r :: exists i | 0 <= i < |items| :: items[i] == (r[v], v)
    decreases |items|
  {
    if items == [] then map[]
    else
      var n := |items| - 1;
      var prev := LoadDictionary(items[..n]);
      var r := prev[items[n].1 := items[n].0];
      assert forall i | 0 <= i < n :: items[..n][i] == items[i];
      assert forall v | v in r :: exists i | 0 <= i < |items| :: items[i] == (r[v], v) by {
        forall v | v in r ensures exists i | 0 <= i < |items| :: items[i] == (r[v], v) {
          if v == items[n].1 {
            assert items[n] == (r[v], v);
          } else {
            var i :| 0 <= i < n && items[..n][i] == (prev[v], v);
            assert items[i] == (r[v], v);
          }
        }
      }
      r
  }

  /** No later item carries the value of item `i`. */
  predicate LastWithValue(items: seq<(string, nat)>, i: nat)
    requires i < |items|
  {
    forall j | i < j < |items| :: items[j].1 != items[i].1
  }

  /** The key kept for a value is the one of the last item carrying it. */
  lemma {:induction false} LoadDictionaryLastWins(items: seq<(string, nat)>, i: nat)
    requires i < |items| && LastWithValue(items, i)
    ensures LoadDictionary(items)[items[i].1] == items[i].0
    decreases |items|
  {
    var n := |items| - 1;
    if i < n {
      assert items[..n][i] == items[i];
      assert LastWithValue(items[..n], i);
      LoadDictionaryLastWins(items[..n], i);
    }
  }

  /** With distinct values (as a vocabulary has), every item is inverted: `reverse_dict[v] == k`. */
  lemma LoadDictionaryInverts(items: seq<(string, nat)>)
    requires forall i, j | 0 <= i < j < |items| :: items[i].1 != items[j].1
    ensures forall i | 0 <= i < |items| :: LoadDictionary(items)[items[i].1] == items[i].0
  {
    forall i | 0 <= i < |items| ensures LoadDictionary(items)[items[i].1] == items[i].0 {
      LoadDictionaryLastWins(items, i);
    }
  }

  /**
   * Round trip with the vocabulary: inverting the dictionary the vocabulary dumps gives back,
   * for every id 0 .. size-1, the term that owns it, and nothing else.
   */
  lemma VocabularyRoundTrip(vocab: map<string, nat>, order: seq<string>)
    requires InsertionOrdered(vocab, order)
    ensures var items := seq(|order|, i requires 0 <= i < |order| => (order[i], i as nat));
      var reverse := LoadDictionary(items);
      && (forall w | w in vocab :: vocab[w] in reverse && reverse[vocab[w]] == w)
      && (forall v | v in reverse :: v < |vocab| && reverse[v] in vocab && vocab[reverse[v]] == v)
  {
    var items := seq(|order|, i requires 0 <= i < |order| => (order[i], i as nat));
    LoadDictionaryInverts(items);
    var reverse := LoadDictionary(items);
    forall w | w in vocab ensures vocab[w] in reverse && reverse[vocab[w]] == w {
      assert items[vocab[w]] == (w, vocab[w]);
    }
  }

  // ---------------------------------------------------------------------------------------
  // transform_index_data

  /** One `(term_id, term, documents)` row of a transformed index. */
  datatype TermDocs = TermDocs(termId: nat, term: string, docs: seq<Posting>)

  /** The entry survives the filter: its term is known and it has at least one posting. */
  predicate Keeps(termMapping: map<nat, string>, e: Entry)
  {
    e.id in termMapping && |e.doc| > 0
  }

  /** The indices of the entries `transform_index_data` keeps, in order. */
  function KeptEntries(indexData: seq<Entry>, termMapping: map<nat, string>): (idx: seq<nat>)
    ensures StrictlyIncreasing(idx)
    ensures forall k | 0 <= k < |idx| :: idx[k] < |indexData| && Keeps(termMapping, indexData[idx[k]])
    ensures forall i {:trigger i in idx} | 0 <= i < |indexData| :: Keeps(termMapping, indexData[i]) <==> i in idx
  {
    Selected(indexData, e => Keeps(termMapping, e))
  }

  /**
   * `transform_index_data` on a loaded index: keeps, in their original order, exactly the entries
   * whose id the mapping knows and whose posting list is non-empty, each with its term attached.
   */
  method TransformIndexData(indexData: seq<Entry>, termMapping: map<nat, string>) returns (transformed: seq<TermDocs>)
    ensures var kept := KeptEntries(indexData, termMapping);
      && |transformed| == |kept|
      && forall k | 0 <= k < |kept| ::
        var e := indexData[kept[k]];
        e.id in termMapping && transformed[k] == TermDocs(e.id, termMapping[e.id], e.doc)
  {
    transformed := [];
    for i := 0 to |indexData|
      invariant var kept := KeptEntries(indexData[..i], termMapping);
        && |transformed| == |kept|
        && forall k | 0 <= k < |kept| ::
          var e := indexData[kept[k]];
          e.id in termMapping && transformed[k] == TermDocs(e.id, termMapping[e.id], e.doc)
    {
      assert indexData[..i + 1][..i] == indexData[..i];
      var entry := indexData[i];
      if entry.id !in termMapping {
        continue;
      }
      if |entry.doc| <= 0 {
        continue;
      }
      transformed := transformed + [TermDocs(entry.id, termMapping[entry.id], entry.doc)];
    }
    assert indexData[..|indexData|] == indexData;
  }

  // ---------------------------------------------------------------------------------------
  // calculate_max_tf

  /** Some posting of some row records `count` for page `d`. */
  ghost predicate Records(indexData: seq<TermDocs>, d: nat, count: nat)
  {
    exists i, j | 0 <= i < |indexData| && 0 <= j < |indexData[i].docs| :: indexData[i].docs[j] == Posting(d, count)
  }

  /**
   * `calculate_max_tf`: a page is in the result exactly when some posting records a positive
   * count for it, its value is at least every count recorded for it, and it is one of them.
   */
  method CalculateMaxTf(indexData: seq<TermDocs>) returns (maxTf: map<nat, nat>)
    ensures forall d | d in maxTf :: maxTf[d] > 0 && Records(indexData, d, maxTf[d])
    ensures forall i, j | 0 <= i < |indexData| && 0 <= j < |indexData[i].docs| ::
      var p := indexData[i].docs[j];
      p.count > 0 ==> p.page in maxTf && p.count <= maxTf[p.page]
  {
    maxTf := map[];
    for i := 0 to |indexData|
      invariant forall d | d in maxTf :: maxTf[d] > 0 && Records(indexData, d, maxTf[d])
      invariant forall i', j | 0 <= i' < i && 0 <= j < |indexData[i'].docs| ::
        var p := indexData[i'].docs[j];
        p.count > 0 ==> p.page in maxTf && p.count <= maxTf[p.page]
    {
      var docs := indexData[i].docs;
      for j := 0 to |docs|
        invariant forall d | d in maxTf :: maxTf[d] > 0 && Records(indexData, d, maxTf[d])
        invariant forall i', j' | 0 <= i' < i && 0 <= j' < |indexData[i'].docs| ::
          var p := indexData[i'].docs[j'];
          p.count > 0 ==> p.page in maxTf && p.count <= maxTf[p.page]
        invariant forall j' | 0 <= j' < j ::
          docs[j'].count > 0 ==> docs[j'].page in maxTf && docs[j'].count <= maxTf[docs[j'].page]
      {
        var docId := docs[j].page;
        var current := if docId in maxTf then maxTf[docId] else 0;
        if docs[j].count > current {
          maxTf := maxTf[docId := docs[j].count];
        }
      }
    }
  }

  // ---------------------------------------------------------------------------------------
  // extract_continuous_sequences

  /** `zip(positions, terms)`: pairs up to the shorter length. */
  function Zip(positions: seq<int>, terms: seq<string>): (r: seq<(int, string)>)
    ensures |r| == if |positions| <= |terms| then |positions| else |terms|
    ensures forall i | 0 <= i < |r| :: r[i] == (positions[i], terms[i])
  {
    var n := if |positions| <= |terms| then |positions| else |terms|;
    seq(n, i requires 0 <= i < n => (positions[i], terms[i]))
  }

  predicate SortedByPosition(s: seq<(int, string)>)
  {
    forall i, j | 0 <= i < j < |s| :: s[i].0 <= s[j].0
  }

  /** Inserts `x` after every element whose position is not greater than its own. */
  function InsertByPosition(x: (int, string), sorted: seq<(int, string)>): (r: seq<(int, string)>)
    requires SortedByPosition(sorted)
    ensures SortedByPosition(r)
    ensures |r| == |sorted| + 1
    ensures r[|r| - 1] == x || (sorted != [] && r[|r| - 1] == sorted[|sorted| - 1])
    decreases |sorted|
  {
    if sorted == [] || sorted[|sorted| - 1].0 <= x.0 then
      sorted + [x]
    else
      var n := |sorted| - 1;
      assert sorted == sorted[..n] + [sorted[n]];
      var front := InsertByPosition(x, sorted[..n]);
      assert front[|front| - 1].0 <= sorted[n].0;
      front + [sorted[n]]
  }

  /** `sorted(pairs, key=lambda x: x[0])`, written as a stable insertion sort. */
  function SortByPosition(s: seq<(int, string)>): (r: seq<(int, string)>)
    ensures SortedByPosition(r)
    ensures |r| == |s|
  {
    if s == [] then []
    else
      var n := |s| - 1;
      assert s == s[..n] + [s[n]];
      InsertByPosition(s[n], SortByPosition(s[..n]))
  }

  /** Insertion adds exactly the one pair. */
  lemma {:induction false} InsertIsPermutation(x: (int, string), sorted: seq<(int, string)>)
    requires SortedByPosition(sorted)
    ensures multiset(InsertByPosition(x, sorted)) == multiset(sorted) + multiset{x}
    decreases |sorted|
  {
    if sorted != [] && x.0 < sorted[|sorted| - 1].0 {
      var n := |sorted| - 1;
      assert SortedByPosition(sorted[..n]);
      InsertIsPermutation(x, sorted[..n]);
      assert sorted == sorted[..n] + [sorted[n]];
    }
  }

  /** The sort is a permutation of its input. */
  lemma {:induction false} SortIsPermutation(s: seq<(int, string)>)
    ensures multiset(SortByPosition(s)) == multiset(s)
    decreases |s|
  {
    if s != [] {
      var n := |s| - 1;
      SortIsPermutation(s[..n]);
      InsertIsPermutation(s[n], SortByPosition(s[..n]));
      assert s == s[..n] + [s[n]];
    }
  }

  /** Pairs already in position order are left as they are. */
  lemma {:induction false} SortSorted(s: seq<(int, string)>)
    requires SortedByPosition(s)
    ensures SortByPosition(s) == s
    decreases |s|
  {
    if s != [] {
      var n := |s| - 1;
      var init, last := s[..n], s[n];
      SortedSplit(s);
      SortSorted(init);
      SortSnoc(s);
      InsertLast(last, init);
      assert s == init + [last];
    }
  }

  /** The front of a sorted list is sorted and its last pair is not after the list's last. */
  lemma SortedSplit(s: seq<(int, string)>)
    requires s != [] && SortedByPosition(s)
    ensures SortedByPosition(s[..|s| - 1])
    ensures |s| == 1 || s[|s| - 2].0 <= s[|s| - 1].0
  {
  }

  /** One step of the sort: the last pair is inserted into the sorted front. */
  lemma SortSnoc(s: seq<(int, string)>)
    requires s != []
    ensures SortByPosition(s) == InsertByPosition(s[|s| - 1], SortByPosition(s[..|s| - 1]))
  {
  }

  /** A pair whose position is not below the last one goes to the end. */
  lemma InsertLast(x: (int, string), sorted: seq<(int, string)>)
    requires SortedByPosition(sorted)
    requires sorted == [] || sorted[|sorted| - 1].0 <= x.0
    ensures InsertByPosition(x, sorted) == sorted + [x]
  {
  }

  function PositionsOf(pairs: seq<(int, string)>): (r: seq<int>)
    ensures |r| == |pairs| && forall i | 0 <= i < |pairs| :: r[i] == pairs[i].0
  {
    seq(|pairs|, i requires 0 <= i < |pairs| => pairs[i].0)
  }

  function TermsOf(pairs: seq<(int, string)>): (r: seq<string>)
    ensures |r| == |pairs| && forall i | 0 <= i < |pairs| :: r[i] == pairs[i].1
  {
    seq(|pairs|, i requires 0 <= i < |pairs| => pairs[i].1)
  }

  /**
   * A partition into maximal runs: every run is non-empty, positions inside a run go up by
   * exactly 1, and between two runs the next position is not the previous one plus 1.
   */
  predicate MaximalRuns(runs: seq<seq<int>>)
  {
    && (forall k | 0 <= k < |runs| :: |runs[k]| > 0)
    && (forall k, j | 0 <= k < |runs| && 0 < j < |runs[k]| :: runs[k][j] == runs[k][j - 1] + 1)
    && (forall k | 0 < k < |runs| :: |runs[k - 1]| > 0 && |runs[k]| > 0 ==> runs[k][0] != runs[k - 1][|runs[k - 1]| - 1] + 1)
  }

  lemma PairsSnoc(pairs: seq<(int, string)>, i: nat)
    requires i < |pairs|
    ensures PositionsOf(pairs[..i + 1]) == PositionsOf(pairs[..i]) + [pairs[i].0]
    ensures TermsOf(pairs[..i + 1]) == TermsOf(pairs[..i]) + [pairs[i].1]
  {
  }

  lemma MaximalRunsPrefix(runs: seq<seq<int>>, current: seq<int>)
    requires MaximalRuns(runs + [current])
    ensures MaximalRuns(runs)
  {
    assert forall k | 0 <= k < |runs| :: runs[k] == (runs + [current])[k];
  }

  /** A position one past the end of the open run extends it. */
  lemma MaximalRunsExtend(runs: seq<seq<int>>, current: seq<int>, pos: int)
    requires MaximalRuns(runs + [current]) && current != []
    requires pos == current[|current| - 1] + 1
    ensures MaximalRuns(runs + [current + [pos]])
  {
    var before, after := runs + [current], runs + [current + [pos]];
    assert forall k | 0 <= k < |runs| :: after[k] == before[k];
  }

  /** Any other position closes the open run and starts a new one. */
  lemma MaximalRunsBreak(runs: seq<seq<int>>, current: seq<int>, pos: int)
    requires MaximalRuns(runs + [current]) && current != []
    requires pos != current[|current| - 1] + 1
    ensures MaximalRuns(runs + [current] + [[pos]])
  {
  }

  /** Run `k` of the terms and run `k` of the positions have the same length. */
  predicate SameShape(runs: seq<seq<string>>, posRuns: seq<seq<int>>)
  {
    |posRuns| == |runs| && forall k | 0 <= k < |runs| :: |posRuns[k]| == |runs[k]|
  }

  lemma SameShapeSnoc(runs: seq<seq<string>>, posRuns: seq<seq<int>>, run: seq<string>, posRun: seq<int>)
    requires SameShape(runs, posRuns) && |run| == |posRun|
    ensures SameShape(runs + [run], posRuns + [posRun])
  {
    assert forall k | 0 <= k < |runs| :: (runs + [run])[k] == runs[k] && (posRuns + [posRun])[k] == posRuns[k];
  }

  /**
   * `extract_continuous_sequences`: sorts the (position, term) pairs by position and cuts them
   * into maximal runs of consecutive positions. `posRuns` holds the positions of each run.
   * The runs, concatenated, are the sorted terms (nothing lost or duplicated).
   */
  method ExtractContinuousSequences(positions: seq<int>, terms: seq<string>)
    returns (runs: seq<seq<string>>, ghost posRuns: seq<seq<int>>)
    ensures SameShape(runs, posRuns)
    ensures MaximalRuns(posRuns)
    ensures Flatten(runs) == TermsOf(SortByPosition(Zip(positions, terms)))
    ensures Flatten(posRuns) == PositionsOf(SortByPosition(Zip(positions, terms)))
    ensures |Zip(positions, terms)| == 0 <==> runs == []
  {
    runs, posRuns := SplitRuns(SortByPosition(Zip(positions, terms)));
  }

  /** The run-cutting loop of `extract_continuous_sequences`, over pairs already sorted. */
  method SplitRuns(pairs: seq<(int, string)>) returns (runs: seq<seq<string>>, ghost posRuns: seq<seq<int>>)
    ensures SameShape(runs, posRuns)
    ensures MaximalRuns(posRuns)
    ensures Flatten(runs) == TermsOf(pairs)
    ensures Flatten(posRuns) == PositionsOf(pairs)
    ensures |pairs| == 0 <==> runs == []
  {
    runs, posRuns := [], [];
    var current: seq<string> := [];
    ghost var currentPos: seq<int> := [];
    var prevPos: Option<int> := None;
    for i := 0 to |pairs|
      invariant |current| == |currentPos| && SameShape(runs, posRuns)
      invariant i == 0 ==> prevPos.None? && runs == [] && current == []
      invariant i > 0 ==> current != [] && prevPos == Some(pairs[i - 1].0) && currentPos[|currentPos| - 1] == pairs[i - 1].0
      invariant i > 0 ==> MaximalRuns(posRuns + [currentPos])
      invariant Flatten(runs + [current]) == TermsOf(pairs[..i])
      invariant Flatten(posRuns + [currentPos]) == PositionsOf(pairs[..i])
    {
      var (pos, term) := pairs[i];
      PairsSnoc(pairs, i);
      FlattenAppend(runs, current);
      FlattenAppend(posRuns, currentPos);
      if prevPos.None? || pos == prevPos.value + 1 {
        if i > 0 {
          MaximalRunsExtend(posRuns, currentPos, pos);
        }
        FlattenAppend(runs, current + [term]);
        FlattenAppend(posRuns, currentPos + [pos]);
        current := current + [term];
        currentPos := currentPos + [pos];
      } else {
        MaximalRunsBreak(posRuns, currentPos, pos);
        if |current| >= 1 {
          SameShapeSnoc(runs, posRuns, current, currentPos);
          runs := runs + [current];
          posRuns := posRuns + [currentPos];
        }
        FlattenAppend(runs, [term]);
        FlattenAppend(posRuns, [pos]);
        current := [term];
        currentPos := [pos];
      }
      prevPos := Some(pos);
    }
    assert pairs[..|pairs|] == pairs;
    if |current| > 0 {
      SameShapeSnoc(runs, posRuns, current, currentPos);
      runs := runs + [current];
      posRuns := posRuns + [currentPos];
    } else {
      assert runs == [] && posRuns == [];
    }
  }

  // ---------------------------------------------------------------------------------------
  // process_section (inside transform_n_gram_data)

  /** `defaultdict(lambda: defaultdict(int))` keyed by (gram, length), then by document id. */
  type NGramCounts = map<(string, nat), map<nat, nat>>

  /** The value `storage[key][doc]` reads, absent entries counting as 0. */
  function Get(storage: NGramCounts, key: (string, nat), doc: nat): nat
  {
    if key in storage && doc in storage[key] then storage[key][doc] else 0
  }

  /** `storage[key][doc] += 1`: that one count goes up by one, every other count is unchanged. */
  function Bump(storage: NGramCounts, key: (string, nat), doc: nat): (r: NGramCounts)
    ensures r.Keys == storage.Keys + {key}
    ensures Get(r, key, doc) == Get(storage, key, doc) + 1
    ensures forall k, d | k != key || d != doc :: Get(r, k, d) == Get(storage, k, d)
  {
    var inner := if key in storage then storage[key] else map[];
    storage[key := inner[doc := Get(storage, key, doc) + 1]]
  }

  /** One `Bump` per key, in order. */
  function BumpAll(storage: NGramCounts, keys: seq<(string, nat)>, doc: nat): NGramCounts
  {
    if keys == [] then storage else Bump(BumpAll(storage, keys[..|keys| - 1], doc), keys[|keys| - 1], doc)
  }

  /** Every count for `doc` goes up by the number of times its key is listed; other documents are untouched. */
  lemma {:induction false} GetBumpAll(storage: NGramCounts, keys: seq<(string, nat)>, doc: nat, k: (string, nat), d: nat)
    ensures Get(BumpAll(storage, keys, doc), k, d) == Get(storage, k, d) + (if d == doc then Count(keys, k) else 0)
    decreases |keys|
  {
    if keys != [] {
      var init := keys[..|keys| - 1];
      GetBumpAll(storage, init, doc, k, d);
      assert keys == init + [keys[|keys| - 1]];
      CountAppend(init, [keys[|keys| - 1]], k);
    }
  }

  lemma WindowsSnoc(run: seq<string>, m: nat, i: nat)
    requires i + m <= |run|
    ensures Windows(run, m)[..i + 1] == Windows(run, m)[..i] + [(JoinSpace(run[i..i + m]), m)]
  {
    var ws := Windows(run, m);
    assert ws[i] == (JoinSpace(run[i..i + m]), m);
  }

  lemma BumpAllSnoc(storage: NGramCounts, keys: seq<(string, nat)>, key: (string, nat), doc: nat)
    ensures BumpAll(storage, keys + [key], doc) == Bump(BumpAll(storage, keys, doc), key, doc)
  {
    assert (keys + [key])[..|keys|] == keys;
  }

  /** The `m`-grams of one run: `" ".join(run[i:i+m])` for every start `i`, none when the run is shorter than `m`. */
  function Windows(run: seq<string>, m: nat): (r: seq<(string, nat)>)
    ensures |r| == if |run| < m then 0 else |run| - m + 1
    ensures forall i | 0 <= i < |r| :: i + m <= |run| && r[i] == (JoinSpace(run[i..i + m]), m)
  {
    var count := if |run| < m then 0 else |run| - m + 1;
    seq(count, i requires 0 <= i < count => (JoinSpace(run[i..i + m]), m))
  }

  /** The grams of one run for the lengths 2..m, shortest first. */
  function RunGrams(run: seq<string>, m: int): (r: seq<(string, nat)>)
    ensures forall j | 0 <= j < |r| :: 2 <= r[j].1 <= m
    decreases m
  {
    if m < 2 then [] else RunGrams(run, m - 1) + Windows(run, m)
  }

  /** The grams `process_section` counts for the runs, in the order it counts them. */
  function Grams(runs: seq<seq<string>>, n: int): (r: seq<(string, nat)>)
    ensures forall j | 0 <= j < |r| :: 2 <= r[j].1 <= n
  {
    if runs == [] then [] else Grams(runs[..|runs| - 1], n) + RunGrams(runs[|runs| - 1], n)
  }

  /** How many of `grams` have length `m`. */
  function CountOfLength(grams: seq<(string, nat)>, m: int): nat
  {
    if grams == [] then 0
    else CountOfLength(grams[..|grams| - 1], m) + (if grams[|grams| - 1].1 == m then 1 else 0)
  }

  lemma {:induction false} CountOfLengthAppend(a: seq<(string, nat)>, b: seq<(string, nat)>, m: int)
    ensures CountOfLength(a + b, m) == CountOfLength(a, m) + CountOfLength(b, m)
    decreases |b|
  {
    if b != [] {
      var init := b[..|b| - 1];
      var last := b[|b| - 1];
      CountOfLengthAppend(a, init, m);
      assert a + b == (a + init) + [last];
      assert CountOfLength(a + b, m) == CountOfLength(a + init, m) + (if last.1 == m then 1 else 0);
    } else {
      assert a + b == a;
    }
  }

  lemma {:induction false} CountOfLengthUniform(grams: seq<(string, nat)>, k: nat, m: int)
    requires forall j | 0 <= j < |grams| :: grams[j].1 == k
    ensures CountOfLength(grams, m) == if k == m then |grams| else 0
    decreases |grams|
  {
    if grams != [] {
      CountOfLengthUniform(grams[..|grams| - 1], k, m);
    }
  }

  /** A run of length L yields exactly max(0, L - m + 1) grams of each length m in 2..n, and none of any other length. */
  lemma {:induction false} RunGramsCount(run: seq<string>, n: int, m: int)
    ensures CountOfLength(RunGrams(run, n), m) == if 2 <= m <= n && m <= |run| then |run| - m + 1 else 0
    decreases n
  {
    if n >= 2 {
      RunGramsCount(run, n - 1, m);
      CountOfLengthAppend(RunGrams(run, n - 1), Windows(run, n), m);
      CountOfLengthUniform(Windows(run, n), n, m);
    }
  }

  /** Every window of every run, of every length 2..n, is among the grams counted. */
  lemma {:induction false} GramsComplete(runs: seq<seq<string>>, n: int, k: nat, m: nat, i: nat)
    requires k < |runs| && 2 <= m <= n && i + m <= |runs[k]|
    ensures (JoinSpace(runs[k][i..i + m]), m) in Grams(runs, n)
    decreases |runs|
  {
    var init := runs[..|runs| - 1];
    if k < |runs| - 1 {
      GramsComplete(init, n, k, m, i);
      assert init[k] == runs[k];
    } else {
      RunGramsComplete(runs[k], n, m, i);
    }
  }

  lemma {:induction false} RunGramsComplete(run: seq<string>, n: int, m: nat, i: nat)
    requires 2 <= m <= n && i + m <= |run|
    ensures (JoinSpace(run[i..i + m]), m) in RunGrams(run, n)
    decreases n
  {
    if m < n {
      RunGramsComplete(run, n - 1, m, i);
    } else {
      assert Windows(run, m)[i] == (JoinSpace(run[i..i + m]), m);
    }
  }

  lemma {:induction false} BumpAllConcat(storage: NGramCounts, a: seq<(string, nat)>, b: seq<(string, nat)>, doc: nat)
    ensures BumpAll(BumpAll(storage, a, doc), b, doc) == BumpAll(storage, a + b, doc)
    decreases |b|
  {
    if b == [] {
      assert a + b == a;
    } else {
      var init := b[..|b| - 1];
      BumpAllConcat(storage, a, init, doc);
      assert a + b == (a + init) + [b[|b| - 1]];
      BumpAllSnoc(storage, a + init, b[|b| - 1], doc);
    }
  }

  /**
   * `process_section(sequences, storage)` for the document `docId`: for each run, each length
   * m in 2..n and each start, the count of that gram for that document goes up by one.
   */
  method ProcessSection(runs: seq<seq<string>>, n: int, docId: nat, storage: NGramCounts)
    returns (result: NGramCounts)
    ensures result == BumpAll(storage, Grams(runs, n), docId)
  {
    result := storage;
    for r := 0 to |runs|
      invariant result == BumpAll(storage, Grams(runs[..r], n), docId)
    {
      assert runs[..r + 1][..r] == runs[..r];
      result := CountRun(runs[r], n, docId, result);
      BumpAllConcat(storage, Grams(runs[..r], n), RunGrams(runs[r], n), docId);
    }
    assert runs[..|runs|] == runs;
  }

  /** The body of `process_section`'s loop for one run: the lengths 2..n in increasing order. */
  method CountRun(run: seq<string>, n: int, docId: nat, storage: NGramCounts) returns (result: NGramCounts)
    ensures result == BumpAll(storage, RunGrams(run, n), docId)
  {
    result := storage;
    var length := |run|;
    if n < 2 {
      return;
    }
    ghost var done: seq<(string, nat)> := [];
    for m := 2 to n + 1
      invariant done == RunGrams(run, m - 1)
      invariant result == BumpAll(storage, done, docId)
    {
      assert RunGrams(run, m) == RunGrams(run, m - 1) + Windows(run, m);
      if length < m {
        assert Windows(run, m) == [];
        continue;
      }
      result := CountWindows(run, m, docId, result);
      BumpAllConcat(storage, done, Windows(run, m), docId);
      done := done + Windows(run, m);
    }
  }

  /** The innermost loop of `process_section`: every window of length `m`, left to right. */
  method CountWindows(run: seq<string>, m: nat, docId: nat, storage: NGramCounts) returns (result: NGramCounts)
    requires m <= |run|
    ensures result == BumpAll(storage, Windows(run, m), docId)
  {
    result := storage;
    for i := 0 to |run| - m + 1
      invariant result == BumpAll(storage, Windows(run, m)[..i], docId)
    {
      var gram := JoinSpace(run[i..i + m]);
      WindowsSnoc(run, m, i);
      BumpAllSnoc(storage, Windows(run, m)[..i], (gram, m), docId);
      result := Bump(result, (gram, m), docId);
    }
    assert Windows(run, m)[..|run| - m + 1] == Windows(run, m);
  }
}
