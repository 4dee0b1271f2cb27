# Search-engine data preparation: a verified model of the indexing core

This project models, in Dafny, the sequential core of a small search-engine data pipeline:

- **Vocabulary** (`Vocab`): an append-only table from term to id, where each new term gets
  the table's size as its id.
- **Text normalisation** (`Stemming`, with the Python string helpers in `PyStr`). Accent
  removal, punctuation folding, whitespace tokenising and lower-casing produce the tokens. The
  segmenter re-splits them. Stopword filtering keeps the original position of each surviving
  token. Each token's stem is then mapped through the vocabulary.
- **Inverted-index construction** (`InvertedIndex`): folds every page's term ids into posting
  lists of `[page_id, count]` pairs. There is one list per term id, for titles and bodies
  separately.
- **Migration helpers** (`Migrate`), covering five operations:
  - inverting the dumped dictionary;
  - filtering an inverted index down to known, non-empty terms;
  - the per-document maximum term frequency;
  - cutting position-sorted terms into maximal runs of consecutive positions;
  - counting, per document, the n-grams (lengths 2..n) of those runs.
- **Crawler critical section** (`Crawling`): the locked part of a crawl step, as one atomic
  method on a `Crawler` object. It creates the page, assigns its id, records the parent edge,
  writes the connectivity-matrix cell, adds edges to already-known pages and queues the
  unknown links.

Each stateful operation is a method proved against a specification function. Examples are
`Vocabulary.Map` against `Assign`, `Aggregate` against `AggregateSpec`, `ProcessSection`
against `BumpAll`/`Grams`, and `Crawl` against `Created`/`LinkAll`/`Enqueued`. The
properties the pipeline relies on are proved about those functions:

- the ids form a bijection onto `0..size-1`;
- posting counts sum to occurrence counts;
- posting lists have strictly increasing pages on sorted input;
- the runs partition the sorted terms and are maximal;
- each run contributes max(0, L-m+1) grams of length m;
- child and parent edges stay paired, and every non-zero matrix cell is an edge.

Where the specification of the system and the code disagree, the model follows the code:

- A crawl step always creates a new page. The URL map is overwritten even when the URL was
  already known; the specification says such a page is skipped.
- A link to a known page adds both the child and the parent edge, not only the forward edge.
- Punctuation is replaced by a space (`re.sub(r'[^\w\s]', ' ', ...)`). No placeholder token
  and no hyphen rule are used.
- No page cap is checked before crawling. A page whose id falls outside the matrix fails at
  the matrix write instead.
- The ids returned by `stem_and_map` are not parallel to its position list; see Findings.

## Model

Some functions only define what a line of the source computes, and their contracts carry
just the facts their callers need. The rows below give them their meaning; they get no row of
their own:

- `Vocab.AssignAll` (the table after a sequence of `map` calls): `AssignAllKeepsOrder`, `AssignAllStable`.
- `PyStr.JoinSpace` (`' '.join`): `SplitJoin`, `SplitSpace`.
- `Stemming.Stemmer.SegmentAll` and `Stemming.Stemmer.Tokens`: `SegmentWords`, `CleanText`.
- `Stemming.KeptTokens` and `Stemming.Stemmer.Stems`: `RemoveStopwords`, `StemAndMapSurvivors`.
- `InvertedIndex.AddOccurrence`: `MergeStep`.
- `InvertedIndex.AggregateSpec`: `AggregatePerTerm`, `Aggregate`.
- `InvertedIndex.BuildSpec`: `BuildInvariant`, `BuildMatchesExpected`, `FieldIndependence`.
- `Migrate.Zip`: `ExtractContinuousSequences`.
- `Migrate.Windows`: `RunGramsCount`, `GramsComplete`, `CountWindows`.
- `Migrate.BumpAll`: `GetBumpAll`, `ProcessSection`.
- `Crawling.NewPage` and `Crawling.Created`: `CreatedWellLinked`, `CreatePage`.
- `Crawling.LinkAll`: `LinkAllWellLinked`, `LinkAllChildren`, `RecordLinks`.

| member | source | states |
|---|---|---|
| Vocab.Assign | vocabulary.py:5-8 | a known word leaves the table unchanged; an unseen word gets the id equal to the size before the call, the table grows by exactly one, and every earlier id is kept |
| Vocab.AssignKeepsOrder | vocabulary.py:6-7 | one `map` call keeps the table a bijection between its terms and the ids 0..size-1 in insertion order |
| Vocab.AssignAllKeepsOrder | vocabulary.py:5-8 | after any sequence of `map` calls the table is still that insertion-ordered bijection |
| Vocab.IdsAreRange | vocabulary.py:5-8 | the ids in use are exactly 0..size-1 and no two terms share an id |
| Vocab.AssignAllStable | vocabulary.py:6-8 | mapping words never changes an existing id, and every mapped word is present afterwards |
| Vocab.AssignIdempotent | vocabulary.py:6-8 | mapping the same word twice gives the same table (hence the same id) as mapping it once |
| Vocab.Vocabulary.constructor | vocabulary.py:2-3 | a new vocabulary is empty and valid |
| Vocab.Vocabulary.Map | vocabulary.py:5-8 | the table becomes `Assign(old, word)`; the returned id is the word's entry, below the new size, the old id for a known word and the old size for a new one |
| Vocab.Vocabulary.MapAll | stemmer.py:48 | mapping a list in order leaves the table at `AssignAll(old, words)` and returns, position by position, each word's id |
| Vocab.Vocabulary.Dictionary | vocabulary.py:10-11 | the result is the table itself, so every id is below its size and every id 0..size-1 is used |
| PyStr.Lower | stemmer.py:26 | lower-casing keeps the length, leaves no upper-case letter, and agrees with the input character by character up to case (so non-letters are kept); an alphanumeric word becomes a lowercase alphanumeric one |
| PyStr.ReplacePunct | stemmer.py:25 | the length is kept; word and whitespace characters stay as they are; every other character becomes a space |
| PyStr.SplitWs | stemmer.py:26 | `str.split()` yields non-empty pieces without whitespace whose concatenation is the input with its whitespace removed |
| PyStr.SplitWsAtSpace | stemmer.py:26 | a whitespace character splits the input in two: the pieces are those of the text before it followed by those of the text after it |
| PyStr.SplitWsWord | stemmer.py:26 | a non-empty word without whitespace is exactly one piece, so pieces are maximal |
| PyStr.SplitSpace | stemmer.py:48 | `str.split(" ")` yields at least one piece, and joining the pieces with single spaces gives the input back |
| PyStr.SplitSpacePieces | stemmer.py:48 | no piece of `str.split(" ")` contains a space |
| PyStr.SplitJoin | stemmer.py:36 | for a non-empty list of space-free tokens, splitting their space-join on " " gives the list back |
| Stemming.KeepAscii | stemmer.py:41 | every character of the result is below 128 and not a combining mark, and the result is no longer than the input |
| Stemming.KeepAsciiInOrder | stemmer.py:41 | the result is the input's characters at exactly the indices the test selects (below 128, not combining), one per index, in input order |
| Stemming.KeepAsciiCount | stemmer.py:41 | each kept character occurs exactly as often as in the input, every other character not at all |
| Stemming.KeepAsciiIdentity | stemmer.py:41 | text made only of kept characters passes the filter unchanged |
| Stemming.KeepAsciiIdempotent | stemmer.py:39-41 | applying the filter twice equals applying it once |
| Stemming.LowerAlnumTokens | stemmer.py:26 | there is one token per alphanumeric word, in input order (the indices selected by `isalnum`), each that word lower-cased; every token is lowercase alphanumeric |
| Stemming.LowerAlnumComplete | stemmer.py:26 | the lower-case form of every alphanumeric word is among the tokens |
| Stemming.Survivors | stemmer.py:31-35 | the position list is strictly increasing, and index i is in it exactly when token i is not a stopword |
| Stemming.StopwordIdsMisaligned | stemmer.py:46-49 | with "the" a stopword, the tokens "the crawler" give two ids but one position, and empty text gives one id but no position |
| Stemming.Stemmer.constructor | stemmer.py:10-16 | the stemmer starts with the given stopwords and foreign functions and an empty, valid vocabulary |
| Stemming.Stemmer.RemoveAccents | stemmer.py:39-41 | the result is pure ASCII and holds no combining mark |
| Stemming.Stemmer.CleanedTokens | stemmer.py:23-26 | every token kept before segmentation is lowercase alphanumeric |
| Stemming.Stemmer.SegmentWords | stemmer.py:27-29 | the loop ends with the segmenter's pieces of every cleaned word, concatenated in word order |
| Stemming.Stemmer.RemoveStopwords | stemmer.py:31-35 | the loop ends with the non-stopword tokens in order (`stopword_removed_text`) and exactly their positions |
| Stemming.Stemmer.CleanText | stemmer.py:22-37 | the text returned is the space-join of all segmented tokens, stopwords included, and the index list is exactly the survivors' positions |
| Stemming.Stemmer.StemAndMap | stemmer.py:46-49 | one id per piece of the joined text split on " ", each the vocabulary id of that piece's stem; the table becomes `AssignAll` of the stems; the index list is `clean_text`'s |
| Stemming.Stemmer.StemAndMapSurvivors | stemmer.py:46-49 | corrected variant: one id per surviving position, in the same order, each the vocabulary id of the stem of the token at that position; the table becomes `AssignAll` of the surviving tokens' stems, so earlier ids are kept |
| InvertedIndex.Merge | main.py:75-78 | absorbing k occurrences on page p raises the count sum by k, keeps a list well formed (counts at least 1, no equal adjacent pages) and ends the list with page p when k > 0 |
| InvertedIndex.MergeStep | main.py:75-78 | one more occurrence (bump the last entry for p, else append `[p, 1]`) is the merge of k+1 occurrences |
| InvertedIndex.AggregatePerTerm | main.py:73-78 | after `aggregate`, term t's entry keeps its id and its list is the old list merged with the number of occurrences of t in the word list; entries of absent terms are unchanged |
| InvertedIndex.BuildInvariant | main.py:70-82 | each index has an entry t with id t whose posting list is well formed and whose counts sum to the occurrences of t in that field over all pages |
| InvertedIndex.BuildMatchesExpected | main.py:79-82 | on pages in strictly increasing id order, term t's list is exactly one `[id, count]` pair per page containing t, so its page ids are strictly increasing |
| InvertedIndex.FieldIndependence | main.py:80-82 | the title index depends on the titles only (and the body index on the bodies only) |
| InvertedIndex.Aggregate | main.py:73-78 | the index array after the loop is `AggregateSpec` of the array before it |
| InvertedIndex.BuildInvertedIndex | main.py:70-82 | both indexes start with `vocab_size` entries `Entry(i, [])` and end as `BuildSpec`; entry t has id t, a well-formed list and the right count sum, and equals the reference list on sorted pages |
| Migrate.LoadDictionary | migrate_db.py:28 | every value of the input becomes a key, and every key maps back to an input item carrying it |
| Migrate.LoadDictionaryLastWins | migrate_db.py:28 | for a repeated value the key of the last item carrying it is kept |
| Migrate.LoadDictionaryInverts | migrate_db.py:28 | with distinct values, `reverse_dict[v] == k` for each `(k, v)` of the input |
| Migrate.VocabularyRoundTrip | migrate_db.py:28 | inverting a vocabulary's dump maps each id back to its term, and every key is an id of the vocabulary |
| Migrate.KeptEntries | migrate_db.py:37-47 | the kept indices are strictly increasing and are exactly the entries with a known id and a non-empty posting list |
| Migrate.TransformIndexData | migrate_db.py:33-47 | the result holds, in original order, one `(id, term, docs)` row per kept entry and nothing else |
| Migrate.CalculateMaxTf | migrate_db.py:195-202 | a page gets a value exactly when some posting records a positive count for it; the value is one of its recorded counts and at least every one of them |
| Migrate.InsertByPosition | migrate_db.py:70 | inserting into a position-sorted list keeps it sorted, makes it one longer, and ends it with either the new pair or the old last pair |
| Migrate.InsertIsPermutation | migrate_db.py:70 | insertion adds exactly the one pair: the multiset of pairs grows by it and by nothing else |
| Migrate.SortByPosition | migrate_db.py:70 | the result is sorted by position and as long as the input |
| Migrate.SortIsPermutation | migrate_db.py:70 | the sorted list is a permutation of the input pairs |
| Migrate.SortSorted | migrate_db.py:70 | pairs already sorted by position are returned unchanged |
| Migrate.ExtractContinuousSequences | migrate_db.py:69-86 | the runs concatenate to the terms sorted by position (with their positions alongside), every run is non-empty, positions inside a run go up by exactly 1, the next run never starts at the previous position plus 1, and there are no runs exactly when there are no pairs |
| Migrate.SplitRuns | migrate_db.py:71-85 | the same partition facts for the loop over already sorted pairs |
| Migrate.Bump | migrate_db.py:115 | `storage[key][doc] += 1` raises that one count by one and leaves every other count unchanged |
| Migrate.GetBumpAll | migrate_db.py:107-115 | after counting a list of grams for a document, each of its counts has risen by the number of times the gram is listed, and other documents are untouched |
| Migrate.RunGrams | migrate_db.py:109-114 | every gram of a run has a length between 2 and n |
| Migrate.Grams | migrate_db.py:108-114 | every gram counted for a section has a length between 2 and n |
| Migrate.RunGramsCount | migrate_db.py:109-115 | a run of length L yields exactly max(0, L-m+1) grams of each length m in 2..n and none of any other length |
| Migrate.GramsComplete | migrate_db.py:108-115 | every window of every run, of every length 2..n, is among the grams counted |
| Migrate.ProcessSection | migrate_db.py:107-115 | the counts after the section are the counts before it bumped once per gram of `Grams(runs, n)` for the document |
| Migrate.CountRun | migrate_db.py:109-115 | one run bumps the counts once per gram of the lengths 2..n, in order |
| Migrate.CountWindows | migrate_db.py:113-115 | one length bumps the counts once per window, left to right |
| Crawling.AddEdge | crawler.py:52-53 | recording an edge appends `to` to `from`'s children and `from` to `to`'s parents and changes nothing else |
| Crawling.AddEdgeWellLinked | crawler.py:60-61 | adding an edge keeps ids equal to indices, edge ids in range and children/parents paired |
| Crawling.CreatedWellLinked | crawler.py:35-53 | creating the page (and its parent edge) keeps the page list well linked, only extends earlier pages, gives the new page exactly its parent as parent, and lists it among the parent's children |
| Crawling.LinkAllWellLinked | crawler.py:55-61 | turning the known links into edges keeps the page list well linked and only extends edge lists |
| Crawling.LinkAllChildren | crawler.py:58-60 | the new page's children gain exactly the ids of the known links, in link order |
| Crawling.KnownTargets | crawler.py:58-59 | one id per link already in the URL map, in link order, each that link's mapped id |
| Crawling.Enqueued | crawler.py:55-57 | every queued item is an unknown link of the page with the page as parent, and every unknown link is queued |
| Crawling.Crawler.constructor | crawler.py:17-27 | `max_pages` defaults to 300; a new crawler has no pages, no URL ids, an empty queue and a fresh 0x0 matrix (no cells) |
| Crawling.Crawler.Seed | crawler.py:76-78 | the matrix becomes all-zero max_pages x max_pages and the initial URL is queued without a parent |
| Crawling.Crawler.Crawl | crawler.py:34-63 | the page gets id `len(pages)` and the URL maps to it unconditionally; exactly one page is appended; the parent edge and matrix cell are written; the links are queued or linked; the write fails exactly when there is a parent and the id is outside the matrix, leaving the links unprocessed; the crawler invariant is kept |
| Crawling.Crawler.CreatePage | crawler.py:35-53 | lines 35-53 as a state change: the next id, the overwritten map entry, the appended page and the parent edge |
| Crawling.Crawler.MarkEdge | crawler.py:54 | exactly the cell `[parent, child]` becomes 1.0 and the invariant that non-zero cells are edges is kept |
| Crawling.Crawler.RecordLinks | crawler.py:55-61 | the unknown links are queued in order with the page as parent, the known ones become edge pairs, and the invariant is kept |

## Left out

- Foreign functions are configuration of the `Stemmer` object, with nothing assumed about
  them. These are Unicode NFKD normalisation, the Unicode combining-mark test, the wordninja
  segmenter and the Porter stemmer.
- The `re.sub` character classes are reduced to ASCII. The input is ASCII once accents are
  removed, and `\w` is taken to be letters, digits and `_`.
- The segmenter's whitelist (stemmer.py:17-20) tunes the foreign cost model. It is not part
  of this model.
- The `stem_and_map` ids for stopword tokens are the only ids unconnected to positions; see
  Findings.
- PageRank (page_rank.py) and all TF-IDF, magnitude and rounding code in migrate_db.py are
  floating-point numerics and are not modelled.
- All file, JSON, database, HTTP and HTML work is left out. The model takes the loaded data
  as input and returns what the source would write. This covers reading the forward index,
  the dictionary dump and `dump_pages`.
- Threading is not modelled: the lock, the worker pool, `Queue.get` timeouts, `task_done` and
  `join`. The locked section is one atomic method and the queue is a plain sequence; taking
  an item off the queue belongs to the worker and is not modelled.
- The tqdm progress bar update (crawler.py:62-63) is not modelled.
- Pages are values in a sequence rather than shared objects. Only the page list refers to
  them, so edge updates are modelled as functional updates in the same order as the source.
- The connectivity matrix holds reals; only 0.0 and the written 1.0 occur in the model.
- Index errors are modelled as preconditions, not as error results:
  - a term id outside the index (main.py:75);
  - a parent id outside the page list (crawler.py:53);
  - a term id missing from the mapping in `transform_n_gram_data`, which is only used by the
    driver loop that is not part of this model.
- Index errors at the matrix write are modelled: `Crawl` returns `ok == false`. This happens
  when a parent is present and the new id is outside the matrix.
- The matrix is `None` until `crawl_and_pagerank` runs; before `Seed` it is modelled as a
  0x0 matrix, so any write fails the same way.
- The crawl step needs a fetched "size" that page_parser.py never returns. page.py's `Page`
  also declares neither `size` nor `freq_words`. The fetch result is an input record with a
  size, and `Page` has the fields the crawler passes.
- main.py stores `stem_and_map`'s `(ids, positions)` pair as the whole "title"/"body" value.
  main.py also calls `stemmer.dictionary()`, which `Stemmer` does not define. The index model
  takes a plain list of term ids per field, which is what `aggregate` iterates over.
- `transform_n_gram_data`'s driver loop is modelled only through `ProcessSection` on given
  runs. The loop reads the forward index file, looks up terms and converts the result to
  `(gram, length, docs)` tuples.
- The defaultdict that `process_section` mutates is modelled as a map value passed in and
  returned.
- Stemming.KeepAscii: the function's own contract states only the character class of the
  result. Input order and character counts are stated by the lemmas `KeepAsciiInOrder` and
  `KeepAsciiCount`. Stated in the function's contract, they would make every proof that
  unfolds it too costly.
- Migrate.SortByPosition: the model proves the result sorted, a permutation, and unchanged on
  sorted input. It does not prove that equal positions keep their input order, as Python's
  stable sort does; the insertion sort does keep that order.
- Migrate.ExtractContinuousSequences: the positions of each run are a ghost result alongside
  the runs, since the source discards them.

## Findings

| source | as written | input that shows it | evidently intended | confidence | as-written member | corrected member |
|---|---|---|---|---|---|---|
| stemmer.py:46-49 | `stem_and_map` returns one id for every token of the joined text, stopwords included, but positions only for the surviving tokens. The two lists differ in length and do not line up, and downstream code zips them. Empty text yields the id of `stem("")` and no position | tokens "the crawler" with "the" a stopword: ids for "the" and "crawler", positions [1]; the empty text: one id, no position | one id per surviving token, parallel to the position list | not executed | Stemming.StopwordIdsMisaligned (about Stemming.Stemmer.StemAndMap) | Stemming.Stemmer.StemAndMapSurvivors |
