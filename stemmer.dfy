/**
 * Text normalisation: accent removal, punctuation folding, tokenising, re-segmentation,
 * stopword removal with position tracking, stemming and id assignment.
 *
 * The foreign pieces (Unicode NFKD normalisation, the Unicode combining-mark test, the
 * wordninja segmenter and the Porter stemmer) are configuration of the `Stemmer` object:
 * function-valued constants about which the model assumes nothing.
 */
module Stemming {
  import opened Seqs
  import opened PyStr
  import opened Vocab

  /** The test of `remove_accents`: code point below 128 and not a combining mark. */
  function KeptBy(combining: char -> bool): char -> bool
  {
    c => c as int < 128 && !combining(c)
  }

  /**
   * The filter of `remove_accents` applied to already-normalised text: keeps the characters
   * below code point 128 that are not combining marks, each as often as it occurs, in order.
   */
  function KeepAscii(normalized: string, combining: char -> bool): (r: string)
    ensures |r| <= |normalized|
    ensures forall k | 0 <= k < |r| :: r[k] as int < 128 && !combining(r[k])
    decreases |normalized|
  {
    if normalized == [] then []
    else
      var init := normalized[..|normalized| - 1];
      var c := normalized[|normalized| - 1];
      var prev := KeepAscii(init, combining);
      if c as int < 128 && !combining(c) then
        var r := prev + [c];
        assert r[..|r| - 1] == prev;
        r
      else
        prev
  }

  /**
   * The filter keeps input order: the result is the input's characters at the indices the test
   * selects, one per index, in increasing order.
   */
  lemma {:induction false} KeepAsciiInOrder(normalized: string, combining: char -> bool)
    ensures |KeepAscii(normalized, combining)| == |Selected(normalized, KeptBy(combining))|
    ensures forall k | 0 <= k < |KeepAscii(normalized, combining)| ::
      KeepAscii(normalized, combining)[k] == normalized[Selected(normalized, KeptBy(combining))[k]]
    decreases |normalized|
  {
    if normalized != [] {
      var n := |normalized| - 1;
      var init := normalized[..n];
      KeepAsciiInOrder(init, combining);
      KeepAsciiSnoc(normalized, combining);
      SelectedSnoc(normalized, KeptBy(combining));
      assert forall i | 0 <= i < n :: init[i] == normalized[i];
    }
  }

  /** Each kept character occurs in the result exactly as often as in the input; the others not at all. */
  lemma {:induction false} KeepAsciiCount(normalized: string, combining: char -> bool, c: char)
    ensures Count(KeepAscii(normalized, combining), c) == if c as int < 128 && !combining(c) then Count(normalized, c) else 0
    decreases |normalized|
  {
    if normalized != [] {
      var n := |normalized| - 1;
      KeepAsciiCount(normalized[..n], combining, c);
      KeepAsciiSnoc(normalized, combining);
    }
  }

  /** One step of the filter: the last character is appended when it is kept. */
  lemma KeepAsciiSnoc(s: string, combining: char -> bool)
    requires s != []
    ensures KeepAscii(s, combining) ==
      KeepAscii(s[..|s| - 1], combining) + (if s[|s| - 1] as int < 128 && !combining(s[|s| - 1]) then [s[|s| - 1]] else [])
  {
  }

  /** Text that only holds kept characters passes the filter unchanged; in particular the filter is idempotent. */
  lemma {:induction false} KeepAsciiIdentity(s: string, combining: char -> bool)
    requires forall k | 0 <= k < |s| :: s[k] as int < 128 && !combining(s[k])
    ensures KeepAscii(s, combining) == s
    decreases |s|
  {
    if s != [] {
      KeepAsciiIdentity(s[..|s| - 1], combining);
      assert s[..|s| - 1] + [s[|s| - 1]] == s;
    }
  }

  lemma KeepAsciiIdempotent(s: string, combining: char -> bool)
    ensures KeepAscii(KeepAscii(s, combining), combining) == KeepAscii(s, combining)
  {
    KeepAsciiIdentity(KeepAscii(s, combining), combining);
  }

  /**
   * `[w.lower() for w in words if w.isalnum()]`: one token per alphanumeric word, in order, each
   * the word lower-cased.
   */
  function LowerAlnumTokens(words: seq<string>): (r: seq<string>)
    ensures |r| == |Selected(words, IsAlnum)|
    ensures forall k | 0 <= k < |r| :: r[k] == Lower(words[Selected(words, IsAlnum)[k]])
    ensures forall k | 0 <= k < |r| :: IsLowerAlnum(r[k])
    decreases |words|
  {
    if words == [] then []
    else
      var n := |words| - 1;
      var prev := LowerAlnumTokens(words[..n]);
      assert forall i | 0 <= i < n :: words[..n][i] == words[i];
      prev + (if IsAlnum(words[n]) then [Lower(words[n])] else [])
  }

  /** The lower-case form of every alphanumeric word is among the tokens. */
  lemma LowerAlnumComplete(words: seq<string>, i: nat)
    requires i < |words| && IsAlnum(words[i])
    ensures Lower(words[i]) in LowerAlnumTokens(words)
  {
    var idx := Selected(words, IsAlnum);
    assert i in idx;
    var k :| 0 <= k < |idx| && idx[k] == i;
    assert LowerAlnumTokens(words)[k] == Lower(words[i]);
  }

  /** The indices of the tokens that are not stopwords, in increasing order. */
  function Survivors(tokens: seq<string>, stopwords: set<string>): (idx: seq<nat>)
    ensures StrictlyIncreasing(idx)
    ensures forall k | 0 <= k < |idx| :: idx[k] < |tokens| && tokens[idx[k]] !in stopwords
    ensures forall i {:trigger i in idx} | 0 <= i < |tokens| :: tokens[i] !in stopwords <==> i in idx
  {
    Selected(tokens, w => w !in stopwords)
  }

  /** `stopword_removed_text`: the tokens that are not stopwords, in order. */
  function KeptTokens(tokens: seq<string>, stopwords: set<string>): (r: seq<string>)
    ensures |r| == |Survivors(tokens, stopwords)|
    ensures forall k | 0 <= k < |r| :: r[k] == tokens[Survivors(tokens, stopwords)[k]] && r[k] !in stopwords
  {
    var idx := Survivors(tokens, stopwords);
    seq(|idx|, k requires 0 <= k < |idx| => tokens[idx[k]])
  }

  /**
   * `stem_and_map` pairs one id per token, stopwords included, with the positions of the
   * surviving tokens only: for the tokens "the crawler" with "the" a stopword it yields two ids
   * but one position, and for text with no token at all it yields one id (of the empty string)
   * and no position.
   */
  lemma StopwordIdsMisaligned()
    ensures |SplitSpace(JoinSpace(["the", "crawler"]))| == 2 && Survivors(["the", "crawler"], {"the"}) == [1]
    ensures |SplitSpace(JoinSpace([]))| == 1 && Survivors([], {"the"}) == []
  {
    TwoTokensSplit();
    TwoTokensSurvivors();
    SplitJoinEmpty();
  }

  lemma TwoTokensSplit()
    ensures SplitSpace(JoinSpace(["the", "crawler"])) == ["the", "crawler"]
  {
    var tokens := ["the", "crawler"];
    assert NoSpace(tokens[0]) && NoSpace(tokens[1]);
    SplitJoin(tokens);
  }

  lemma TwoTokensSurvivors()
    ensures Survivors(["the", "crawler"], {"the"}) == [1]
  {
    PairSurvivors("the", "crawler", {"the"});
  }

  /** Of a stopword followed by a kept word, only the second position survives. */
  lemma PairSurvivors(a: string, b: string, stopwords: set<string>)
    requires a in stopwords && b !in stopwords
    ensures Survivors([a, b], stopwords) == [1]
  {
    var r := Survivors([a, b], stopwords);
    assert 1 in r && 0 !in r;
    assert forall k | 0 <= k < |r| :: r[k] == 1;
    StrictlyIncreasingBound(r, 1, 2);
  }

  class Stemmer {
    const stopwords: set<string>
    /** `unicodedata.normalize('NFKD', ·)`. */
    const nfkd: string -> string
    /** `unicodedata.combining(c) != 0`. */
    const combining: char -> bool
    /** `wordninja.split` with the configured cost model. */
    const segment: string -> seq<string>
    /** `PorterStemmer().stem`. */
    const stem: string -> string
    const vocab: Vocabulary

    constructor (stopwords: set<string>, nfkd: string -> string, combining: char -> bool,
                 segment: string -> seq<string>, stem: string -> string)
      ensures this.stopwords == stopwords && this.nfkd == nfkd && this.combining == combining
      ensures this.segment == segment && this.stem == stem
      ensures fresh(vocab) && vocab.Valid() && vocab.vocab == map[]
    {
      this.stopwords := stopwords;
      this.nfkd := nfkd;
      this.combining := combining;
      this.segment := segment;
      this.stem := stem;
      vocab := new Vocabulary();
    }

    /** `remove_accents`: the result is pure ASCII and holds no combining mark. */
    function RemoveAccents(text: string): (r: string)
      ensures forall k | 0 <= k < |r| :: r[k] as int < 128 && !combining(r[k])
    {
      KeepAscii(nfkd(text), combining)
    }

    /** The tokens of `clean_text` before segmentation: split on whitespace, alphanumeric only, lower-cased. */
    function CleanedTokens(text: string): (r: seq<string>)
      ensures forall k | 0 <= k < |r| :: IsLowerAlnum(r[k])
    {
      LowerAlnumTokens(SplitWs(ReplacePunct(RemoveAccents(text))))
    }

    /** The concatenation of the segmenter's pieces for each word. */
    function SegmentAll(words: seq<string>): (r: seq<string>)
      ensures |words| == 0 ==> r == []
    {
      if words == [] then [] else SegmentAll(words[..|words| - 1]) + segment(words[|words| - 1])
    }

    /** The segmented token list `splited_text` that `clean_text` builds for `text`. */
    function Tokens(text: string): seq<string>
    {
      SegmentAll(CleanedTokens(text))
    }

    /**
     * `clean_text`: the space-joined list of ALL segmented tokens, stopwords included, and the
     * positions of the tokens that are not stopwords.
     */
    method CleanText(text: string) returns (joined: string, index: seq<nat>)
      ensures joined == JoinSpace(Tokens(text))
      ensures index == Survivors(Tokens(text), stopwords)
    {
      var splited := SegmentWords(CleanedTokens(text));
      var kept;
      kept, index := RemoveStopwords(splited);
      joined := JoinSpace(splited);
    }

    /** The loop of lines 27-29: the segmenter's pieces of every word, concatenated in order. */
    method SegmentWords(cleaned: seq<string>) returns (splited: seq<string>)
      ensures splited == SegmentAll(cleaned)
    {
      splited := [];
      for i := 0 to |cleaned|
        invariant splited == SegmentAll(cleaned[..i])
      {
        assert cleaned[..i + 1][..i] == cleaned[..i];
        splited := splited + segment(cleaned[i]);
      }
      assert cleaned[..|cleaned|] == cleaned;
    }

    /** The loop of lines 31-35: the tokens that are not stopwords and their positions. */
    method RemoveStopwords(splited: seq<string>) returns (kept: seq<string>, index: seq<nat>)
      ensures kept == KeptTokens(splited, stopwords)
      ensures index == Survivors(splited, stopwords)
    {
      kept, index := [], [];
      for i := 0 to |splited|
        invariant index == Survivors(splited[..i], stopwords)
        invariant kept == KeptTokens(splited[..i], stopwords)
      {
        assert splited[..i + 1][..i] == splited[..i];
        if splited[i] !in stopwords {
          kept := kept + [splited[i]];
          index := index + [i];
        }
      }
      assert splited[..|splited|] == splited;
    }

    /** The stems of `words`, in order. */
    function Stems(words: seq<string>): (r: seq<string>)
      ensures |r| == |words| && forall k | 0 <= k < |words| :: r[k] == stem(words[k])
    {
      seq(|words|, k requires 0 <= k < |words| => stem(words[k]))
    }

    /**
     * `stem_and_map`: one id per piece of `text.split(" ")`, where `text` is the joined token list,
     * each the vocabulary id of the piece's stem; the position list is `clean_text`'s.
     */
    method StemAndMap(content: string) returns (output: seq<nat>, index: seq<nat>)
      requires vocab.Valid()
      modifies vocab
      ensures vocab.Valid()
      ensures index == Survivors(Tokens(content), stopwords)
      ensures |output| == |SplitSpace(JoinSpace(Tokens(content)))|
      ensures forall k | 0 <= k < |output| ::
        stem(SplitSpace(JoinSpace(Tokens(content)))[k]) in vocab.vocab &&
        output[k] == vocab.vocab[stem(SplitSpace(JoinSpace(Tokens(content)))[k])]
      ensures vocab.vocab == AssignAll(old(vocab.vocab), Stems(SplitSpace(JoinSpace(Tokens(content)))))
    {
      var text;
      text, index := CleanText(content);
      output := vocab.MapAll(Stems(SplitSpace(text)));
    }

    /**
     * Stopword-free variant of `stem_and_map`: one id per surviving token, so the ids and the
     * positions are parallel lists.
     */
    method StemAndMapSurvivors(content: string) returns (output: seq<nat>, index: seq<nat>)
      requires vocab.Valid()
      modifies vocab
      ensures vocab.Valid()
      ensures index == Survivors(Tokens(content), stopwords)
      ensures |output| == |index|
      ensures forall k | 0 <= k < |output| ::
        stem(Tokens(content)[index[k]]) in vocab.vocab && output[k] == vocab.vocab[stem(Tokens(content)[index[k]])]
      ensures vocab.vocab == AssignAll(old(vocab.vocab), Stems(KeptTokens(Tokens(content), stopwords)))
    {
      var text;
      text, index := CleanText(content);
      output := vocab.MapAll(Stems(KeptTokens(Tokens(content), stopwords)));
    }
  }
}
