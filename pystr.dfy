/**
 * The handful of Python `str` operations the text pipeline relies on, restricted to the
 * ASCII range: every string reaching them has already passed accent removal, which keeps
 * only code points below 128.
 */
module PyStr {
  import opened Seqs

  /** `str.isspace()` / regex `\s` on ASCII: space, \t \n \v \f \r and the separators \x1c-\x1f. */
  predicate IsSpace(c: char)
  {
    c == ' ' || (9 <= c as int <= 13) || (28 <= c as int <= 31)
  }

  predicate IsAsciiLetter(c: char)
  {
    ('a' <= c <= 'z') || ('A' <= c <= 'Z')
  }

  predicate IsAsciiDigit(c: char)
  {
    '0' <= c <= '9'
  }

  /** Regex `\w` on ASCII: letters, digits and underscore. */
  predicate IsWordChar(c: char)
  {
    IsAsciiLetter(c) || IsAsciiDigit(c) || c == '_'
  }

  /** `str.isalnum()`: non-empty and made of letters and digits only. */
  predicate IsAlnum(w: string)
  {
    |w| > 0 && forall k | 0 <= k < |w| :: IsAsciiLetter(w[k]) || IsAsciiDigit(w[k])
  }

  /** `w` holds no plain space character. */
  predicate NoSpace(w: string)
  {
    ' ' !in w
  }

  predicate NoWhitespace(w: string)
  {
    forall k | 0 <= k < |w| :: !IsSpace(w[k])
  }

  predicate IsLowerAlnum(w: string)
  {
    |w| > 0 && forall k | 0 <= k < |w| :: ('a' <= w[k] <= 'z') || IsAsciiDigit(w[k])
  }

  function LowerChar(c: char): char
  {
    if 'A' <= c <= 'Z' then (c as int + 32) as char else c
  }

  /** `str.lower()` on ASCII. */
  function Lower(w: string): (r: string)
    ensures |r| == |w|
    ensures IsAlnum(w) ==> IsLowerAlnum(r)
    ensures forall k | 0 <= k < |w| :: !('A' <= r[k] <= 'Z') && LowerChar(r[k]) == LowerChar(w[k])
  {
    seq(|w|, k requires 0 <= k < |w| => LowerChar(w[k]))
  }

  /** `re.sub(r'[^\w\s]', ' ', s)`: every character that is neither a word character nor whitespace becomes a space. */
  function ReplacePunct(s: string): (r: string)
    ensures |r| == |s|
    ensures forall k | 0 <= k < |r| :: IsWordChar(r[k]) || IsSpace(r[k])
    ensures forall k | 0 <= k < |s| :: (IsWordChar(s[k]) || IsSpace(s[k])) ==> r[k] == s[k]
    ensures forall k | 0 <= k < |s| :: !(IsWordChar(s[k]) || IsSpace(s[k])) ==> r[k] == ' '
  {
    seq(|s|, k requires 0 <= k < |s| => if IsWordChar(s[k]) || IsSpace(s[k]) then s[k] else ' ')
  }

  /** The characters of `s` that are not whitespace, in order. */
  function DropWhitespace(s: string): string
  {
    if s == [] then [] else (if IsSpace(s[0]) then [] else [s[0]]) + DropWhitespace(s[1..])
  }

  /** `str.split()` with no argument: maximal runs of non-whitespace, empty strings never produced. */
  function SplitWs(s: string): (r: seq<string>)
    ensures forall k | 0 <= k < |r| :: r[k] != [] && NoWhitespace(r[k])
    ensures Flatten(r) == DropWhitespace(s)
  {
    SplitWsFrom(s, [])
  }

  /** `str.split()` on `s`, with `cur` the non-whitespace run read so far. */
  function SplitWsFrom(s: string, cur: string): (r: seq<string>)
    requires NoWhitespace(cur)
    ensures forall k | 0 <= k < |r| :: r[k] != [] && NoWhitespace(r[k])
    ensures Flatten(r) == cur + DropWhitespace(s)
    decreases |s|
  {
    if s == [] then
      if cur == [] then [] else [cur]
    else if IsSpace(s[0]) then
      var head: seq<string> := if cur == [] then [] else [cur];
      var tail := SplitWsFrom(s[1..], []);
      FlattenConcat(head, tail);
      assert head != [] ==> Flatten(head) == cur + Flatten(head[1..]);
      head + tail
    else
      SplitWsFrom(s[1..], cur + [s[0]])
  }

  /** A whitespace character cuts `str.split()` in two: the pieces before it and the pieces after it. */
  lemma SplitWsAtSpace(a: string, c: char, b: string)
    requires IsSpace(c)
    ensures SplitWs(a + [c] + b) == SplitWs(a) + SplitWs(b)
  {
    SplitWsFromAtSpace(a, c, b, []);
  }

  lemma {:induction false} SplitWsFromAtSpace(a: string, c: char, b: string, cur: string)
    requires IsSpace(c) && NoWhitespace(cur)
    ensures SplitWsFrom(a + [c] + b, cur) == SplitWsFrom(a, cur) + SplitWsFrom(b, [])
    decreases |a|
  {
    if a == [] {
      assert a + [c] + b == [c] + b;
      assert ([c] + b)[1..] == b;
    } else {
      assert (a + [c] + b)[0] == a[0];
      assert (a + [c] + b)[1..] == a[1..] + [c] + b;
      if IsSpace(a[0]) {
        SplitWsFromAtSpace(a[1..], c, b, []);
      } else {
        SplitWsFromAtSpace(a[1..], c, b, cur + [a[0]]);
      }
    }
  }

  /** A non-empty word without whitespace is one piece: the pieces of `str.split()` are maximal. */
  lemma SplitWsWord(w: string)
    requires w != [] && NoWhitespace(w)
    ensures SplitWs(w) == [w]
  {
    SplitWsFromWord(w, []);
    assert [] + w == w;
  }

  lemma {:induction false} SplitWsFromWord(w: string, cur: string)
    requires NoWhitespace(w) && NoWhitespace(cur)
    ensures SplitWsFrom(w, cur) == if cur + w == [] then [] else [cur + w]
    decreases |w|
  {
    if w != [] {
      SplitWsFromWord(w[1..], cur + [w[0]]);
      assert cur + [w[0]] + w[1..] == cur + w;
    } else {
      assert cur + w == cur;
    }
  }

  /** `' '.join(ts)`. */
  function JoinSpace(ts: seq<string>): string
  {
    if |ts| == 0 then "" else if |ts| == 1 then ts[0] else ts[0] + " " + JoinSpace(ts[1..])
  }

  /** `s.split(" ")`: cuts at every single space and keeps empty pieces, so the result is never empty. */
  function SplitSpace(s: string): (r: seq<string>)
    ensures |r| >= 1
    ensures JoinSpace(r) == s
  {
    if s == [] then [""]
    else
      var rest := SplitSpace(s[1..]);
      if s[0] == ' ' then
        assert JoinSpace([""] + rest) == "" + " " + JoinSpace(rest);
        [""] + rest
      else
        var r := [[s[0]] + rest[0]] + rest[1..];
        assert |rest| > 1 ==> JoinSpace(rest) == rest[0] + " " + JoinSpace(rest[1..]);
        assert s == [s[0]] + s[1..];
        r
  }

  /** No piece of `s.split(" ")` contains a space. */
  lemma {:induction false} SplitSpacePieces(s: string)
    ensures forall k | 0 <= k < |SplitSpace(s)| :: NoSpace(SplitSpace(s)[k])
  {
    if s != [] {
      SplitSpacePieces(s[1..]);
      var rest := SplitSpace(s[1..]);
      if s[0] != ' ' {
        assert forall k | 1 <= k < |SplitSpace(s)| :: SplitSpace(s)[k] == rest[k];
      }
    }
  }

  /** A non-empty list of space-free tokens survives `' '.join` followed by `split(" ")`. */
  lemma {:induction false} SplitJoin(ts: seq<string>)
    requires |ts| >= 1
    requires forall k | 0 <= k < |ts| :: NoSpace(ts[k])
    ensures SplitSpace(JoinSpace(ts)) == ts
  {
    if |ts| == 1 {
      SplitNoSpace(ts[0]);
    } else {
      SplitJoin(ts[1..]);
      SplitAfterToken(ts[0], JoinSpace(ts[1..]));
      assert [ts[0]] + ts[1..] == ts;
    }
  }

  /** The empty list does not survive: `' '.join([])` is `""`, which splits into one empty piece. */
  lemma SplitJoinEmpty()
    ensures SplitSpace(JoinSpace([])) == [""]
  {
  }

  lemma {:induction false} SplitNoSpace(t: string)
    requires NoSpace(t)
    ensures SplitSpace(t) == [t]
  {
    if t != [] {
      SplitNoSpace(t[1..]);
      assert [t[0]] + t[1..] == t;
    }
  }

  lemma {:induction false} SplitAfterToken(t: string, rest: string)
    requires NoSpace(t)
    ensures SplitSpace(t + " " + rest) == [t] + SplitSpace(rest)
  {
    if t == [] {
      assert t + " " + rest == [' '] + rest;
      assert ([' '] + rest)[1..] == rest;
    } else {
      SplitAfterToken(t[1..], rest);
      assert (t + " " + rest)[1..] == t[1..] + " " + rest;
      assert [t[0]] + t[1..] == t;
    }
  }
}
