/** Generic facts about sequences used by several modules of the model. */
module Seqs {

  /** Every element is strictly smaller than every later one. */
  predicate StrictlyIncreasing(s: seq<int>)
  {
    forall i, j | 0 <= i < j < |s| :: s[i] < s[j]
  }

  /** A strictly increasing sequence drawn from [lo, hi) has at most hi - lo elements. */
  lemma {:induction false} StrictlyIncreasingBound(s: seq<int>, lo: int, hi: int)
    requires StrictlyIncreasing(s)
    requires forall k | 0 <= k < |s| :: lo <= s[k] < hi
    ensures |s| <= if hi <= lo then 0 else hi - lo
    decreases |s|
  {
    if s != [] {
      StrictlyIncreasingBound(s[1..], s[0] + 1, hi);
    }
  }

  /** The indices `i` of `s` with `keep(s[i])`, in increasing order. */
  function Selected<T>(s: seq<T>, keep: T -> bool): (idx: seq<nat>)
    ensures StrictlyIncreasing(idx)
    ensures forall k | 0 <= k < |idx| :: idx[k] < |s| && keep(s[idx[k]])
    ensures forall i {:trigger i in idx} | 0 <= i < |s| :: keep(s[i]) <==> i in idx
    decreases |s|
  {
    if s == [] then []
    else
      var n := |s| - 1;
      var prev := Selected(s[..n], keep);
      assert forall i | 0 <= i < n :: s[..n][i] == s[i];
      prev + (if keep(s[n]) then [n] else [])
  }

  /** One step of `Selected`: the last index is added when its element is kept. */
  lemma SelectedSnoc<T>(s: seq<T>, keep: T -> bool)
    requires s != []
    ensures Selected(s, keep) == Selected(s[..|s| - 1], keep) + (if keep(s[|s| - 1]) then [|s| - 1] else [])
  {
  }

  /** Concatenation of a sequence of sequences, first to last. */
  function Flatten<T>(ss: seq<seq<T>>): seq<T>
  {
    if ss == [] then [] else ss[0] + Flatten(ss[1..])
  }

  lemma {:induction false} FlattenAppend<T>(ss: seq<seq<T>>, s: seq<T>)
    ensures Flatten(ss + [s]) == Flatten(ss) + s
  {
    if ss == [] {
      assert [] + [s] == [s];
      assert [s][1..] == [];
    } else {
      assert (ss + [s])[1..] == ss[1..] + [s];
      FlattenAppend(ss[1..], s);
    }
  }

  lemma {:induction false} FlattenConcat<T>(a: seq<seq<T>>, b: seq<seq<T>>)
    ensures Flatten(a + b) == Flatten(a) + Flatten(b)
  {
    if a == [] {
      assert a + b == b;
    } else {
      assert (a + b)[1..] == a[1..] + b;
      FlattenConcat(a[1..], b);
    }
  }

  /** Number of occurrences of `x` in `s`. */
  function Count<T(==)>(s: seq<T>, x: T): nat
  {
    if s == [] then 0 else Count(s[..|s| - 1], x) + (if s[|s| - 1] == x then 1 else 0)
  }

  lemma CountAppend<T>(s: seq<T>, t: seq<T>, x: T)
    ensures Count(s + t, x) == Count(s, x) + Count(t, x)
    decreases |t|
  {
    if t == [] {
      assert s + t == s;
    } else {
      assert (s + t)[..|s + t| - 1] == s + t[..|t| - 1];
      CountAppend(s, t[..|t| - 1], x);
    }
  }
}
