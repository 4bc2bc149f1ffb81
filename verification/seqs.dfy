/** Ordered subsequences: `s` can be read off `u` left to right, skipping
    elements of `u`. Used both for the name matcher's fuzzy walk and for the
    "stable filter" property of the search results. */
module Seqs {

  /** `idx` picks, in strictly increasing positions of `u`, the elements of `s`. */
  ghost predicate Embedding<T>(idx: seq<int>, s: seq<T>, u: seq<T>) {
    && |idx| == |s|
    && (forall k | 0 <= k < |idx| :: 0 <= idx[k] < |u| && u[idx[k]] == s[k])
    && (forall j, k | 0 <= j < k < |idx| :: idx[j] < idx[k])
  }

  ghost predicate IsSubsequence<T>(s: seq<T>, u: seq<T>) {
    exists idx :: Embedding(idx, s, u)
  }

  lemma EmptyIsSubsequence<T>(u: seq<T>)
    ensures IsSubsequence([], u)
  {
    assert Embedding([], [], u);
  }

  lemma NothingInEmpty<T>(s: seq<T>)
    requires s != []
    ensures !IsSubsequence(s, [])
  {
    forall idx: seq<int> | |idx| == |s|
      ensures !Embedding(idx, s, [])
    {
      var nothing: seq<T> := [];
      assert !(0 <= idx[0] < |nothing|);
    }
  }

  /** Positions shifted one to the right: an embedding into `u[1..]` is one into `u`. */
  lemma ShiftRight<T>(idx: seq<int>, s: seq<T>, u: seq<T>)
    requires u != []
    requires Embedding(idx, s, u[1..])
    ensures Embedding(seq(|idx|, k requires 0 <= k < |idx| => idx[k] + 1), s, u)
  {
  }

  /** Dropping the first element of `u` keeps every subsequence that does not use it. */
  lemma SkipFirst<T>(s: seq<T>, u: seq<T>)
    requires u != []
    ensures IsSubsequence(s, u[1..]) ==> IsSubsequence(s, u)
  {
    if idx :| Embedding(idx, s, u[1..]) {
      ShiftRight(idx, s, u);
    }
  }

  /** Dropping a matched head from both sides keeps an embedding. */
  lemma DropMatchedHead<T>(idx: seq<int>, s: seq<T>, u: seq<T>)
    requires s != [] && u != [] && idx != [] && idx[0] == 0
    requires Embedding(idx, s, u)
    ensures IsSubsequence(s[1..], u[1..])
  {
    var tail := seq(|idx| - 1, k requires 0 <= k < |idx| - 1 => idx[k + 1] - 1);
    forall k | 0 <= k < |tail|
      ensures 0 <= tail[k] < |u[1..]| && u[1..][tail[k]] == s[1..][k]
    {
      assert idx[0] < idx[k + 1];
    }
    assert Embedding(tail, s[1..], u[1..]);
  }

  /** When the heads agree, `s` embeds in `u` exactly when the tails do. */
  lemma HeadsMatch<T>(s: seq<T>, u: seq<T>)
    requires s != [] && u != [] && s[0] == u[0]
    ensures IsSubsequence(s, u) <==> IsSubsequence(s[1..], u[1..])
  {
    if idx :| Embedding(idx, s, u) {
      if idx[0] == 0 {
        DropMatchedHead(idx, s, u);
      } else {
        var idx' := [0] + idx[1..];
        assert Embedding(idx', s, u);
        DropMatchedHead(idx', s, u);
      }
    }
    if idx :| Embedding(idx, s[1..], u[1..]) {
      var whole := [0] + seq(|idx|, k requires 0 <= k < |idx| => idx[k] + 1);
      assert Embedding(whole, s, u);
    }
  }

  /** When the heads differ, the head of `u` is never used. */
  lemma HeadsDiffer<T>(s: seq<T>, u: seq<T>)
    requires s != [] && u != [] && s[0] != u[0]
    ensures IsSubsequence(s, u) <==> IsSubsequence(s, u[1..])
  {
    if idx :| Embedding(idx, s, u) {
      assert idx[0] != 0;
      var shifted := seq(|idx|, k requires 0 <= k < |idx| => idx[k] - 1);
      assert forall k | 0 <= k < |idx| :: idx[0] <= idx[k];
      assert Embedding(shifted, s, u[1..]);
    }
    SkipFirst(s, u);
  }

  /** A contiguous block is in particular a subsequence. */
  lemma BlockIsSubsequence<T>(s: seq<T>, u: seq<T>, i: nat)
    requires i <= |u| && s <= u[i..]
    ensures IsSubsequence(s, u)
  {
    var idx := seq(|s|, k requires 0 <= k < |s| => i + k);
    assert Embedding(idx, s, u);
  }

  /** Keeping the head of `u` in front of a subsequence of its tail. */
  lemma ConsSubsequence<T>(s: seq<T>, u: seq<T>)
    requires u != [] && IsSubsequence(s, u[1..])
    ensures IsSubsequence([u[0]] + s, u)
  {
    var t := [u[0]] + s;
    assert t[1..] == s;
    HeadsMatch(t, u);
  }
}
