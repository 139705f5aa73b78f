/**
  A model of JavaScript's `Array.prototype.filter` on arrays that are only
  read: it returns a new sequence holding, in their original order, the
  elements for which the predicate holds, and leaves its input alone.

  Besides the function itself, this module gives an independent
  characterization of its result (`KeepsExactly`: an order-preserving
  embedding into the input whose image is exactly the positions that pass the
  predicate) and proves that `Filter` is the one and only sequence with that
  property.
 */
module Seqs {

  /** The elements of `s` that satisfy `p`, in the order they occur in `s`. */
  function Filter<T>(s: seq<T>, p: T -> bool): (r: seq<T>)
    ensures |r| <= |s|
    ensures forall k :: 0 <= k < |r| ==> p(r[k])
  {
    if s == [] then []
    else if p(s[0]) then [s[0]] + Filter(s[1..], p)
    else Filter(s[1..], p)
  }

  /**
    `idx` embeds `r` into `s` in order, and the positions it hits are
    exactly those of `s` whose element satisfies `p`.
   */
  ghost predicate Embeds<T>(idx: seq<int>, r: seq<T>, s: seq<T>, p: T -> bool)
  {
    Picks(idx, r, s) && Increasing(idx) && Hits(idx, s, p)
  }

  /** `idx` lists positions of `s` at which the elements of `r` are found. */
  ghost predicate Picks<T>(idx: seq<int>, r: seq<T>, s: seq<T>)
  {
    && |idx| == |r|
    && forall k :: 0 <= k < |idx| ==> 0 <= idx[k] < |s| && r[k] == s[idx[k]]
  }

  /** The positions in `idx` strictly increase. */
  ghost predicate Increasing(idx: seq<int>)
  {
    forall j, k :: 0 <= j < k < |idx| ==> idx[j] < idx[k]
  }

  /** The positions of `s` listed in `idx` are exactly those whose element satisfies `p`. */
  ghost predicate Hits<T>(idx: seq<int>, s: seq<T>, p: T -> bool)
  {
    forall i {:trigger p(s[i])} :: 0 <= i < |s| ==> (p(s[i]) <==> i in idx)
  }

  /**
    `r` keeps exactly the elements of `s` that satisfy `p`, each once, in
    their original relative order (so `r` is a subsequence of `s`).
   */
  ghost predicate KeepsExactly<T>(r: seq<T>, s: seq<T>, p: T -> bool)
  {
    exists idx :: Embeds(idx, r, s, p)
  }

  /** Every element `i` of `idx` moved down by `d`. */
  function Shift(idx: seq<int>, d: int): (r: seq<int>)
    ensures |r| == |idx|
    ensures forall k {:trigger r[k]} :: 0 <= k < |r| ==> r[k] == idx[k] - d
  {
    seq(|idx|, k requires 0 <= k < |idx| => idx[k] - d)
  }

  /** Membership in a shifted sequence. */
  lemma ShiftMembership(idx: seq<int>, d: int, i: int)
    ensures i in Shift(idx, d) <==> i + d in idx
  {
    var up := Shift(idx, d);
    if i + d in idx {
      var k :| 0 <= k < |idx| && idx[k] == i + d;
      assert up[k] == i;
    }
  }

  /** Shifting keeps positions increasing. */
  lemma IncreasingShift(idx: seq<int>, d: int)
    requires Increasing(idx)
    ensures Increasing(Shift(idx, d))
  {
  }

  // From the tail of `s` to `s` itself: how `FilterKeepsExactly` extends an embedding.

  /** Positions of the tail, moved up by one, are positions of `s` with the same elements. */
  lemma PicksUp<T>(tIdx: seq<int>, r: seq<T>, s: seq<T>)
    requires s != [] && Picks(tIdx, r, s[1..])
    ensures Picks(Shift(tIdx, -1), r, s)
  {
    var up := Shift(tIdx, -1);
    forall k | 0 <= k < |up|
      ensures 0 <= up[k] < |s| && r[k] == s[up[k]]
    {
      assert r[k] == s[1..][tIdx[k]];
    }
  }

  /** ... and with 0 in front, they pick `[s[0]] + r`. */
  lemma PicksCons<T>(tIdx: seq<int>, r: seq<T>, s: seq<T>)
    requires s != [] && Picks(tIdx, r, s[1..])
    ensures Picks([0] + Shift(tIdx, -1), [s[0]] + r, s)
  {
    PicksUp(tIdx, r, s);
    var idx, r' := [0] + Shift(tIdx, -1), [s[0]] + r;
    forall k | 0 < k < |idx|
      ensures 0 <= idx[k] < |s| && r'[k] == s[idx[k]]
    {
      assert idx[k] == Shift(tIdx, -1)[k - 1] && r'[k] == r[k - 1];
    }
  }

  /** Putting 0 in front of the positions of the tail, moved up by one, keeps them increasing. */
  lemma IncreasingCons(tIdx: seq<int>)
    requires Increasing(tIdx) && forall k :: 0 <= k < |tIdx| ==> 0 <= tIdx[k]
    ensures Increasing([0] + Shift(tIdx, -1))
  {
    var idx := [0] + Shift(tIdx, -1);
    forall j, k | 0 <= j < k < |idx|
      ensures idx[j] < idx[k]
    {
      assert idx[k] == tIdx[k - 1] + 1;
      if j > 0 {
        assert idx[j] == tIdx[j - 1] + 1;
      }
    }
  }

  /** When `s[0]` fails, the tail's hit positions moved up by one are those of `s`. */
  lemma HitsUp<T>(tIdx: seq<int>, s: seq<T>, p: T -> bool)
    requires s != [] && !p(s[0]) && Hits(tIdx, s[1..], p)
    requires forall k :: 0 <= k < |tIdx| ==> 0 <= tIdx[k]
    ensures Hits(Shift(tIdx, -1), s, p)
  {
    forall i | 0 <= i < |s|
      ensures p(s[i]) <==> i in Shift(tIdx, -1)
    {
      ShiftMembership(tIdx, -1, i);
      if i > 0 {
        assert s[i] == s[1..][i - 1];
      }
    }
  }

  /** When `s[0]` passes, the tail's hit positions moved up by one, after 0, are those of `s`. */
  lemma HitsCons<T>(tIdx: seq<int>, s: seq<T>, p: T -> bool)
    requires s != [] && p(s[0]) && Hits(tIdx, s[1..], p)
    ensures Hits([0] + Shift(tIdx, -1), s, p)
  {
    var idx := [0] + Shift(tIdx, -1);
    forall i | 0 <= i < |s|
      ensures p(s[i]) <==> i in idx
    {
      if i > 0 {
        assert s[i] == s[1..][i - 1];
        ShiftMembership(tIdx, -1, i);
      }
    }
  }

  /** `Filter` satisfies the characterization. */
  lemma {:induction false} FilterKeepsExactly<T>(s: seq<T>, p: T -> bool)
    ensures KeepsExactly(Filter(s, p), s, p)
  {
    if s == [] {
      assert Embeds([], Filter(s, p), s, p);
    } else {
      var r := Filter(s[1..], p);
      FilterKeepsExactly(s[1..], p);
      var tIdx :| Embeds(tIdx, r, s[1..], p);
      if p(s[0]) {
        PicksCons(tIdx, r, s);
        IncreasingCons(tIdx);
        HitsCons(tIdx, s, p);
        assert Embeds([0] + Shift(tIdx, -1), [s[0]] + r, s, p);
      } else {
        PicksUp(tIdx, r, s);
        IncreasingShift(tIdx, -1);
        HitsUp(tIdx, s, p);
        assert Embeds(Shift(tIdx, -1), r, s, p);
      }
    }
  }

  // From `s` to its tail: how `KeepsExactlyIsFilter` takes an embedding apart.

  /** When `s[0]` passes, every embedding of `r` into `s` starts at position 0. */
  lemma StartsAtZero<T>(idx: seq<int>, r: seq<T>, s: seq<T>, p: T -> bool)
    requires s != [] && p(s[0]) && Embeds(idx, r, s, p)
    ensures idx != [] && idx[0] == 0
  {
    assert 0 in idx;
  }

  /** Dropping a leading position 0 leaves positions of the tail. */
  lemma PicksTail<T>(idx: seq<int>, r: seq<T>, s: seq<T>)
    requires Picks(idx, r, s) && Increasing(idx) && idx != [] && idx[0] == 0
    ensures Picks(Shift(idx[1..], 1), r[1..], s[1..])
  {
    var down := Shift(idx[1..], 1);
    forall j | 0 <= j < |down|
      ensures 0 <= down[j] < |s| - 1 && r[1..][j] == s[1..][down[j]]
    {
      assert idx[0] < idx[j + 1] && down[j] == idx[j + 1] - 1;
      assert r[1..][j] == r[j + 1] == s[idx[j + 1]];
    }
  }

  /** Positions that avoid 0, moved down by one, are positions of the tail. */
  lemma PicksDown<T>(idx: seq<int>, r: seq<T>, s: seq<T>)
    requires s != [] && Picks(idx, r, s) && 0 !in idx
    ensures Picks(Shift(idx, 1), r, s[1..])
  {
    var down := Shift(idx, 1);
    forall j | 0 <= j < |down|
      ensures 0 <= down[j] < |s| - 1 && r[j] == s[1..][down[j]]
    {
      assert idx[j] != 0;
    }
  }

  /** Dropping a leading 0 and moving down by one leaves the tail's hit positions. */
  lemma HitsTail<T>(idx: seq<int>, s: seq<T>, p: T -> bool)
    requires s != [] && Hits(idx, s, p) && idx != [] && idx[0] == 0
    ensures Hits(Shift(idx[1..], 1), s[1..], p)
  {
    var t, rest := s[1..], idx[1..];
    forall i | 0 <= i < |t|
      ensures p(t[i]) <==> i in Shift(rest, 1)
    {
      assert t[i] == s[i + 1];
      ShiftMembership(rest, 1, i);
      assert i + 1 in idx <==> i + 1 in rest by {
        assert idx == [idx[0]] + rest;
      }
    }
  }

  /** When `s[0]` fails, the hit positions moved down by one are the tail's. */
  lemma HitsDown<T>(idx: seq<int>, s: seq<T>, p: T -> bool)
    requires s != [] && !p(s[0]) && Hits(idx, s, p)
    ensures Hits(Shift(idx, 1), s[1..], p)
  {
    var t := s[1..];
    forall i | 0 <= i < |t|
      ensures p(t[i]) <==> i in Shift(idx, 1)
    {
      assert t[i] == s[i + 1];
      ShiftMembership(idx, 1, i);
    }
  }

  /** When `s[0]` passes, `r` starts with it and its rest keeps exactly the tail's passing elements. */
  lemma UnembedPass<T>(r: seq<T>, s: seq<T>, p: T -> bool)
    requires s != [] && p(s[0]) && KeepsExactly(r, s, p)
    ensures r != [] && r[0] == s[0] && KeepsExactly(r[1..], s[1..], p)
  {
    var idx :| Embeds(idx, r, s, p);
    StartsAtZero(idx, r, s, p);
    PicksTail(idx, r, s);
    IncreasingShift(idx[1..], 1);
    HitsTail(idx, s, p);
    assert Embeds(Shift(idx[1..], 1), r[1..], s[1..], p);
  }

  /** When `s[0]` fails, `r` keeps exactly the tail's passing elements. */
  lemma UnembedSkip<T>(r: seq<T>, s: seq<T>, p: T -> bool)
    requires s != [] && !p(s[0]) && KeepsExactly(r, s, p)
    ensures KeepsExactly(r, s[1..], p)
  {
    var idx :| Embeds(idx, r, s, p);
    assert 0 !in idx;
    PicksDown(idx, r, s);
    IncreasingShift(idx, 1);
    HitsDown(idx, s, p);
    assert Embeds(Shift(idx, 1), r, s[1..], p);
  }

  /** Something can be picked only from a non-empty sequence. */
  lemma PicksFromNonEmpty<T>(idx: seq<int>, r: seq<T>, s: seq<T>)
    requires Picks(idx, r, s) && r != []
    ensures s != []
  {
    assert 0 <= idx[0] < |s|;
  }

  /** Any sequence that satisfies the characterization is `Filter`'s result. */
  lemma {:induction false} KeepsExactlyIsFilter<T>(r: seq<T>, s: seq<T>, p: T -> bool)
    requires KeepsExactly(r, s, p)
    ensures r == Filter(s, p)
  {
    if s == [] {
      var idx :| Embeds(idx, r, s, p);
      if r != [] {
        PicksFromNonEmpty(idx, r, s);
        assert false;
      }
    } else if p(s[0]) {
      UnembedPass(r, s, p);
      KeepsExactlyIsFilter(r[1..], s[1..], p);
      assert Filter(s, p) == [s[0]] + Filter(s[1..], p);
      assert r == [r[0]] + r[1..];
    } else {
      UnembedSkip(r, s, p);
      KeepsExactlyIsFilter(r, s[1..], p);
    }
  }

  /** The characterization determines `Filter` in both directions. */
  lemma FilterCharacterized<T>(r: seq<T>, s: seq<T>, p: T -> bool)
    ensures KeepsExactly(r, s, p) <==> r == Filter(s, p)
  {
    FilterKeepsExactly(s, p);
    if KeepsExactly(r, s, p) {
      KeepsExactlyIsFilter(r, s, p);
    }
  }

  /** An element is in the result exactly when it is in the input and passes. */
  lemma {:induction false} FilterMembership<T>(s: seq<T>, p: T -> bool, x: T)
    ensures x in Filter(s, p) <==> x in s && p(x)
  {
    if s != [] {
      FilterMembership(s[1..], p, x);
      assert s == [s[0]] + s[1..];
    }
  }

  /** When every element passes, the result is the input itself. */
  lemma {:induction false} FilterAllPass<T>(s: seq<T>, p: T -> bool)
    requires forall k :: 0 <= k < |s| ==> p(s[k])
    ensures Filter(s, p) == s
  {
    if s != [] {
      FilterAllPass(s[1..], p);
      assert s == [s[0]] + s[1..];
    }
  }

  /** Filtering twice with the same predicate is filtering once. */
  lemma FilterIdempotent<T>(s: seq<T>, p: T -> bool)
    ensures Filter(Filter(s, p), p) == Filter(s, p)
  {
    FilterAllPass(Filter(s, p), p);
  }

  /** Predicates that agree on the elements of `s` filter `s` alike. */
  lemma {:induction false} FilterAgree<T>(s: seq<T>, p: T -> bool, q: T -> bool)
    requires forall k :: 0 <= k < |s| ==> p(s[k]) == q(s[k])
    ensures Filter(s, p) == Filter(s, q)
  {
    if s != [] {
      FilterAgree(s[1..], p, q);
    }
  }

  /** Two filters can be applied in either order. */
  lemma {:induction false} FilterCommutes<T>(s: seq<T>, p: T -> bool, q: T -> bool)
    ensures Filter(Filter(s, p), q) == Filter(Filter(s, q), p)
  {
    if s != [] {
      FilterCommutes(s[1..], p, q);
    }
  }
}
