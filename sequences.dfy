/**
 * The two array methods the request handlers use over a loaded collection:
 * `Array.prototype.find` (the duplicate checks) and `Array.prototype.filter`
 * (the per-user message query).
 */
module Sequences {
  import opened Wrappers

  /** `s.find(p)`: the first element satisfying `p`, or nothing when none does. */
  function Find<T>(s: seq<T>, p: T -> bool): (r: Option<T>)
    ensures r.None? <==> forall i :: 0 <= i < |s| ==> !p(s[i])
    ensures r.Some? ==>
      exists i :: 0 <= i < |s| && s[i] == r.value && p(s[i]) && forall j :: 0 <= j < i ==> !p(s[j])
  {
    if s == [] then None
    else if p(s[0]) then Some(s[0])
    else
      var r := Find(s[1..], p);
      assert forall i :: 1 <= i < |s| ==> s[i] == s[1..][i - 1];
      r
  }

  /**
   * `s.filter(p)`: the elements satisfying `p`, in their order in `s`. Written
   * from the back: the result for `s` is the result for all but the last
   * element, followed by the last element when it is kept.
   */
  function Filter<T>(s: seq<T>, p: T -> bool): (r: seq<T>)
    ensures |r| <= |s|
    ensures forall k :: 0 <= k < |r| ==> r[k] in s && p(r[k])
    ensures forall i :: 0 <= i < |s| && p(s[i]) ==> s[i] in r
  {
    if s == [] then []
    else
      var n := |s| - 1;
      assert s == s[..n] + [s[n]];
      var kept := Filter(s[..n], p);
      if p(s[n]) then kept + [s[n]] else kept
  }

  /** `r` is the subsequence of `s` taken at the strictly increasing positions `idx`. */
  ghost predicate IsSubsequenceAt<T>(r: seq<T>, s: seq<T>, idx: seq<nat>)
  {
    && |idx| == |r|
    && (forall k :: 0 <= k < |idx| ==> idx[k] < |s| && r[k] == s[idx[k]])
    && (forall k, l :: 0 <= k < l < |idx| ==> idx[k] < idx[l])
  }

  /** The positions of `s` whose elements satisfy `p`, in increasing order. */
  ghost function MatchingPositions<T>(s: seq<T>, p: T -> bool): seq<nat>
  {
    if s == [] then []
    else
      var n := |s| - 1;
      var earlier := MatchingPositions(s[..n], p);
      if p(s[n]) then earlier + [n] else earlier
  }

  /**
   * `Filter` keeps exactly the positions where `p` holds, and keeps them in
   * their original order: its result is the subsequence of `s` taken at the
   * positions `i` with `p(s[i])`, and at no others.
   */
  lemma {:induction false} FilterIsExactSubsequence<T>(s: seq<T>, p: T -> bool)
    ensures exists idx ::
              && IsSubsequenceAt(Filter(s, p), s, idx)
              && forall i :: 0 <= i < |s| ==> (i in idx <==> p(s[i]))
  {
    MatchingPositionsSelect(s, p);
  }

  lemma {:induction false} MatchingPositionsSelect<T>(s: seq<T>, p: T -> bool)
    ensures IsSubsequenceAt(Filter(s, p), s, MatchingPositions(s, p))
    ensures forall i :: 0 <= i < |s| ==> (i in MatchingPositions(s, p) <==> p(s[i]))
  {
    if s != [] {
      var n := |s| - 1;
      var init := s[..n];
      MatchingPositionsSelect(init, p);
      var earlier, kept := MatchingPositions(init, p), Filter(init, p);
      if p(s[n]) {
        assert MatchingPositions(s, p) == earlier + [n];
        assert Filter(s, p) == kept + [s[n]];
        ExtendSelection(kept, init, earlier, s, p);
      } else {
        assert MatchingPositions(s, p) == earlier;
        assert Filter(s, p) == kept;
        forall i | 0 <= i < n
          ensures i in earlier <==> p(s[i])
        {
          assert s[i] == init[i];
        }
      }
    }
  }

  /** The step of `MatchingPositionsSelect` where the last element of `s` is kept. */
  lemma ExtendSelection<T>(kept: seq<T>, init: seq<T>, earlier: seq<nat>, s: seq<T>, p: T -> bool)
    requires |s| > 0 && init == s[..|s| - 1] && p(s[|s| - 1])
    requires IsSubsequenceAt(kept, init, earlier)
    requires forall i :: 0 <= i < |init| ==> (i in earlier <==> p(init[i]))
    ensures IsSubsequenceAt(kept + [s[|s| - 1]], s, earlier + [|s| - 1])
    ensures forall i :: 0 <= i < |s| ==> (i in earlier + [|s| - 1] <==> p(s[i]))
  {
    var n := |s| - 1;
    var idx, r := earlier + [n], kept + [s[n]];
    forall k | 0 <= k < |idx|
      ensures idx[k] < |s| && r[k] == s[idx[k]]
    {
      if k < |earlier| {
        assert init[earlier[k]] == s[earlier[k]];
      }
    }
    forall i | 0 <= i < |s|
      ensures i in idx <==> p(s[i])
    {
      if i < n {
        assert s[i] == init[i];
      }
    }
  }

  /** Filtering distributes over concatenation: `(a ++ b).filter(p) == a.filter(p) ++ b.filter(p)`. */
  lemma {:induction false} FilterAppend<T>(a: seq<T>, b: seq<T>, p: T -> bool)
    ensures Filter(a + b, p) == Filter(a, p) + Filter(b, p)
    decreases |b|
  {
    if b != [] {
      var n := |b| - 1;
      assert (a + b)[..|a| + n] == a + b[..n];
      FilterAppend(a, b[..n], p);
    } else {
      assert a + b == a;
    }
  }
}
