/**
 * The two JavaScript array built-ins the page controllers rely on:
 * `Array.prototype.filter` and `Array.prototype.slice`, on immutable sequences.
 */
module JsArray {

  /** `s.filter(keep)`: the elements that `keep` accepts, in their original order. */
  function Filter<T>(s: seq<T>, keep: T -> bool): (r: seq<T>)
    ensures |r| <= |s|
    ensures forall x :: x in r ==> x in s && keep(x)
    ensures forall x :: x in s && keep(x) ==> x in r
  {
    if s == [] then []
    else (if keep(s[0]) then [s[0]] else []) + Filter(s[1..], keep)
  }

  /** The positions of `s` whose element `keep` accepts, in ascending order. */
  function KeptIndices<T>(s: seq<T>, keep: T -> bool): seq<int>
  {
    if s == [] then []
    else
      var rest := KeptIndices(s[1..], keep);
      (if keep(s[0]) then [0] else []) + Shift(rest)
  }

  /** Every position moved one place to the right. */
  function Shift(idx: seq<int>): (r: seq<int>)
    ensures |r| == |idx|
    ensures forall k :: 0 <= k < |idx| ==> r[k] == idx[k] + 1
  {
    seq(|idx|, k requires 0 <= k < |idx| => idx[k] + 1)
  }

  /**
   * `r` is the sequence of the elements of `s` at the strictly ascending
   * positions `idx`, and those positions are exactly the ones `keep` accepts:
   * an order-preserving selection that drops nothing `keep` accepts.
   */
  ghost predicate SelectsInOrder<T>(s: seq<T>, keep: T -> bool, r: seq<T>, idx: seq<int>)
  {
    && |idx| == |r|
    && (forall k :: 0 <= k < |idx| ==> 0 <= idx[k] < |s| && s[idx[k]] == r[k] && keep(r[k]))
    && (forall k, l :: 0 <= k < l < |idx| ==> idx[k] < idx[l])
    && (forall i :: 0 <= i < |s| && keep(s[i]) ==> i in idx)
  }

  /** Position `k` of the kept positions holds element `k` of the filtered sequence. */
  lemma {:induction false} KeptIndicesMatchFilter<T>(s: seq<T>, keep: T -> bool)
    ensures var r, idx := Filter(s, keep), KeptIndices(s, keep);
      && |idx| == |r|
      && forall k :: 0 <= k < |idx| ==> 0 <= idx[k] < |s| && s[idx[k]] == r[k]
  {
    if s != [] {
      KeptIndicesMatchFilter(s[1..], keep);
      var r', idx' := Filter(s[1..], keep), KeptIndices(s[1..], keep);
      var head := if keep(s[0]) then [0] else [];
      var r, idx := Filter(s, keep), KeptIndices(s, keep);
      assert idx == head + Shift(idx');
      assert r == (if keep(s[0]) then [s[0]] else []) + r';
      forall k | 0 <= k < |idx| ensures 0 <= idx[k] < |s| && s[idx[k]] == r[k] {
        if k >= |head| {
          assert idx[k] == idx'[k - |head|] + 1;
          assert r[k] == r'[k - |head|];
        }
      }
    }
  }

  /** Non-negative positions in strictly ascending order. */
  ghost predicate Ascending(idx: seq<int>)
  {
    && (forall k :: 0 <= k < |idx| ==> 0 <= idx[k])
    && (forall k, l :: 0 <= k < l < |idx| ==> idx[k] < idx[l])
  }

  /** The kept positions are non-negative and strictly ascending. */
  lemma {:induction false} KeptIndicesAscending<T>(s: seq<T>, keep: T -> bool)
    ensures Ascending(KeptIndices(s, keep))
  {
    if s != [] {
      var idx, idx' := KeptIndices(s, keep), KeptIndices(s[1..], keep);
      KeptIndicesAscending(s[1..], keep);
      var head := if keep(s[0]) then [0] else [];
      assert idx == head + Shift(idx');
      forall k | 0 <= k < |idx| ensures idx[k] == if k < |head| then 0 else idx'[k - |head|] + 1 {
      }
    }
  }

  /** Every accepted position is among the kept positions. */
  lemma {:induction false} KeptIndicesCover<T>(s: seq<T>, keep: T -> bool)
    ensures forall i :: 0 <= i < |s| && keep(s[i]) ==> i in KeptIndices(s, keep)
  {
    if s != [] {
      var tail, idx := s[1..], KeptIndices(s, keep);
      var idx' := KeptIndices(tail, keep);
      KeptIndicesCover(tail, keep);
      var head := if keep(s[0]) then [0] else [];
      assert idx == head + Shift(idx');
      forall i | 0 <= i < |s| && keep(s[i]) ensures i in idx {
        if i == 0 {
          assert idx[0] == 0;
        } else {
          assert tail[i - 1] == s[i];
          var k :| 0 <= k < |idx'| && idx'[k] == i - 1;
          assert idx[|head| + k] == i;
        }
      }
    }
  }

  /** `filter` keeps exactly the accepted elements, in their original relative order. */
  lemma FilterSelectsInOrder<T>(s: seq<T>, keep: T -> bool)
    ensures SelectsInOrder(s, keep, Filter(s, keep), KeptIndices(s, keep))
  {
    KeptIndicesMatchFilter(s, keep);
    KeptIndicesAscending(s, keep);
    KeptIndicesCover(s, keep);
    var r := Filter(s, keep);
    assert forall k :: 0 <= k < |r| ==> r[k] in r;
  }

  /** A filter that accepts every element gives back the whole sequence. */
  lemma {:induction false} FilterKeepsAll<T>(s: seq<T>, keep: T -> bool)
    requires forall x :: x in s ==> keep(x)
    ensures Filter(s, keep) == s
  {
    if s != [] {
      FilterKeepsAll(s[1..], keep);
      assert s == [s[0]] + s[1..];
    }
  }

  /** Filtering distributes over concatenation. */
  lemma {:induction false} FilterConcat<T>(a: seq<T>, b: seq<T>, keep: T -> bool)
    ensures Filter(a + b, keep) == Filter(a, keep) + Filter(b, keep)
  {
    if a != [] {
      FilterConcat(a[1..], b, keep);
      assert (a + b)[1..] == a[1..] + b;
    } else {
      assert a + b == b;
    }
  }

  /** Filtering twice with the same test is filtering once. */
  lemma FilterIdempotent<T>(s: seq<T>, keep: T -> bool)
    ensures Filter(Filter(s, keep), keep) == Filter(s, keep)
  {
    FilterKeepsAll(Filter(s, keep), keep);
  }

  /**
   * The index `slice` uses for a start or end argument: a negative argument
   * counts from the end, and the result is clamped to `[0, len]`.
   */
  function ClampIndex(i: int, len: nat): (r: nat)
    ensures r <= len
    ensures 0 <= i ==> r == if i < len then i else len
  {
    if i < 0 then (if len + i < 0 then 0 else len + i)
    else if i < len then i
    else len
  }

  /** `s.slice(start, end)`: empty when the clamped end is not past the clamped start. */
  function Slice<T>(s: seq<T>, start: int, end: int): (r: seq<T>)
    ensures 0 <= start <= end ==>
      var a := if start < |s| then start else |s|;
      var b := if end < |s| then end else |s|;
      r == s[a..b]
    ensures 0 <= start <= end ==> |r| <= end - start
  {
    var a, b := ClampIndex(start, |s|), ClampIndex(end, |s|);
    if a < b then s[a..b] else []
  }
}
