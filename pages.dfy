/** Page lists: runs of consecutive page numbers and their concatenation. */
module Pages {

  /** The pages `lo, lo + 1, ..., hi` in ascending order; empty when `lo > hi`. */
  function Interval(lo: int, hi: int): (r: seq<int>)
    ensures |r| == if lo <= hi then hi - lo + 1 else 0
    ensures forall k :: 0 <= k < |r| ==> r[k] == lo + k
  {
    seq(if lo <= hi then hi - lo + 1 else 0, k => lo + k)
  }

  /** Two adjacent runs make one run. */
  lemma IntervalSplit(lo: int, mid: int, hi: int)
    requires lo - 1 <= mid <= hi
    ensures Interval(lo, mid) + Interval(mid + 1, hi) == Interval(lo, hi)
  {
    var l, r := Interval(lo, mid), Interval(mid + 1, hi);
    assert forall k :: 0 <= k < |l + r| ==> (l + r)[k] == lo + k by {
      forall k | 0 <= k < |l + r| ensures (l + r)[k] == lo + k {
        if k >= |l| {
          assert (l + r)[k] == r[k - |l|];
        }
      }
    }
  }

  /** A run grows by one page at its top. */
  lemma IntervalSnoc(lo: int, hi: int)
    requires lo <= hi + 1
    ensures Interval(lo, hi) + [hi + 1] == Interval(lo, hi + 1)
  {
    IntervalSplit(lo, hi, hi + 1);
  }

  /** The loop `for j := lo; j <= hi; j++ { pages = append(pages, j) }`: the
      run `lo..hi` appended to `pages`, one page at a time. */
  method AppendRun(pages: seq<int>, lo: int, hi: int) returns (r: seq<int>)
    ensures r == pages + Interval(lo, hi)
  {
    r := pages;
    var j := lo;
    while j <= hi
      invariant lo <= j && (j <= hi + 1 || j == lo)
      invariant r == pages + Interval(lo, j - 1)
    {
      IntervalSnoc(lo, j - 1);
      r := r + [j];
      j := j + 1;
    }
  }

  /** Every page is smaller than the next: ascending, without repetition. */
  predicate StrictlyAscending(s: seq<int>)
  {
    forall i, j :: 0 <= i < j < |s| ==> s[i] < s[j]
  }

  /** The lists of `ss` one after the other. */
  function Flatten(ss: seq<seq<int>>): seq<int>
    decreases |ss|
  {
    if |ss| == 0 then [] else ss[0] + Flatten(ss[1..])
  }

  function Last(s: seq<int>): int
    requires |s| > 0
  {
    s[|s| - 1]
  }
}
