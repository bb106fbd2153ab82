/** `generateFixedRange` (internal/rest/pdf.go): the pages `1..totalPages` cut
    into consecutive windows of `fixedRange` pages, the last one possibly
    shorter. Each window becomes one part of a fixed-range split. */
module Windows {
  import opened Pages

  function Min(a: int, b: int): int
  {
    if a <= b then a else b
  }

  /** The windows starting at page `i`: `i..i+size-1`, then the next `size`
      pages, and so on, the last window cut off at `total`. */
  function WindowsFrom(i: int, total: int, size: int): seq<seq<int>>
    requires size >= 1
    decreases if i > total then 0 else total - i + 1
  {
    if i > total then []
    else [Interval(i, Min(i + size - 1, total))] + WindowsFrom(i + size, total, size)
  }

  /** The specification of `generateFixedRange(totalPages, fixedRange)`. The
      caller only asks for windows of at least one page; a document without
      pages gets no window whatever the size (the Go loop then never runs).
      Every page of the document, and nothing else, is in some window, and the
      windows come in page order. */
  function FixedWindows(total: int, size: int): (r: seq<seq<int>>)
    requires size >= 1 || total < 1
    ensures Flatten(r) == Interval(1, total)
  {
    if total < 1 then []
    else
      WindowsFromCover(1, total, size);
      WindowsFrom(1, total, size)
  }

  /** Quotient and remainder are unique: `a = q * size + r` with
      `0 <= r < size` pins down `a / size` as `q`. */
  lemma DivUnique(a: int, size: int, q: int, r: int)
    requires size >= 1 && 0 <= r < size && a == q * size + r
    ensures a / size == q
  {
    var q', r' := a / size, a % size;
    assert a == q' * size + r' && 0 <= r' < size;
    assert (q - q') * size == r' - r by {
      assert (q - q') * size == q * size - q' * size;
    }
    if q - q' >= 1 {
      MulMono(1, q - q', size);
    } else if q' - q >= 1 {
      assert (q' - q) * size == r - r' by {
        assert (q' - q) * size == q' * size - q * size;
      }
      MulMono(1, q' - q, size);
    }
  }

  /** Euclidean division steps down by one when `size` is taken off. */
  lemma DivStep(a: int, size: int)
    requires a >= size >= 1
    ensures a / size == (a - size) / size + 1
  {
    var q, r := (a - size) / size, (a - size) % size;
    assert a - size == q * size + r && 0 <= r < size;
    assert a == (q + 1) * size + r;
    DivUnique(a, size, q + 1, r);
  }

  lemma DivSmall(a: int, size: int)
    requires 0 <= a < size
    ensures a / size == 0
  {
    DivUnique(a, size, 0, a);
  }

  /** Closed form of the windows from `i`: there are `(total - i) / size + 1`
      of them (none when `i > total`), and window `k` is the run of pages from
      `i + k * size` to `i + k * size + size - 1`, cut off at `total`. */
  lemma {:induction false} WindowsFromShape(i: int, total: int, size: int)
    requires size >= 1
    ensures var w := WindowsFrom(i, total, size);
            && |w| == (if i > total then 0 else (total - i) / size + 1)
            && forall k :: 0 <= k < |w| ==> w[k] == Interval(i + k * size, Min(i + k * size + size - 1, total))
    decreases if i > total then 0 else total - i + 1
  {
    if i <= total {
      var w := WindowsFrom(i, total, size);
      var rest := WindowsFrom(i + size, total, size);
      WindowsFromShape(i + size, total, size);
      if i + size <= total {
        DivStep(total - i, size);
      } else {
        DivSmall(total - i, size);
      }
      forall k | 1 <= k < |w|
        ensures w[k] == Interval(i + k * size, Min(i + k * size + size - 1, total))
      {
        assert w[k] == rest[k - 1];
        assert i + size + (k - 1) * size == i + k * size;
      }
    }
  }

  /** Closed form of `generateFixedRange`: `ceil(total / size)` windows, window
      `k` holding the pages `k * size + 1 .. (k + 1) * size`, the last cut off at
      `total`. */
  lemma FixedWindowsShape(total: int, size: int)
    requires size >= 1
    ensures var w := FixedWindows(total, size);
            && |w| == (if total < 1 then 0 else (total + size - 1) / size)
            && forall k :: 0 <= k < |w| ==> w[k] == Interval(k * size + 1, Min((k + 1) * size, total))
  {
    if total >= 1 {
      WindowsFromShape(1, total, size);
      assert (total - 1) / size + 1 == (total + size - 1) / size by {
        DivStep(total + size - 1, size);
      }
      var w := FixedWindows(total, size);
      forall k | 0 <= k < |w| ensures w[k] == Interval(k * size + 1, Min((k + 1) * size, total)) {
        assert 1 + k * size + size - 1 == (k + 1) * size;
      }
    }
  }

  /** Every window is nonempty and holds at most `size` pages; every window
      but the last holds exactly `size`. */
  lemma WindowSizes(total: int, size: int)
    requires size >= 1
    ensures var w := FixedWindows(total, size);
            && (forall k :: 0 <= k < |w| ==> 1 <= |w[k]| <= size)
            && (forall k :: 0 <= k < |w| - 1 ==> |w[k]| == size)
  {
    var w := FixedWindows(total, size);
    FixedWindowsShape(total, size);
    forall k | 0 <= k < |w| ensures 1 <= |w[k]| <= size && (k < |w| - 1 ==> |w[k]| == size) {
      if total >= 1 {
        DivBound(k, total, size);
      }
    }
  }

  /** Window `k` exists only if it starts inside the document; every window
      before the last ends inside it. */
  lemma DivBound(k: int, total: int, size: int)
    requires total >= 1 && size >= 1
    requires 0 <= k < (total + size - 1) / size
    ensures k * size + 1 <= total
    ensures k < (total + size - 1) / size - 1 ==> (k + 1) * size <= total
  {
    var n := (total + size - 1) / size;
    var r := (total + size - 1) % size;
    assert total + size - 1 == n * size + r && 0 <= r < size;
    assert k + 1 <= n;
    MulMono(k + 1, n, size);
    if k < n - 1 {
      MulMono(k + 2, n, size);
    }
  }

  lemma MulMono(a: int, b: int, size: int)
    requires a <= b && size >= 1
    ensures a * size <= b * size
  {
    assert b * size - a * size == (b - a) * size;
  }

  /** The windows, in order, are exactly the pages of the document: each page
      lands in one window, in ascending order. */
  lemma {:induction false} WindowsFromCover(i: int, total: int, size: int)
    requires size >= 1
    ensures Flatten(WindowsFrom(i, total, size)) == Interval(i, total)
    decreases if i > total then 0 else total - i + 1
  {
    if i <= total {
      WindowsFromCover(i + size, total, size);
      var w := WindowsFrom(i, total, size);
      assert w[1..] == WindowsFrom(i + size, total, size);
      if i + size - 1 <= total {
        IntervalSplit(i, i + size - 1, total);
      }
    }
  }

  /** A single window comes out exactly when the document is not longer than
      one window; a document without pages gives none. */
  lemma SingleWindow(total: int, size: int)
    requires size >= 1
    ensures |FixedWindows(total, size)| == 1 <==> 1 <= total <= size
    ensures |FixedWindows(total, size)| == 0 <==> total < 1
  {
    FixedWindowsShape(total, size);
    if total >= 1 {
      if total <= size {
        DivStep(total + size - 1, size);
        DivSmall(total - 1, size);
      } else {
        DivStep(total + size - 1, size);
        DivStep(total - 1, size);
      }
    }
  }

  /** Implementation: the two nested loops of `generateFixedRange`, the outer
      one stepping `i` by `fixedRange`, the inner one appending the pages of
      one window. The handler refuses a `fixedRange` below 1 before calling
      it; with such a size the Go loop would not end on a document with pages. */
  method GenerateFixedRange(totalPages: int, fixedRange: int) returns (result: seq<seq<int>>)
    requires fixedRange >= 1 || totalPages < 1
    ensures result == FixedWindows(totalPages, fixedRange)
  {
    result := [];
    var i := 1;
    while i <= totalPages
      invariant i >= 1
      invariant fixedRange >= 1 || i > totalPages
      invariant fixedRange >= 1 ==> result + WindowsFrom(i, totalPages, fixedRange) == FixedWindows(totalPages, fixedRange)
      invariant fixedRange < 1 ==> result == []
      decreases totalPages - i
    {
      var end := i + fixedRange - 1;
      if end > totalPages {
        end := totalPages;
      }
      var chunk := AppendRun([], i, end);
      assert chunk == Interval(i, Min(i + fixedRange - 1, totalPages));
      NextWindow(result, i, totalPages, fixedRange);
      result := result + [chunk];
      i := i + fixedRange;
    }
  }

  /** One more window moves the loop of `GenerateFixedRange` on by `size` pages. */
  lemma NextWindow(done: seq<seq<int>>, i: int, total: int, size: int)
    requires size >= 1 && i <= total
    ensures done + WindowsFrom(i, total, size)
         == (done + [Interval(i, Min(i + size - 1, total))]) + WindowsFrom(i + size, total, size)
  {
    var head := [Interval(i, Min(i + size - 1, total))];
    assert WindowsFrom(i, total, size) == head + WindowsFrom(i + size, total, size);
    assert done + (head + WindowsFrom(i + size, total, size)) == (done + head) + WindowsFrom(i + size, total, size);
  }
}
