/** What the 4-connected edge list guarantees.

    For a valid image of at least one pixel, `Grid4Edges` holds exactly one
    edge per 4-adjacent pixel pair (smaller index first), weighted by the
    absolute difference of the two pixel values; it has
    width*(height-1) + height*(width-1) entries; the interior block emits the
    right edge of each pixel immediately before its down edge; and the list
    depends only on the picture, not on where the sub-image sits in memory.
 */
module EdgeSpecProps {
  import opened GridArith
  import opened FloatImage
  import opened EdgeSpec
  import opened SeqFacts

  /** Every edge of `s` joins adjacent pixels and carries their absolute difference. */
  ghost predicate AllGridEdges(img: ImageFloat32, s: seq<Edge>)
    requires img.Valid()
  {
    forall i :: 0 <= i < |s| ==> IsGridEdge(img, s[i])
  }

  /** The pixels (x, y) with x in [x0, x1) and y in [y0, y1). */
  datatype Rect = Rect(x0: int, x1: int, y0: int, y1: int)
  {
    predicate Within(outer: Rect)
    {
      outer.x0 <= x0 && x1 <= outer.x1 && outer.y0 <= y0 && y1 <= outer.y1
    }

    /** The two rectangles share no pixel: one lies wholly left of, right of, above or below the other. */
    predicate ApartFrom(other: Rect)
    {
      x1 <= other.x0 || other.x1 <= x0 || y1 <= other.y0 || other.y1 <= y0
    }
  }

  /** Every edge of `s` starts at a pixel of `r`. */
  ghost predicate SourcesIn(width: int, s: seq<Edge>, r: Rect)
    requires 0 < width
  {
    forall i :: 0 <= i < |s| ==> r.x0 <= s[i].indexA % width < r.x1 && r.y0 <= s[i].indexA / width < r.y1
  }

  /** No edge of `a` starts at the pixel where an edge of `b` starts. */
  ghost predicate SourcesApart(a: seq<Edge>, b: seq<Edge>)
  {
    forall i, j :: 0 <= i < |a| && 0 <= j < |b| ==> a[i].indexA != b[j].indexA
  }

  /** No two entries of `s` join the same pair of pixels. */
  ghost predicate DistinctPairs(s: seq<Edge>)
  {
    forall i, j :: 0 <= i < j < |s| ==> s[i].indexA != s[j].indexA || s[i].indexB != s[j].indexB
  }

  // ---------------------------------------------------------------------------
  // Single edges

  /** A right edge joins adjacent pixels, starts at (x, y), and weighs their difference. */
  lemma RightEdgeIsGridEdge(img: ImageFloat32, x: int, y: int)
    requires img.Valid() && 0 <= x < img.width - 1 && 0 <= y < img.height
    ensures IsGridEdge(img, RightEdge(img, x, y))
    ensures RightEdge(img, x, y).indexA % img.width == x
    ensures RightEdge(img, x, y).indexA / img.width == y
  {
    var W := img.width;
    DenseDecompose(W, x, y);
    DenseDecompose(W, x + 1, y);
    DenseInGrid(W, img.height, x + 1, y);
  }

  /** A down edge joins adjacent pixels, starts at (x, y), and weighs their difference. */
  lemma DownEdgeIsGridEdge(img: ImageFloat32, x: int, y: int)
    requires img.Valid() && 0 <= x < img.width && 0 <= y < img.height - 1
    ensures IsGridEdge(img, DownEdge(img, x, y))
    ensures DownEdge(img, x, y).indexA % img.width == x
    ensures DownEdge(img, x, y).indexA / img.width == y
  {
    var W := img.width;
    DenseDecompose(W, x, y);
    DenseDecompose(W, x, y + 1);
    DenseBelow(W, x, y);
    DenseInGrid(W, img.height, x, y + 1);
  }

  // ---------------------------------------------------------------------------
  // Lengths

  lemma {:induction false} RowEdgesLength(img: ImageFloat32, y: int, n: int)
    requires img.Valid() && 0 <= n
    requires n == 0 || (0 <= y < img.height - 1 && n <= img.width - 1)
    ensures |RowEdges(img, y, n)| == 2 * n
    decreases n
  {
    if n > 0 {
      RowEdgesLength(img, y, n - 1);
    }
  }

  lemma {:induction false} InteriorEdgesLength(img: ImageFloat32, m: int)
    requires img.Valid() && 1 <= img.width && 0 <= m
    requires m == 0 || m <= img.height - 1
    ensures |InteriorEdges(img, m)| == 2 * Mul(m, img.width - 1)
    decreases m
  {
    if m > 0 {
      var above, row := InteriorEdges(img, m - 1), RowEdges(img, m - 1, img.width - 1);
      assert InteriorEdges(img, m) == above + row;
      InteriorEdgesLength(img, m - 1);
      RowEdgesLength(img, m - 1, img.width - 1);
      MulSucc(m - 1, img.width - 1);
    } else {
      MulIsProduct(0, img.width - 1);
    }
  }

  lemma {:induction false} RightColumnEdgesLength(img: ImageFloat32, m: int)
    requires img.Valid() && 1 <= img.width && 0 <= m
    requires m == 0 || m <= img.height - 1
    ensures |RightColumnEdges(img, m)| == m
    decreases m
  {
    if m > 0 {
      RightColumnEdgesLength(img, m - 1);
    }
  }

  lemma {:induction false} BottomRowEdgesLength(img: ImageFloat32, n: int)
    requires img.Valid() && 1 <= img.height && 0 <= n
    requires n == 0 || n <= img.width - 1
    ensures |BottomRowEdges(img, n)| == n
    decreases n
  {
    if n > 0 {
      BottomRowEdgesLength(img, n - 1);
    }
  }

  /** A W x H image has W*(H-1) + H*(W-1) edges: 2(W-1)(H-1) from the interior
      block, H-1 from the right column and W-1 from the bottom row.  An empty
      image has none. */
  lemma Grid4Count(img: ImageFloat32)
    requires img.Valid()
    ensures |Grid4Edges(img)| ==
      if 1 <= img.width && 1 <= img.height
      then img.width * (img.height - 1) + img.height * (img.width - 1)
      else 0
  {
    if 1 <= img.width && 1 <= img.height {
      var W, H := img.width, img.height;
      InteriorEdgesLength(img, H - 1);
      RightColumnEdgesLength(img, H - 1);
      BottomRowEdgesLength(img, W - 1);
      EdgeCountIdentity(W, H);
    }
  }

  // ---------------------------------------------------------------------------
  // Soundness and uniqueness, piece by piece

  lemma AllGridAppend(img: ImageFloat32, a: seq<Edge>, b: seq<Edge>)
    requires img.Valid() && AllGridEdges(img, a) && AllGridEdges(img, b)
    ensures AllGridEdges(img, a + b)
  {
    forall i | 0 <= i < |a + b|
      ensures IsGridEdge(img, (a + b)[i])
    {
      if i < |a| {
        assert (a + b)[i] == a[i];
      } else {
        assert (a + b)[i] == b[i - |a|];
      }
    }
  }

  /** Joining two lists whose edges start in the same rectangle. */
  lemma SourcesAppend(width: int, a: seq<Edge>, b: seq<Edge>, r: Rect)
    requires 0 < width
    requires SourcesIn(width, a, r) && SourcesIn(width, b, r)
    ensures SourcesIn(width, a + b, r)
  {
    forall i | 0 <= i < |a + b|
      ensures r.x0 <= (a + b)[i].indexA % width < r.x1 && r.y0 <= (a + b)[i].indexA / width < r.y1
    {
      if i < |a| {
        assert (a + b)[i] == a[i];
      } else {
        assert (a + b)[i] == b[i - |a|];
      }
    }
  }

  /** Widening the rectangle the sources lie in. */
  lemma SourcesWiden(width: int, s: seq<Edge>, r: Rect, outer: Rect)
    requires 0 < width && SourcesIn(width, s, r) && r.Within(outer)
    ensures SourcesIn(width, s, outer)
  {
  }

  /** Edges starting in disjoint rectangles of pixels never start at the same pixel. */
  lemma DisjointSources(width: int, a: seq<Edge>, b: seq<Edge>, ra: Rect, rb: Rect)
    requires 0 < width
    requires SourcesIn(width, a, ra) && SourcesIn(width, b, rb) && ra.ApartFrom(rb)
    ensures SourcesApart(a, b)
  {
  }

  /** Two duplicate-free lists whose edges start at different pixels concatenate
      to a duplicate-free list. */
  lemma DistinctAppend(a: seq<Edge>, b: seq<Edge>)
    requires DistinctPairs(a) && DistinctPairs(b) && SourcesApart(a, b)
    ensures DistinctPairs(a + b)
  {
    var s := a + b;
    forall i, j | 0 <= i < j < |s|
      ensures s[i].indexA != s[j].indexA || s[i].indexB != s[j].indexB
    {
      if j < |a| {
        assert s[i] == a[i] && s[j] == a[j];
      } else if |a| <= i {
        assert s[i] == b[i - |a|] && s[j] == b[j - |a|];
      } else {
        assert s[i] == a[i] && s[j] == b[j - |a|];
      }
    }
  }

  /** Appending a block whose edges all start in a new rectangle keeps the
      list duplicate-free and moves its sources into the union rectangle. */
  lemma KeysAppend(width: int, a: seq<Edge>, b: seq<Edge>, ra: Rect, rb: Rect, outer: Rect)
    requires 0 < width
    requires DistinctPairs(a) && DistinctPairs(b)
    requires SourcesIn(width, a, ra) && SourcesIn(width, b, rb) && ra.ApartFrom(rb)
    requires ra.Within(outer) && rb.Within(outer)
    ensures DistinctPairs(a + b)
    ensures SourcesIn(width, a + b, outer)
  {
    DisjointSources(width, a, b, ra, rb);
    DistinctAppend(a, b);
    SourcesWiden(width, a, ra, outer);
    SourcesWiden(width, b, rb, outer);
    SourcesAppend(width, a, b, outer);
  }

  /** The right and down edges of one interior pixel. */
  lemma CellFacts(img: ImageFloat32, x: int, y: int)
    requires img.Valid() && 0 <= x < img.width - 1 && 0 <= y < img.height - 1
    ensures AllGridEdges(img, [RightEdge(img, x, y), DownEdge(img, x, y)])
    ensures SourcesIn(img.width, [RightEdge(img, x, y), DownEdge(img, x, y)], Rect(x, x + 1, y, y + 1))
    ensures DistinctPairs([RightEdge(img, x, y), DownEdge(img, x, y)])
  {
    RightEdgeIsGridEdge(img, x, y);
    DownEdgeIsGridEdge(img, x, y);
    DenseBelow(img.width, x, y);
    assert RightEdge(img, x, y).indexB != DownEdge(img, x, y).indexB;
  }

  lemma {:induction false} RowEdgesSound(img: ImageFloat32, y: int, n: int)
    requires img.Valid() && 0 <= y < img.height - 1 && 0 <= n <= img.width - 1
    ensures AllGridEdges(img, RowEdges(img, y, n))
    decreases n
  {
    if n > 0 {
      RowEdgesSound(img, y, n - 1);
      CellFacts(img, n - 1, y);
      AllGridAppend(img, RowEdges(img, y, n - 1), [RightEdge(img, n - 1, y), DownEdge(img, n - 1, y)]);
    }
  }

  lemma {:induction false} RowEdgesKeys(img: ImageFloat32, y: int, n: int)
    requires img.Valid() && 0 <= y < img.height - 1 && 0 <= n <= img.width - 1
    ensures SourcesIn(img.width, RowEdges(img, y, n), Rect(0, n, y, y + 1))
    ensures DistinctPairs(RowEdges(img, y, n))
    decreases n
  {
    if n > 0 {
      RowEdgesKeys(img, y, n - 1);
      CellFacts(img, n - 1, y);
      KeysAppend(img.width, RowEdges(img, y, n - 1), [RightEdge(img, n - 1, y), DownEdge(img, n - 1, y)],
                 Rect(0, n - 1, y, y + 1), Rect(n - 1, n, y, y + 1), Rect(0, n, y, y + 1));
    }
  }

  lemma {:induction false} InteriorEdgesSound(img: ImageFloat32, m: int)
    requires img.Valid() && 1 <= img.width && 0 <= m
    requires m == 0 || m <= img.height - 1
    ensures AllGridEdges(img, InteriorEdges(img, m))
    decreases m
  {
    if m > 0 {
      var above, row := InteriorEdges(img, m - 1), RowEdges(img, m - 1, img.width - 1);
      assert InteriorEdges(img, m) == above + row;
      InteriorEdgesSound(img, m - 1);
      RowEdgesSound(img, m - 1, img.width - 1);
      AllGridAppend(img, above, row);
    }
  }

  lemma {:induction false} InteriorEdgesKeys(img: ImageFloat32, m: int)
    requires img.Valid() && 1 <= img.width && 0 <= m
    requires m == 0 || m <= img.height - 1
    ensures SourcesIn(img.width, InteriorEdges(img, m), Rect(0, img.width - 1, 0, m))
    ensures DistinctPairs(InteriorEdges(img, m))
    decreases m
  {
    if m > 0 {
      var W := img.width;
      var above, row := InteriorEdges(img, m - 1), RowEdges(img, m - 1, W - 1);
      assert InteriorEdges(img, m) == above + row;
      InteriorEdgesKeys(img, m - 1);
      RowEdgesKeys(img, m - 1, W - 1);
      KeysAppend(W, above, row, Rect(0, W - 1, 0, m - 1), Rect(0, W - 1, m - 1, m), Rect(0, W - 1, 0, m));
    }
  }

  lemma {:induction false} RightColumnEdgesSound(img: ImageFloat32, m: int)
    requires img.Valid() && 1 <= img.width && 0 <= m
    requires m == 0 || m <= img.height - 1
    ensures AllGridEdges(img, RightColumnEdges(img, m))
    decreases m
  {
    if m > 0 {
      RightColumnEdgesSound(img, m - 1);
      DownEdgeIsGridEdge(img, img.width - 1, m - 1);
      AllGridAppend(img, RightColumnEdges(img, m - 1), [DownEdge(img, img.width - 1, m - 1)]);
    }
  }

  lemma {:induction false} RightColumnEdgesKeys(img: ImageFloat32, m: int)
    requires img.Valid() && 1 <= img.width && 0 <= m
    requires m == 0 || m <= img.height - 1
    ensures SourcesIn(img.width, RightColumnEdges(img, m), Rect(img.width - 1, img.width, 0, m))
    ensures DistinctPairs(RightColumnEdges(img, m))
    decreases m
  {
    if m > 0 {
      var W := img.width;
      RightColumnEdgesKeys(img, m - 1);
      DownEdgeIsGridEdge(img, W - 1, m - 1);
      KeysAppend(W, RightColumnEdges(img, m - 1), [DownEdge(img, W - 1, m - 1)],
                 Rect(W - 1, W, 0, m - 1), Rect(W - 1, W, m - 1, m), Rect(W - 1, W, 0, m));
    }
  }

  lemma {:induction false} BottomRowEdgesSound(img: ImageFloat32, n: int)
    requires img.Valid() && 1 <= img.height && 0 <= n <= img.width - 1
    ensures AllGridEdges(img, BottomRowEdges(img, n))
    decreases n
  {
    if n > 0 {
      BottomRowEdgesSound(img, n - 1);
      RightEdgeIsGridEdge(img, n - 1, img.height - 1);
      AllGridAppend(img, BottomRowEdges(img, n - 1), [RightEdge(img, n - 1, img.height - 1)]);
    }
  }

  lemma {:induction false} BottomRowEdgesKeys(img: ImageFloat32, n: int)
    requires img.Valid() && 1 <= img.height && 0 <= n <= img.width - 1
    ensures SourcesIn(img.width, BottomRowEdges(img, n), Rect(0, n, img.height - 1, img.height))
    ensures DistinctPairs(BottomRowEdges(img, n))
    decreases n
  {
    if n > 0 {
      var H := img.height;
      BottomRowEdgesKeys(img, n - 1);
      RightEdgeIsGridEdge(img, n - 1, H - 1);
      KeysAppend(img.width, BottomRowEdges(img, n - 1), [RightEdge(img, n - 1, H - 1)],
                 Rect(0, n - 1, H - 1, H), Rect(n - 1, n, H - 1, H), Rect(0, n, H - 1, H));
    }
  }

  /** Every listed edge joins two 4-adjacent pixels inside the image (right
      neighbour in the same row, or the pixel below), smaller index first, and
      weighs the absolute difference of their values, which is non-negative. */
  lemma Grid4Sound(img: ImageFloat32)
    requires img.Valid()
    ensures forall k :: 0 <= k < |Grid4Edges(img)| ==>
      var e := Grid4Edges(img)[k];
      && Adjacent(img.width, img.height, e.indexA, e.indexB)
      && 0 <= e.indexA < e.indexB < img.width * img.height
      && e == EdgeBetween(img, e.indexA, e.indexB)
      && e.sortValue >= 0.0
  {
    if 1 <= img.width && 1 <= img.height {
      Grid4AllGridEdges(img);
      MulIsProduct(img.height, img.width);
    }
  }

  lemma Grid4AllGridEdges(img: ImageFloat32)
    requires img.Valid() && 1 <= img.width && 1 <= img.height
    ensures AllGridEdges(img, Grid4Edges(img))
  {
    var W, H := img.width, img.height;
    InteriorEdgesSound(img, H - 1);
    RightColumnEdgesSound(img, H - 1);
    BottomRowEdgesSound(img, W - 1);
    AllGridAppend(img, InteriorEdges(img, H - 1), RightColumnEdges(img, H - 1));
    AllGridAppend(img, InteriorEdges(img, H - 1) + RightColumnEdges(img, H - 1), BottomRowEdges(img, W - 1));
  }

  /** No pixel pair is listed twice. */
  lemma Grid4Distinct(img: ImageFloat32)
    requires img.Valid()
    ensures DistinctPairs(Grid4Edges(img))
  {
    if 1 <= img.width && 1 <= img.height {
      var W, H := img.width, img.height;
      var interior, right, bottom := InteriorEdges(img, H - 1), RightColumnEdges(img, H - 1), BottomRowEdges(img, W - 1);
      assert Grid4Edges(img) == interior + right + bottom;
      InteriorEdgesKeys(img, H - 1);
      RightColumnEdgesKeys(img, H - 1);
      BottomRowEdgesKeys(img, W - 1);
      BlocksDistinct(W, H, interior, right, bottom);
    }
  }

  /** The interior block (columns < W-1, rows < H-1), the right column
      (column W-1, rows < H-1) and the bottom row (row H-1) start their edges
      in disjoint rectangles, so duplicate-free blocks stay duplicate-free
      when joined. */
  lemma BlocksDistinct(W: int, H: int, interior: seq<Edge>, right: seq<Edge>, bottom: seq<Edge>)
    requires 1 <= W && 1 <= H
    requires SourcesIn(W, interior, Rect(0, W - 1, 0, H - 1)) && DistinctPairs(interior)
    requires SourcesIn(W, right, Rect(W - 1, W, 0, H - 1)) && DistinctPairs(right)
    requires SourcesIn(W, bottom, Rect(0, W - 1, H - 1, H)) && DistinctPairs(bottom)
    ensures DistinctPairs(interior + right + bottom)
  {
    KeysAppend(W, interior, right, Rect(0, W - 1, 0, H - 1), Rect(W - 1, W, 0, H - 1), Rect(0, W, 0, H - 1));
    KeysAppend(W, interior + right, bottom, Rect(0, W, 0, H - 1), Rect(0, W - 1, H - 1, H), Rect(0, W, 0, H));
  }

  // ---------------------------------------------------------------------------
  // Positions

  lemma {:induction false} RowEdgesAt(img: ImageFloat32, y: int, n: int, x: int)
    requires img.Valid() && 0 <= y < img.height - 1 && 0 <= x < n <= img.width - 1
    ensures |RowEdges(img, y, n)| == 2 * n
    ensures RowEdges(img, y, n)[2 * x] == RightEdge(img, x, y)
    ensures RowEdges(img, y, n)[2 * x + 1] == DownEdge(img, x, y)
    decreases n
  {
    RowEdgesLength(img, y, n);
    if x < n - 1 {
      RowEdgesAt(img, y, n - 1, x);
    } else {
      RowEdgesLength(img, y, n - 1);
    }
  }

  /** Within the first `m` interior rows, the right and down edges of pixel
      (x, y) sit right after the rows above y, at offsets 2x and 2x + 1. */
  lemma {:induction false} InteriorCellAt(img: ImageFloat32, m: int, x: int, y: int)
    requires img.Valid() && 0 <= x < img.width - 1 && 0 <= y < m <= img.height - 1
    ensures |InteriorEdges(img, y)| + 2 * x + 1 < |InteriorEdges(img, m)|
    ensures InteriorEdges(img, m)[|InteriorEdges(img, y)| + 2 * x] == RightEdge(img, x, y)
    ensures InteriorEdges(img, m)[|InteriorEdges(img, y)| + 2 * x + 1] == DownEdge(img, x, y)
    decreases m
  {
    var c := img.width - 1;
    var prev := InteriorEdges(img, m - 1);
    var row := RowEdges(img, m - 1, c);
    assert InteriorEdges(img, m) == prev + row;
    var k := |InteriorEdges(img, y)| + 2 * x;
    if y == m - 1 {
      RowEdgesAt(img, y, c, x);
      IndexAfter(prev, row, 2 * x);
      IndexAfter(prev, row, 2 * x + 1);
    } else {
      InteriorCellAt(img, m - 1, x, y);
      IndexBefore(prev, row, k);
      IndexBefore(prev, row, k + 1);
    }
  }

  /** The down edge of right-column pixel y is entry y of the column list. */
  lemma {:induction false} RightColumnAt(img: ImageFloat32, m: int, y: int)
    requires img.Valid() && 1 <= img.width && 0 <= y < m <= img.height - 1
    ensures |RightColumnEdges(img, m)| == m
    ensures RightColumnEdges(img, m)[y] == DownEdge(img, img.width - 1, y)
    decreases m
  {
    var prev := RightColumnEdges(img, m - 1);
    assert RightColumnEdges(img, m) == prev + [DownEdge(img, img.width - 1, m - 1)];
    RightColumnEdgesLength(img, m - 1);
    if y < m - 1 {
      RightColumnAt(img, m - 1, y);
      IndexBefore(prev, [DownEdge(img, img.width - 1, m - 1)], y);
    }
  }

  /** The right edge of bottom-row pixel x is entry x of the bottom-row list. */
  lemma {:induction false} BottomRowAt(img: ImageFloat32, n: int, x: int)
    requires img.Valid() && 1 <= img.height && 0 <= x < n <= img.width - 1
    ensures |BottomRowEdges(img, n)| == n
    ensures BottomRowEdges(img, n)[x] == RightEdge(img, x, img.height - 1)
    decreases n
  {
    var prev := BottomRowEdges(img, n - 1);
    assert BottomRowEdges(img, n) == prev + [RightEdge(img, n - 1, img.height - 1)];
    BottomRowEdgesLength(img, n - 1);
    if x < n - 1 {
      BottomRowAt(img, n - 1, x);
      IndexBefore(prev, [RightEdge(img, n - 1, img.height - 1)], x);
    }
  }

  /** Position `k` of the interior block is position `k` of the whole list. */
  lemma InteriorPart(img: ImageFloat32, k: int)
    requires img.Valid() && 1 <= img.width && 1 <= img.height
    requires 0 <= k < |InteriorEdges(img, img.height - 1)|
    ensures k < |Grid4Edges(img)| && Grid4Edges(img)[k] == InteriorEdges(img, img.height - 1)[k]
  {
    var interior, right, bottom := InteriorEdges(img, img.height - 1), RightColumnEdges(img, img.height - 1), BottomRowEdges(img, img.width - 1);
    assert Grid4Edges(img) == interior + right + bottom;
    IndexBefore(interior, right, k);
    IndexBefore(interior + right, bottom, k);
  }

  /** Position `k` of the right column follows the whole interior block. */
  lemma RightColumnPart(img: ImageFloat32, k: int)
    requires img.Valid() && 1 <= img.width && 1 <= img.height
    requires 0 <= k < |RightColumnEdges(img, img.height - 1)|
    ensures |InteriorEdges(img, img.height - 1)| + k < |Grid4Edges(img)|
    ensures Grid4Edges(img)[|InteriorEdges(img, img.height - 1)| + k] == RightColumnEdges(img, img.height - 1)[k]
  {
    var interior, right, bottom := InteriorEdges(img, img.height - 1), RightColumnEdges(img, img.height - 1), BottomRowEdges(img, img.width - 1);
    assert Grid4Edges(img) == interior + right + bottom;
    IndexAfter(interior, right, k);
    IndexBefore(interior + right, bottom, |interior| + k);
  }

  /** Position `k` of the bottom row follows the interior block and the right column. */
  lemma BottomRowPart(img: ImageFloat32, k: int)
    requires img.Valid() && 1 <= img.width && 1 <= img.height
    requires 0 <= k < |BottomRowEdges(img, img.width - 1)|
    ensures |InteriorEdges(img, img.height - 1)| + |RightColumnEdges(img, img.height - 1)| + k < |Grid4Edges(img)|
    ensures Grid4Edges(img)[|InteriorEdges(img, img.height - 1)| + |RightColumnEdges(img, img.height - 1)| + k]
         == BottomRowEdges(img, img.width - 1)[k]
  {
    var interior, right, bottom := InteriorEdges(img, img.height - 1), RightColumnEdges(img, img.height - 1), BottomRowEdges(img, img.width - 1);
    assert Grid4Edges(img) == interior + right + bottom;
    IndexAfter(interior + right, bottom, k);
  }

  /** In the interior block the right edge of (x, y) sits at position
      2*(y*(W-1) + x) -- twice the index of (x, y) in the (W-1)-wide interior
      grid -- immediately followed by the down edge of (x, y). */
  lemma Grid4InteriorOrder(img: ImageFloat32, x: int, y: int)
    requires img.Valid() && 0 <= x < img.width - 1 && 0 <= y < img.height - 1
    ensures 0 <= 2 * Dense(img.width - 1, x, y) && 2 * Dense(img.width - 1, x, y) + 1 < |Grid4Edges(img)|
    ensures Grid4Edges(img)[2 * Dense(img.width - 1, x, y)] == RightEdge(img, x, y)
    ensures Grid4Edges(img)[2 * Dense(img.width - 1, x, y) + 1] == DownEdge(img, x, y)
  {
    var k := 2 * Dense(img.width - 1, x, y);
    MulNonneg(y, img.width - 1);
    InteriorEdgesLength(img, y);
    assert |InteriorEdges(img, y)| + 2 * x == k;
    InteriorCellAt(img, img.height - 1, x, y);
    InteriorPart(img, k);
    InteriorPart(img, k + 1);
  }

  /** After the 2(W-1)(H-1) interior edges come the down edges of the right
      column, top to bottom. */
  lemma Grid4RightColumnOrder(img: ImageFloat32, y: int)
    requires img.Valid() && 1 <= img.width && 0 <= y < img.height - 1
    ensures 0 <= 2 * Mul(img.height - 1, img.width - 1) + y < |Grid4Edges(img)|
    ensures Grid4Edges(img)[2 * Mul(img.height - 1, img.width - 1) + y] == DownEdge(img, img.width - 1, y)
  {
    MulNonneg(img.height - 1, img.width - 1);
    InteriorEdgesLength(img, img.height - 1);
    assert |InteriorEdges(img, img.height - 1)| + y == 2 * Mul(img.height - 1, img.width - 1) + y;
    RightColumnAt(img, img.height - 1, y);
    RightColumnPart(img, y);
  }

  /** Last come the right edges of the bottom row, left to right. */
  lemma Grid4BottomRowOrder(img: ImageFloat32, x: int)
    requires img.Valid() && 1 <= img.height && 0 <= x < img.width - 1
    ensures 0 <= 2 * Mul(img.height - 1, img.width - 1) + (img.height - 1) + x < |Grid4Edges(img)|
    ensures Grid4Edges(img)[2 * Mul(img.height - 1, img.width - 1) + (img.height - 1) + x]
         == RightEdge(img, x, img.height - 1)
  {
    MulNonneg(img.height - 1, img.width - 1);
    InteriorEdgesLength(img, img.height - 1);
    RightColumnEdgesLength(img, img.height - 1);
    assert |InteriorEdges(img, img.height - 1)| + |RightColumnEdges(img, img.height - 1)| + x
        == 2 * Mul(img.height - 1, img.width - 1) + (img.height - 1) + x;
    BottomRowAt(img, img.width - 1, x);
    BottomRowPart(img, x);
  }

  // ---------------------------------------------------------------------------
  // Coverage

  /** The right edge of every pixel outside the last column is listed. */
  lemma CoverRight(img: ImageFloat32, x: int, y: int)
    requires img.Valid() && 0 <= x < img.width - 1 && 0 <= y < img.height
    ensures RightEdge(img, x, y) in Grid4Edges(img)
  {
    if y < img.height - 1 {
      Grid4InteriorOrder(img, x, y);
      IndexIn(Grid4Edges(img), 2 * Dense(img.width - 1, x, y));
    } else {
      Grid4BottomRowOrder(img, x);
      IndexIn(Grid4Edges(img), 2 * Mul(img.height - 1, img.width - 1) + (img.height - 1) + x);
    }
  }

  /** The down edge of every pixel outside the last row is listed. */
  lemma CoverDown(img: ImageFloat32, x: int, y: int)
    requires img.Valid() && 0 <= x < img.width && 0 <= y < img.height - 1
    ensures DownEdge(img, x, y) in Grid4Edges(img)
  {
    if x < img.width - 1 {
      Grid4InteriorOrder(img, x, y);
      IndexIn(Grid4Edges(img), 2 * Dense(img.width - 1, x, y) + 1);
    } else {
      Grid4RightColumnOrder(img, y);
      IndexIn(Grid4Edges(img), 2 * Mul(img.height - 1, img.width - 1) + y);
    }
  }

  lemma CoverPair(img: ImageFloat32, a: int, b: int)
    requires img.Valid() && Adjacent(img.width, img.height, a, b)
    ensures EdgeBetween(img, a, b) in Grid4Edges(img)
  {
    var W, H := img.width, img.height;
    assert 1 <= H by {
      if H < 1 {
        MulMonotone(H, 0, W);
        MulIsProduct(0, W);
      }
    }
    DenseSplit(W, H, a);
    var x, y := a % W, a / W;
    if b == a + 1 && x != W - 1 {
      RightEdgeIsGridEdge(img, x, y);
      CoverRight(img, x, y);
    } else {
      BelowInGrid(W, H, a);
      DenseBelow(W, x, y);
      DownEdgeIsGridEdge(img, x, y);
      CoverDown(img, x, y);
    }
  }

  /** Every 4-adjacent pixel pair of the image is listed, with its weight. */
  lemma Grid4Complete(img: ImageFloat32)
    requires img.Valid()
    ensures forall a, b :: Adjacent(img.width, img.height, a, b) ==> EdgeBetween(img, a, b) in Grid4Edges(img)
  {
    forall a, b | Adjacent(img.width, img.height, a, b)
      ensures EdgeBetween(img, a, b) in Grid4Edges(img)
    {
      CoverPair(img, a, b);
    }
  }

  // ---------------------------------------------------------------------------
  // Independence from the storage layout

  lemma {:induction false} RowEdgesLayout(img1: ImageFloat32, img2: ImageFloat32, y: int, n: int)
    requires img1.Valid() && img2.Valid() && img1.SamePixels(img2)
    requires n <= 0 || (0 <= y < img1.height - 1 && n <= img1.width - 1)
    ensures RowEdges(img1, y, n) == RowEdges(img2, y, n)
    decreases n
  {
    assert img2.width == img1.width && img2.height == img1.height;
    if n > 0 {
      RowEdgesLayout(img1, img2, y, n - 1);
    }
  }

  /** Interior blocks built from equal rows are equal (`c` is the row length W-1). */
  lemma {:induction false} InteriorEdgesFromRows(img1: ImageFloat32, img2: ImageFloat32, m: int, c: int)
    requires img1.Valid() && img2.Valid()
    requires img1.width == img2.width && img1.height == img2.height && c == img1.width - 1
    requires m <= 0 || m <= img1.height - 1
    requires forall y :: 0 <= y < m ==> RowEdges(img1, y, c) == RowEdges(img2, y, c)
    ensures InteriorEdges(img1, m) == InteriorEdges(img2, m)
    decreases m
  {
    if m > 0 {
      InteriorEdgesFromRows(img1, img2, m - 1, c);
      assert RowEdges(img1, m - 1, c) == RowEdges(img2, m - 1, c);
    }
  }

  lemma InteriorEdgesLayout(img1: ImageFloat32, img2: ImageFloat32, m: int)
    requires img1.Valid() && img2.Valid() && img1.SamePixels(img2)
    requires m <= 0 || m <= img1.height - 1
    ensures InteriorEdges(img1, m) == InteriorEdges(img2, m)
  {
    var c := img1.width - 1;
    assert img2.width == img1.width && img2.height == img1.height;
    forall y | 0 <= y < m
      ensures RowEdges(img1, y, c) == RowEdges(img2, y, c)
    {
      RowEdgesLayout(img1, img2, y, c);
    }
    InteriorEdgesFromRows(img1, img2, m, c);
  }

  lemma {:induction false} RightColumnEdgesLayout(img1: ImageFloat32, img2: ImageFloat32, m: int)
    requires img1.Valid() && img2.Valid() && img1.SamePixels(img2) && 1 <= img1.width
    requires m <= 0 || m <= img1.height - 1
    ensures RightColumnEdges(img1, m) == RightColumnEdges(img2, m)
    decreases m
  {
    assert img2.width == img1.width && img2.height == img1.height;
    if m > 0 {
      RightColumnEdgesLayout(img1, img2, m - 1);
    }
  }

  lemma {:induction false} BottomRowEdgesLayout(img1: ImageFloat32, img2: ImageFloat32, n: int)
    requires img1.Valid() && img2.Valid() && img1.SamePixels(img2) && 1 <= img1.height
    requires n <= 0 || n <= img1.width - 1
    ensures BottomRowEdges(img1, n) == BottomRowEdges(img2, n)
    decreases n
  {
    assert img2.width == img1.width && img2.height == img1.height;
    if n > 0 {
      BottomRowEdgesLayout(img1, img2, n - 1);
    }
  }

  /** Edge indices are dense row-major indices: two images showing the same
      picture get the same edge list whatever their start index and stride. */
  lemma Grid4LayoutIndependent(img1: ImageFloat32, img2: ImageFloat32)
    requires img1.Valid() && img2.Valid() && img1.SamePixels(img2)
    ensures Grid4Edges(img1) == Grid4Edges(img2)
  {
    var W, H := img1.width, img1.height;
    assert img2.width == W && img2.height == H;
    if 1 <= W && 1 <= H {
      var i1, r1, b1 := InteriorEdges(img1, H - 1), RightColumnEdges(img1, H - 1), BottomRowEdges(img1, W - 1);
      var i2, r2, b2 := InteriorEdges(img2, H - 1), RightColumnEdges(img2, H - 1), BottomRowEdges(img2, W - 1);
      assert Grid4Edges(img1) == i1 + r1 + b1;
      assert Grid4Edges(img2) == i2 + r2 + b2;
      InteriorEdgesLayout(img1, img2, H - 1);
      RightColumnEdgesLayout(img1, img2, H - 1);
      BottomRowEdgesLayout(img1, img2, W - 1);
    } else {
      assert Grid4Edges(img1) == [];
      assert Grid4Edges(img2) == [];
    }
  }
}
