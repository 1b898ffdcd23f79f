/** The edge list of a 4-connected pixel graph, described per pixel.

    Felzenszwalb-Huttenlocher segmentation works on a graph whose nodes are
    the pixels and whose edges join 4-adjacent pixels, weighted by how much
    their values differ.  This module defines, in image coordinates, the
    exact sequence of edges the 4-connected single-band weight computation
    produces: first the interior block row by row (for each pixel its right
    edge, then its down edge), then the down edges of the right column, then
    the right edges of the bottom row.
 */
module EdgeSpec {
  import opened GridArith
  import opened FloatImage

  /** An undirected graph edge between two dense pixel indices, with its weight. */
  datatype Edge = Edge(indexA: int, indexB: int, sortValue: real)

  function Abs(v: real): (r: real)
    ensures r >= 0.0
    ensures r == v || r == -v
  {
    if v < 0.0 then -v else v
  }

  /** `a` and `b` are 4-adjacent pixels of a `width` x `height` grid (of
      `height * width` pixels) with `a < b`: `b` is right of `a` in the same
      row, or directly below it. */
  predicate Adjacent(width: int, height: int, a: int, b: int)
  {
    && 0 < width
    && 0 <= a
    && b < Mul(height, width)
    && ((b == a + 1 && a % width != width - 1) || b == a + width)
  }

  /** The edge the graph should hold between adjacent pixels `a` and `b`. */
  function EdgeBetween(img: ImageFloat32, a: int, b: int): Edge
    requires img.Valid() && Adjacent(img.width, img.height, a, b)
  {
    Edge(a, b, Abs(img.Pixel(a) - img.Pixel(b)))
  }

  /** An edge that joins two adjacent pixels and carries their absolute difference. */
  predicate IsGridEdge(img: ImageFloat32, e: Edge)
    requires img.Valid()
  {
    Adjacent(img.width, img.height, e.indexA, e.indexB) && e == EdgeBetween(img, e.indexA, e.indexB)
  }

  /** The edge from (x, y) to its right neighbour (x+1, y). */
  function RightEdge(img: ImageFloat32, x: int, y: int): Edge
    requires img.Valid() && img.IsInBounds(x, y) && img.IsInBounds(x + 1, y)
  {
    Edge(Dense(img.width, x, y), Dense(img.width, x + 1, y), Abs(img.Get(x + 1, y) - img.Get(x, y)))
  }

  /** The edge from (x, y) to its lower neighbour (x, y+1). */
  function DownEdge(img: ImageFloat32, x: int, y: int): Edge
    requires img.Valid() && img.IsInBounds(x, y) && img.IsInBounds(x, y + 1)
  {
    Edge(Dense(img.width, x, y), Dense(img.width, x, y + 1), Abs(img.Get(x, y + 1) - img.Get(x, y)))
  }

  /** Interior row `y`, first `n` pixels: right edge then down edge of each. */
  function RowEdges(img: ImageFloat32, y: int, n: int): seq<Edge>
    requires img.Valid()
    requires n <= 0 || (0 <= y < img.height - 1 && n <= img.width - 1)
    decreases n
  {
    if n <= 0 then []
    else RowEdges(img, y, n - 1) + [RightEdge(img, n - 1, y), DownEdge(img, n - 1, y)]
  }

  /** The interior block: the first `m` rows, each without its last pixel. */
  function InteriorEdges(img: ImageFloat32, m: int): seq<Edge>
    requires img.Valid()
    requires m <= 0 || m <= img.height - 1
    decreases m
  {
    if m <= 0 then []
    else InteriorEdges(img, m - 1) + RowEdges(img, m - 1, img.width - 1)
  }

  /** An image one pixel wide or narrower has no interior block. */
  lemma {:induction false} NarrowInteriorEmpty(img: ImageFloat32, m: int)
    requires img.Valid() && img.width <= 1
    requires m <= 0 || m <= img.height - 1
    ensures InteriorEdges(img, m) == []
    decreases m
  {
    if m > 0 {
      NarrowInteriorEmpty(img, m - 1);
    }
  }

  /** The down edges of the first `m` pixels of the right column. */
  function RightColumnEdges(img: ImageFloat32, m: int): seq<Edge>
    requires img.Valid() && 1 <= img.width
    requires m <= 0 || m <= img.height - 1
    decreases m
  {
    if m <= 0 then []
    else RightColumnEdges(img, m - 1) + [DownEdge(img, img.width - 1, m - 1)]
  }

  /** The right edges of the first `n` pixels of the bottom row. */
  function BottomRowEdges(img: ImageFloat32, n: int): seq<Edge>
    requires img.Valid() && 1 <= img.height
    requires n <= 0 || n <= img.width - 1
    decreases n
  {
    if n <= 0 then []
    else BottomRowEdges(img, n - 1) + [RightEdge(img, n - 1, img.height - 1)]
  }

  /** Every edge of the 4-connected graph, in the order the weight computation emits them. */
  function Grid4Edges(img: ImageFloat32): seq<Edge>
    requires img.Valid()
  {
    if img.width < 1 || img.height < 1 then []
    else
      InteriorEdges(img, img.height - 1)
      + RightColumnEdges(img, img.height - 1)
      + BottomRowEdges(img, img.width - 1)
  }
}
