/** Edge weights for Felzenszwalb-Huttenlocher segmentation of a single-band
    float image, 4-connected: `FhEdgeWeights4_F32`.

    `Process` appends one edge per pair of horizontally or vertically adjacent
    pixels to a caller-supplied queue.  The queue is modelled as a sequence
    that only grows at its end; the image is an immutable value, so it is
    never modified.  The Java array accesses that can throw are modelled by
    the `IndexOutOfBounds` outcome.
 */
module FhEdgeWeights4 {
  import opened GridArith
  import opened FloatImage
  import opened EdgeSpec
  import opened SeqFacts

  /** The result of a call: the grown queue, or the storage index whose read would throw. */
  datatype Outcome = Ok(edges: seq<Edge>) | IndexOutOfBounds(index: int)

  /** The edge from a pixel with value `color0` and dense index `indexA` to the
      neighbour (x, y), if that neighbour lies inside the image.  A neighbour
      outside the image gives no edge and its value is never read. */
  function Check(img: ImageFloat32, x: int, y: int, color0: real, indexA: int): (r: seq<Edge>)
    requires img.Valid()
    ensures |r| <= 1
    ensures |r| == 1 <==> img.IsInBounds(x, y)
    ensures |r| == 1 ==> r[0].indexA == indexA && r[0].indexB == Dense(img.width, x, y)
    ensures |r| == 1 ==> r[0].sortValue == Abs(color0 - img.Get(x, y))
  {
    if !img.IsInBounds(x, y) then []
    else
      var colorN := img.Get(x, y);
      [Edge(indexA, Dense(img.width, x, y), Abs(color0 - colorN))]
  }

  /** The edges from (x, y) to its right and lower neighbours.  The value of
      (x, y) is read unconditionally, so a coordinate outside the image can
      address a slot outside `data`. */
  function CheckAround(img: ImageFloat32, x: int, y: int): (r: Outcome)
    requires img.Valid()
    ensures r.IndexOutOfBounds? <==> !(0 <= img.StorageIndex(x, y) < |img.data|)
    ensures r.IndexOutOfBounds? ==> r.index == img.StorageIndex(x, y)
    ensures r.Ok? ==> |r.edges| == (if img.IsInBounds(x + 1, y) then 1 else 0) + (if img.IsInBounds(x, y + 1) then 1 else 0)
  {
    var indexSrc := img.StorageIndex(x, y);
    var indexA := Dense(img.width, x, y);
    if !(0 <= indexSrc < |img.data|) then IndexOutOfBounds(indexSrc)
    else
      var color0 := img.data[indexSrc];
      Ok(Check(img, x + 1, y, color0, indexA) + Check(img, x, y + 1, color0, indexA))
  }

  /** A pixel of the right column, above the bottom row, contributes exactly its down edge. */
  lemma RightColumnCheck(img: ImageFloat32, y: int)
    requires img.Valid() && 1 <= img.width && 0 <= y < img.height - 1
    ensures CheckAround(img, img.width - 1, y) == Ok([DownEdge(img, img.width - 1, y)])
  {
    img.StorageInRange(img.width - 1, y);
  }

  /** A pixel of the bottom row, left of the right column, contributes exactly its right edge. */
  lemma BottomRowCheck(img: ImageFloat32, x: int)
    requires img.Valid() && 1 <= img.height && 0 <= x < img.width - 1
    ensures CheckAround(img, x, img.height - 1) == Ok([RightEdge(img, x, img.height - 1)])
  {
    img.StorageInRange(x, img.height - 1);
  }

  /** On a zero-width image the right-column loop visits x = -1: the read of
      (-1, y) lands one slot before row y and faults exactly when that slot is
      -1; otherwise it yields no edge, since neither neighbour is in bounds. */
  lemma ZeroWidthCheck(img: ImageFloat32, y: int)
    requires img.Valid() && img.width == 0 && 0 <= y < img.height - 1
    ensures CheckAround(img, -1, y).IndexOutOfBounds? <==> img.startIndex + Mul(y, img.stride) == 0
    ensures y == 0 ==> (CheckAround(img, -1, y).IndexOutOfBounds? <==> img.startIndex == 0)
    ensures CheckAround(img, -1, y).IndexOutOfBounds? ==> img.startIndex == 0 && CheckAround(img, -1, y).index < 0
    ensures CheckAround(img, -1, y).Ok? ==> CheckAround(img, -1, y).edges == []
  {
    MulNonneg(y, img.stride);
    MulMonotone(y, img.height - 1, img.stride);
    MulIsProduct(0, img.stride);
  }

  /** On a zero-height image the bottom-row loop visits y = -1: the read of
      (x, -1) addresses `startIndex - stride + x`, which faults exactly when it
      falls outside `data`; otherwise it yields no edge. */
  lemma ZeroHeightCheck(img: ImageFloat32, x: int)
    requires img.Valid() && img.height == 0 && 0 <= x < img.width - 1
    ensures CheckAround(img, x, -1).IndexOutOfBounds? <==> !(0 <= img.startIndex - img.stride + x < |img.data|)
    ensures CheckAround(img, x, -1).IndexOutOfBounds? ==> CheckAround(img, x, -1).index == img.startIndex - img.stride + x
    ensures CheckAround(img, x, -1).Ok? ==> CheckAround(img, x, -1).edges == []
  {
    MulIsProduct(-1, img.stride);
  }

  /** The bottom-right corner has no right or lower neighbour: it contributes no edge of its own. */
  lemma CornerContributesNothing(img: ImageFloat32)
    requires img.Valid() && 1 <= img.width && 1 <= img.height
    ensures CheckAround(img, img.width - 1, img.height - 1) == Ok([])
  {
    img.StorageInRange(img.width - 1, img.height - 1);
  }

  /** The images on which the border loops read outside `data`: a zero-width
      image two or more rows high starting at slot 0 (checkAround(-1, 0) reads
      slot -1), or a zero-height image two or more columns wide for which the
      slots the third loop reads, checkAround(x, -1) for x < width - 1, that is
      `startIndex - stride` through `startIndex - stride + width - 2`, are not
      all inside `data`. */
  predicate BorderReadFaults(img: ImageFloat32)
  {
    || (img.width == 0 && img.height >= 2 && img.startIndex == 0)
    || (img.height == 0 && img.width >= 2
        && (img.startIndex - img.stride < 0 || img.startIndex - img.stride + img.width - 2 >= |img.data|))
  }

  /** The interior loop for row `y`: the right edge, then the down edge, of
      every pixel of the row except the last. */
  method InteriorRow(img: ImageFloat32, y: int, queue: seq<Edge>) returns (edges: seq<Edge>)
    requires img.Valid() && 0 <= y < img.height - 1
    ensures edges == queue + RowEdges(img, y, img.width - 1)
  {
    var w := img.width - 1;
    edges := queue;
    MulSucc(y, img.stride);
    var indexSrc := img.startIndex + Mul(y, img.stride) + 0;
    var indexDst := Mul(y, img.width) + 0;
    var x := 0;
    while x < w
      invariant 0 <= x && (x <= w || x == 0)
      invariant indexSrc == img.StorageIndex(x, y)
      invariant indexDst == Dense(img.width, x, y)
      invariant edges == queue + RowEdges(img, y, x)
    {
      img.StorageInRange(x, y);
      img.StorageInRange(x + 1, y);
      img.StorageInRange(x, y + 1);
      DenseBelow(img.width, x, y);
      var color0 := img.data[indexSrc];
      var color1 := img.data[indexSrc + 1];
      var color2 := img.data[indexSrc + img.stride];
      var e1 := Edge(indexDst, indexDst + 1, Abs(color1 - color0));
      var e2 := Edge(indexDst, indexDst + img.width, Abs(color2 - color0));
      assert [e1, e2] == [RightEdge(img, x, y), DownEdge(img, x, y)];
      AppendAssoc(queue, RowEdges(img, y, x), [e1, e2]);
      edges := edges + [e1, e2];
      x, indexSrc, indexDst := x + 1, indexSrc + 1, indexDst + 1;
    }
  }

  /** The first loop of `process`: the interior block, row by row. */
  method InteriorBlock(img: ImageFloat32, queue: seq<Edge>) returns (edges: seq<Edge>)
    requires img.Valid()
    ensures edges == queue + InteriorEdges(img, img.height - 1)
  {
    var h := img.height - 1;
    edges := queue;
    var y := 0;
    while y < h
      invariant 0 <= y && (y <= h || y == 0)
      invariant edges == queue + InteriorEdges(img, y)
    {
      AppendAssoc(queue, InteriorEdges(img, y), RowEdges(img, y, img.width - 1));
      edges := InteriorRow(img, y, edges);
      y := y + 1;
    }
  }

  /** The second loop of `process`: checkAround on the pixels (width-1, y) for
      y below height-1.  On a zero-width image these are at x = -1. */
  method RightColumn(img: ImageFloat32, queue: seq<Edge>) returns (r: Outcome)
    requires img.Valid()
    ensures r.IndexOutOfBounds? <==> (img.width == 0 && img.height >= 2 && img.startIndex == 0)
    ensures r.IndexOutOfBounds? ==> r.index < 0
    ensures r.Ok? && 1 <= img.width ==> r.edges == queue + RightColumnEdges(img, img.height - 1)
    ensures r.Ok? && img.width < 1 ==> r.edges == queue
  {
    var w := img.width - 1;
    var h := img.height - 1;
    var edges := queue;
    var y := 0;
    while y < h
      invariant 0 <= y && (y <= h || y == 0)
      invariant img.width == 0 && 0 < y ==> 1 <= img.startIndex
      invariant 1 <= img.width ==> edges == queue + RightColumnEdges(img, y)
      invariant img.width < 1 ==> edges == queue
    {
      var around := CheckAround(img, w, y);
      if 1 <= img.width {
        RightColumnCheck(img, y);
        AppendAssoc(queue, RightColumnEdges(img, y), around.edges);
      } else {
        ZeroWidthCheck(img, y);
      }
      if around.IndexOutOfBounds? {
        return around;
      }
      edges := edges + around.edges;
      y := y + 1;
    }
    r := Ok(edges);
  }

  /** The third loop of `process`: checkAround on the pixels (x, height-1) for
      x left of width-1.  On a zero-height image these are at y = -1. */
  method BottomRow(img: ImageFloat32, queue: seq<Edge>) returns (r: Outcome)
    requires img.Valid()
    ensures r.IndexOutOfBounds? <==>
      (img.height == 0 && img.width >= 2
       && (img.startIndex - img.stride < 0 || img.startIndex - img.stride + img.width - 2 >= |img.data|))
    ensures r.IndexOutOfBounds? ==> r.index < 0 || r.index >= |img.data|
    ensures r.Ok? && 1 <= img.height ==> r.edges == queue + BottomRowEdges(img, img.width - 1)
    ensures r.Ok? && img.height < 1 ==> r.edges == queue
  {
    var w := img.width - 1;
    var h := img.height - 1;
    var edges := queue;
    var x := 0;
    while x < w
      invariant 0 <= x && (x <= w || x == 0)
      invariant img.height == 0 && 0 < x ==> 0 <= img.startIndex - img.stride && img.startIndex - img.stride + x - 1 < |img.data|
      invariant 1 <= img.height ==> edges == queue + BottomRowEdges(img, x)
      invariant img.height < 1 ==> edges == queue
    {
      var around := CheckAround(img, x, h);
      if 1 <= img.height {
        BottomRowCheck(img, x);
        AppendAssoc(queue, BottomRowEdges(img, x), around.edges);
      } else {
        ZeroHeightCheck(img, x);
      }
      if around.IndexOutOfBounds? {
        return around;
      }
      edges := edges + around.edges;
      x := x + 1;
    }
    r := Ok(edges);
  }

  /** `process`: appends the 4-connected edges of `img` to `queue`. */
  method Process(img: ImageFloat32, queue: seq<Edge>) returns (r: Outcome)
    requires img.Valid()
    ensures r.IndexOutOfBounds? <==> BorderReadFaults(img)
    ensures r.IndexOutOfBounds? ==> r.index < 0 || r.index >= |img.data|
    ensures r.Ok? ==> r.edges == queue + Grid4Edges(img)
  {
    var interior := InteriorBlock(img, queue);
    r := RightColumn(img, interior);
    if r.IndexOutOfBounds? {
      return;
    }
    var right := r.edges;
    r := BottomRow(img, right);
    if r.Ok? {
      if 1 <= img.width && 1 <= img.height {
        var interiorPart := InteriorEdges(img, img.height - 1);
        var rightPart := RightColumnEdges(img, img.height - 1);
        AppendAssoc(queue, interiorPart, rightPart);
        AppendAssoc(queue, interiorPart + rightPart, BottomRowEdges(img, img.width - 1));
      } else if img.width < 1 {
        NarrowInteriorEmpty(img, img.height - 1);
      }
    }
  }
}
