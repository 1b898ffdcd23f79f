# BoofCV: 4-connected FH edge weights and BRIEF descriptor packing, in Dafny

This project models two small kernels of BoofCV's feature code and proves
what they compute.

**`FhEdgeWeights4_F32.process`** builds the edge list for
Felzenszwalb-Huttenlocher segmentation of a single-band float image. It
emits one edge per pair of horizontally or vertically adjacent pixels,
weighted by the absolute difference of their values. The edges come in a
fixed order:

1. The interior block, row by row. Each pixel except the last column and
   last row contributes its right edge, then its down edge.
2. The down edges of the right column.
3. The right edges of the bottom row.

The border pixels go through `checkAround` and `check`. These skip
neighbours outside the image.

- `EdgeSpec` gives a coordinate-level reference definition of that list.
- `EdgeSpecProps` proves the list's properties: its count, that every entry
  is a genuine grid edge, that no pair appears twice, that every adjacent
  pair appears, where each edge sits, and that the list depends only on the
  picture and not on where the sub-image sits in memory.
- `FhEdgeWeights4` holds the loops as written. It proves that they produce
  exactly that list. On degenerate images it also characterises when the
  border loops read outside the data array.

**`ImplDescribePointBrief_U8.process`** computes the BRIEF binary
descriptor of a point:

- It clears the descriptor words.
- For each pixel-pair test `i`, it reads the two samples at the point's
  storage index plus `offsetsA[i]` and `offsetsB[i]`.
- It widens each sample from a signed Java `byte` with `& 0xFF`.
- When sample A is strictly below sample B, it sets bit `i % 32` of word
  `i / 32`.

The modules are:

- `JavaBytes` models the signed byte storage.
- `Bits32` models the single-bit facts about `bv32` words.
- `BitPacking` models the word layout of a packed bit string.
- `DescribePointBriefU8` holds the method and the per-bit characterisation
  of its result.

Supporting modules:

- `GridArith`: products written as a recursive `Mul`, so the loop and list
  proofs never meet non-linear arithmetic (only the lemmas that tie `Mul` to
  `*` do); dense-index arithmetic.
- `FloatImage`: the strided image storage.
- `SeqFacts`: generic sequence facts.

The edge model takes images that keep `ImageFloat32`'s storage invariant
(`FloatImage.Valid`: `0 <= width <= stride`, `startIndex >= 0`, every pixel
slot inside `data`); on such images the array exceptions the loops can still
raise become explicit outcomes (`IndexOutOfBounds`), not preconditions. The
BRIEF model has no such invariant: every out-of-range read or write is an
outcome. Images, edge queues and descriptors are immutable values: a
method returns the new queue or descriptor, and the image cannot be written.

## Model

Paths are relative to the repository root.
`FhEdgeWeights4_F32.java` is `main/feature/src/boofcv/alg/segmentation/fh04/impl/FhEdgeWeights4_F32.java`.
`ImplDescribePointBrief_U8.java` is `main/feature/src/boofcv/alg/feature/describe/impl/ImplDescribePointBrief_U8.java`.

| member | source | states |
|---|---|---|
| FhEdgeWeights4.Check | main/feature/src/boofcv/alg/segmentation/fh04/impl/FhEdgeWeights4_F32.java:90-106 | an edge is emitted exactly when the neighbour is in bounds; it runs from `indexA` to the neighbour's dense index `y*width + x` and weighs the absolute difference of the two values |
| FhEdgeWeights4.CheckAround | main/feature/src/boofcv/alg/segmentation/fh04/impl/FhEdgeWeights4_F32.java:77-88 | the centre value is read unconditionally and faults exactly when its storage slot is outside `data`; otherwise one edge per in-bounds right/lower neighbour |
| FhEdgeWeights4.RightColumnCheck | main/feature/src/boofcv/alg/segmentation/fh04/impl/FhEdgeWeights4_F32.java:69-71 | on the right column above the last row, `checkAround` yields exactly that pixel's down edge |
| FhEdgeWeights4.BottomRowCheck | main/feature/src/boofcv/alg/segmentation/fh04/impl/FhEdgeWeights4_F32.java:73-75 | on the bottom row left of the last column, `checkAround` yields exactly that pixel's right edge |
| FhEdgeWeights4.CornerContributesNothing | main/feature/src/boofcv/alg/segmentation/fh04/impl/FhEdgeWeights4_F32.java:69-75 | the bottom-right pixel, which both border loops skip, has no edge of its own to add |
| FhEdgeWeights4.ZeroWidthCheck | main/feature/src/boofcv/alg/segmentation/fh04/impl/FhEdgeWeights4_F32.java:81-87 | on a zero-width image `checkAround(-1, y)` reads slot `startIndex + y*stride - 1`; it faults exactly when `startIndex + y*stride = 0` (slot -1, the only slot it can miss), which at `y = 0`, where the loop meets it first, holds exactly when `startIndex = 0`; otherwise it adds no edge |
| FhEdgeWeights4.ZeroHeightCheck | main/feature/src/boofcv/alg/segmentation/fh04/impl/FhEdgeWeights4_F32.java:81-87 | on a zero-height image `checkAround(x, -1)` reads `startIndex - stride + x`; it faults exactly when that is outside `data` and otherwise adds no edge |
| FhEdgeWeights4.InteriorRow | main/feature/src/boofcv/alg/segmentation/fh04/impl/FhEdgeWeights4_F32.java:48-66 | the inner loop, with its running `indexSrc`/`indexDst`, appends the right then the down edge of every pixel of row `y` but the last |
| FhEdgeWeights4.InteriorBlock | main/feature/src/boofcv/alg/segmentation/fh04/impl/FhEdgeWeights4_F32.java:46-67 | the first loop appends the interior block row by row |
| FhEdgeWeights4.RightColumn | main/feature/src/boofcv/alg/segmentation/fh04/impl/FhEdgeWeights4_F32.java:69-71 | the second loop appends the right column's down edges; it faults exactly on a zero-width image of two or more rows starting at slot 0 |
| FhEdgeWeights4.BottomRow | main/feature/src/boofcv/alg/segmentation/fh04/impl/FhEdgeWeights4_F32.java:73-75 | the third loop appends the bottom row's right edges; it faults exactly on a zero-height image of two or more columns for which the slots it reads, `startIndex - stride` through `startIndex - stride + width - 2`, are not all inside `data` |
| FhEdgeWeights4.Process | main/feature/src/boofcv/alg/segmentation/fh04/impl/FhEdgeWeights4_F32.java:40-76 | the queue grows by exactly the 4-connected edge list of the image, appended after what it held; it faults exactly on the degenerate images described by `BorderReadFaults` |
| EdgeSpecProps.RightEdgeIsGridEdge | main/feature/src/boofcv/alg/segmentation/fh04/impl/FhEdgeWeights4_F32.java:59-61 | `e1` joins two horizontally adjacent pixels, starts at (x, y) and weighs their absolute difference |
| EdgeSpecProps.DownEdgeIsGridEdge | main/feature/src/boofcv/alg/segmentation/fh04/impl/FhEdgeWeights4_F32.java:63-65 | `e2` joins two vertically adjacent pixels, starts at (x, y) and weighs their absolute difference |
| EdgeSpecProps.Grid4Count | main/feature/src/boofcv/alg/segmentation/fh04/impl/FhEdgeWeights4_F32.java:43-75 | the list has `width*(height-1) + height*(width-1)` edges, and none for an empty image |
| EdgeSpecProps.Grid4Sound | main/feature/src/boofcv/alg/segmentation/fh04/impl/FhEdgeWeights4_F32.java:56-106 | every edge joins two adjacent pixels, smaller dense index first, both below `width*height`, and carries a non-negative weight equal to the absolute difference of their values |
| EdgeSpecProps.Grid4AllGridEdges | main/feature/src/boofcv/alg/segmentation/fh04/impl/FhEdgeWeights4_F32.java:56-106 | every entry of the list is the grid edge between its two pixels |
| EdgeSpecProps.Grid4Distinct | main/feature/src/boofcv/alg/segmentation/fh04/impl/FhEdgeWeights4_F32.java:43-75 | no pixel pair appears twice in the list |
| EdgeSpecProps.Grid4Complete | main/feature/src/boofcv/alg/segmentation/fh04/impl/FhEdgeWeights4_F32.java:43-75 | every pair of 4-adjacent pixels has its edge in the list |
| EdgeSpecProps.Grid4InteriorOrder | main/feature/src/boofcv/alg/segmentation/fh04/impl/FhEdgeWeights4_F32.java:51-65 | interior pixel (x, y) puts its right edge at position `2*(y*(width-1) + x)` and its down edge immediately after |
| EdgeSpecProps.Grid4RightColumnOrder | main/feature/src/boofcv/alg/segmentation/fh04/impl/FhEdgeWeights4_F32.java:69-71 | the right column's down edge of row `y` follows the interior block at offset `y` |
| EdgeSpecProps.Grid4BottomRowOrder | main/feature/src/boofcv/alg/segmentation/fh04/impl/FhEdgeWeights4_F32.java:73-75 | the bottom row's right edge of column `x` follows the right column at offset `x` |
| EdgeSpecProps.Grid4LayoutIndependent | main/feature/src/boofcv/alg/segmentation/fh04/impl/FhEdgeWeights4_F32.java:48-54 | two images with the same size and pixel values give the same list, whatever their `startIndex` and `stride` |
| JavaBytes.Unsigned | main/feature/src/boofcv/alg/feature/describe/impl/ImplDescribePointBrief_U8.java:57-58 | `b & 0xFF` lies in `[0, 255]` and equals the byte modulo 256 |
| JavaBytes.UnsignedToByte | main/feature/src/boofcv/alg/feature/describe/impl/ImplDescribePointBrief_U8.java:57-58 | an intensity in `[0, 255]` stored as a byte with `(byte)` reads back unchanged through the `& 0xFF` read here; the `(byte)` store is `ImageUInt8`'s storage convention, and that class is not part of this model |
| JavaBytes.ToByteUnsigned | main/feature/src/boofcv/alg/feature/describe/impl/ImplDescribePointBrief_U8.java:57-58 | every byte is the `(byte)` storage of the intensity it reads back as through `& 0xFF`; the store side is `ImageUInt8`'s convention, which is not part of this model |
| JavaBytes.UnsignedOrder | main/feature/src/boofcv/alg/feature/describe/impl/ImplDescribePointBrief_U8.java:57-60 | comparing the masked samples compares the stored intensities, in both directions |
| JavaBytes.SignedOrderDiffers | main/feature/src/boofcv/alg/feature/describe/impl/ImplDescribePointBrief_U8.java:57-58 | an illustration, not a general law: without the mask, intensity 200 would compare below intensity 100, while with it the order is kept |
| Bits32.ZeroHasNoBits | main/feature/src/boofcv/alg/feature/describe/impl/ImplDescribePointBrief_U8.java:52 | a cleared word has no bit set |
| Bits32.BitOfSet | main/feature/src/boofcv/alg/feature/describe/impl/ImplDescribePointBrief_U8.java:61 | `w` or-ed with `1 << b` has bit `c` set exactly when `w` has it or `c = b` |
| Bits32.SameBitsEqual | main/feature/src/boofcv/alg/feature/describe/impl/ImplDescribePointBrief_U8.java:61 | a 32-bit word is determined by its 32 bits |
| BitPacking.PackEmpty | main/feature/src/boofcv/alg/feature/describe/impl/ImplDescribePointBrief_U8.java:52 | cleared words hold the empty bit string |
| BitPacking.PackSet | main/feature/src/boofcv/alg/feature/describe/impl/ImplDescribePointBrief_U8.java:60-61 | or-ing `1 << b` into word `k` appends a set bit at position `32k + b` |
| BitPacking.PackClear | main/feature/src/boofcv/alg/feature/describe/impl/ImplDescribePointBrief_U8.java:60-62 | skipping the write appends a clear bit |
| BitPacking.PackedUnique | main/feature/src/boofcv/alg/feature/describe/impl/ImplDescribePointBrief_U8.java:52-63 | equally many words holding the same bit string are equal |
| BitPacking.PackedBit | main/feature/src/boofcv/alg/feature/describe/impl/ImplDescribePointBrief_U8.java:61 | bit `i % 32` of word `i / 32` is bit `i` of the string, and clear past its end |
| DescribePointBriefU8.TestsAt | main/feature/src/boofcv/alg/feature/describe/impl/ImplDescribePointBrief_U8.java:56-60 | entry `i` of the outcome string is the strict unsigned comparison of test `i`'s two samples |
| DescribePointBriefU8.Process | main/feature/src/boofcv/alg/feature/describe/impl/ImplDescribePointBrief_U8.java:47-64 | faults exactly when some test reads outside `data` or sets a bit past the last word; otherwise returns as many words as the descriptor had, holding exactly the test outcomes at bit `i % 32` of word `i / 32` and zero beyond them |
| DescribePointBriefU8.DescriptorBit | main/feature/src/boofcv/alg/feature/describe/impl/ImplDescribePointBrief_U8.java:54-62 | bit `i % 32` of word `i / 32` is set exactly when `i < compare.length` and sample A at `startIndex + stride*c_y + c_x + offsetsA[i]` is strictly below sample B at the same expression with `offsetsB[i]`, both read with `& 0xFF` |
| DescribePointBriefU8.DescriptorDetermined | main/feature/src/boofcv/alg/feature/describe/impl/ImplDescribePointBrief_U8.java:52-63 | the descriptor depends only on the image, the point and the offsets, not on what the words held before; so calling `process` twice gives the same descriptor |

## Left out

- Floating point. Pixel values and weights are `real`, so the `float`
  subtraction, `Math.abs` and the `(float)` cast are exact.
- 32-bit overflow. Java's `int` index arithmetic (`startIndex + y*stride + x`,
  `y*width + x`, `index + offsetsA[i]`) is modelled with unbounded integers.
- `FastQueue` growth. `edges.grow()` and the reuse of recycled `Edge` objects
  are modelled as appending to a sequence.
- `(int)X` and `(int)Y`. The double-to-int truncation of the point
  coordinates is left out; the model takes the integer centre `c_x`, `c_y`.
- Loop bound and offsets. The BRIEF loop bound `definition.compare.length`
  is modelled as the length of `offsetsA`. The requirement
  `|offsetsA| == |offsetsB|` reflects that the superclass sizes both arrays
  to `compare.length`. Computing the offsets from the definition and the
  stride, and blurring the image, happen in the superclass `DescribePointBrief`.
  That class is not part of this model: the blurred image and the offsets are
  inputs.
- FhEdgeWeights4.Process: when a read faults, the edges already appended
  before the exception are not described. Only the fact of the fault and its
  out-of-range index are.
- DescribePointBriefU8.Process: when a read or write faults, the words
  already cleared and set before the exception are not described. Only the
  fact of the fault is.
- Image dimensions. `ImageUInt8`'s `width` and `height` are carried but
  unused, as in the source: the BRIEF kernel reads only through
  `startIndex`, `stride` and the offsets.
- Invalid images. The edge model assumes `ImageFloat32`'s storage invariant:
  `0 <= width <= stride`, `startIndex >= 0`, and every pixel slot inside
  `data`. On an image breaking it Java can throw where the model says
  nothing (width 2, height 2, stride 2, `startIndex` 0 and three data slots:
  `check(1, 1)` reads slot 3); such images are not described.
- Products. In the edge model, products of two variables are written
  `Mul(a, b)`, which `GridArith.MulIsProduct` proves equal to `a * b`.
