# Region quadtree, modelled and verified in Dafny

`QuadTreeNodeImpl` compresses an N×N grid of integer colours, N a power of
two, into a region quadtree. A node is either a leaf holding one colour for
its whole square, or an internal node owning four quadrants of half the side
(top-left, top-right, bottom-left, bottom-right). The builder splits the image
recursively and merges four leaves of one colour into a single leaf. Point
queries descend to the leaf holding the pixel. Point updates split leaves on
the way down and merge again on the way back up. Decompression writes every
leaf's square into a dense array.

The model has five modules:

- `Grids` (`grid.dfy`): dense square grids `seq<seq<int>>`, indexed
  `g[y][x]`, and the operations the tree's meaning is stated in. These are
  stitching four quadrants, cutting out a window, and updating one cell.
- `QuadNodes` (`node.dfy`): the node datatype and the recursive algorithms
  on one node and its side length. It also holds the denotation
  `ToGrid(node, side)`, the well-formedness predicate `Wf` and the
  maximal-merge invariant `MaximallyMerged`. Building, querying, updating and
  the node count are functions. `decompressRecursive` is a method that writes
  into an `array2<int>` with the source's nested loops.
- `QuadProperties` (`properties.dfy`): properties relating several
  operations. The central one is that a maximally merged tree is determined
  by its grid. From it follow the rebuild identity, "set is rebuild", the
  no-op update and "one node iff uniform". The node-count bound is a
  separate induction on the tree.
- `QuadTrees` (`quadtree.dfy`): the tree handle as a class. The fields are
  the root node and the side length, and the public operations `buildFromIntArray`,
  `getColor`, `setColor`, `getDimension`, `getSize`, `getQuadrant`, `isLeaf`
  and `decompress` act on it. Errors are values (`InvalidInput`, `OutOfBounds`) where the Java code
  throws `IllegalArgumentException`.
- `QuadScenarios` (`scenarios.dfy`): the unit-test fixtures as lemmas about
  the model.

The node count can exceed dimension²: the all-distinct 4×4 image gives 21
nodes, and the unit tests expect 21 (QuadTreeNodeImplTest.java:106). The
model proves the tight bound `3·Size + 1 ≤ 4·dimension²`, and
`UniquePixelsFixture` shows 21 > 16. No bound of 1 on the compression ratio
is claimed.

## Model

| member | source | states |
|---|---|---|
| QuadProperties.PowerOfTwoIffPow2 | QuadTreeNodeImpl.java:114-120 | the power-of-two test accepts exactly the numbers 2^k, k ≥ 0 |
| QuadTrees.IsPerfectSquare | QuadTreeNodeImpl.java:124-131 | the loop answers true exactly when every row is as long as there are rows |
| QuadTrees.QuadTree.BuildFromIntArray | QuadTreeNodeImpl.java:53-58 | fails with InvalidInput exactly when the image is empty, its side is not a power of two or it is not square; otherwise gives a fresh, maximally merged tree of dimension = row count that stands for the image |
| QuadNodes.BuildFromArrayHelper | QuadTreeNodeImpl.java:69-110 | the node built for a window is well formed and maximally merged, and stands for exactly that window of the image |
| QuadProperties.BuildRoundTrip | QuadTreeNodeImpl.java:53-58 | the tree built from a valid image stands for that image |
| QuadProperties.MergedTreeIsUnique | QuadTreeNodeImpl.java:95-109 | two maximally merged trees that stand for the same grid are equal: the merge rule leaves no choice of shape |
| QuadProperties.RebuildIsIdentity | QuadTreeNodeImpl.java:69-110 | building from the grid of a maximally merged tree gives that tree back |
| QuadNodes.GetColorHelper | QuadTreeNodeImpl.java:139-157 | descending by the half-point with translated coordinates answers the colour of pixel (x, y) of the node's grid |
| QuadTrees.QuadTree.GetColor | QuadTreeNodeImpl.java:161-167 | succeeds exactly for 0 ≤ x, y < dimension, with image[y][x]; otherwise fails with OutOfBounds |
| QuadNodes.GetQuadrant | QuadTreeNodeImpl.java:171-190 | a leaf has no quadrants, an internal node has all four, and each is a proper part of the node |
| QuadProperties.QuadrantIsSubGrid | QuadTreeNodeImpl.java:171-190 | each child is well formed at half the side and stands for the matching half-side window of its parent's grid (order TL, TR, BL, BR) |
| QuadTrees.QuadTree.GetDimension | QuadTreeNodeImpl.java:194-196 | the dimension is the side of the image the tree stands for, and a power of two |
| QuadNodes.Size | QuadTreeNodeImpl.java:200-211 | the node count is at least 1, and exactly 1 for a leaf |
| QuadProperties.SizeBound | QuadTreeNodeImpl.java:200-211 | a tree for side s has at most (4s² − 1)/3 nodes |
| QuadProperties.SizeOneIffUniform | QuadTreeNodeImpl.java:200-211 | a maximally merged tree has one node exactly when its grid is one colour |
| QuadTrees.QuadTree.GetSize | QuadTreeNodeImpl.java:200-211 | the count is between 1 and (4d² − 1)/3, and is 1 exactly when the image is uniform |
| QuadTrees.QuadTree.GetQuadrant | QuadTreeNodeImpl.java:171-190 | the root has no quadrants exactly when it is a leaf, and each quadrant stands for the matching half-side window of the image |
| QuadTrees.QuadTree.IsLeaf | QuadTreeNodeImpl.java:215-220 | the tree is a single leaf exactly when the image is one colour throughout |
| QuadNodes.IsLeaf | QuadTreeNodeImpl.java:215-220 | a node is a leaf exactly when all four quadrant queries answer none |
| QuadNodes.DecompressRecursive | QuadTreeNodeImpl.java:232-250 | after the call, the node's square of the array at (startX, startY) holds the node's grid and every other cell is unchanged |
| QuadNodes.ShowsToGrid | QuadTreeNodeImpl.java:232-250 | the grid a well-formed node denotes satisfies the one-level description the decompression proof works with |
| QuadProperties.ShowsOnlyToGrid | QuadTreeNodeImpl.java:232-250 | conversely, a grid meeting that description at a power-of-two side is the node's grid |
| QuadTrees.QuadTree.Decompress | QuadTreeNodeImpl.java:225-230 | gives a fresh dimension × dimension array whose cell [y, x] is pixel (x, y) of the image |
| QuadTrees.BuildThenDecompress | QuadTreeNodeImpl.java:225-230 | decompressing the tree built from a valid image gives the image back cell by cell; an invalid image fails with InvalidInput |
| QuadNodes.Split | QuadTreeNodeImpl.java:289-300 | splitting yields an internal node whose children are maximally merged when the node was |
| QuadNodes.SplitKeepsGrid | QuadTreeNodeImpl.java:289-300 | splitting a leaf into four leaves of its colour keeps the grid |
| QuadNodes.Merge | QuadTreeNodeImpl.java:312-336 | merging four same-coloured leaf children restores maximal merging; a node it keeps internal is unchanged |
| QuadNodes.MergeKeepsGrid | QuadTreeNodeImpl.java:312-336 | merging keeps the grid |
| QuadNodes.SetColorHelper | QuadTreeNodeImpl.java:279-337 | the updated node is well formed, stands for the old grid with only cell (x, y) replaced by c, and stays maximally merged |
| QuadTrees.QuadTree.SetColor | QuadTreeNodeImpl.java:264-270 | succeeds exactly for in-bounds (x, y); afterwards the image is the old one with cell (x, y) set to c, the dimension is unchanged and the tree is the one building from the new image gives; out of bounds it fails with OutOfBounds and leaves the tree as it was |
| QuadProperties.SetColorIsRebuild | QuadTreeNodeImpl.java:279-337 | updating a pixel gives the same tree as building from the updated image |
| QuadProperties.SetSameColorKeepsTree | QuadTreeNodeImpl.java:279-337 | setting a pixel to the colour it already has leaves the tree identical |
| QuadProperties.SetColorThenGetColor | QuadTreeNodeImpl.java:279-337 | after setting (x, y) to c, querying (x, y) answers c and every other pixel answers what it did before |
| QuadScenarios.FourQuadrantsFixture | QuadTreeNodeImplTest.java:56-71 | four uniform quadrants build to one internal node over four leaves, 5 nodes, with the tested colours and quadrants |
| QuadScenarios.MultiQuadrantsFixture | QuadTreeNodeImplTest.java:73-86 | the mixed image has 9 nodes and the tested colours |
| QuadScenarios.UniformFixture | QuadTreeNodeImplTest.java:88-100 | a uniform image of any valid side builds to a single leaf |
| QuadScenarios.UniquePixelsFixture | QuadTreeNodeImplTest.java:102-113 | sixteen distinct pixels give 21 nodes, more than 16, and the tested colours |
| QuadScenarios.OnePixelFixture | QuadTreeNodeImplTest.java:311-318 | the one-pixel image is one leaf, and setting its pixel to 5 gives [[5]] |
| QuadScenarios.InvalidImagesFixture | QuadTreeNodeImplTest.java:126-139 | the empty, ragged and two-row images are rejected |
| QuadScenarios.SetColorMergeBackFixture | QuadTreeNodeImplTest.java:236-251 | fixing the one odd pixel merges the tree back into a single leaf |
| QuadScenarios.SetColorNoChangeInNodesFixture | QuadTreeNodeImplTest.java:253-268 | setting (3, 2) to 5 gives the expected image |
| QuadScenarios.SetColorSplitFurtherFixture | QuadTreeNodeImplTest.java:270-285 | setting (3, 0) to 1 splits a leaf quadrant and gives the expected image |
| QuadScenarios.SetColorUniquePixelsFixture | QuadTreeNodeImplTest.java:287-297 | setting (0, 0) to 5 gives the expected image |
| QuadScenarios.ChildEditFixture | QuadTreeNodeImpl.java:312-336 | four updates made through the top-right child of a built tree turn that child into one leaf but leave the root an unmerged internal node of 5 nodes, although its image is uniform |
| QuadScenarios.SetColorReplaceSameColorFixture | QuadTreeNodeImplTest.java:299-309 | setting (0, 1) to the 5 it already holds leaves the tree unchanged |

## Left out

- `getCompressionRatio` (QuadTreeNodeImpl.java:252-255) is a floating-point division. It is not modelled. Its integer parts, the node count and the dimension, are.
- Null handling is not modelled: a null image, null rows, and leaves encoded as a node whose four children are all null. Sequences and the `Leaf | Internal` datatype make these states unrepresentable.
- IsPowerOfTwo: the bit test `(n & (n - 1)) == 0` becomes a recursive predicate on positive integers. The bit test also accepts 0 and the most negative `int`. Neither reaches it, because the emptiness check comes first and a length is never negative.
- The per-node `size` field is not modelled. The side length is passed as a parameter, as `setColorHelper` and `decompressRecursive` already do.
- SetColorHelper: the in-place update of a node's `color` and `children` fields is modelled on values. A leaf on the path is replaced by a new internal node (`Split`), the child holding the pixel is replaced, and the result may be replaced by a leaf (`Merge`). The class `QuadTree` reassigns its root. Object identity of the nodes is therefore not captured. Neither is the state in which a merged node keeps a children array of four nulls.
- The model assumes every edit goes through the root handle (`QuadTree.SetColor`). In the source, `getQuadrant` returns the live child object and `setColor` is public on every node, so an edit can be made through a child. Such an edit re-merges only inside that child, never at its parent (QuadTreeNodeImpl.java:312-336). The merge invariant and "size 1 iff uniform" then fail at the root. The model's `GetQuadrant` returns a value, so it cannot express this aliasing. `ChildEditFixture` exhibits the effect on the model's own `SetColorHelper`: four edits through the top-right child leave the root an internal node over four leaves of colour 1, with 5 nodes for a uniform image. The invariant and "size 1 iff uniform" are proved only for edits made through the root.
- The `QuadTreeNode` interface and the source of the `QuadName` enum are not part of this model. `QuadName` is a four-valued datatype, so the unreachable `default` branch of `getQuadrant` is left out.
- Size: the node count is an unbounded `nat`, and so is the result of `QuadTree.GetSize`. Java's `getSize` sums in a 32-bit `int` (QuadTreeNodeImpl.java:206-208). An unmerged tree of dimension 2^16 has (4·2^32 − 1)/3 nodes, more than 2^31 − 1, so there the Java count wraps around and the model's does not.
- Elsewhere Java's 32-bit `int` is not modelled. Colours are only copied and compared, and coordinates stay below the dimension, so they cannot wrap around.
- Running-time claims (O(1), O(log n), O(n)) are not modelled.
