/** Properties of the quadtree that relate several operations: the power-of-two
    test against exponentiation, uniqueness of the maximally merged tree for a
    grid, and what follows from it for building and updating, the node-count
    bound, and the meaning of each quadrant. */
module QuadProperties {
  import opened Grids
  import opened QuadNodes

  lemma {:induction false} PowerOfTwoHasExponent(n: int)
    requires IsPowerOfTwo(n)
    ensures exists k: nat :: Pow2(k) == n
    decreases n
  {
    if n == 1 {
      assert Pow2(0) == 1;
    } else {
      PowerOfTwoHasExponent(n / 2);
      var k: nat :| Pow2(k) == n / 2;
      assert Pow2(k + 1) == n;
    }
  }

  lemma {:induction false} Pow2IsPowerOfTwo(k: nat)
    ensures Pow2(k) >= 1 && IsPowerOfTwo(Pow2(k))
  {
    if k > 0 {
      Pow2IsPowerOfTwo(k - 1);
      assert Pow2(k) / 2 == Pow2(k - 1);
    }
  }

  /** The recursive power-of-two test accepts exactly the numbers 2^k. */
  lemma PowerOfTwoIffPow2(n: int)
    ensures IsPowerOfTwo(n) <==> exists k: nat :: Pow2(k) == n
  {
    if IsPowerOfTwo(n) {
      PowerOfTwoHasExponent(n);
    } else if exists k: nat :: Pow2(k) == n {
      var k: nat :| Pow2(k) == n;
      Pow2IsPowerOfTwo(k);
    }
  }

  /** Two maximally merged trees for the same region that stand for the same
      grid are the same tree: the merge rule leaves no choice. */
  lemma {:induction false} MergedTreeIsUnique(t1: Node, t2: Node, side: int)
    requires Wf(t1, side) && Wf(t2, side) && MaximallyMerged(t1) && MaximallyMerged(t2)
    requires ToGrid(t1, side) == ToGrid(t2, side)
    ensures t1 == t2
    decreases side
  {
    var h := side / 2;
    if t1.Leaf? && t2.Leaf? {
      assert ToGrid(t1, side)[0][0] == t1.color;
    } else if t1.Internal? && t2.Internal? {
      StitchInjective(ToGrid(t1.tl, h), ToGrid(t1.tr, h), ToGrid(t1.bl, h), ToGrid(t1.br, h),
                      ToGrid(t2.tl, h), ToGrid(t2.tr, h), ToGrid(t2.bl, h), ToGrid(t2.br, h), h);
      MergedTreeIsUnique(t1.tl, t2.tl, h);
      MergedTreeIsUnique(t1.tr, t2.tr, h);
      MergedTreeIsUnique(t1.bl, t2.bl, h);
      MergedTreeIsUnique(t1.br, t2.br, h);
    } else {
      // A leaf and an internal node cannot stand for the same grid: every
      // quadrant of the internal node would be that leaf's colour throughout,
      // hence (by induction) a leaf of it, and the node would have been merged.
      var leaf, inner := if t1.Leaf? then t1 else t2, if t1.Leaf? then t2 else t1;
      var c := leaf.color;
      UniformStitch(ToGrid(inner.tl, h), ToGrid(inner.tr, h), ToGrid(inner.bl, h), ToGrid(inner.br, h), h, c);
      MergedTreeIsUnique(inner.tl, Leaf(c), h);
      MergedTreeIsUnique(inner.tr, Leaf(c), h);
      MergedTreeIsUnique(inner.bl, Leaf(c), h);
      MergedTreeIsUnique(inner.br, Leaf(c), h);
      assert false;
    }
  }

  /** Building from the grid a maximally merged tree stands for gives that
      very tree back. */
  lemma RebuildIsIdentity(n: Node, side: int)
    requires Wf(n, side) && MaximallyMerged(n)
    ensures BuildFromArrayHelper(ToGrid(n, side), side, 0, 0) == n
  {
    var g := ToGrid(n, side);
    SubGridWhole(g);
    MergedTreeIsUnique(BuildFromArrayHelper(g, side, 0, 0), n, side);
  }

  /** The round trip from an image: the built tree stands for the image. */
  lemma BuildRoundTrip(image: Grid)
    requires ValidImage(image)
    ensures ToGrid(BuildFromArrayHelper(image, |image|, 0, 0), |image|) == image
  {
    SubGridWhole(image);
  }

  /** Updating one pixel of a maximally merged tree in place gives exactly the
      tree that building from the updated image gives. */
  lemma SetColorIsRebuild(n: Node, x: int, y: int, c: int, side: int)
    requires Wf(n, side) && MaximallyMerged(n) && 0 <= x < side && 0 <= y < side
    ensures SetColorHelper(n, x, y, c, side) == BuildFromArrayHelper(Update(ToGrid(n, side), x, y, c), side, 0, 0)
  {
    RebuildIsIdentity(SetColorHelper(n, x, y, c, side), side);
  }

  /** Setting a pixel to the colour it already has leaves the tree as it was. */
  lemma SetSameColorKeepsTree(n: Node, x: int, y: int, side: int)
    requires Wf(n, side) && MaximallyMerged(n) && 0 <= x < side && 0 <= y < side
    ensures SetColorHelper(n, x, y, GetColorHelper(n, side, x, y), side) == n
  {
    var g := ToGrid(n, side);
    GridExt(Update(g, x, y, g[y][x]), g, side);
    MergedTreeIsUnique(SetColorHelper(n, x, y, g[y][x], side), n, side);
  }

  /** After setting (x, y) to c, the query at (x, y) answers c and the query
      at every other pixel answers what it did before. */
  lemma SetColorThenGetColor(n: Node, x: int, y: int, c: int, side: int, i: int, j: int)
    requires Wf(n, side) && 0 <= x < side && 0 <= y < side && 0 <= i < side && 0 <= j < side
    ensures GetColorHelper(SetColorHelper(n, x, y, c, side), side, i, j) ==
            if i == x && j == y then c else GetColorHelper(n, side, i, j)
  {
  }

  /** Conversely, at a power-of-two side the grid a node shows is the grid it
      denotes: the one-level description pins the grid down. */
  lemma {:induction false} ShowsOnlyToGrid(n: Node, side: int, g: Grid)
    requires IsPowerOfTwo(side) && Shows(n, side, g)
    ensures Wf(n, side) && g == ToGrid(n, side)
    decreases n
  {
    match n
    case Leaf(c) =>
      GridExt(g, Uniform(side, c), side);
    case Internal(tl, tr, bl, br) =>
      var h := side / 2;
      PowerOfTwoHalf(side);
      ShowsOnlyToGrid(tl, h, SubGrid(g, 0, 0, h));
      ShowsOnlyToGrid(tr, h, SubGrid(g, h, 0, h));
      ShowsOnlyToGrid(bl, h, SubGrid(g, 0, h, h));
      ShowsOnlyToGrid(br, h, SubGrid(g, h, h, h));
      QuadrantsDetermineGrid(g, h, ToGrid(tl, h), ToGrid(tr, h), ToGrid(bl, h), ToGrid(br, h));
  }

  lemma SquareOfDouble(h: int)
    ensures (2 * h) * (2 * h) == 4 * (h * h)
  {
  }

  lemma SquareAtLeast(s: int)
    requires s >= 1
    ensures s * s >= s
  {
  }

  /** A tree for a region of side s has at most (4 s^2 - 1) / 3 nodes: the
      complete tree, with s^2 leaves, is the largest. */
  lemma {:induction false} SizeBound(n: Node, side: int)
    requires Wf(n, side)
    ensures 3 * Size(n) + 1 <= 4 * (side * side)
    decreases n
  {
    if n.Internal? {
      var h := side / 2;
      PowerOfTwoHalf(side);
      SizeBound(n.tl, h);
      SizeBound(n.tr, h);
      SizeBound(n.bl, h);
      SizeBound(n.br, h);
      SquareOfDouble(h);
    } else {
      SquareAtLeast(side);
    }
  }

  /** A maximally merged tree is a single node exactly when its grid is one
      colour throughout. */
  lemma SizeOneIffUniform(n: Node, side: int)
    requires Wf(n, side) && MaximallyMerged(n)
    ensures Size(n) == 1 <==> ToGrid(n, side) == Uniform(side, ToGrid(n, side)[0][0])
  {
    var g := ToGrid(n, side);
    if g == Uniform(side, g[0][0]) {
      MergedTreeIsUnique(n, Leaf(g[0][0]), side);
    }
  }

  /** Column offset of a quadrant inside its parent of half-side h. */
  function QuadX(q: QuadName, h: int): int {
    if q == TopRight || q == BottomRight then h else 0
  }

  /** Row offset of a quadrant inside its parent of half-side h. */
  function QuadY(q: QuadName, h: int): int {
    if q == BottomLeft || q == BottomRight then h else 0
  }

  /** Each child of an internal node stands for the corresponding half-side
      window of its parent's grid. */
  lemma QuadrantIsSubGrid(n: Node, side: int, q: QuadName)
    requires Wf(n, side) && n.Internal?
    ensures GetQuadrant(n, q).Some? && Wf(GetQuadrant(n, q).value, side / 2)
    ensures ToGrid(GetQuadrant(n, q).value, side / 2) ==
            SubGrid(ToGrid(n, side), QuadX(q, side / 2), QuadY(q, side / 2), side / 2)
  {
    var h := side / 2;
    SubGridsOfStitch(ToGrid(n.tl, h), ToGrid(n.tr, h), ToGrid(n.bl, h), ToGrid(n.br, h), h);
  }
}
