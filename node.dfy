/** The nodes of the region quadtree and the recursive algorithms that work
    on one node and the side length of the square region it stands for. */
module QuadNodes {
  import opened Grids

  /** A node is a leaf holding one colour for its whole region, or an
      internal node owning its four quadrants in the fixed order top-left,
      top-right, bottom-left, bottom-right. */
  datatype Node = Leaf(color: int) | Internal(tl: Node, tr: Node, bl: Node, br: Node)

  datatype QuadName = TopLeft | TopRight | BottomLeft | BottomRight

  datatype Option<T> = None | Some(value: T)

  /** n is 1, 2, 4, 8, ... */
  predicate IsPowerOfTwo(n: int)
    decreases n
  {
    n == 1 || (n > 1 && n % 2 == 0 && IsPowerOfTwo(n / 2))
  }

  /** 2 to the power k: the reference definition IsPowerOfTwo is checked against. */
  ghost function Pow2(k: nat): nat
  {
    if k == 0 then 1 else 2 * Pow2(k - 1)
  }

  /** n describes a region of side `side`: the side is a power of two and
      every internal node halves it, so the tree is never deeper than the
      side allows. */
  ghost predicate Wf(n: Node, side: int)
    decreases n
  {
    IsPowerOfTwo(side) &&
    match n
    case Leaf(_) => true
    case Internal(tl, tr, bl, br) =>
      side > 1 && Wf(tl, side / 2) && Wf(tr, side / 2) && Wf(bl, side / 2) && Wf(br, side / 2)
  }

  /** The four nodes are leaves of one and the same colour: the merge test. */
  predicate SameColorLeaves(tl: Node, tr: Node, bl: Node, br: Node)
  {
    tl.Leaf? && tr.Leaf? && bl.Leaf? && br.Leaf? &&
    tr.color == tl.color && bl.color == tl.color && br.color == tl.color
  }

  /** The maximal-merge invariant: no internal node anywhere in the tree has
      four leaf children of one colour. */
  ghost predicate MaximallyMerged(n: Node)
  {
    match n
    case Leaf(_) => true
    case Internal(tl, tr, bl, br) =>
      !SameColorLeaves(tl, tr, bl, br) &&
      MaximallyMerged(tl) && MaximallyMerged(tr) && MaximallyMerged(bl) && MaximallyMerged(br)
  }

  /** The meaning of a node: the dense side-by-side grid it compresses. */
  ghost function ToGrid(n: Node, side: int): (g: Grid)
    requires Wf(n, side)
    ensures IsSquare(g, side)
    decreases n
  {
    match n
    case Leaf(c) => Uniform(side, c)
    case Internal(tl, tr, bl, br) =>
      var half := side / 2;
      Stitch(ToGrid(tl, half), ToGrid(tr, half), ToGrid(bl, half), ToGrid(br, half), half)
  }

  /** g is the grid n stands for at this side, stated one level at a time:
      a leaf's square is all its colour, an internal node's four quadrants
      are shown by its four children. */
  ghost predicate Shows(n: Node, side: int, g: Grid)
    decreases n
  {
    IsSquare(g, side) &&
    match n
    case Leaf(c) => side >= 1 && forall j, i :: 0 <= j < side && 0 <= i < side ==> g[j][i] == c
    case Internal(tl, tr, bl, br) =>
      side > 1 && side % 2 == 0 &&
      Shows(tl, side / 2, SubGrid(g, 0, 0, side / 2)) && Shows(tr, side / 2, SubGrid(g, side / 2, 0, side / 2)) &&
      Shows(bl, side / 2, SubGrid(g, 0, side / 2, side / 2)) && Shows(br, side / 2, SubGrid(g, side / 2, side / 2, side / 2))
  }

  /** The grid a well-formed node denotes is the grid it shows. */
  lemma {:induction false} ShowsToGrid(n: Node, side: int)
    requires Wf(n, side)
    ensures Shows(n, side, ToGrid(n, side))
    decreases n
  {
    if n.Internal? {
      var half := side / 2;
      PowerOfTwoHalf(side);
      ShowsToGrid(n.tl, half);
      ShowsToGrid(n.tr, half);
      ShowsToGrid(n.bl, half);
      ShowsToGrid(n.br, half);
      SubGridsOfStitch(ToGrid(n.tl, half), ToGrid(n.tr, half), ToGrid(n.bl, half), ToGrid(n.br, half), half);
    }
  }

  lemma PowerOfTwoHalf(n: int)
    requires IsPowerOfTwo(n) && n > 1
    ensures n == 2 * (n / 2) && IsPowerOfTwo(n / 2)
  {
  }

  /** What the builder accepts: a non-empty image whose row count is a power
      of two and whose every row is as long as there are rows. */
  ghost predicate ValidImage(image: Grid) {
    |image| > 0 && IsPowerOfTwo(|image|) && IsSquare(image, |image|)
  }

  /** Builds the node for the size-by-size window of `image` whose top-left
      corner is column x, row y: split into quadrants, then merge four leaves
      of one colour into a leaf. */
  function BuildFromArrayHelper(image: Grid, size: int, x: nat, y: nat): (r: Node)
    requires IsSquare(image, |image|) && IsPowerOfTwo(size)
    requires x + size <= |image| && y + size <= |image|
    ensures Wf(r, size) && MaximallyMerged(r)
    ensures ToGrid(r, size) == SubGrid(image, x, y, size)
    decreases size
  {
    var color := image[y][x];
    if size == 1 then
      GridExt(Uniform(1, color), SubGrid(image, x, y, 1), 1);
      Leaf(color)
    else
      var half := size / 2;
      var topLeft := BuildFromArrayHelper(image, half, x, y);
      var topRight := BuildFromArrayHelper(image, half, x + half, y);
      var bottomLeft := BuildFromArrayHelper(image, half, x, y + half);
      var bottomRight := BuildFromArrayHelper(image, half, x + half, y + half);
      StitchSubGrids(image, x, y, half);
      if SameColorLeaves(topLeft, topRight, bottomLeft, bottomRight) then
        StitchUniform(half, topLeft.color);
        assert SubGrid(image, x, y, half)[0][0] == color;
        Leaf(color)
      else
        Internal(topLeft, topRight, bottomLeft, bottomRight)
  }

  /** The colour of the pixel in column x, row y of the region n stands for:
      descend into the quadrant that holds it, translating the coordinates. */
  function GetColorHelper(n: Node, size: int, x: int, y: int): (r: int)
    requires Wf(n, size) && 0 <= x < size && 0 <= y < size
    ensures r == ToGrid(n, size)[y][x]
    decreases n
  {
    match n
    case Leaf(c) => c
    case Internal(tl, tr, bl, br) =>
      var half := size / 2;
      if x < half && y < half then GetColorHelper(tl, half, x, y)
      else if x >= half && y < half then GetColorHelper(tr, half, x - half, y)
      else if x < half && y >= half then GetColorHelper(bl, half, x, y - half)
      else GetColorHelper(br, half, x - half, y - half)
  }

  /** The named child of an internal node; none for a leaf. */
  function GetQuadrant(n: Node, q: QuadName): (r: Option<Node>)
    ensures r.None? <==> n.Leaf?
    ensures r.Some? ==> r.value < n
  {
    match n
    case Leaf(_) => None
    case Internal(tl, tr, bl, br) =>
      match q
      case TopLeft => Some(tl)
      case TopRight => Some(tr)
      case BottomLeft => Some(bl)
      case BottomRight => Some(br)
  }

  /** A node is a leaf exactly when it has none of the four quadrants. */
  function IsLeaf(n: Node): (b: bool)
    ensures b <==> GetQuadrant(n, TopLeft).None? && GetQuadrant(n, TopRight).None? &&
                   GetQuadrant(n, BottomLeft).None? && GetQuadrant(n, BottomRight).None?
  {
    n.Leaf?
  }

  /** The number of nodes in the tree rooted at n. */
  function Size(n: Node): (r: nat)
    ensures r >= 1
    ensures r == 1 <==> n.Leaf?
  {
    match n
    case Leaf(_) => 1
    case Internal(tl, tr, bl, br) => 1 + Size(tl) + Size(tr) + Size(bl) + Size(br)
  }

  /** A leaf on the path of an update is first split into four leaves of its
      colour; an internal node is kept as it is. */
  function Split(n: Node): (r: Node)
    ensures r.Internal?
    ensures MaximallyMerged(n) ==>
      MaximallyMerged(r.tl) && MaximallyMerged(r.tr) && MaximallyMerged(r.bl) && MaximallyMerged(r.br)
  {
    match n
    case Leaf(c) => Internal(Leaf(c), Leaf(c), Leaf(c), Leaf(c))
    case Internal(_, _, _, _) => n
  }

  /** Splitting changes the shape of the tree, not the grid it stands for. */
  lemma SplitKeepsGrid(n: Node, side: int)
    requires Wf(n, side) && side > 1
    ensures Wf(Split(n), side) && ToGrid(Split(n), side) == ToGrid(n, side)
  {
    if n.Leaf? {
      StitchUniform(side / 2, n.color);
    }
  }

  /** An internal node whose four children are leaves of one colour becomes a
      leaf of that colour; any other node is kept as it is. */
  function Merge(n: Node): (r: Node)
    ensures (n.Internal? && MaximallyMerged(n.tl) && MaximallyMerged(n.tr) &&
             MaximallyMerged(n.bl) && MaximallyMerged(n.br)) ==> MaximallyMerged(r)
    ensures r.Internal? ==> r == n
  {
    if n.Internal? && SameColorLeaves(n.tl, n.tr, n.bl, n.br) then Leaf(n.tl.color) else n
  }

  /** Merging changes the shape of the tree, not the grid it stands for. */
  lemma MergeKeepsGrid(n: Node, side: int)
    requires Wf(n, side)
    ensures Wf(Merge(n), side) && ToGrid(Merge(n), side) == ToGrid(n, side)
  {
    if n.Internal? && SameColorLeaves(n.tl, n.tr, n.bl, n.br) {
      StitchUniform(side / 2, n.tl.color);
    }
  }

  /** Sets the pixel in column x, row y of the region n stands for to c:
      split a leaf on the way down, update the quadrant that holds the pixel,
      and merge on the way back up. */
  function SetColorHelper(n: Node, x: int, y: int, c: int, dimension: int): (r: Node)
    requires Wf(n, dimension) && 0 <= x < dimension && 0 <= y < dimension
    ensures Wf(r, dimension)
    ensures ToGrid(r, dimension) == Update(ToGrid(n, dimension), x, y, c)
    ensures MaximallyMerged(n) ==> MaximallyMerged(r)
    decreases dimension
  {
    if dimension == 1 then
      GridExt(Uniform(1, c), Update(ToGrid(n, 1), x, y, c), 1);
      Leaf(c)
    else
      var half := dimension / 2;
      var s := Split(n);
      SplitKeepsGrid(n, dimension);
      var updated :=
        if x < half && y < half then s.(tl := SetColorHelper(s.tl, x, y, c, half))
        else if x >= half && y < half then s.(tr := SetColorHelper(s.tr, x - half, y, c, half))
        else if x < half && y >= half then s.(bl := SetColorHelper(s.bl, x, y - half, c, half))
        else s.(br := SetColorHelper(s.br, x - half, y - half, c, half));
      StitchUpdate(ToGrid(s.tl, half), ToGrid(s.tr, half), ToGrid(s.bl, half), ToGrid(s.br, half), half, x, y, c);
      MergeKeepsGrid(updated, dimension);
      Merge(updated)
  }

  /** Writes the region n stands for into `image`, with its top-left corner at
      column startX, row startY: a leaf fills its whole square with its
      colour, an internal node has its four quadrants write theirs. The ghost
      grid g is the region's content (ShowsToGrid: ToGrid of the node). */
  method DecompressRecursive(n: Node, image: array2<int>, startX: nat, startY: nat, dimension: int, ghost g: Grid)
    requires Shows(n, dimension, g)
    requires startY + dimension <= image.Length0 && startX + dimension <= image.Length1
    modifies image
    ensures forall j, i :: 0 <= j < image.Length0 && 0 <= i < image.Length1 ==>
      image[j, i] == if startY <= j < startY + dimension && startX <= i < startX + dimension
                     then g[j - startY][i - startX]
                     else old(image[j, i])
    decreases n
  {
    if n.Leaf? {
      var color := n.color;
      for x := startX to startX + dimension
        invariant forall j, i :: 0 <= j < image.Length0 && 0 <= i < image.Length1 ==>
          image[j, i] == if startY <= j < startY + dimension && startX <= i < x then color else old(image[j, i])
      {
        for y := startY to startY + dimension
          invariant forall j, i :: 0 <= j < image.Length0 && 0 <= i < image.Length1 ==>
            image[j, i] == if (startY <= j < startY + dimension && startX <= i < x) || (startY <= j < y && i == x)
                           then color else old(image[j, i])
        {
          image[y, x] := color;
        }
      }
    } else {
      var tl, tr, bl, br := n.tl, n.tr, n.bl, n.br;
      var half := dimension / 2;
      label Start:
      DecompressRecursive(tl, image, startX, startY, half, SubGrid(g, 0, 0, half));
      label AfterTopLeft:
      DecompressRecursive(tr, image, startX + half, startY, half, SubGrid(g, half, 0, half));
      label AfterTopRight:
      DecompressRecursive(bl, image, startX, startY + half, half, SubGrid(g, 0, half, half));
      label AfterBottomLeft:
      DecompressRecursive(br, image, startX + half, startY + half, half, SubGrid(g, half, half, half));
      forall j, i | 0 <= j < image.Length0 && 0 <= i < image.Length1
        ensures image[j, i] == if startY <= j < startY + dimension && startX <= i < startX + dimension
                               then g[j - startY][i - startX]
                               else old(image[j, i])
      {
        var top, left := j < startY + half, i < startX + half;
        if !(startY <= j < startY + dimension && startX <= i < startX + dimension) {
          assert image[j, i] == old@AfterBottomLeft(image[j, i]) == old@AfterTopRight(image[j, i])
              == old@AfterTopLeft(image[j, i]) == old@Start(image[j, i]);
        } else if top && left {
          assert image[j, i] == old@AfterTopLeft(image[j, i]);
        } else if top {
          assert image[j, i] == old@AfterTopRight(image[j, i]);
        } else if left {
          assert image[j, i] == old@AfterBottomLeft(image[j, i]);
        }
      }
    }
  }
}
