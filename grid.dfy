/** Dense square grids of colours, indexed g[y][x] (row first), and the
    operations on them that the quadtree's meaning is stated in. */
module Grids {

  type Grid = seq<seq<int>>

  /** g has exactly s rows, each of length s. */
  ghost predicate IsSquare(g: Grid, s: int) {
    |g| == s && forall j :: 0 <= j < s ==> |g[j]| == s
  }

  /** The s-by-s grid whose every cell is c. */
  ghost function Uniform(s: nat, c: int): (g: Grid)
    ensures IsSquare(g, s)
    ensures forall j, i :: 0 <= j < s && 0 <= i < s ==> g[j][i] == c
  {
    seq(s, _ => seq(s, _ => c))
  }

  /** The 2h-by-2h grid made of four h-by-h quadrants. */
  ghost function Stitch(tl: Grid, tr: Grid, bl: Grid, br: Grid, h: nat): (g: Grid)
    requires IsSquare(tl, h) && IsSquare(tr, h) && IsSquare(bl, h) && IsSquare(br, h)
    ensures IsSquare(g, 2 * h)
    ensures forall j, i :: 0 <= j < 2 * h && 0 <= i < 2 * h ==>
      g[j][i] == if j < h then (if i < h then tl[j][i] else tr[j][i - h])
                 else (if i < h then bl[j - h][i] else br[j - h][i - h])
  {
    seq(2 * h, j requires 0 <= j < 2 * h => if j < h then tl[j] + tr[j] else bl[j - h] + br[j - h])
  }

  /** The s-by-s window of g whose top-left corner is column x, row y. */
  ghost function SubGrid(g: Grid, x: nat, y: nat, s: nat): (r: Grid)
    requires IsSquare(g, |g|) && x + s <= |g| && y + s <= |g|
    ensures IsSquare(r, s)
    ensures forall j, i :: 0 <= j < s && 0 <= i < s ==> r[j][i] == g[y + j][x + i]
  {
    seq(s, j requires 0 <= j < s => g[y + j][x .. x + s])
  }

  /** g with the cell in column x, row y replaced by c. */
  ghost function Update(g: Grid, x: int, y: int, c: int): (r: Grid)
    requires IsSquare(g, |g|) && 0 <= x < |g| && 0 <= y < |g|
    ensures IsSquare(r, |g|)
    ensures forall j, i :: 0 <= j < |g| && 0 <= i < |g| ==>
      r[j][i] == if j == y && i == x then c else g[j][i]
  {
    g[y := g[y][x := c]]
  }

  /** Two square grids of the same side that agree on every cell are equal. */
  lemma GridExt(g1: Grid, g2: Grid, s: nat)
    requires IsSquare(g1, s) && IsSquare(g2, s)
    requires forall j, i :: 0 <= j < s && 0 <= i < s ==> g1[j][i] == g2[j][i]
    ensures g1 == g2
  {
    forall j | 0 <= j < s
      ensures g1[j] == g2[j]
    {
      assert forall i :: 0 <= i < s ==> g1[j][i] == g2[j][i];
    }
  }

  /** The window covering the whole grid is the grid. */
  lemma SubGridWhole(g: Grid)
    requires IsSquare(g, |g|)
    ensures SubGrid(g, 0, 0, |g|) == g
  {
    GridExt(SubGrid(g, 0, 0, |g|), g, |g|);
  }

  /** The four quadrants of a window, stitched together, give the window back. */
  lemma StitchSubGrids(g: Grid, x: nat, y: nat, h: nat)
    requires IsSquare(g, |g|) && x + 2 * h <= |g| && y + 2 * h <= |g|
    ensures Stitch(SubGrid(g, x, y, h), SubGrid(g, x + h, y, h),
                   SubGrid(g, x, y + h, h), SubGrid(g, x + h, y + h, h), h)
            == SubGrid(g, x, y, 2 * h)
  {
    GridExt(Stitch(SubGrid(g, x, y, h), SubGrid(g, x + h, y, h),
                   SubGrid(g, x, y + h, h), SubGrid(g, x + h, y + h, h), h),
            SubGrid(g, x, y, 2 * h), 2 * h);
  }

  /** Each quadrant of a stitched grid is the grid it was stitched from. */
  lemma SubGridsOfStitch(tl: Grid, tr: Grid, bl: Grid, br: Grid, h: nat)
    requires IsSquare(tl, h) && IsSquare(tr, h) && IsSquare(bl, h) && IsSquare(br, h)
    ensures SubGrid(Stitch(tl, tr, bl, br, h), 0, 0, h) == tl
    ensures SubGrid(Stitch(tl, tr, bl, br, h), h, 0, h) == tr
    ensures SubGrid(Stitch(tl, tr, bl, br, h), 0, h, h) == bl
    ensures SubGrid(Stitch(tl, tr, bl, br, h), h, h, h) == br
  {
    var g := Stitch(tl, tr, bl, br, h);
    GridExt(SubGrid(g, 0, 0, h), tl, h);
    GridExt(SubGrid(g, h, 0, h), tr, h);
    GridExt(SubGrid(g, 0, h, h), bl, h);
    GridExt(SubGrid(g, h, h, h), br, h);
  }

  /** A square grid is the stitch of its four quadrant windows. */
  lemma QuadrantsDetermineGrid(g: Grid, h: nat, tl: Grid, tr: Grid, bl: Grid, br: Grid)
    requires IsSquare(g, 2 * h)
    requires SubGrid(g, 0, 0, h) == tl && SubGrid(g, h, 0, h) == tr
    requires SubGrid(g, 0, h, h) == bl && SubGrid(g, h, h, h) == br
    ensures g == Stitch(tl, tr, bl, br, h)
  {
    SubGridWhole(g);
    StitchSubGrids(g, 0, 0, h);
  }

  /** Stitching is injective: equal stitched grids have equal quadrants. */
  lemma StitchInjective(tl: Grid, tr: Grid, bl: Grid, br: Grid,
                        tl': Grid, tr': Grid, bl': Grid, br': Grid, h: nat)
    requires IsSquare(tl, h) && IsSquare(tr, h) && IsSquare(bl, h) && IsSquare(br, h)
    requires IsSquare(tl', h) && IsSquare(tr', h) && IsSquare(bl', h) && IsSquare(br', h)
    requires Stitch(tl, tr, bl, br, h) == Stitch(tl', tr', bl', br', h)
    ensures tl == tl' && tr == tr' && bl == bl' && br == br'
  {
    SubGridsOfStitch(tl, tr, bl, br, h);
    SubGridsOfStitch(tl', tr', bl', br', h);
  }

  /** Four uniform quadrants of one colour make a uniform grid of that colour. */
  lemma StitchUniform(h: nat, c: int)
    ensures Stitch(Uniform(h, c), Uniform(h, c), Uniform(h, c), Uniform(h, c), h) == Uniform(2 * h, c)
  {
    GridExt(Stitch(Uniform(h, c), Uniform(h, c), Uniform(h, c), Uniform(h, c), h), Uniform(2 * h, c), 2 * h);
  }

  /** A stitched grid is uniform of colour c only if all four quadrants are. */
  lemma UniformStitch(tl: Grid, tr: Grid, bl: Grid, br: Grid, h: nat, c: int)
    requires IsSquare(tl, h) && IsSquare(tr, h) && IsSquare(bl, h) && IsSquare(br, h)
    requires Stitch(tl, tr, bl, br, h) == Uniform(2 * h, c)
    ensures tl == Uniform(h, c) && tr == Uniform(h, c) && bl == Uniform(h, c) && br == Uniform(h, c)
  {
    StitchUniform(h, c);
    StitchInjective(tl, tr, bl, br, Uniform(h, c), Uniform(h, c), Uniform(h, c), Uniform(h, c), h);
  }

  /** Updating one cell of a stitched grid updates exactly the quadrant that
      holds it, at the cell's coordinates translated into that quadrant. */
  lemma StitchUpdate(tl: Grid, tr: Grid, bl: Grid, br: Grid, h: nat, x: int, y: int, c: int)
    requires IsSquare(tl, h) && IsSquare(tr, h) && IsSquare(bl, h) && IsSquare(br, h)
    requires 0 <= x < 2 * h && 0 <= y < 2 * h
    ensures Update(Stitch(tl, tr, bl, br, h), x, y, c) ==
      if x < h && y < h then Stitch(Update(tl, x, y, c), tr, bl, br, h)
      else if x >= h && y < h then Stitch(tl, Update(tr, x - h, y, c), bl, br, h)
      else if x < h && y >= h then Stitch(tl, tr, Update(bl, x, y - h, c), br, h)
      else Stitch(tl, tr, bl, Update(br, x - h, y - h, c), h)
  {
    var u := Update(Stitch(tl, tr, bl, br, h), x, y, c);
    if x < h && y < h {
      GridExt(u, Stitch(Update(tl, x, y, c), tr, bl, br, h), 2 * h);
    } else if x >= h && y < h {
      GridExt(u, Stitch(tl, Update(tr, x - h, y, c), bl, br, h), 2 * h);
    } else if x < h && y >= h {
      GridExt(u, Stitch(tl, tr, Update(bl, x, y - h, c), br, h), 2 * h);
    } else {
      GridExt(u, Stitch(tl, tr, bl, Update(br, x - h, y - h, c), h), 2 * h);
    }
  }
}
