/** The fixtures of the unit tests, as lemmas about the model: the tree each
    image builds to, its node count and some point queries, an update that
    merges the whole tree back into one leaf, and the rejected images. */
module QuadScenarios {
  import opened Grids
  import opened QuadNodes
  import opened QuadProperties

  const FourQuadrants: Grid := [[1, 1, 2, 2], [1, 1, 2, 2], [3, 3, 4, 4], [3, 3, 4, 4]]
  const MultiQuadrants: Grid := [[1, 1, 2, 3], [1, 1, 1, 7], [2, 2, 0, 0], [2, 2, 0, 0]]
  const UniquePixels: Grid := [[1, 2, 3, 4], [5, 6, 7, 8], [9, 10, 11, 12], [13, 14, 15, 16]]
  const OnePixelOff: Grid := [[1, 1, 1, 1], [1, 1, 1, 1], [1, 2, 1, 1], [1, 1, 1, 1]]
  const MixedCorner: Grid := [[1, 1, 3, 3], [1, 1, 3, 3], [2, 2, 4, 3], [2, 2, 4, 4]]
  const TopRightTwos: Grid := [[1, 1, 2, 2], [1, 1, 2, 2], [1, 1, 1, 1], [1, 1, 1, 1]]
  const Corners: Grid := [[1, 1, 3, 3], [1, 1, 3, 3], [2, 2, 4, 4], [2, 2, 4, 4]]

  /** The tree built from a valid image is the maximally merged tree that
      stands for it: the way every fixture below is worked out. */
  lemma BuildsTo(image: Grid, expected: Node)
    requires ValidImage(image) && Wf(expected, |image|) && MaximallyMerged(expected)
    requires ToGrid(expected, |image|) == image
    ensures BuildFromArrayHelper(image, |image|, 0, 0) == expected
  {
    BuildRoundTrip(image);
    MergedTreeIsUnique(BuildFromArrayHelper(image, |image|, 0, 0), expected, |image|);
  }

  /** Four uniform quadrants: one internal node over four leaves, 5 nodes. */
  lemma FourQuadrantsFixture()
    ensures var t := BuildFromArrayHelper(FourQuadrants, 4, 0, 0);
            t == Internal(Leaf(1), Leaf(2), Leaf(3), Leaf(4)) && Size(t) == 5 &&
            GetColorHelper(t, 4, 0, 0) == 1 && GetColorHelper(t, 4, 0, 1) == 1 &&
            GetColorHelper(t, 4, 2, 0) == 2 && GetColorHelper(t, 4, 3, 3) == 4 &&
            GetColorHelper(t, 4, 2, 2) == 4 && GetColorHelper(t, 4, 3, 2) == 4 &&
            GetQuadrant(t, TopLeft) == Some(Leaf(1)) && GetQuadrant(t, TopRight) == Some(Leaf(2)) &&
            GetQuadrant(t, BottomLeft) == Some(Leaf(3)) && GetQuadrant(t, BottomRight) == Some(Leaf(4))
  {
    var expected := Internal(Leaf(1), Leaf(2), Leaf(3), Leaf(4));
    assert IsSquare(FourQuadrants, 4);
    GridExt(ToGrid(expected, 4), FourQuadrants, 4);
    BuildsTo(FourQuadrants, expected);
  }

  /** Mixed quadrants: the top-right quadrant stays split, 9 nodes. */
  lemma MultiQuadrantsFixture()
    ensures var t := BuildFromArrayHelper(MultiQuadrants, 4, 0, 0);
            Size(t) == 9 &&
            GetColorHelper(t, 4, 0, 0) == 1 && GetColorHelper(t, 4, 0, 1) == 1 &&
            GetColorHelper(t, 4, 2, 0) == 2 && GetColorHelper(t, 4, 3, 1) == 7 &&
            GetColorHelper(t, 4, 2, 2) == 0
  {
    var expected := Internal(Leaf(1), Internal(Leaf(2), Leaf(3), Leaf(1), Leaf(7)), Leaf(2), Leaf(0));
    assert IsSquare(MultiQuadrants, 4);
    GridExt(ToGrid(expected, 4), MultiQuadrants, 4);
    BuildsTo(MultiQuadrants, expected);
  }

  /** All sixteen pixels distinct: nothing merges, 21 nodes, more than the
      16 pixels. */
  lemma UniquePixelsFixture()
    ensures var t := BuildFromArrayHelper(UniquePixels, 4, 0, 0);
            Size(t) == 21 && Size(t) > 4 * 4 &&
            GetColorHelper(t, 4, 3, 1) == 8 && GetColorHelper(t, 4, 1, 3) == 14 &&
            GetColorHelper(t, 4, 3, 0) == 4
  {
    var expected := Internal(Internal(Leaf(1), Leaf(2), Leaf(5), Leaf(6)),
                             Internal(Leaf(3), Leaf(4), Leaf(7), Leaf(8)),
                             Internal(Leaf(9), Leaf(10), Leaf(13), Leaf(14)),
                             Internal(Leaf(11), Leaf(12), Leaf(15), Leaf(16)));
    assert IsSquare(UniquePixels, 4);
    GridExt(ToGrid(expected, 4), UniquePixels, 4);
    BuildsTo(UniquePixels, expected);
  }

  /** A uniform image of any valid side builds to a single leaf. */
  lemma UniformFixture(side: int, c: int)
    requires IsPowerOfTwo(side)
    ensures BuildFromArrayHelper(Uniform(side, c), side, 0, 0) == Leaf(c)
    ensures Size(BuildFromArrayHelper(Uniform(side, c), side, 0, 0)) == 1
  {
    BuildsTo(Uniform(side, c), Leaf(c));
  }

  /** Setting the one odd pixel to its neighbours' colour merges the tree all
      the way up into one leaf. */
  lemma SetColorMergeBackFixture()
    ensures SetColorHelper(BuildFromArrayHelper(OnePixelOff, 4, 0, 0), 1, 2, 1, 4) == Leaf(1)
  {
    var t := Internal(Leaf(1), Leaf(1), Internal(Leaf(1), Leaf(2), Leaf(1), Leaf(1)), Leaf(1));
    assert IsSquare(OnePixelOff, 4);
    GridExt(ToGrid(t, 4), OnePixelOff, 4);
    BuildsTo(OnePixelOff, t);
  }

  /** Setting one pixel of a built tree: the new tree stands for the image
      with that pixel replaced, and is the tree built from that image. */
  lemma SetColorGives(image: Grid, x: int, y: int, c: int, expected: Grid)
    requires ValidImage(image) && 0 <= x < |image| && 0 <= y < |image|
    requires Update(image, x, y, c) == expected
    ensures var t := SetColorHelper(BuildFromArrayHelper(image, |image|, 0, 0), x, y, c, |image|);
            ToGrid(t, |image|) == expected && t == BuildFromArrayHelper(expected, |image|, 0, 0)
  {
    BuildRoundTrip(image);
    SetColorIsRebuild(BuildFromArrayHelper(image, |image|, 0, 0), x, y, c, |image|);
  }

  /** A pixel in a split quadrant changes; the tree keeps its shape. */
  lemma SetColorNoChangeInNodesFixture()
    ensures ToGrid(SetColorHelper(BuildFromArrayHelper(MixedCorner, 4, 0, 0), 3, 2, 5, 4), 4) ==
            [[1, 1, 3, 3], [1, 1, 3, 3], [2, 2, 4, 5], [2, 2, 4, 4]]
  {
    assert IsSquare(MixedCorner, 4);
    assert MixedCorner[2][3 := 5] == [2, 2, 4, 5];
    SetColorGives(MixedCorner, 3, 2, 5, [[1, 1, 3, 3], [1, 1, 3, 3], [2, 2, 4, 5], [2, 2, 4, 4]]);
  }

  /** A pixel inside a leaf quadrant: the leaf is split down to one pixel. */
  lemma SetColorSplitFurtherFixture()
    ensures ToGrid(SetColorHelper(BuildFromArrayHelper(Corners, 4, 0, 0), 3, 0, 1, 4), 4) ==
            [[1, 1, 3, 1], [1, 1, 3, 3], [2, 2, 4, 4], [2, 2, 4, 4]]
  {
    assert IsSquare(Corners, 4);
    assert Corners[0][3 := 1] == [1, 1, 3, 1];
    SetColorGives(Corners, 3, 0, 1, [[1, 1, 3, 1], [1, 1, 3, 3], [2, 2, 4, 4], [2, 2, 4, 4]]);
  }

  /** The top-left pixel of the all-distinct image. */
  lemma SetColorUniquePixelsFixture()
    ensures ToGrid(SetColorHelper(BuildFromArrayHelper(UniquePixels, 4, 0, 0), 0, 0, 5, 4), 4) ==
            [[5, 2, 3, 4], [5, 6, 7, 8], [9, 10, 11, 12], [13, 14, 15, 16]]
  {
    assert IsSquare(UniquePixels, 4);
    assert UniquePixels[0][0 := 5] == [5, 2, 3, 4];
    SetColorGives(UniquePixels, 0, 0, 5, [[5, 2, 3, 4], [5, 6, 7, 8], [9, 10, 11, 12], [13, 14, 15, 16]]);
  }

  /** Column 0, row 1 already holds 5: setting it to 5 changes nothing. */
  lemma SetColorReplaceSameColorFixture()
    ensures SetColorHelper(BuildFromArrayHelper(UniquePixels, 4, 0, 0), 0, 1, 5, 4) ==
            BuildFromArrayHelper(UniquePixels, 4, 0, 0)
  {
    assert IsSquare(UniquePixels, 4);
    var t := BuildFromArrayHelper(UniquePixels, 4, 0, 0);
    BuildRoundTrip(UniquePixels);
    SetSameColorKeepsTree(t, 0, 1, 4);
  }

  /** An edit made through a child handle re-merges only inside that child:
      painting the four pixels of the top-right quadrant with colour 1 turns
      the child into one leaf, but the root stays an internal node over four
      leaves of colour 1, with 5 nodes for a uniform image. */
  lemma ChildEditFixture()
    ensures BuildFromArrayHelper(TopRightTwos, 4, 0, 0) == Internal(Leaf(1), Leaf(2), Leaf(1), Leaf(1))
    ensures var child := SetColorHelper(SetColorHelper(SetColorHelper(SetColorHelper(
                           Leaf(2), 0, 0, 1, 2), 1, 0, 1, 2), 0, 1, 1, 2), 1, 1, 1, 2);
            var root := Internal(Leaf(1), child, Leaf(1), Leaf(1));
            child == Leaf(1) && !MaximallyMerged(root) && Size(root) == 5 &&
            ToGrid(root, 4) == Uniform(4, 1)
  {
    var expected := Internal(Leaf(1), Leaf(2), Leaf(1), Leaf(1));
    assert IsSquare(TopRightTwos, 4);
    GridExt(ToGrid(expected, 4), TopRightTwos, 4);
    BuildsTo(TopRightTwos, expected);
    StitchUniform(2, 1);
  }

  /** The one-pixel image: a single leaf, and setting its pixel replaces it. */
  lemma OnePixelFixture()
    ensures BuildFromArrayHelper([[1]], 1, 0, 0) == Leaf(1)
    ensures ToGrid(SetColorHelper(Leaf(1), 0, 0, 5, 1), 1) == [[5]]
  {
    assert IsSquare([[1]], 1);
    GridExt(ToGrid(Leaf(5), 1), [[5]], 1);
  }

  /** The empty, ragged and two-row images are rejected. */
  lemma InvalidImagesFixture()
    ensures !ValidImage([])
    ensures !ValidImage([[1, 2, 3], [4, 5, 2], [6, 7, 8, 9, 10, 11]])
    ensures !ValidImage([[1, 2, 3, 4], [5, 6, 7, 8]])
  {
    assert !IsPowerOfTwo(3);
    assert |[[1, 2, 3, 4], [5, 6, 7, 8]][0]| != 2;
  }
}
