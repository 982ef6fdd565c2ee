/** The quadtree handle: the root node together with the side length of the
    image it compresses, and the public operations on the whole image. */
module QuadTrees {
  import opened Grids
  import opened QuadNodes
  import opened QuadProperties

  datatype Error = InvalidInput | OutOfBounds

  datatype Result<T> = Ok(value: T) | Err(error: Error)

  /** Whether every row of the image is as long as there are rows. */
  method IsPerfectSquare(image: Grid) returns (b: bool)
    ensures b <==> IsSquare(image, |image|)
  {
    for k := 0 to |image|
      invariant forall j :: 0 <= j < k ==> |image[j]| == |image|
    {
      if |image[k]| != |image| {
        return false;
      }
    }
    return true;
  }

  class QuadTree {
    var root: Node
    /** The side length of the image; the Java field is named size as well. */
    var size: int

    /** The tree describes a region of this side and is maximally merged. */
    ghost predicate Valid()
      reads this
    {
      Wf(root, size) && MaximallyMerged(root)
    }

    /** The image the tree currently stands for. */
    ghost function Image(): Grid
      reads this
      requires Valid()
    {
      ToGrid(root, size)
    }

    constructor (root: Node, size: int)
      requires Wf(root, size) && MaximallyMerged(root)
      ensures Valid() && this.root == root && this.size == size
    {
      this.root := root;
      this.size := size;
    }

    /** Validates the image, then builds the maximally merged tree for it. */
    static method BuildFromIntArray(image: Grid) returns (r: Result<QuadTree>)
      ensures r.Err? <==> !ValidImage(image)
      ensures r.Err? ==> r.error == InvalidInput
      ensures r.Ok? ==> fresh(r.value) && r.value.Valid() &&
                        r.value.size == |image| && r.value.Image() == image
    {
      if |image| == 0 || !IsPowerOfTwo(|image|) {
        return Err(InvalidInput);
      }
      var square := IsPerfectSquare(image);
      if !square {
        return Err(InvalidInput);
      }
      var node := BuildFromArrayHelper(image, |image|, 0, 0);
      BuildRoundTrip(image);
      var tree := new QuadTree(node, |image|);
      return Ok(tree);
    }

    /** The side length of the image. */
    function GetDimension(): (d: int)
      reads this
      requires Valid()
      ensures d == |Image()| && IsPowerOfTwo(d)
    {
      size
    }

    /** The number of nodes: at most (4 d^2 - 1) / 3 for dimension d, and 1
        exactly when the image is one colour throughout. */
    function GetSize(): (n: nat)
      reads this
      requires Valid()
      ensures n >= 1 && 3 * n + 1 <= 4 * (size * size)
      ensures n == 1 <==> Image() == Uniform(size, Image()[0][0])
    {
      SizeBound(root, size);
      SizeOneIffUniform(root, size);
      Size(root)
    }

    /** The named quadrant of the root; none when the root is a leaf. */
    function GetQuadrant(q: QuadName): (r: Option<Node>)
      reads this
      requires Valid()
      ensures r.None? <==> root.Leaf?
      ensures r.Some? ==> Wf(r.value, size / 2)
      ensures r.Some? ==>
        ToGrid(r.value, size / 2) == SubGrid(Image(), QuadX(q, size / 2), QuadY(q, size / 2), size / 2)
    {
      if root.Internal? then
        QuadrantIsSubGrid(root, size, q);
        QuadNodes.GetQuadrant(root, q)
      else
        None
    }

    /** Whether the whole tree is one leaf: exactly when the image is one
        colour throughout. */
    function IsLeaf(): (b: bool)
      reads this
      requires Valid()
      ensures b <==> Image() == Uniform(size, Image()[0][0])
    {
      SizeOneIffUniform(root, size);
      QuadNodes.IsLeaf(root)
    }

    /** The colour at column x, row y; out of bounds is an error. */
    method GetColor(x: int, y: int) returns (r: Result<int>)
      requires Valid()
      ensures r.Ok? <==> 0 <= x < size && 0 <= y < size
      ensures r.Err? ==> r.error == OutOfBounds
      ensures r.Ok? ==> r.value == Image()[y][x]
    {
      if x < 0 || x >= size || y < 0 || y >= size {
        return Err(OutOfBounds);
      }
      return Ok(GetColorHelper(root, size, x, y));
    }

    /** Sets the colour at column x, row y; out of bounds is an error and
        leaves the tree as it was. */
    method SetColor(x: int, y: int, c: int) returns (r: Result<()>)
      requires Valid()
      modifies this
      ensures Valid() && size == old(size)
      ensures r.Ok? <==> 0 <= x < size && 0 <= y < size
      ensures r.Err? ==> r.error == OutOfBounds && root == old(root)
      ensures r.Ok? ==> Image() == Update(old(Image()), x, y, c)
      ensures r.Ok? ==> root == BuildFromArrayHelper(Image(), size, 0, 0)
    {
      if x < 0 || x >= size || y < 0 || y >= size {
        return Err(OutOfBounds);
      }
      root := SetColorHelper(root, x, y, c, size);
      RebuildIsIdentity(root, size);
      return Ok(());
    }

    /** A new size-by-size array holding the image, indexed [row, column]. */
    method Decompress() returns (image: array2<int>)
      requires Valid()
      ensures fresh(image) && image.Length0 == size && image.Length1 == size
      ensures forall j, i :: 0 <= j < size && 0 <= i < size ==> image[j, i] == Image()[j][i]
    {
      image := new int[size, size];
      ShowsToGrid(root, size);
      DecompressRecursive(root, image, 0, 0, size, Image());
    }
  }

  /** Building from an image and decompressing the result gives the image
      back; an invalid image is rejected. */
  method BuildThenDecompress(image: Grid) returns (r: Result<array2<int>>)
    ensures r.Ok? <==> ValidImage(image)
    ensures r.Err? ==> r.error == InvalidInput
    ensures r.Ok? ==> r.value.Length0 == |image| && r.value.Length1 == |image| &&
                      forall j, i :: 0 <= j < |image| && 0 <= i < |image| ==> r.value[j, i] == image[j][i]
  {
    var built := QuadTree.BuildFromIntArray(image);
    if built.Err? {
      return Err(built.error);
    }
    var decompressed := built.value.Decompress();
    return Ok(decompressed);
  }
}
