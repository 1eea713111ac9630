/**
 * The adapter between the unmixing outputs and the coder's 1-D input: the centroid
 * (nBands values), the pixels (nBands x endMembers) and the projections
 * (endMembers x blockSize) are laid out as the centroid, then for every endmember its
 * pixel column followed by its projection row.  A matrix is its sequence of rows of
 * integers; the arrays are given to the constructor instead of being loaded from files.
 */
module DataAdapter {
  import opened Wrappers

  /** A numpy matrix: its rows, each of cols integers. */
  datatype Matrix = Matrix(cols: nat, cells: seq<seq<int>>)
  {
    function Rows(): nat
    {
      |cells|
    }
  }

  predicate Shaped(m: Matrix)
  {
    forall r :: 0 <= r < |m.cells| ==> |m.cells[r]| == m.cols
  }

  /** m[r, c]. */
  function At(m: Matrix, r: nat, c: nat): int
    requires Shaped(m) && r < m.Rows() && c < m.cols
  {
    m.cells[r][c]
  }

  /** m[:, c].flatten(): column c, top to bottom. */
  function Column(m: Matrix, c: nat): (col: seq<int>)
    requires Shaped(m) && c < m.cols
    ensures |col| == m.Rows()
  {
    seq(m.Rows(), r requires 0 <= r < m.Rows() => At(m, r, c))
  }

  /** m[r, :]: row r, left to right. */
  function Row(m: Matrix, r: nat): (row: seq<int>)
    requires Shaped(m) && r < m.Rows()
    ensures |row| == m.cols
  {
    m.cells[r]
  }

  /** n0 values followed by k blocks of w values. */
  function LayoutLength(n0: nat, w: nat, k: nat): nat
  {
    if k == 0 then n0 else LayoutLength(n0, w, k - 1) + w
  }

  lemma {:induction false} LayoutLengthIs(n0: nat, w: nat, k: nat)
    ensures LayoutLength(n0, w, k) == n0 + k * w
  {
    if k > 0 {
      LayoutLengthIs(n0, w, k - 1);
      assert (k - 1) * w + w == k * w;
    }
  }

  /** The centroid followed by the pixel column and projection row of each of the first k endmembers. */
  function Blocks(centroid: seq<int>, pixels: Matrix, projections: Matrix, k: nat): (out: seq<int>)
    requires Shaped(pixels) && Shaped(projections) && k <= pixels.cols && k <= projections.Rows()
    ensures |out| == LayoutLength(|centroid|, pixels.Rows() + projections.cols, k)
  {
    if k == 0 then centroid
    else Blocks(centroid, pixels, projections, k - 1) + Column(pixels, k - 1) + Row(projections, k - 1)
  }

  /** Each endmember adds one pixel column and one projection row. */
  lemma BlocksLength(centroid: seq<int>, pixels: Matrix, projections: Matrix, k: nat)
    requires Shaped(pixels) && Shaped(projections) && k <= pixels.cols && k <= projections.Rows()
    ensures |Blocks(centroid, pixels, projections, k)| == |centroid| + k * (pixels.Rows() + projections.cols)
  {
    LayoutLengthIs(|centroid|, pixels.Rows() + projections.cols, k);
  }

  lemma {:induction false} LayoutGrows(n0: nat, w: nat, j: nat, k: nat)
    requires j <= k
    ensures LayoutLength(n0, w, j) <= LayoutLength(n0, w, k)
  {
    if j < k {
      LayoutGrows(n0, w, j, k - 1);
    }
  }

  /** Laying out more endmembers only appends: the layout of the first j is a prefix. */
  lemma {:induction false} BlocksPrefix(centroid: seq<int>, pixels: Matrix, projections: Matrix, j: nat, k: nat)
    requires Shaped(pixels) && Shaped(projections) && j <= k <= pixels.cols && k <= projections.Rows()
    ensures Blocks(centroid, pixels, projections, j) <= Blocks(centroid, pixels, projections, k)
  {
    if j < k {
      BlocksPrefix(centroid, pixels, projections, j, k - 1);
      var short, mid := Blocks(centroid, pixels, projections, j), Blocks(centroid, pixels, projections, k - 1);
      var long := Blocks(centroid, pixels, projections, k);
      assert long[..|mid|] == mid;
      assert long[..|short|] == mid[..|short|];
    }
  }

  /**
   * Where each input lands (the centroid comes first, by BlocksPrefix with j = 0): the
   * pixel column of endmember i starts at base, the length of the layout of the
   * endmembers before it (|centroid| + i * (rows + blockSize), by BlocksLength), and its
   * projection row follows the column.
   */
  lemma {:induction false} BlocksAt(centroid: seq<int>, pixels: Matrix, projections: Matrix, k: nat, i: nat)
    requires Shaped(pixels) && Shaped(projections) && k <= pixels.cols && k <= projections.Rows() && i < k
    ensures SliceIs(Blocks(centroid, pixels, projections, k), |Blocks(centroid, pixels, projections, i)|, Column(pixels, i))
    ensures SliceIs(Blocks(centroid, pixels, projections, k), |Blocks(centroid, pixels, projections, i)| + pixels.Rows(), Row(projections, i))
  {
    LastBlock(centroid, pixels, projections, i);
    SliceKept(centroid, pixels, projections, i + 1, k, |Blocks(centroid, pixels, projections, i)|, Column(pixels, i));
    SliceKept(centroid, pixels, projections, i + 1, k, |Blocks(centroid, pixels, projections, i)| + pixels.Rows(), Row(projections, i));
  }

  /** What sits in the layout of the first j endmembers stays where it is in the layout of the first k. */
  lemma {:induction false} SliceKept(centroid: seq<int>, pixels: Matrix, projections: Matrix, j: nat, k: nat, lo: nat, t: seq<int>)
    requires Shaped(pixels) && Shaped(projections) && j <= k <= pixels.cols && k <= projections.Rows()
    requires SliceIs(Blocks(centroid, pixels, projections, j), lo, t)
    ensures SliceIs(Blocks(centroid, pixels, projections, k), lo, t)
  {
    BlocksPrefix(centroid, pixels, projections, j, k);
    SliceInPrefix(Blocks(centroid, pixels, projections, k), Blocks(centroid, pixels, projections, j), lo, t);
  }

  /** The layout of the first i + 1 endmembers ends with endmember i's column and row. */
  lemma {:induction false} LastBlock(centroid: seq<int>, pixels: Matrix, projections: Matrix, i: nat)
    requires Shaped(pixels) && Shaped(projections) && i < pixels.cols && i < projections.Rows()
    ensures var upTo, base := Blocks(centroid, pixels, projections, i + 1), |Blocks(centroid, pixels, projections, i)|;
      && SliceIs(upTo, base, Column(pixels, i))
      && SliceIs(upTo, base + pixels.Rows(), Row(projections, i))
  {
    var before := Blocks(centroid, pixels, projections, i);
    var col := Column(pixels, i);
    assert Blocks(centroid, pixels, projections, i + 1)[|before| .. |before| + |col|] == col;
  }

  /** t sits in s at offset lo. */
  predicate SliceIs(s: seq<int>, lo: nat, t: seq<int>)
  {
    lo + |t| <= |s| && s[lo .. lo + |t|] == t
  }

  /** What sits in a prefix of out sits in out at the same offset. */
  lemma SliceInPrefix(out: seq<int>, upTo: seq<int>, lo: nat, t: seq<int>)
    requires upTo <= out && SliceIs(upTo, lo, t)
    ensures SliceIs(out, lo, t)
  {
    assert out[lo .. lo + |t|] == upTo[lo .. lo + |t|];
  }

  datatype AdapterError = UnboundOutVector

  class Adapter {
    var centroid: seq<int>
    var pixels: Matrix
    var projections: Matrix
    var nBands: nat
    var endMembers: nat
    var blockSize: nat

    ghost predicate Valid()
      reads this
    {
      && Shaped(pixels) && Shaped(projections)
      && nBands == |centroid| && endMembers == pixels.cols && blockSize == projections.cols
    }

    /** __init__: the three arrays (loaded by LoadData in the original), then their characteristics. */
    constructor(pmCentroid: seq<int>, pmPixels: Matrix, pmProjections: Matrix)
      requires Shaped(pmPixels) && Shaped(pmProjections)
      ensures centroid == pmCentroid && pixels == pmPixels && projections == pmProjections
      ensures nBands == |pmCentroid| && endMembers == pmPixels.cols && blockSize == pmProjections.cols
      ensures Valid()
    {
      centroid, pixels, projections := pmCentroid, pmPixels, pmProjections;
      new;
      GetInputCharacteristics();
    }

    /** GetInputCharacteristics: nBands is the centroid's size, endMembers and blockSize the column counts. */
    method GetInputCharacteristics()
      requires Shaped(pixels) && Shaped(projections)
      modifies this`nBands, this`endMembers, this`blockSize
      ensures nBands == |centroid| && endMembers == pixels.cols && blockSize == projections.cols
      ensures Valid()
    {
      nBands := |centroid|;
      endMembers := pixels.cols;
      blockSize := projections.cols;
    }

    /** The loop of AdaptInputTo1DVector: accumulatedData after every endmember. */
    method ConcatenateBlocks() returns (accumulatedData: seq<int>)
      requires Valid() && endMembers <= projections.Rows()
      ensures accumulatedData == Blocks(centroid, pixels, projections, endMembers)
    {
      accumulatedData := centroid;
      for i := 0 to endMembers
        invariant accumulatedData == Blocks(centroid, pixels, projections, i)
      {
        var subPixels := Column(pixels, i);
        var subProjections := Row(projections, i);
        accumulatedData := accumulatedData + subPixels + subProjections;
      }
    }

    /**
     * AdaptInputTo1DVector as written: the vector returned is the one bound inside the
     * loop, so with no endmember there is none to return.  A projection matrix with fewer
     * rows than endmembers makes the original raise, so the model requires enough rows.
     */
    method AdaptInputTo1DVector() returns (outVector: Result<seq<int>, AdapterError>)
      requires Valid() && endMembers <= projections.Rows()
      ensures outVector.Failure? <==> endMembers == 0
      ensures outVector.Success? ==> outVector.value == Blocks(centroid, pixels, projections, endMembers)
    {
      var accumulatedData := ConcatenateBlocks();
      if endMembers == 0 {
        outVector := Failure(UnboundOutVector);
      } else {
        outVector := Success(accumulatedData);
      }
    }

    /** AdaptInputTo1DVector returning the accumulated data, which is the centroid alone with no endmember. */
    method AdaptInputTo1DVectorCorrected() returns (outVector: seq<int>)
      requires Valid() && endMembers <= projections.Rows()
      ensures outVector == Blocks(centroid, pixels, projections, endMembers)
      ensures |outVector| == nBands + endMembers * (pixels.Rows() + blockSize)
    {
      outVector := ConcatenateBlocks();
      BlocksLength(centroid, pixels, projections, endMembers);
    }

    /** CompareVectors: True exactly when the differences over inputVector's indices sum to zero. */
    static method CompareVectors(inputVector: seq<int>, outputVector: seq<int>) returns (equal: bool)
      requires |inputVector| <= |outputVector|
      ensures equal <==> SumOfDifferences(inputVector, outputVector) == 0
    {
      equal := false;
      var sum := 0;
      for i := 0 to |inputVector|
        invariant sum == SumOfDifferences(inputVector[..i], outputVector)
      {
        assert inputVector[..i + 1][..i] == inputVector[..i];
        sum := sum + (inputVector[i] - outputVector[i]);
      }
      assert inputVector[..|inputVector|] == inputVector;
      if sum == 0 {
        equal := true;
      }
    }

    /** The comparison CompareVectors evidently intends: element by element. */
    static method VectorsEqual(inputVector: seq<int>, outputVector: seq<int>) returns (equal: bool)
      requires |inputVector| <= |outputVector|
      ensures equal <==> inputVector == outputVector[..|inputVector|]
    {
      equal := true;
      var i := 0;
      while i < |inputVector| && equal
        invariant 0 <= i <= |inputVector|
        invariant equal <==> inputVector[..i] == outputVector[..i]
      {
        assert inputVector[..i + 1] == inputVector[..i] + [inputVector[i]];
        assert outputVector[..i + 1] == outputVector[..i] + [outputVector[i]];
        equal := inputVector[i] == outputVector[i];
        i := i + 1;
      }
      if !equal {
        assert inputVector[..i] != outputVector[..i];
        assert inputVector[..i] == inputVector[..|inputVector|][..i];
      }
    }
  }

  /** The sum over xs's indices of xs[i] - ys[i]. */
  function SumOfDifferences(xs: seq<int>, ys: seq<int>): int
    requires |xs| <= |ys|
  {
    if xs == [] then 0 else SumOfDifferences(xs[..|xs| - 1], ys) + (xs[|xs| - 1] - ys[|xs| - 1])
  }

  /** A vector compared with itself (or with a longer vector it starts) sums to zero differences. */
  lemma {:induction false} EqualVectorsSumToZero(xs: seq<int>, ys: seq<int>)
    requires |xs| <= |ys| && xs == ys[..|xs|]
    ensures SumOfDifferences(xs, ys) == 0
  {
    if xs != [] {
      var n := |xs| - 1;
      assert xs[..n] == ys[..n];
      EqualVectorsSumToZero(xs[..n], ys);
      assert xs[n] == ys[n];
    }
  }

  /** The sum of differences misses unequal vectors whose differences cancel: [1, 0] against [0, 1]. */
  lemma CompareVectorsMisses()
    ensures SumOfDifferences([1, 0], [0, 1]) == 0 && [1, 0] != [0, 1]
  {
    assert [1, 0][..1] == [1];
    assert [1][..0] == [];
  }
}
