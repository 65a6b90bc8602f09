/** The public operations of the seam carver: the oriented energy matrix,
    the vertical and horizontal seam queries (one routine, the horizontal
    one on the transposed matrix), and the two seam removals, each of which
    builds a fresh grid one column or one row smaller. */
module SeamCarver {
  import opened Errors
  import opened Pixels
  import opened EnergyModel
  import opened SeamFinder

  /** The energy matrix the seam finder scans: `m[x][y]` is the energy of
      pixel (x, y), or, when `transposed`, of pixel (y, x), so that the
      rows of the matrix are the columns of the picture. */
  function ToEnergyMatrix(c: Carver, transposed: bool, sqrt: nat -> real): (m: seq<seq<real>>)
    requires c.Valid()
    ensures IsEnergyMatrix(m)
    ensures Width(m) == (if transposed then c.height else c.width)
    ensures Height(m) == (if transposed then c.width else c.height)
    ensures forall x, y :: 0 <= x < Width(m) && 0 <= y < Height(m) ==>
              m[x][y] == (if transposed then EnergyAt(c, y, x, sqrt) else EnergyAt(c, x, y, sqrt))
  {
    var w := if transposed then c.height else c.width;
    var h := if transposed then c.width else c.height;
    seq(w, x requires 0 <= x < w =>
      seq(h, y requires 0 <= y < h =>
        if transposed then EnergyAt(c, y, x, sqrt) else EnergyAt(c, x, y, sqrt)))
  }

  /** The horizontal energy matrix is the vertical energy matrix of the
      transposed picture: horizontal seams are vertical seams of the
      transposed picture. */
  lemma TransposedEnergyMatrix(c: Carver, sqrt: nat -> real)
    requires c.Valid()
    ensures ToEnergyMatrix(c, true, sqrt) == ToEnergyMatrix(Transposed(c), false, sqrt)
  {
    var a := ToEnergyMatrix(c, true, sqrt);
    var b := ToEnergyMatrix(Transposed(c), false, sqrt);
    assert |a| == |b|;
    forall x | 0 <= x < |a|
      ensures a[x] == b[x]
    {
      assert |a[x]| == |b[x]|;
      forall y | 0 <= y < |a[x]|
        ensures a[x][y] == b[x][y]
      {
        EnergyOfTransposed(c, y, x, sqrt);
      }
    }
  }

  /** Row 0 of either energy matrix lies on the border of the picture, so
      all its cells have energy 1000. */
  lemma TopRowIsBorder(c: Carver, transposed: bool, sqrt: nat -> real)
    requires c.Valid()
    ensures forall x :: 0 <= x < Width(ToEnergyMatrix(c, transposed, sqrt)) ==>
              ToEnergyMatrix(c, transposed, sqrt)[x][0] == BorderEnergy
  {
  }

  /** A vertical seam: one column per row, in range, 8-connected, and of
      least total energy among all vertical seams. */
  method FindVerticalSeam(c: Carver, sqrt: nat -> real) returns (seam: seq<int>)
    requires c.Valid()
    ensures |seam| == c.height
    ensures forall y :: 0 <= y < |seam| ==> 0 <= seam[y] < c.width
    ensures forall y :: 0 <= y < |seam| - 1 ==> Adjacent(seam[y], seam[y + 1])
    ensures IsLeastSeam(ToEnergyMatrix(c, false, sqrt), seam)
    ensures IsLeastEnergySeam(ToEnergyMatrix(c, false, sqrt), seam)
  {
    var m := ToEnergyMatrix(c, false, sqrt);
    seam := FindSeam(m);
    TopRowIsBorder(c, false, sqrt);
    LeastCostIsLeastEnergy(m, seam);
  }

  /** A horizontal seam: one row per column, in range, 8-connected, and of
      least total energy among all horizontal seams. */
  method FindHorizontalSeam(c: Carver, sqrt: nat -> real) returns (seam: seq<int>)
    requires c.Valid()
    ensures |seam| == c.width
    ensures forall x :: 0 <= x < |seam| ==> 0 <= seam[x] < c.height
    ensures forall x :: 0 <= x < |seam| - 1 ==> Adjacent(seam[x], seam[x + 1])
    ensures IsLeastSeam(ToEnergyMatrix(c, true, sqrt), seam)
    ensures IsLeastEnergySeam(ToEnergyMatrix(c, true, sqrt), seam)
  {
    var m := ToEnergyMatrix(c, true, sqrt);
    seam := FindSeam(m);
    TopRowIsBorder(c, true, sqrt);
    LeastCostIsLeastEnergy(m, seam);
  }

  /** Every entry of `seam` is an index below `bound`. */
  predicate SeamWithin(seam: seq<int>, bound: int) {
    forall i :: 0 <= i < |seam| ==> 0 <= seam[i] < bound
  }

  /** Removes one pixel per row: rejected (nothing changes) unless the seam
      has one entry per row and there are at least two columns; otherwise
      pixel (x, y) of the new grid is the old (x, y) left of `seam[y]` and
      the old (x + 1, y) from it on. */
  function RemoveVerticalSeam(c: Carver, seam: seq<int>): (r: Result<Carver>)
    requires c.Valid()
    requires |seam| == c.height && c.width > 1 ==> SeamWithin(seam, c.width)
    ensures r.Err? <==> |seam| != c.height || c.width <= 1
    ensures r.Err? ==> r.error == InvalidSeam
    ensures r.Ok? ==> r.value.Valid() && r.value.width == c.width - 1 && r.value.height == c.height
    ensures r.Ok? ==> forall y :: 0 <= y < c.height ==> Row(r.value, y) == Delete(Row(c, y), seam[y])
  {
    if |seam| != c.height || c.width <= 1 then Err(InvalidSeam)
    else
      var w, h := c.width - 1, c.height;
      var copy := seq(w, x requires 0 <= x < w =>
                    seq(h, y requires 0 <= y < h =>
                      if x < seam[y] then c.colorMatrix[x][y] else c.colorMatrix[x + 1][y]));
      var r := Carver(copy, w, h);
      assert forall y :: 0 <= y < h ==> Row(r, y) == Delete(Row(c, y), seam[y]);
      Ok(r)
  }

  /** Removes one pixel per column: rejected (nothing changes) unless the
      seam has one entry per column and there are at least two rows;
      otherwise pixel (x, y) of the new grid is the old (x, y) above
      `seam[x]` and the old (x, y + 1) from it on. */
  function RemoveHorizontalSeam(c: Carver, seam: seq<int>): (r: Result<Carver>)
    requires c.Valid()
    requires |seam| == c.width && c.height > 1 ==> SeamWithin(seam, c.height)
    ensures r.Err? <==> |seam| != c.width || c.height <= 1
    ensures r.Err? ==> r.error == InvalidSeam
    ensures r.Ok? ==> r.value.Valid() && r.value.width == c.width && r.value.height == c.height - 1
    ensures r.Ok? ==> forall x, y :: 0 <= x < c.width && 0 <= y < c.height - 1 ==>
                        r.value.colorMatrix[x][y] == c.colorMatrix[x][if y < seam[x] then y else y + 1]
    ensures r.Ok? ==> forall x :: 0 <= x < c.width ==> r.value.colorMatrix[x] == Delete(c.colorMatrix[x], seam[x])
  {
    if |seam| != c.width || c.height <= 1 then Err(InvalidSeam)
    else
      var copy := seq(c.width, x requires 0 <= x < c.width =>
                    c.colorMatrix[x][..seam[x]] + c.colorMatrix[x][seam[x] + 1..]);
      Ok(Carver(copy, c.width, c.height - 1))
  }

  /** Removing a horizontal seam is removing the same seam, as a vertical
      one, from the transposed grid: the two removals are symmetric, with the
      same guard and the same error. */
  lemma HorizontalRemovalIsTransposedVertical(c: Carver, seam: seq<int>)
    requires c.Valid()
    requires |seam| == c.width && c.height > 1 ==> SeamWithin(seam, c.height)
    ensures RemoveVerticalSeam(Transposed(c), seam).Err? <==> RemoveHorizontalSeam(c, seam).Err?
    ensures RemoveHorizontalSeam(c, seam).Err? ==> RemoveVerticalSeam(Transposed(c), seam) == RemoveHorizontalSeam(c, seam)
    ensures RemoveHorizontalSeam(c, seam).Ok? ==>
              RemoveHorizontalSeam(c, seam).value == Transposed(RemoveVerticalSeam(Transposed(c), seam).value)
  {
    var t := Transposed(c);
    if RemoveHorizontalSeam(c, seam).Ok? {
      var hr := RemoveHorizontalSeam(c, seam).value;
      var vr := RemoveVerticalSeam(t, seam).value;
      var back := Transposed(vr);
      assert |back.colorMatrix| == |hr.colorMatrix|;
      forall x | 0 <= x < c.width
        ensures back.colorMatrix[x] == hr.colorMatrix[x]
      {
        assert |back.colorMatrix[x]| == |hr.colorMatrix[x]|;
        forall y | 0 <= y < c.height - 1
          ensures back.colorMatrix[x][y] == hr.colorMatrix[x][y]
        {
          assert back.colorMatrix[x][y] == vr.colorMatrix[y][x] == Row(vr, x)[y];
          assert Row(vr, x) == Delete(Row(t, x), seam[x]);
        }
      }
      assert back.colorMatrix == hr.colorMatrix;
    }
  }

  /** A removal deletes exactly one pixel from each row (vertical seam):
      the new row and the removed pixel together are the old row. */
  lemma VerticalRemovalKeepsPixels(c: Carver, seam: seq<int>, y: int)
    requires c.Valid() && |seam| == c.height && c.width > 1 && SeamWithin(seam, c.width)
    requires 0 <= y < c.height
    ensures multiset(Row(RemoveVerticalSeam(c, seam).value, y)) + multiset{c.colorMatrix[seam[y]][y]}
            == multiset(Row(c, y))
  {
  }

  /** A vertical seam from the finder is always a legal argument of the
      vertical removal, which then succeeds exactly when the picture is
      wider than one column. */
  lemma FoundVerticalSeamIsRemovable(c: Carver, sqrt: nat -> real, seam: seq<int>)
    requires c.Valid() && IsSeam(ToEnergyMatrix(c, false, sqrt), seam)
    ensures SeamWithin(seam, c.width)
    ensures RemoveVerticalSeam(c, seam).Ok? <==> c.width > 1
  {
  }

  /** A horizontal seam from the finder is always a legal argument of the
      horizontal removal, which then succeeds exactly when the picture is
      taller than one row. */
  lemma FoundHorizontalSeamIsRemovable(c: Carver, sqrt: nat -> real, seam: seq<int>)
    requires c.Valid() && IsSeam(ToEnergyMatrix(c, true, sqrt), seam)
    ensures SeamWithin(seam, c.height)
    ensures RemoveHorizontalSeam(c, seam).Ok? <==> c.height > 1
  {
  }

  /** The symmetry read the other way: removing a vertical seam is removing
      the same seam, as a horizontal one, from the transposed grid. */
  lemma VerticalRemovalIsTransposedHorizontal(c: Carver, seam: seq<int>)
    requires c.Valid()
    requires |seam| == c.height && c.width > 1 ==> SeamWithin(seam, c.width)
    ensures RemoveHorizontalSeam(Transposed(c), seam).Err? <==> RemoveVerticalSeam(c, seam).Err?
    ensures RemoveVerticalSeam(c, seam).Err? ==> RemoveHorizontalSeam(Transposed(c), seam) == RemoveVerticalSeam(c, seam)
    ensures RemoveVerticalSeam(c, seam).Ok? ==>
              RemoveVerticalSeam(c, seam).value == Transposed(RemoveHorizontalSeam(Transposed(c), seam).value)
  {
    var t := Transposed(c);
    TransposedTwice(c);
    HorizontalRemovalIsTransposedVertical(t, seam);
    if RemoveVerticalSeam(c, seam).Ok? {
      TransposedTwice(RemoveVerticalSeam(c, seam).value);
    }
  }
}
