/** The pixel store: the picture held by a seam carver, as an immutable
    column-major grid of RGB colours (`colorMatrix[x][y]` is column `x`,
    row `y`), together with its construction from a decoded picture, its
    conversion back, and the index validators. */
module Pixels {
  import opened Errors

  const MaxChannel := 255

  /** One colour channel, 0..255. */
  type Channel = c: int | 0 <= c <= MaxChannel

  /** A colour, one value per channel. */
  datatype Pixel = Pixel(red: Channel, green: Channel, blue: Channel)

  /** A decoded picture as the codec delivers it: `rows[y][x]` is the pixel
      at column `x` and row `y`. */
  datatype Picture = Picture(width: int, height: int, rows: seq<seq<Pixel>>) {

    /** A picture has at least one column and one row and is rectangular. */
    predicate Valid() {
      && width >= 1
      && height >= 1
      && |rows| == height
      && forall y :: 0 <= y < height ==> |rows[y]| == width
    }

    function Get(x: int, y: int): Pixel
      requires Valid() && 0 <= x < width && 0 <= y < height
    {
      rows[y][x]
    }
  }

  /** The state of a seam carver: the colour grid and its dimensions. */
  datatype Carver = Carver(colorMatrix: seq<seq<Pixel>>, width: int, height: int) {

    /** The grid is `width` columns of `height` pixels, and neither
        dimension is ever below 1. */
    predicate Valid() {
      && width >= 1
      && height >= 1
      && |colorMatrix| == width
      && forall x :: 0 <= x < width ==> |colorMatrix[x]| == height
    }
  }

  /** Builds the carver from a picture, copying pixel (x, y) into
      `colorMatrix[x][y]`; a null picture is rejected. */
  function New(picture: Option<Picture>): (r: Result<Carver>)
    requires picture.Some? ==> picture.value.Valid()
    ensures r.Err? <==> picture.None?
    ensures r.Err? ==> r.error == NullPicture
    ensures r.Ok? ==> r.value.Valid()
    ensures r.Ok? ==> r.value.width == picture.value.width && r.value.height == picture.value.height
    ensures r.Ok? ==> forall x, y :: 0 <= x < r.value.width && 0 <= y < r.value.height ==>
                        r.value.colorMatrix[x][y] == picture.value.Get(x, y)
  {
    match picture
    case None => Err(NullPicture)
    case Some(p) =>
      var grid := seq(p.width, x requires 0 <= x < p.width =>
                    seq(p.height, y requires 0 <= y < p.height => p.rows[y][x]));
      Ok(Carver(grid, p.width, p.height))
  }

  /** The current picture: pixel (x, y) of the result is `colorMatrix[x][y]`. */
  function ToPicture(c: Carver): (p: Picture)
    requires c.Valid()
    ensures p.Valid() && p.width == c.width && p.height == c.height
    ensures forall x, y :: 0 <= x < c.width && 0 <= y < c.height ==> p.Get(x, y) == c.colorMatrix[x][y]
  {
    var rows := seq(c.height, y requires 0 <= y < c.height =>
                  seq(c.width, x requires 0 <= x < c.width => c.colorMatrix[x][y]));
    Picture(c.width, c.height, rows)
  }

  /** Reading the current picture back into a new carver gives the same carver. */
  lemma CarverPictureRoundTrip(c: Carver)
    requires c.Valid()
    ensures New(Some(ToPicture(c))) == Ok(c)
  {
    var r := New(Some(ToPicture(c))).value;
    assert |r.colorMatrix| == |c.colorMatrix|;
    forall x | 0 <= x < c.width
      ensures r.colorMatrix[x] == c.colorMatrix[x]
    {
      assert |r.colorMatrix[x]| == |c.colorMatrix[x]|;
    }
    assert r.colorMatrix == c.colorMatrix;
  }

  /** Building a carver from a picture and asking for its picture gives the
      original picture back. */
  lemma PictureCarverRoundTrip(p: Picture)
    requires p.Valid()
    ensures ToPicture(New(Some(p)).value) == p
  {
    var q := ToPicture(New(Some(p)).value);
    assert |q.rows| == |p.rows|;
    forall y | 0 <= y < p.height
      ensures q.rows[y] == p.rows[y]
    {
      assert |q.rows[y]| == |p.rows[y]|;
      assert forall x :: 0 <= x < p.width ==> q.rows[y][x] == q.Get(x, y);
    }
  }

  /** The column validator: passes exactly for indices in [0, width). */
  function ValidateColumnIndex(c: Carver, col: int): (r: Outcome)
    ensures r.Pass? <==> 0 <= col < c.width
    ensures r.Fail? ==> r.error == ColumnOutOfRange(col)
  {
    if col < 0 || col >= c.width then Fail(ColumnOutOfRange(col)) else Pass
  }

  /** The row validator: passes exactly for indices in [0, height). */
  function ValidateRowIndex(c: Carver, row: int): (r: Outcome)
    ensures r.Pass? <==> 0 <= row < c.height
    ensures r.Fail? ==> r.error == RowOutOfRange(row)
  {
    if row < 0 || row >= c.height then Fail(RowOutOfRange(row)) else Pass
  }

  /** Row `y` of the grid, read left to right. */
  function Row(c: Carver, y: int): (r: seq<Pixel>)
    requires c.Valid() && 0 <= y < c.height
    ensures |r| == c.width
    ensures forall x :: 0 <= x < c.width ==> r[x] == c.colorMatrix[x][y]
  {
    seq(c.width, x requires 0 <= x < c.width => c.colorMatrix[x][y])
  }

  /** `s` with the element at index `i` taken out and the rest closed up. */
  function Delete<T>(s: seq<T>, i: int): (r: seq<T>)
    requires 0 <= i < |s|
    ensures |r| == |s| - 1
    ensures forall j :: 0 <= j < |r| ==> r[j] == (if j < i then s[j] else s[j + 1])
    ensures multiset(r) + multiset{s[i]} == multiset(s)
  {
    assert s == s[..i] + [s[i]] + s[i + 1..];
    s[..i] + s[i + 1..]
  }

  /** The grid with columns and rows exchanged: column `y` of the result is
      row `y` of `c`. */
  function Transposed(c: Carver): (t: Carver)
    requires c.Valid()
    ensures t.Valid() && t.width == c.height && t.height == c.width
    ensures forall x, y :: 0 <= x < c.width && 0 <= y < c.height ==> t.colorMatrix[y][x] == c.colorMatrix[x][y]
  {
    var grid := seq(c.height, y requires 0 <= y < c.height => Row(c, y));
    Carver(grid, c.height, c.width)
  }

  /** Transposing twice gives the original grid back. */
  lemma TransposedTwice(c: Carver)
    requires c.Valid()
    ensures Transposed(Transposed(c)) == c
  {
    var t := Transposed(Transposed(c));
    assert |t.colorMatrix| == |c.colorMatrix|;
    forall x | 0 <= x < c.width
      ensures t.colorMatrix[x] == c.colorMatrix[x]
    {
      assert |t.colorMatrix[x]| == |c.colorMatrix[x]|;
    }
    assert t.colorMatrix == c.colorMatrix;
  }
}
