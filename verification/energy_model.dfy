/** The energy of a pixel: 1000 on the border of the picture, and inside it
    the square root of the dual-gradient sum, the squared colour differences
    of the left/right and of the upper/lower neighbours.  The square root
    is the platform's floating-point one and is left abstract: it is a
    parameter `sqrt`, and everything below it is exact integer arithmetic. */
module EnergyModel {
  import opened Errors
  import opened Pixels

  /** The energy every border pixel gets. */
  const BorderEnergy: real := 1000.0

  /** The largest value of the squared colour difference of two pixels,
      3 * 255 * 255. */
  const MaxColorDistanceSq := 3 * MaxChannel * MaxChannel

  function Abs(n: int): nat {
    if n < 0 then -n else n
  }

  lemma SquareOfChannelDifference(d: nat)
    requires d <= MaxChannel
    ensures d * d <= MaxChannel * MaxChannel
    ensures d * d == 0 <==> d == 0
  {
  }

  /** The sum over the three channels of the squared difference of two
      colours: the common core of `xGradient` and `yGradient`. */
  function ColorDistanceSq(p: Pixel, q: Pixel): (d: nat)
    ensures d <= MaxColorDistanceSq
    ensures d == 0 <==> p == q
  {
    var r := Abs(p.red - q.red);
    var g := Abs(p.green - q.green);
    var b := Abs(p.blue - q.blue);
    SquareOfChannelDifference(r);
    SquareOfChannelDifference(g);
    SquareOfChannelDifference(b);
    r * r + g * g + b * b
  }

  /** The squared colour difference does not depend on the order of the
      two pixels. */
  lemma ColorDistanceSqSymmetric(p: Pixel, q: Pixel)
    ensures ColorDistanceSq(p, q) == ColorDistanceSq(q, p)
  {
  }

  /** A pixel is on the border when it is in the first or last column or
      in the first or last row. */
  predicate OnBorder(c: Carver, x: int, y: int) {
    x == 0 || x == c.width - 1 || y == 0 || y == c.height - 1
  }

  /** An interior pixel: in range and not on the border. */
  predicate Interior(c: Carver, x: int, y: int) {
    0 < x < c.width - 1 && 0 < y < c.height - 1
  }

  /** The squared gradient along the row: the colour difference of the left
      and the right neighbour. */
  function XGradient(c: Carver, x: int, y: int): (g: nat)
    requires c.Valid() && 0 < x && x + 1 < c.width && 0 <= y < c.height
    ensures g <= MaxColorDistanceSq
    ensures g == 0 <==> c.colorMatrix[x - 1][y] == c.colorMatrix[x + 1][y]
  {
    ColorDistanceSq(c.colorMatrix[x - 1][y], c.colorMatrix[x + 1][y])
  }

  /** The squared gradient along the column: the colour difference of the
      upper and the lower neighbour. */
  function YGradient(c: Carver, x: int, y: int): (g: nat)
    requires c.Valid() && 0 <= x < c.width && 0 < y && y + 1 < c.height
    ensures g <= MaxColorDistanceSq
    ensures g == 0 <==> c.colorMatrix[x][y - 1] == c.colorMatrix[x][y + 1]
  {
    ColorDistanceSq(c.colorMatrix[x][y - 1], c.colorMatrix[x][y + 1])
  }

  /** The dual-gradient sum of an interior pixel, the value whose square
      root is its energy.  It vanishes exactly when the left neighbour has
      the colour of the right one and the upper neighbour that of the lower
      one. */
  function GradientSq(c: Carver, x: int, y: int): (g: nat)
    requires c.Valid() && Interior(c, x, y)
    ensures g <= 2 * MaxColorDistanceSq
    ensures g == 0 <==> (c.colorMatrix[x - 1][y] == c.colorMatrix[x + 1][y]
                         && c.colorMatrix[x][y - 1] == c.colorMatrix[x][y + 1])
  {
    XGradient(c, x, y) + YGradient(c, x, y)
  }

  /** The energy of pixel (x, y).  The column is validated first, then the
      row; a border pixel has energy 1000, any other `sqrt` of its
      dual-gradient sum.  The grid is a value, so the call changes nothing. */
  function Energy(c: Carver, x: int, y: int, sqrt: nat -> real): (r: Result<real>)
    requires c.Valid()
    ensures !(0 <= x < c.width) ==> r == Err(ColumnOutOfRange(x))
    ensures 0 <= x < c.width && !(0 <= y < c.height) ==> r == Err(RowOutOfRange(y))
    ensures r.Ok? <==> 0 <= x < c.width && 0 <= y < c.height
    ensures r.Ok? && OnBorder(c, x, y) ==> r.value == BorderEnergy
    ensures r.Ok? && !OnBorder(c, x, y) ==> Interior(c, x, y) && r.value == sqrt(GradientSq(c, x, y))
  {
    match ValidateColumnIndex(c, x)
    case Fail(e) => Err(e)
    case Pass =>
      match ValidateRowIndex(c, y)
      case Fail(e) => Err(e)
      case Pass =>
        if OnBorder(c, x, y) then Ok(BorderEnergy)
        else Ok(sqrt(XGradient(c, x, y) + YGradient(c, x, y)))
  }

  /** The energy of an in-range pixel. */
  function EnergyAt(c: Carver, x: int, y: int, sqrt: nat -> real): real
    requires c.Valid() && 0 <= x < c.width && 0 <= y < c.height
  {
    Energy(c, x, y, sqrt).value
  }

  /** With a non-negative square root every energy is non-negative. */
  lemma EnergyNonNegative(c: Carver, x: int, y: int, sqrt: nat -> real)
    requires c.Valid() && 0 <= x < c.width && 0 <= y < c.height
    requires forall n :: 0.0 <= sqrt(n)
    ensures 0.0 <= EnergyAt(c, x, y, sqrt)
  {
  }

  /** In a picture of a single colour every interior pixel has a zero
      dual-gradient sum, so its energy is `sqrt(0)`. */
  lemma UniformInteriorEnergy(c: Carver, x: int, y: int, sqrt: nat -> real)
    requires c.Valid() && Interior(c, x, y)
    requires forall i, j :: 0 <= i < c.width && 0 <= j < c.height ==> c.colorMatrix[i][j] == c.colorMatrix[0][0]
    ensures Energy(c, x, y, sqrt) == Ok(sqrt(0))
  {
  }

  /** Energy does not care about orientation: pixel (y, x) of the transposed
      grid has the energy of pixel (x, y), since the border is symmetric and
      the two gradients trade places. */
  lemma EnergyOfTransposed(c: Carver, x: int, y: int, sqrt: nat -> real)
    requires c.Valid() && 0 <= x < c.width && 0 <= y < c.height
    ensures Energy(Transposed(c), y, x, sqrt) == Energy(c, x, y, sqrt)
  {
  }
}
