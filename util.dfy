/** Cell-index mapping and the bitmask wall test (src/util.rs). */
module Util {

  /** Rust's `x as usize` on a finite float: truncation toward zero, saturating to 0 below zero. */
  function AsUsize(x: real): (n: nat)
    ensures x >= 0.0 ==> n as real <= x < n as real + 1.0
    ensures x < 1.0 ==> n == 0
  {
    if x <= 0.0 then 0 else x.Floor
  }

  /** Index of the cell holding the point (x, y) in a grid `width` cells wide. */
  function GetIndex(x: real, y: real, width: nat, height: nat): nat
  {
    AsUsize(x) + AsUsize(y) * width
  }

  /** Euclidean division of `col + row * width` by `width` gives back `row` and `col`. */
  lemma DivModUnique(col: int, row: int, width: int)
    requires width > 0 && 0 <= col < width
    ensures (col + row * width) / width == row
    ensures (col + row * width) % width == col
  {
    var n := col + row * width;
    var q, r := n / width, n % width;
    assert n == q * width + r && 0 <= r < width;
    if q > row {
      assert (q - row) * width >= width by { MulAtLeast(q - row, width); }
      assert false;
    } else if q < row {
      assert (row - q) * width >= width by { MulAtLeast(row - q, width); }
      assert false;
    }
  }

  lemma MulAtLeast(k: int, width: int)
    requires k >= 1 && width > 0
    ensures k * width >= width
  {
  }

  /** `row * width + col` with `row < height`, `col < width` is a cell of the grid. */
  lemma CellInGrid(col: int, row: int, width: int, height: int)
    requires 0 <= col < width && 0 <= row < height
    ensures 0 <= col + row * width < width * height
  {
    assert row * width <= (height - 1) * width by { MulLeq(row, height - 1, width); }
  }

  lemma MulLeq(a: int, b: int, width: int)
    requires a <= b && width >= 0
    ensures a * width <= b * width
  {
  }

  /** For a point inside the grid the index is floor(x) + floor(y) * width and lies in the grid. */
  lemma GetIndexInGrid(x: real, y: real, width: nat, height: nat)
    requires 0.0 <= x < width as real && 0.0 <= y < height as real
    ensures GetIndex(x, y, width, height) == x.Floor + y.Floor * width
    ensures GetIndex(x, y, width, height) < width * height
  {
    CellInGrid(x.Floor, y.Floor, width, height);
  }

  /** The index depends on x, y and the width only: the height argument is never read. */
  lemma GetIndexIgnoresHeight(x: real, y: real, width: nat, h1: nat, h2: nat)
    ensures GetIndex(x, y, width, h1) == GetIndex(x, y, width, h2)
  {
  }

  /** The index decodes back to the column and the row: distinct in-grid cells get distinct indices. */
  lemma GetIndexDecode(x: real, y: real, width: nat, height: nat)
    requires 0.0 <= x < width as real && 0.0 <= y < height as real
    ensures GetIndex(x, y, width, height) % width == x.Floor
    ensures GetIndex(x, y, width, height) / width == y.Floor
  {
    DivModUnique(x.Floor, y.Floor, width);
  }

  /** Bit `k` of a 16-bit row, counted from the least significant bit. */
  function Bit(row: bv16, k: bv16): bool
    requires k < 16
  {
    (row >> k) & 1 == 1
  }

  /**
   * The wall lookup on whole cell coordinates: bit `bit` of row `line`, and "wall" for a
   * row past the end of `walls`. Shifting a `u16` by 16 or more overflows, so a row that
   * exists must be read at a bit position below 16.
   */
  function WallAt(walls: seq<bv16>, line: nat, bit: nat): bool
    requires line < |walls| ==> bit < 16
  {
    if line < |walls| then walls[line] & (1 << (bit as bv16)) != 0 else true
  }

  /** Is the point on the wall line `d1`, at position `d2`, on a wall? Both are truncated to cells. */
  function PointInWall(d1: real, d2: real, walls: seq<bv16>): bool
    requires AsUsize(d1) < |walls| ==> AsUsize(d2) < 16
  {
    WallAt(walls, AsUsize(d1), AsUsize(d2))
  }

  /** Outside the rows the answer is "wall"; inside it is exactly bit `bit` of row `line`. */
  lemma WallAtIsBit(walls: seq<bv16>, line: nat, bit: nat)
    requires line < |walls| ==> bit < 16
    ensures line >= |walls| ==> WallAt(walls, line, bit)
    ensures line < |walls| ==> WallAt(walls, line, bit) == Bit(walls[line], bit as bv16)
  {
    if line < |walls| {
      var k := bit as bv16;
      MaskIsBit(walls[line], k);
    }
  }

  /** The same for points: the row and the bit are the truncated coordinates. */
  lemma PointInWallIsBit(d1: real, d2: real, walls: seq<bv16>)
    requires AsUsize(d1) < |walls| ==> AsUsize(d2) < 16
    ensures AsUsize(d1) >= |walls| ==> PointInWall(d1, d2, walls)
    ensures AsUsize(d1) < |walls| ==> PointInWall(d1, d2, walls) == Bit(walls[AsUsize(d1)], AsUsize(d2) as bv16)
  {
    WallAtIsBit(walls, AsUsize(d1), AsUsize(d2));
  }

  /** A row with no wall bits set has no wall anywhere along it. */
  lemma EmptyRowHasNoWall(d1: real, d2: real, walls: seq<bv16>)
    requires AsUsize(d1) < |walls| && AsUsize(d2) < 16 && walls[AsUsize(d1)] == 0
    ensures !PointInWall(d1, d2, walls)
  {
    PointInWallIsBit(d1, d2, walls);
  }

  /** Masking with a one-bit mask reads the same bit as shifting it down. */
  lemma MaskIsBit(row: bv16, k: bv16)
    requires k < 16
    ensures (row & (1 << k) != 0) == Bit(row, k)
  {
  }
}
