/** Rectangles of raster pixels and the row-major layout of the per-tile working arrays. */
module Geometry {

  /** A pixel position `(x, y)` of the scene raster. */
  type Pixel = (int, int)

  /** A `java.awt.Rectangle`: top-left corner and size. */
  datatype Rect = Rect(x: int, y: int, width: int, height: int)

  predicate Contains(r: Rect, p: Pixel) {
    r.x <= p.0 < r.x + r.width && r.y <= p.1 < r.y + r.height
  }

  /** `Rectangle.grow(h, v)`: widen by `h` on the left and right, by `v` on top and bottom. */
  function Grow(r: Rect, h: int, v: int): (g: Rect)
    ensures g.x == r.x - h && g.y == r.y - v
    ensures g.x + g.width == r.x + r.width + h && g.y + g.height == r.y + r.height + v
    ensures h >= 0 && v >= 0 ==> forall p :: Contains(r, p) ==> Contains(g, p)
  {
    Rect(r.x - h, r.y - v, r.width + 2 * h, r.height + 2 * v)
  }

  /** Number of entries of an array laid out over the rectangle. */
  function Area(r: Rect): int {
    r.width * r.height
  }

  /** Position of pixel `p` in a row-major array laid out over `r`. */
  function LocalIndex(r: Rect, p: Pixel): int {
    (p.1 - r.y) * r.width + (p.0 - r.x)
  }

  /** Row-major indices of a `width x height` block stay inside its array. */
  lemma RowMajorInBounds(a: int, b: int, width: int, height: int)
    requires 0 <= a < width && 0 <= b < height
    ensures 0 <= b * width + a < width * height
  {
    assert b * width <= (height - 1) * width;
    assert (height - 1) * width + width == height * width;
  }

  /** Decoding a row-major index recovers its column and row. */
  lemma RowMajorDecode(a: int, b: int, width: int)
    requires 0 <= a < width && 0 <= b
    ensures (b * width + a) / width == b && (b * width + a) % width == a
  {
    var k := b * width + a;
    var e := k / width - b;
    assert width * e == a - k % width;
    assert e >= 1 ==> width * e >= width;
    assert e <= -1 ==> width * e <= -width;
  }

  /** Every index of a `width x height` array is the row-major index of one of its pixels. */
  lemma RowMajorCover(k: int, width: int, height: int)
    requires 0 <= k < width * height && width >= 0
    ensures width > 0
    ensures 0 <= k % width < width && 0 <= k / width < height
    ensures (k / width) * width + k % width == k
  {
    assert width == 0 ==> width * height == 0;
    var b := k / width;
    assert b >= height ==> b * width >= height * width;
  }

  /**
   * A tile's source rectangle `grow(r, r)` is exactly the padded block the crop
   * expects: `w + 2r` by `h + 2r` entries, and target pixel `(x + a, y + b)` sits
   * at position `(b + r)(w + 2r) + (a + r)` of its arrays.
   */
  lemma GrowMatchesPadding(target: Rect, radius: int, a: int, b: int)
    requires radius >= 0 && 0 <= a < target.width && 0 <= b < target.height
    ensures var source := Grow(target, radius, radius);
            && source.width == target.width + 2 * radius
            && source.height == target.height + 2 * radius
            && Area(source) == (target.width + 2 * radius) * (target.height + 2 * radius)
            && Contains(source, (target.x + a, target.y + b))
            && LocalIndex(source, (target.x + a, target.y + b)) == (b + radius) * (target.width + 2 * radius) + (a + radius)
  {
  }
}
