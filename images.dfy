/** Pixel grids, the luma weights and the grayscale conversion. */
module Images {

  /** One decoded pixel; only the first three channels are read. */
  datatype Rgb = Rgb(r: real, g: real, b: real)

  /** A decoded image: rows of pixels, row index first (img[y][x]). */
  type Image = seq<seq<Rgb>>

  /** `rows` is a rectangle of `height` rows, each `width` cells long. */
  predicate IsGrid<T>(rows: seq<seq<T>>, height: nat, width: nat)
  {
    |rows| == height && forall y :: 0 <= y < height ==> |rows[y]| == width
  }

  /** A non-empty rectangular image, as a decoder produces it. */
  predicate IsImage(img: Image)
  {
    |img| > 0 && IsGrid(img, |img|, |img[0]|)
  }

  function Min(a: real, b: real): real { if a <= b then a else b }
  function Max(a: real, b: real): real { if a <= b then b else a }

  /** The brightness of one pixel with the 0.299 / 0.587 / 0.114 weights.
      The weights sum to one, so the result lies between the smallest and
      the largest channel, and a gray pixel keeps its channel value. */
  function Luma(p: Rgb): (l: real)
    ensures Min(p.r, Min(p.g, p.b)) <= l <= Max(p.r, Max(p.g, p.b))
    ensures p.r == p.g == p.b ==> l == p.r
  {
    0.299 * p.r + 0.587 * p.g + 0.114 * p.b
  }

  /** The brightness grid of an image, cell by cell. */
  function GrayOf(img: Image): seq<seq<real>>
  {
    seq(|img|, y requires 0 <= y < |img| =>
      seq(|img[y]|, x requires 0 <= x < |img[y]| => Luma(img[y][x])))
  }

  /** The contents of a two-dimensional array, row by row. */
  ghost function Rows(a: array2<real>): (rows: seq<seq<real>>)
    reads a
    ensures IsGrid(rows, a.Length0, a.Length1)
  {
    seq(a.Length0, y requires 0 <= y < a.Length0 reads a =>
      seq(a.Length1, x requires 0 <= x < a.Length1 reads a => a[y, x]))
  }

  /** Fills a fresh height-by-width array with the luma of every pixel,
      row by row. */
  method Grayscale(img: Image) returns (result: array2<real>)
    requires IsImage(img)
    ensures result.Length0 == |img| && result.Length1 == |img[0]|
    ensures Rows(result) == GrayOf(img)
  {
    var height := |img|;
    var width := |img[0]|;
    result := new real[height, width]((_, _) => 0.0);
    for y := 0 to height
      invariant forall r, c :: 0 <= r < y && 0 <= c < width ==> result[r, c] == Luma(img[r][c])
    {
      for x := 0 to width
        invariant forall r, c :: 0 <= r < y && 0 <= c < width ==> result[r, c] == Luma(img[r][c])
        invariant forall c :: 0 <= c < x ==> result[y, c] == Luma(img[y][c])
      {
        result[y, x] := Luma(img[y][x]);
      }
    }
    forall y | 0 <= y < height
      ensures Rows(result)[y] == GrayOf(img)[y]
    {
    }
  }

  /** An image whose pixels are all the gray level `c` has a brightness
      grid of the same shape holding `c` everywhere. */
  lemma GrayImageIsUniform(img: Image, c: real)
    requires IsImage(img)
    requires forall y, x :: 0 <= y < |img| && 0 <= x < |img[y]| ==> img[y][x] == Rgb(c, c, c)
    ensures IsGrid(GrayOf(img), |img|, |img[0]|)
    ensures forall y, x :: 0 <= y < |img| && 0 <= x < |img[0]| ==> GrayOf(img)[y][x] == c
  {
  }
}
