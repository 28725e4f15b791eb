/** Grayscale frames as the scorers see them: `GrayImage` rows of 8-bit luma values. */
module Image {

  datatype GrayImage = GrayImage(width: nat, height: nat, rows: seq<seq<int>>)

  /** `height` rows of `width` pixels, each an 8-bit luma value. */
  ghost predicate WellFormed(img: GrayImage) {
    && |img.rows| == img.height
    && forall y :: 0 <= y < |img.rows| ==>
         |img.rows[y]| == img.width && forall x :: 0 <= x < |img.rows[y]| ==> 0 <= img.rows[y][x] <= 255
  }

  type Image = img: GrayImage | WellFormed(img) witness GrayImage(0, 0, [])

  /** `get_pixel(x, y)[0]`. */
  function Pixel(img: Image, x: nat, y: nat): int
    requires x < img.width && y < img.height
  {
    img.rows[y][x]
  }

  /** The image extended with zeros outside its bounds. */
  function At(img: Image, x: int, y: int): int {
    if 0 <= x < img.width && 0 <= y < img.height then Pixel(img, x, y) else 0
  }

  /** The 4-neighbour Laplacian [0 1 0; 1 -4 1; 0 1 0] of the zero-extended image. */
  function Kernel4(img: Image, x: int, y: int): int {
    At(img, x, y - 1) + At(img, x, y + 1) + At(img, x - 1, y) + At(img, x + 1, y) - 4 * At(img, x, y)
  }

  ghost predicate IsConstant(img: Image, c: int) {
    forall x, y :: 0 <= x < img.width && 0 <= y < img.height ==> Pixel(img, x, y) == c
  }

  function Abs(v: int): (r: nat)
    ensures r == v || r == -v
  {
    if v < 0 then -v else v
  }
}
