/**
  An abstract RGBA raster and the three image operations `square_image`
  uses: crop to a box, a new single-colour canvas, and paste (which
  overwrites, with no blending, since no mask is given).
 */
module Raster {
  import opened Color
  import opened Geometry

  /** `rows[y][x]` is the pixel in column `x` of row `y`. */
  datatype Image = Image(width: nat, height: nat, rows: seq<seq<Rgba>>)

  predicate Valid(im: Image) {
    |im.rows| == im.height && forall y :: 0 <= y < |im.rows| ==> |im.rows[y]| == im.width
  }

  function At(im: Image, x: int, y: int): Rgba
    requires Valid(im) && 0 <= x < im.width && 0 <= y < im.height
  {
    im.rows[y][x]
  }

  /** `Image.crop(box)` for a box inside the image: the pixels under the box,
      shifted to the origin. */
  function Crop(im: Image, b: Box): (r: Image)
    requires Valid(im) && b.Within(im.width, im.height)
    ensures Valid(r) && r.width == b.Width() && r.height == b.Height()
    ensures forall x, y :: 0 <= x < r.width && 0 <= y < r.height ==>
      At(r, x, y) == At(im, b.left + x, b.top + y)
  {
    Image(b.Width(), b.Height(),
      seq(b.Height(), y requires 0 <= y < b.Height() => im.rows[b.top + y][b.left..b.right]))
  }

  /** `Image.new("RGBA", (side, side), bg)`: a square canvas of one colour. */
  function Canvas(side: nat, bg: Rgba): (c: Image)
    ensures Valid(c) && c.width == side && c.height == side
    ensures forall x, y :: 0 <= x < side && 0 <= y < side ==> At(c, x, y) == bg
  {
    Image(side, side, seq(side, _ => seq(side, _ => bg)))
  }

  /** Whether canvas pixel (x, y) is covered by an image of `w` by `h` pasted at (dx, dy). */
  predicate Covered(x: int, y: int, dx: int, dy: int, w: nat, h: nat) {
    dx <= x < dx + w && dy <= y < dy + h
  }

  /** `canvas.paste(im, (dx, dy))`: the canvas with the pixels under the pasted
      image replaced by the image's; the part falling off the canvas is dropped. */
  function Paste(canvas: Image, im: Image, dx: int, dy: int): (r: Image)
    requires Valid(canvas) && Valid(im)
    ensures Valid(r) && r.width == canvas.width && r.height == canvas.height
    ensures forall x, y :: 0 <= x < r.width && 0 <= y < r.height ==>
      At(r, x, y) == if Covered(x, y, dx, dy, im.width, im.height)
                     then At(im, x - dx, y - dy) else At(canvas, x, y)
  {
    Image(canvas.width, canvas.height,
      seq(canvas.height, y requires 0 <= y < canvas.height =>
        seq(canvas.width, x requires 0 <= x < canvas.width =>
          if Covered(x, y, dx, dy, im.width, im.height)
          then im.rows[y - dy][x - dx] else canvas.rows[y][x])))
  }

  /** `square_image(im, mode, bg)`. */
  function SquareImage(im: Image, mode: string, bg: Rgba): (r: Image)
    requires Valid(im)
    ensures Valid(r) && r.width == r.height
    ensures im.width == im.height ==> r == im
    ensures im.width != im.height && mode == "crop" ==>
      && r.width == Min(im.width, im.height)
      && var b := CropBox(im.width, im.height);
         forall x, y :: 0 <= x < r.width && 0 <= y < r.height ==>
           At(r, x, y) == At(im, b.left + x, b.top + y)
    ensures im.width != im.height && mode != "crop" ==>
      && r.width == Max(im.width, im.height)
      && var p := PadPlacement(im.width, im.height);
         forall x, y :: 0 <= x < r.width && 0 <= y < r.height ==>
           At(r, x, y) == if Covered(x, y, p.dx, p.dy, im.width, im.height)
                          then At(im, x - p.dx, y - p.dy) else bg
  {
    match SquarePlan(im.width, im.height, mode)
    case Keep => im
    case CropTo(b) => Crop(im, b)
    case PadTo(p) => Paste(Canvas(p.side, bg), im, p.dx, p.dy)
  }

  /** Pasting overwrites without loss: cropping the result back to where the image
      went gives the image. */
  lemma {:induction false} PasteThenCropRecovers(canvas: Image, im: Image, dx: nat, dy: nat)
    requires Valid(canvas) && Valid(im)
    requires dx + im.width <= canvas.width && dy + im.height <= canvas.height
    ensures Crop(Paste(canvas, im, dx, dy), Box(dx, dy, dx + im.width, dy + im.height)) == im
  {
    var pasted := Paste(canvas, im, dx, dy);
    var c := Crop(pasted, Box(dx, dy, dx + im.width, dy + im.height));
    forall y | 0 <= y < im.height
      ensures c.rows[y] == im.rows[y]
    {
      forall x | 0 <= x < im.width
        ensures c.rows[y][x] == im.rows[y][x]
      {
        assert At(c, x, y) == At(pasted, dx + x, dy + y);
        assert Covered(dx + x, dy + y, dx, dy, im.width, im.height);
      }
    }
    assert c.rows == im.rows;
  }

  /** Letterboxing loses nothing: cropping the padded image back to where the
      original was pasted gives the original. */
  lemma PadThenCropRecovers(im: Image, bg: Rgba, mode: string)
    requires Valid(im) && im.width != im.height && mode != "crop"
    ensures var p := PadPlacement(im.width, im.height);
      Crop(SquareImage(im, mode, bg), Box(p.dx, p.dy, p.dx + im.width, p.dy + im.height)) == im
  {
    var p := PadPlacement(im.width, im.height);
    assert SquareImage(im, mode, bg) == Paste(Canvas(p.side, bg), im, p.dx, p.dy);
    PasteThenCropRecovers(Canvas(p.side, bg), im, p.dx, p.dy);
  }

  /** Every canvas pixel outside the pasted rectangle is the background colour. */
  lemma PadBorderIsBackground(im: Image, bg: Rgba, mode: string, x: int, y: int)
    requires Valid(im) && im.width != im.height && mode != "crop"
    requires var p := PadPlacement(im.width, im.height);
      0 <= x < p.side && 0 <= y < p.side && !Covered(x, y, p.dx, p.dy, im.width, im.height)
    ensures At(SquareImage(im, mode, bg), x, y) == bg
  {
  }

  /** Squaring twice is squaring once, whatever the second mode and colour. */
  lemma SquareIdempotent(im: Image, mode: string, bg: Rgba, mode2: string, bg2: Rgba)
    requires Valid(im)
    ensures SquareImage(SquareImage(im, mode, bg), mode2, bg2) == SquareImage(im, mode, bg)
  {
  }
}
