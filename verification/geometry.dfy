/**
  Integer geometry of `square_image`: which box a non-square image is
  cropped to, or where it is pasted on a square canvas.
 */
module Geometry {

  function Min(a: int, b: int): int {
    if a <= b then a else b
  }

  function Max(a: int, b: int): int {
    if a <= b then b else a
  }

  /** Python's `n // 2`. Dafny's `/` rounds down whenever the divisor is positive,
      which is exactly Python's floor division, negative `n` included. */
  function Half(n: int): (q: int)
    ensures 2 * q <= n <= 2 * q + 1
  {
    n / 2
  }

  /** A PIL box: columns `left` up to (not including) `right`, rows `top` up to `bottom`. */
  datatype Box = Box(left: int, top: int, right: int, bottom: int) {

    function Width(): int {
      right - left
    }

    function Height(): int {
      bottom - top
    }

    /** Inside an image of `w` by `h` pixels. */
    predicate Within(w: int, h: int) {
      0 <= left <= right <= w && 0 <= top <= bottom <= h
    }
  }

  /** Where an image is pasted on a square canvas of side `side`. */
  datatype Placement = Placement(side: nat, dx: int, dy: int)

  /** What `square_image` does to an image of a given size. */
  datatype Plan =
    | Keep
    | CropTo(box: Box)
    | PadTo(place: Placement)

  /** The centre crop: side `min(w, h)`, and when the spare pixels do not split
      evenly the odd one stays on the right or at the bottom. */
  function CropBox(w: nat, h: nat): (b: Box)
    ensures b.Within(w, h)
    ensures b.Width() == Min(w, h) && b.Height() == Min(w, h)
    ensures b.left <= w - b.right <= b.left + 1
    ensures b.top <= h - b.bottom <= b.top + 1
  {
    var side := Min(w, h);
    var left := Half(w - side);
    var top := Half(h - side);
    Box(left, top, left + side, top + side)
  }

  /** The crop box is the only box of side `min(w, h)` balanced that way. */
  lemma CropBoxUnique(w: nat, h: nat, b: Box)
    requires b.right == b.left + Min(w, h) && b.bottom == b.top + Min(w, h)
    requires b.left <= w - b.right <= b.left + 1
    requires b.top <= h - b.bottom <= b.top + 1
    ensures b == CropBox(w, h)
  {
  }

  /** The letterbox: a canvas of side `max(w, h)` with the image centred on it,
      any odd spare pixel again on the right or at the bottom. */
  function PadPlacement(w: nat, h: nat): (p: Placement)
    ensures p.side == Max(w, h)
    ensures 0 <= p.dx && p.dx + w <= p.side
    ensures 0 <= p.dy && p.dy + h <= p.side
    ensures p.dx <= p.side - w - p.dx <= p.dx + 1
    ensures p.dy <= p.side - h - p.dy <= p.dy + 1
  {
    var side := Max(w, h);
    Placement(side, Half(side - w), Half(side - h))
  }

  /** The centred placement is the only balanced one on a canvas of side `max(w, h)`. */
  lemma PadPlacementUnique(w: nat, h: nat, p: Placement)
    requires p.side == Max(w, h)
    requires p.dx <= p.side - w - p.dx <= p.dx + 1
    requires p.dy <= p.side - h - p.dy <= p.dy + 1
    ensures p == PadPlacement(w, h)
  {
  }

  /** `square_image`'s choice: a square image is left alone; otherwise mode
      "crop" crops and every other mode pads. */
  function SquarePlan(w: nat, h: nat, mode: string): (p: Plan)
    ensures p.Keep? <==> w == h
    ensures p.CropTo? <==> w != h && mode == "crop"
    ensures p.PadTo? <==> w != h && mode != "crop"
  {
    if w == h then Keep
    else if mode == "crop" then CropTo(CropBox(w, h))
    else PadTo(PadPlacement(w, h))
  }

  /** The width and height of the image a plan produces. */
  function PlannedSize(w: nat, h: nat, p: Plan): (wh: (int, int)) {
    match p
    case Keep => (w, h)
    case CropTo(b) => (b.Width(), b.Height())
    case PadTo(pl) => (pl.side, pl.side)
  }

  /** Squaring always yields a square: of side `min(w, h)` when cropping and
      `max(w, h)` when padding; and it is positive when both sides are. */
  lemma PlannedSizeIsSquare(w: nat, h: nat, mode: string)
    ensures var wh := PlannedSize(w, h, SquarePlan(w, h, mode));
      && wh.0 == wh.1
      && (w == h ==> wh.0 == w)
      && (w != h && mode == "crop" ==> wh.0 == Min(w, h))
      && (w != h && mode != "crop" ==> wh.0 == Max(w, h))
      && (w > 0 && h > 0 ==> wh.0 > 0)
  {
  }
}
