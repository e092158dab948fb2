# Favicon generator: verified model of the colour decoder and the squarer

The favicon generator turns one source image into a set of icons. The program itself
computes very little; it hands decoding, resampling and encoding to an imaging
library. This project models the logic the program does compute:

- **Background colour** (`--bg`). All leading `#` characters are stripped (Python's
  `lstrip("#")`). A payload of 6 hex digits is opaque RGB. A payload of 8 digits is
  RGBA. A payload of any other length falls back to transparent black `(0,0,0,0)`.
  A 6- or 8-character payload with a character that is not a hex digit is an error.
  The program does not catch that error, so it ends the run.
- **Squaring** (`square_image`). A square image is returned unchanged. In mode
  `"crop"` the image is centre-cropped to side `min(w, h)`. In every other mode it
  is pasted, centred, on a canvas of side `max(w, h)` filled with the background
  colour. Offsets use floor division, so an odd spare pixel goes to the right or
  bottom edge.
- **Targets**. The ICO sizes (16, 32, 48) and the eight PNG outputs each become a
  square `(s, s)` resize target.

Modules:

- `Results`: the `Result` datatype.
- `Hex`: hex digits and the value of a hex string.
- `Color`: `lstrip("#")`, payload decoding and the `--bg` parser, plus an encoder
  that serves as the parser's inverse.
- `Geometry`: the crop box, the pad placement and the choice between them.
- `Raster`: an abstract RGBA pixel grid with crop, canvas and paste, and
  `square_image` on it.
- `Favicon`: the size tables, the resize targets and one whole run (`Generate`).

Two facts about the code shape the model:

- A 6- or 8-character payload with a non-hex character makes `int(…, 16)` raise. Only
  other lengths fall back to `(0,0,0,0)`.
- `main` writes eight PNGs: 16, 32, 180, 192, 512, the 150 tile, 256 and 384.

## Model

| member | source | states |
|---|---|---|
| Hex.HexValue | favicon_generator.py:51 | `int(x, 16)` of a hex-digit string is below 16 to the power of its length |
| Hex.PairValue | favicon_generator.py:51-52 | a two-digit pair is worth 16·first + second and lies in [0, 255] |
| Hex.EncodeDecodePair | favicon_generator.py:51-52 | decoding a pair and re-encoding the value gives the pair back, lower-cased: the channel is the literal pair's value |
| Color.StripHashes | favicon_generator.py:49 | `lstrip("#")` drops a prefix made only of `#` and leaves a suffix that does not start with `#` |
| Color.StripHashesUnique | favicon_generator.py:49 | that prefix is exactly the run of leading `#`, so lstrip is determined by where the run ends |
| Color.LeadingHashesIgnored | favicon_generator.py:49 | any number of extra leading `#` leaves the decoded colour unchanged, e.g. `##112233` |
| Color.Channel | favicon_generator.py:51-52 | each decoded channel lies in [0, 255] |
| Color.DecodePayload | favicon_generator.py:50-54 | a length other than 6 or 8 gives exactly `(0,0,0,0)` with no error; it is an error iff the length is 6 or 8 and some character is not a hex digit; decoded colours have byte channels; a 6-digit payload has alpha 255 |
| Color.ParseBg | favicon_generator.py:49-54 | the same facts stated for the raw `--bg` argument, in terms of what lstrip leaves |
| Color.DecodeSixDigits | favicon_generator.py:50-52 | six hex digits decode to (pair0, pair1, pair2, 255) |
| Color.DecodeEightDigits | favicon_generator.py:50-52 | eight hex digits decode to (pair0, pair1, pair2, pair3), alpha from characters 6–8 |
| Color.ParseFormatRoundTrip | favicon_generator.py:49-52 | every colour with byte channels, written as `#rrggbbaa`, parses back to itself |
| Color.ParseFormatOpaqueRoundTrip | favicon_generator.py:49-52 | every opaque colour, written as `#rrggbb`, parses back to itself with alpha 255 |
| Color.FormatDecodeRoundTrip | favicon_generator.py:50-52 | eight hex digits always decode, and the colour is written back as the same digits in lower case, so no digit is lost |
| Color.FormatDecodeOpaqueRoundTrip | favicon_generator.py:50-52 | six hex digits always decode, and the opaque colour is written back as the same digits in lower case |
| Color.FormatParseRoundTrip | favicon_generator.py:50-52 | the same for the raw argument: an 8-digit payload that parses is written back as itself in lower case |
| Color.DefaultBackground | favicon_generator.py:39-52 | the default `#00000000` decodes to transparent black |
| Geometry.Half | favicon_generator.py:20-21 | `n // 2` is the floor of n/2 |
| Geometry.CropBox | favicon_generator.py:18-22 | the crop box has side `min(w,h)`, lies inside `[0,w]×[0,h]`, and any odd leftover goes right/bottom: `left ≤ w−side−left ≤ left+1` |
| Geometry.CropBoxUnique | favicon_generator.py:19-22 | any box of side `min(w,h)` balanced that way is the crop box, so the floor-division offsets are the centring |
| Geometry.PadPlacement | favicon_generator.py:24-26 | the canvas side is `max(w,h)`, the pasted image lies inside it, and any odd spare pixel goes right/bottom |
| Geometry.PadPlacementUnique | favicon_generator.py:24-26 | any balanced placement on that canvas is the one the program picks |
| Geometry.SquarePlan | favicon_generator.py:14-28 | keep iff square; crop iff not square and mode is `"crop"`; pad iff not square and any other mode |
| Geometry.PlannedSizeIsSquare | favicon_generator.py:14-28 | the planned output is square, of side `min(w,h)` when cropping and `max(w,h)` when padding, and positive when w, h > 0 |
| Raster.Crop | favicon_generator.py:22 | the cropped image has the box's size and each pixel is the original pixel under the box |
| Raster.Canvas | favicon_generator.py:25 | the new canvas is `side × side` with every pixel `bg` |
| Raster.Paste | favicon_generator.py:27 | paste keeps the canvas size, replaces pixels under the pasted image with the image's, and changes nothing else |
| Raster.SquareImage | favicon_generator.py:10-28 | output is square; a square input is returned unchanged whatever the mode and background; crop gives side `min` with the centre pixels; pad gives side `max` with the image inside its rectangle and `bg` everywhere else |
| Raster.PasteThenCropRecovers | favicon_generator.py:27 | paste overwrites without loss: cropping the result at the paste rectangle gives the pasted image back |
| Raster.PadThenCropRecovers | favicon_generator.py:23-28 | padding loses nothing: cropping the padded image at the paste rectangle gives back the original |
| Raster.PadBorderIsBackground | favicon_generator.py:23-28 | every canvas pixel outside the pasted rectangle equals `bg` |
| Raster.SquareIdempotent | favicon_generator.py:14-16 | squaring an already squared image changes nothing, whatever the second mode and background |
| Favicon.SquareTargets | favicon_generator.py:57 | `[(s, s) for s in sizes]` has one target per size and each is square |
| Favicon.SquareTargetsRecoverSizes | favicon_generator.py:57 | the targets' sides are exactly the size table, in order |
| Favicon.PngOutputsMatchTables | favicon_generator.py:60-68 | every size in `PNG_SIZES` (line 7) is written, `MS_TILE` (line 8) is written, and nothing else is |
| Favicon.PngNamesDistinct | favicon_generator.py:60-68 | the eight PNG file names differ, so no output overwrites another |
| Favicon.Generate | favicon_generator.py:48-68 | a run fails iff the colour decoder rejects `--bg`; otherwise the squared image is square, the ICO targets are `(s, s)` for 16, 32 and 48, and each of the eight PNGs is written as `<name>.png` at `s × s` for its table entry (`save_png`, lines 30-31) |
| Favicon.DefaultRunPadsTransparent | favicon_generator.py:39-55 | with the default `--bg` a run succeeds and pads with transparent black, the same as with an empty payload |

## Left out

- Color.ParseBg: Python's `int(x, 16)` also accepts some two-character pairs that are not two hex digits: a sign (`+f`, `-f`), surrounding whitespace (`" f"`) and non-ASCII decimal digits. The model treats every payload with a non-hex character as the error `NotHex`. For such inputs the program may instead produce a channel, possibly a negative one.
- Color.DecodePayload: same simplification as `Color.ParseBg` for sign, whitespace and non-ASCII digits inside a pair.
- Raster.Crop: the model only covers boxes inside the image. Those are the only boxes `square_image` forms (`Geometry.CropBox` proves it). The library's zero fill for boxes reaching outside the image is not modelled.
- Favicon.Generate: resized pixels are not modelled; only each PNG's name and dimensions are. The ICO writer's own handling of its size list is not modelled either; the model keeps the requested targets.
- Image decoding, `convert("RGBA")`, LANCZOS resampling and PNG/ICO encoding belong to the imaging library and involve floating point. The source image enters as an already decoded RGBA grid.
- Command-line parsing is left out. `argparse` limits `--mode` to `pad`/`crop`, but `square_image` accepts any string, so the model takes any string and treats everything but `"crop"` as padding.
- Directory creation and file writes are left out as I/O, and so is the console output.
- The JSON manifest, `browserconfig.xml` and the HTML snippet are fixed text with one brand-name interpolation and no logic to verify, so they are left out.
- Integer widths: image sizes are Python integers with no wrap-around, so `nat` needs no width model.
