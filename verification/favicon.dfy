/**
  The generator's run, minus file I/O: decode the background colour, square
  the image, and list the square targets every icon is resized to.
 */
module Favicon {
  import opened Results
  import opened Color
  import opened Geometry
  import opened Raster

  const IcoSizes: seq<nat> := [16, 32, 48]
  const PngSizes: seq<nat> := [16, 32, 180, 192, 256, 384, 512]
  const MsTile: nat := 150

  /** One PNG the run writes: its file name without `.png` and the side it is resized to. */
  datatype PngOutput = PngOutput(name: string, size: nat)

  /** The PNGs `main` writes, in order: six explicit calls and then the loop over 256 and 384. */
  const PngOutputs: seq<PngOutput> := [
    PngOutput("favicon-16x16", 16),
    PngOutput("favicon-32x32", 32),
    PngOutput("apple-touch-icon", 180),
    PngOutput("android-chrome-192x192", 192),
    PngOutput("android-chrome-512x512", 512),
    PngOutput("mstile-150x150", MsTile),
    PngOutput("icon-256x256", 256),
    PngOutput("icon-384x384", 384)
  ]

  /** `[(s, s) for s in sizes]`: one square target per listed size, in order. */
  function SquareTargets(sizes: seq<nat>): (r: seq<(nat, nat)>)
    ensures |r| == |sizes|
    ensures forall i :: 0 <= i < |r| ==> r[i].0 == r[i].1
  {
    seq(|sizes|, i requires 0 <= i < |sizes| => (sizes[i], sizes[i]))
  }

  function Sides(targets: seq<(nat, nat)>): (s: seq<nat>)
    ensures |s| == |targets|
  {
    seq(|targets|, i requires 0 <= i < |targets| => targets[i].0)
  }

  /** The square targets give back the size table they came from. */
  lemma SquareTargetsRecoverSizes(sizes: seq<nat>)
    ensures Sides(SquareTargets(sizes)) == sizes
  {
  }

  /** The sides of the PNGs `main` writes, in order. */
  function SizesOf(outputs: seq<PngOutput>): (s: seq<nat>)
    ensures |s| == |outputs|
  {
    seq(|outputs|, i requires 0 <= i < |outputs| => outputs[i].size)
  }

  /** The PNG sizes written are exactly the PNG table plus the tile size. */
  lemma PngOutputsMatchTables()
    ensures forall s :: s in PngSizes ==> s in SizesOf(PngOutputs)
    ensures MsTile in SizesOf(PngOutputs)
    ensures forall s :: s in SizesOf(PngOutputs) ==> s in PngSizes || s == MsTile
  {
    assert SizesOf(PngOutputs) == [16, 32, 180, 192, 512, 150, 256, 384];
  }

  /** No two PNGs share a file name, so none overwrites another. */
  lemma PngNamesDistinct()
    ensures forall i, j :: 0 <= i < j < |PngOutputs| ==> PngOutputs[i].name != PngOutputs[j].name
  {
    forall i, j | 0 <= i < j < |PngOutputs|
      ensures PngOutputs[i].name != PngOutputs[j].name
    {
      var a, b := PngOutputs[i].name, PngOutputs[j].name;
      assert |a| != |b| || a[|a| - 2] != b[|b| - 2];
    }
  }

  /** One resized asset: `im.resize((size, size))` followed by a save. The pixels
      are the resampler's business; the model keeps the name and dimensions. */
  datatype Asset = Asset(name: string, width: nat, height: nat)

  function Resized(o: PngOutput): Asset {
    Asset(o.name + ".png", o.size, o.size)
  }

  /** Everything a run produces from the source image. */
  datatype Bundle = Bundle(square: Image, icoTargets: seq<(nat, nat)>, pngs: seq<Asset>)

  /** A run of `main` on an RGBA image with the given `--mode` and `--bg`: a payload
      the decoder rejects stops the run; otherwise every output is square and each
      PNG is written under its table name. */
  function Generate(im: Image, mode: string, bgArg: string): (r: Result<Bundle, BgError>)
    requires Valid(im)
    ensures r.Err? <==> ParseBg(bgArg).Err?
    ensures r.Err? ==> r.error == ParseBg(bgArg).error
    ensures r.Ok? ==>
      && r.value.square == SquareImage(im, mode, ParseBg(bgArg).value)
      && Valid(r.value.square) && r.value.square.width == r.value.square.height
      && Sides(r.value.icoTargets) == IcoSizes
      && (forall i :: 0 <= i < |r.value.icoTargets| ==> r.value.icoTargets[i].0 == r.value.icoTargets[i].1)
      && |r.value.pngs| == |PngOutputs|
      && (forall i :: 0 <= i < |r.value.pngs| ==>
            && r.value.pngs[i].name == PngOutputs[i].name + ".png"
            && r.value.pngs[i].width == r.value.pngs[i].height == PngOutputs[i].size)
  {
    match ParseBg(bgArg)
    case Err(e) => Err(e)
    case Ok(bg) =>
      var targets := SquareTargets(IcoSizes);
      SquareTargetsRecoverSizes(IcoSizes);
      Ok(Bundle(SquareImage(im, mode, bg), targets,
        seq(|PngOutputs|, i requires 0 <= i < |PngOutputs| => Resized(PngOutputs[i]))))
  }

  /** With the default `--bg` the padding is transparent black. */
  lemma DefaultRunPadsTransparent(im: Image, mode: string)
    requires Valid(im)
    ensures Generate(im, mode, "#00000000") == Generate(im, mode, "")
    ensures Generate(im, mode, "").Ok?
    ensures Generate(im, mode, "").value.square == SquareImage(im, mode, TransparentBlack)
  {
    DefaultBackground();
  }
}
