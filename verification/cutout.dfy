/** The cutout transform: with probability `origProb` return the image as
    it is; otherwise cut `nHoles` square holes of side `length` into an
    all-ones mask, invert the mask for the "preserve" variant, and multiply
    it into every channel of the image.

    The random draws are inputs: `draw` is the value of `random.random()`
    and `centres` are the `(y, x)` pairs drawn by `np.random.randint`, in
    drawing order. */
module Cutout {
  import opened Tensor
  import opened Hole
  import opened Mask

  /** The two recognised kinds of cutout. */
  datatype Variant =
    | Delete    // zero the holes, keep the rest
    | Preserve  // keep the holes, zero the rest

  /** The ways a call can fail. */
  datatype Error =
    | EmptyDrawRange  // `np.random.randint(0)` raises: holes requested in an image with no rows or no columns
    | UnknownVariant  // the variant is neither "preserve" nor "delete" (`assert False`)

  datatype Result<+T> = Ok(value: T) | Err(error: Error)

  /** The fields stored by `Cutout.__init__`. */
  datatype Config = Config(nHoles: int, length: int, origProb: real, variant: string)

  /** `Cutout(n_holes, length, orig_prob=0.0, variant='delete')`. */
  function NewCutout(nHoles: int, length: int, origProb: real := 0.0, variant: string := "delete"): Config {
    Config(nHoles, length, origProb, variant)
  }

  /** The string that selects `v`. */
  function VariantName(v: Variant): string {
    match v
    case Delete => "delete"
    case Preserve => "preserve"
  }

  /** The variant switch: "preserve" and "delete" are recognised, any other
      string is an error. */
  function ParseVariant(s: string): (r: Result<Variant>)
    ensures r.Ok? ==> VariantName(r.value) == s
    ensures r.Err? ==> r.error == UnknownVariant
  {
    if s == "preserve" then Ok(Preserve)
    else if s == "delete" then Ok(Delete)
    else Err(UnknownVariant)
  }

  /** Every variant's name parses back to it, so a string is rejected
      exactly when it names no variant. */
  lemma ParseVariantName(v: Variant)
    ensures ParseVariant(VariantName(v)) == Ok(v)
  {
  }

  /** The mask the variant multiplies in: the mask itself for Delete, its
      complement `1. - mask` for Preserve. */
  function VariantMask(mask: Grid, v: Variant): (m: Grid)
    requires IsBinary(mask)
    ensures IsBinary(m)
    ensures |m| == |mask| && forall i | 0 <= i < |mask| :: |m[i]| == |mask[i]|
    ensures forall i, j | 0 <= i < |mask| && 0 <= j < |mask[i]| ::
      m[i][j] == 1.0 <==> (mask[i][j] == 0.0 <==> v == Preserve)
  {
    match v
    case Delete => mask
    case Preserve => Invert(mask)
  }

  /** `range(n_holes)` runs max(n_holes, 0) times. */
  function Iterations(nHoles: int): nat {
    if nHoles <= 0 then 0 else nHoles
  }

  /** The bypass: `orig_prob >= random.random()`. */
  predicate Skips(cfg: Config, draw: real) {
    cfg.origProb >= draw
  }

  /** A `np.random.randint` of the first loop iteration raises, because the
      loop runs and the image has no rows or no columns to draw from. */
  predicate DrawFails(cfg: Config, img: Image) {
    Iterations(cfg.nHoles) > 0 && (img.height == 0 || img.width == 0)
  }

  /** `centres` are the centres the source would draw: one per loop
      iteration, each row in [0, h) and each column in [0, w). They are not
      drawn at all when the bypass is taken or the first draw fails. */
  predicate DrawsFit(cfg: Config, img: Image, draw: real, centres: seq<Point>) {
    || Skips(cfg, draw)
    || DrawFails(cfg, img)
    || (&& |centres| == Iterations(cfg.nHoles)
        && forall k | 0 <= k < |centres| :: 0 <= centres[k].y < img.height && 0 <= centres[k].x < img.width)
  }

  /** Cell (i, j) lies in the clamped rectangle of at least one drawn hole. */
  predicate InHole(cfg: Config, img: Image, centres: seq<Point>, i: int, j: int) {
    Covered(HolesOf(centres, cfg.length, img.height, img.width), i, j)
  }

  /** `Cutout.__call__`. The bypass returns the input itself; otherwise the
      result has the input's shape, or the call fails because a centre
      cannot be drawn or the variant is not recognised. */
  function Call(cfg: Config, img: Image, draw: real, centres: seq<Point>): (r: Result<Image>)
    requires img.Valid()
    requires 0.0 <= draw < 1.0
    requires DrawsFit(cfg, img, draw, centres)
    ensures Skips(cfg, draw) ==> r == Ok(img)
    ensures r.Ok? ==> r.value.Valid() && SameShape(r.value, img)
    ensures r == Err(EmptyDrawRange) <==> !Skips(cfg, draw) && DrawFails(cfg, img)
    ensures r == Err(UnknownVariant) <==>
      !Skips(cfg, draw) && !DrawFails(cfg, img) && cfg.variant != "preserve" && cfg.variant != "delete"
  {
    if Skips(cfg, draw) then Ok(img)
    else if DrawFails(cfg, img) then Err(EmptyDrawRange)
    else
      var mask := MaskOf(img.height, img.width, HolesOf(centres, cfg.length, img.height, img.width));
      match ParseVariant(cfg.variant)
      case Err(e) => Err(e)
      case Ok(v) =>
        MaskIsBinary(img.height, img.width, HolesOf(centres, cfg.length, img.height, img.width));
        Ok(Multiply(img, VariantMask(mask, v)))
  }

  /** The "delete" variant zeroes every pixel of every channel inside some
      hole and keeps every pixel outside all holes. */
  lemma DeleteZeroesHoles(cfg: Config, img: Image, draw: real, centres: seq<Point>)
    requires img.Valid() && 0.0 <= draw < 1.0 && DrawsFit(cfg, img, draw, centres)
    requires !Skips(cfg, draw) && !DrawFails(cfg, img) && cfg.variant == "delete"
    ensures var r := Call(cfg, img, draw, centres);
      && r.Ok?
      && forall c, i, j | 0 <= c < img.channels && 0 <= i < img.height && 0 <= j < img.width ::
           r.value.data[c][i][j] == if InHole(cfg, img, centres, i, j) then 0.0 else img.data[c][i][j]
  {
  }

  /** The "preserve" variant keeps every pixel inside some hole and zeroes
      every pixel outside all holes, in every channel. */
  lemma PreserveKeepsHoles(cfg: Config, img: Image, draw: real, centres: seq<Point>)
    requires img.Valid() && 0.0 <= draw < 1.0 && DrawsFit(cfg, img, draw, centres)
    requires !Skips(cfg, draw) && !DrawFails(cfg, img) && cfg.variant == "preserve"
    ensures var r := Call(cfg, img, draw, centres);
      && r.Ok?
      && forall c, i, j | 0 <= c < img.channels && 0 <= i < img.height && 0 <= j < img.width ::
           r.value.data[c][i][j] == if InHole(cfg, img, centres, i, j) then img.data[c][i][j] else 0.0
  {
  }

  /** With "delete" and no cell in any hole — no loop iterations, or
      length // 2 <= 0 — the output equals the input. */
  lemma DeleteWithoutHolesIsIdentity(cfg: Config, img: Image, draw: real, centres: seq<Point>)
    requires img.Valid() && 0.0 <= draw < 1.0 && DrawsFit(cfg, img, draw, centres)
    requires !DrawFails(cfg, img) && cfg.variant == "delete"
    requires Iterations(cfg.nHoles) == 0 || Half(cfg.length) <= 0
    ensures Call(cfg, img, draw, centres) == Ok(img)
  {
    if !Skips(cfg, draw) {
      var holes := HolesOf(centres, cfg.length, img.height, img.width);
      var mask := MaskOf(img.height, img.width, holes);
      forall i, j | 0 <= i < img.height && 0 <= j < img.width
        ensures mask[i][j] == 1.0
      {
        if Half(cfg.length) <= 0 {
          forall k | 0 <= k < |holes|
            ensures !InRect(holes[k], i, j)
          {
            HoleSpan(centres[k], cfg.length, img.height, img.width);
          }
        } else {
          assert |holes| == 0;
        }
      }
      MaskIsBinary(img.height, img.width, holes);
      MultiplyByOnes(img, mask);
      assert Call(cfg, img, draw, centres) == Ok(Multiply(img, VariantMask(mask, Delete)));
    }
  }

  /** With "preserve" and no loop iterations (n_holes <= 0) the mask stays
      all ones, its complement is all zeros, and every output pixel is 0. */
  lemma PreserveWithoutHolesBlanks(cfg: Config, img: Image, draw: real, centres: seq<Point>)
    requires img.Valid() && 0.0 <= draw < 1.0 && DrawsFit(cfg, img, draw, centres)
    requires !Skips(cfg, draw) && cfg.nHoles <= 0 && cfg.variant == "preserve"
    ensures var r := Call(cfg, img, draw, centres);
      && r.Ok? && r.value.Valid() && SameShape(r.value, img)
      && forall c, i, j | 0 <= c < img.channels && 0 <= i < img.height && 0 <= j < img.width ::
           r.value.data[c][i][j] == 0.0
  {
  }

  /** With the defaults `orig_prob=0.0, variant='delete'` the bypass is
      taken only when the draw is exactly 0.0, and the variant is Delete. */
  lemma DefaultCutout(nHoles: int, length: int, draw: real)
    requires 0.0 <= draw < 1.0
    ensures Skips(NewCutout(nHoles, length), draw) <==> draw == 0.0
    ensures ParseVariant(NewCutout(nHoles, length).variant) == Ok(Delete)
  {
  }

  /** A (3, 4, 4) image, one hole of length 2 centred at (2, 2), "delete":
      rows 1..2 and columns 1..2 are zeroed in all three channels and the
      other twelve pixels of each channel are kept. */
  lemma DeleteExample(img: Image, draw: real)
    requires img.Valid() && img.channels == 3 && img.height == 4 && img.width == 4
    requires 0.0 < draw < 1.0
    ensures var r := Call(Config(1, 2, 0.0, "delete"), img, draw, [Point(2, 2)]);
      && r.Ok?
      && forall c, i, j | 0 <= c < 3 && 0 <= i < 4 && 0 <= j < 4 ::
           r.value.data[c][i][j] == if 1 <= i < 3 && 1 <= j < 3 then 0.0 else img.data[c][i][j]
  {
  }
}
