/** Images and masks as immutable nested sequences.

    An image is a (C, H, W) tensor of pixel values; a mask is an (H, W) grid
    that is broadcast over the channels. Pixel values are exact reals: the
    transform only ever multiplies a pixel by 0.0 or 1.0, so no rounding is
    involved.
 */
module Tensor {

  /** A two-dimensional grid of values, indexed (row, column). */
  type Grid = seq<seq<real>>

  /** `g` has `h` rows of `w` columns each. */
  predicate IsGrid(g: Grid, h: nat, w: nat) {
    |g| == h && forall i | 0 <= i < h :: |g[i]| == w
  }

  /** Every cell of `g` is 0.0 or 1.0. */
  predicate IsBinary(g: Grid) {
    forall i, j | 0 <= i < |g| && 0 <= j < |g[i]| :: g[i][j] == 0.0 || g[i][j] == 1.0
  }

  /** An (h, w) grid holding `v` everywhere, as `np.ones((h, w))` does for 1.0. */
  function Filled(h: nat, w: nat, v: real): (g: Grid)
    ensures IsGrid(g, h, w)
    ensures forall i, j | 0 <= i < h && 0 <= j < w :: g[i][j] == v
  {
    seq(h, i => seq(w, j => v))
  }

  /** The mask arithmetic `1. - mask`, cell by cell. */
  function Invert(m: Grid): (m': Grid)
    ensures |m'| == |m| && forall i | 0 <= i < |m| :: |m'[i]| == |m[i]|
    ensures IsBinary(m) ==> IsBinary(m')
    ensures IsBinary(m) ==> forall i, j | 0 <= i < |m| && 0 <= j < |m[i]| :: m'[i][j] == 0.0 <==> m[i][j] == 1.0
  {
    seq(|m|, i requires 0 <= i < |m| => seq(|m[i]|, j requires 0 <= j < |m[i]| => 1.0 - m[i][j]))
  }

  /** Inverting twice gives the mask back. */
  lemma InvertInvolution(m: Grid)
    ensures Invert(Invert(m)) == m
  {
    var m2 := Invert(Invert(m));
    assert |m2| == |m|;
    forall i | 0 <= i < |m|
      ensures m2[i] == m[i]
    {
      assert |m2[i]| == |m[i]|;
      forall j | 0 <= j < |m[i]|
        ensures m2[i][j] == m[i][j]
      {
        assert m2[i][j] == 1.0 - (1.0 - m[i][j]);
      }
    }
  }

  /** A (C, H, W) image tensor. */
  datatype Image = Image(channels: nat, height: nat, width: nat, data: seq<seq<seq<real>>>) {

    /** The data really has the declared shape. */
    predicate Valid() {
      |data| == channels && forall c | 0 <= c < channels :: IsGrid(data[c], height, width)
    }
  }

  /** `a` and `b` have the same (C, H, W) shape. */
  predicate SameShape(a: Image, b: Image) {
    a.channels == b.channels && a.height == b.height && a.width == b.width
  }

  /** `img * mask.expand_as(img)`: the (H, W) mask is broadcast over every
      channel and multiplied into the image element-wise. A 1.0 cell keeps
      the pixel, a 0.0 cell zeroes it, in every channel. */
  function Multiply(img: Image, mask: Grid): (out: Image)
    requires img.Valid() && IsGrid(mask, img.height, img.width)
    ensures out.Valid() && SameShape(out, img)
    ensures forall c, i, j | 0 <= c < img.channels && 0 <= i < img.height && 0 <= j < img.width ::
      mask[i][j] == 1.0 ==> out.data[c][i][j] == img.data[c][i][j]
    ensures forall c, i, j | 0 <= c < img.channels && 0 <= i < img.height && 0 <= j < img.width ::
      mask[i][j] == 0.0 ==> out.data[c][i][j] == 0.0
  {
    Image(img.channels, img.height, img.width,
      seq(img.channels, c requires 0 <= c < img.channels =>
        seq(img.height, i requires 0 <= i < img.height =>
          seq(img.width, j requires 0 <= j < img.width => img.data[c][i][j] * mask[i][j]))))
  }

  /** Multiplying by an all-ones mask gives back the very same image. */
  lemma MultiplyByOnes(img: Image, mask: Grid)
    requires img.Valid() && IsGrid(mask, img.height, img.width)
    requires forall i, j | 0 <= i < img.height && 0 <= j < img.width :: mask[i][j] == 1.0
    ensures Multiply(img, mask) == img
  {
    var out := Multiply(img, mask);
    forall c | 0 <= c < img.channels
      ensures out.data[c] == img.data[c]
    {
      forall i | 0 <= i < img.height
        ensures out.data[c][i] == img.data[c][i]
      {
        assert |out.data[c][i]| == |img.data[c][i]|;
      }
    }
    assert out.data == img.data;
  }
}
