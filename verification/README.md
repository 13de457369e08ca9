# Cutout, modelled in Dafny

A model of the `Cutout` image-augmentation transform (`util/cutout.py`).
Called on a `(C, H, W)` image, it either returns the image untouched (with
probability `orig_prob`), or it builds an `(H, W)` mask of ones, zeroes
`n_holes` square holes of side `length` in it, inverts the mask for the
`'preserve'` variant, and multiplies the mask into every channel.

The model is functional: images and masks are immutable nested sequences,
and the random draws are inputs.

- `tensor.dfy`, module `Tensor`: the image (`Image`, with its `(C, H, W)`
  shape) and mask grids. Also `1. - mask` (`Invert`) and the broadcast
  product `img * mask.expand_as(img)` (`Multiply`).
- `hole.dfy`, module `Hole`: the floor division `length // 2` (`Half`),
  `np.clip` (`Clip`), the clamped hole rectangle (`HoleRect`) and its span.
- `mask.dfy`, module `Mask`: the mask as the fold of the slice assignments
  `mask[y1: y2, x1: x2] = 0.` over the holes (`MaskOf`), the same loop as
  an imperative method (`BuildMask`), and order independence.
- `cutout.dfy`, module `Cutout`: the configuration, the variant switch, the
  whole `__call__` (`Call`) and the end-to-end properties.

Randomness becomes two parameters. `draw` is the value of `random.random()`,
in `[0, 1)`. `centres` are the `(y, x)` pairs drawn by `np.random.randint`,
in drawing order. The predicate `Cutout.DrawsFit` states what the source
draws. There are no centres when the bypass is taken or the first draw
fails. Otherwise there is one centre per loop iteration, with `0 <= y < H`
and `0 <= x < W`.

Behaviours of the code worth knowing, all proved:

- Because of the floor division, a hole spans at most `2 * (length // 2)`
  rows and columns. An odd `length` loses one row and one column, and
  `length = 1` cuts nothing (`Hole.HoleSpan`, `Hole.OddLengthSpan`).
- With `n_holes <= 0` the loop never runs. The `'delete'` variant then
  returns the image unchanged, while `'preserve'` returns all zeros.
- The bypass test is `orig_prob >= random.random()`. So with the default
  `orig_prob = 0.0` the image is still returned untouched when the draw is
  exactly `0.0` (`Cutout.DefaultCutout`).
- An unrecognised variant is only detected after the bypass test and after
  the mask is built. When the bypass is taken, a bad variant goes unnoticed
  and the input is returned.
- `np.random.randint(0)` raises. So a call that does not take the bypass,
  with `n_holes > 0`, on an image with no rows or no columns, fails. This
  is modelled as the error `EmptyDrawRange`, not excluded by a precondition.

The configuration and the helpers of `Call` map onto the source as follows:

- `Cutout.NewCutout` is `Cutout.__init__` (lines 18-22). It stores its four
  arguments in a `Config`, with the same defaults `orig_prob=0.0` and
  `variant='delete'`.
- `Cutout.Skips` is the bypass test `orig_prob >= random.random()` (line 32).
- `Cutout.Iterations` is the number of runs of `range(n_holes)` (line 41):
  `n_holes` when it is positive, 0 otherwise.
- `Cutout.DrawFails` and `Cutout.DrawsFit` describe the draws of lines 42-43.
  `DrawFails` holds when a draw of the first iteration raises. `DrawsFit`
  holds when the given centres are ones the source could draw.

Neither `length` nor `n_holes` is validated: any integer is accepted, and
the model accepts any integer too. The docstring of `__call__` promises holes
of `length x length`; with an odd `length` they are one row and one column
smaller, as stated above for the floor division.

## Model

| member | source | states |
|---|---|---|
| Tensor.Filled | util/cutout.py:39 | `np.ones((h, w))` (with `v = 1.0`): an `(h, w)` grid whose every cell is `v` |
| Tensor.Multiply | util/cutout.py:61-62 | the mask broadcast over all channels keeps the shape `(C, H, W)`; a pixel whose mask cell is 1 is kept in every channel, one whose cell is 0 becomes 0 |
| Tensor.MultiplyByOnes | util/cutout.py:61-62 | multiplying by an all-ones mask gives back exactly the input image |
| Tensor.Invert | util/cutout.py:55 | `1. - mask` keeps the shape and binariness, and turns exactly the 1 cells into 0 cells |
| Tensor.InvertInvolution | util/cutout.py:55 | inverting the mask twice restores it |
| Hole.Half | util/cutout.py:45-48 | `length // 2` is floor division: `2k <= length < 2k + 2`, negative lengths included |
| Hole.Clip | util/cutout.py:45-48 | `np.clip` returns a value in `[lo, hi]`: `lo` below the range, `hi` above it, the value itself inside it |
| Hole.HoleRect | util/cutout.py:45-50 | every clamped bound is a legal slice index (`0..h`, `0..w`), even for a centre at a corner; the rectangle covers exactly the cells of the unclamped square `[y-k, y+k) x [x-k, x+k)` that lie in the image |
| Hole.HoleSpan | util/cutout.py:45-50 | a hole spans at most `2 * (length // 2)` rows and columns, exactly that many away from the border, and nothing when `length // 2 <= 0` |
| Hole.OddLengthSpan | util/cutout.py:45-48 | an odd length `2k + 1` spans only `2k`, so `length = 1` cuts no cell |
| Mask.ZeroRect | util/cutout.py:50 | the slice assignment keeps the grid's shape, sets the cells of the rectangle to 0 and leaves every other cell as it was |
| Mask.ZeroRectIdempotent | util/cutout.py:50 | zeroing the same rectangle twice gives the same grid as zeroing it once |
| Mask.ZeroRectCommutes | util/cutout.py:41-50 | zeroing two rectangles in either order gives the same grid |
| Mask.MaskOf | util/cutout.py:39-50 | the mask has shape `(h, w)`; a cell is 0 exactly when it lies in at least one hole rectangle, and 1 otherwise |
| Mask.MaskIsBinary | util/cutout.py:39-50 | after any number of holes every mask cell is 0 or 1 |
| Mask.MaskDependsOnlyOnHoleSet | util/cutout.py:41-50 | two hole lists with the same members give the same mask: hole order and repeats do not matter |
| Mask.RepeatedHoleHarmless | util/cutout.py:41-50 | cutting a hole that was already cut leaves the mask unchanged |
| Mask.BuildMask | util/cutout.py:39-50 | the loop over the drawn centres yields an `(h, w)` mask whose zero cells are exactly the cells in some centre's clamped rectangle |
| Cutout.ParseVariant | util/cutout.py:54-59 | only a string that names a variant is accepted; every other string is the `UnknownVariant` error |
| Cutout.ParseVariantName | util/cutout.py:54-59 | `'preserve'` selects Preserve and `'delete'` selects Delete |
| Cutout.VariantMask | util/cutout.py:54-57 | the applied mask is binary; a cell is 1 exactly when it is outside the holes for Delete, inside them for Preserve |
| Cutout.Call | util/cutout.py:24-64 | the bypass returns the input itself; a call that is not bypassed fails with `EmptyDrawRange` exactly when a centre cannot be drawn and with `UnknownVariant` exactly when the variant is unrecognised; otherwise the output has the input's shape |
| Cutout.DeleteZeroesHoles | util/cutout.py:41-62 | `'delete'`: every pixel in some hole is 0 in every channel, every pixel outside all holes equals the input pixel |
| Cutout.PreserveKeepsHoles | util/cutout.py:41-62 | `'preserve'`: every pixel in some hole equals the input pixel, every pixel outside all holes is 0 |
| Cutout.DeleteWithoutHolesIsIdentity | util/cutout.py:41-62 | `'delete'` with `n_holes <= 0` or `length // 2 <= 0` returns an image equal to the input |
| Cutout.PreserveWithoutHolesBlanks | util/cutout.py:41-62 | `'preserve'` with `n_holes <= 0` returns an all-zero image of the input's shape |
| Cutout.DefaultCutout | util/cutout.py:18-33 | with the defaults `orig_prob=0.0, variant='delete'`, the bypass is taken exactly when the draw is 0.0, and the variant is Delete |
| Cutout.DeleteExample | util/cutout.py:41-62 | a `(3, 4, 4)` image with one hole of length 2 at `(2, 2)` under `'delete'` loses rows 1-2 by columns 1-2 in all channels and keeps its other twelve pixels per channel |

## Left out

- Random number generation (`random.random`, `np.random.randint`): the draws are parameters, and the state of the generators is not modelled. For example, `randint(h)` is consumed before `randint(0)` raises for a zero-width image.
- torch and numpy plumbing (`torch.from_numpy`, `expand_as`, the `float32` dtype): images are nested sequences and the mask is a grid of reals.
- Floating point: pixels are exact reals. A NaN or infinite pixel times 0.0 is NaN in the source, not 0, and a negative pixel times 0.0 is -0.0. Neither is modelled.
- Tensor.Multiply: states the product only for mask cells equal to 0.0 or 1.0, the only values the transform produces; the general product of a pixel with another mask value is not stated.
- Non-integer `n_holes` or `length` (Python would raise a `TypeError` or fail on slicing): both are integers here.
- That the input is not mutated: every value in the model is immutable, so this holds by construction.
- Cutout.Call: assumes Python runs with assertions enabled. The unknown-variant error is the `assert False` of line 59. Under `python -O` that assertion is removed. An unrecognised variant then raises nothing, and the unchanged mask is applied as for `'delete'`. The model always returns `UnknownVariant` in that case.
- Mask.ZeroRect: models the slice assignment only for bounds within `0..h` and `0..w`. Those are the only bounds `Hole.HoleRect` produces. numpy's wrap-around for negative slice indices is not modelled.
