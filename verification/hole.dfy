/** One square hole: its centre, the clamping of its bounds to the image,
    and the half-open rectangle of cells it covers. */
module Hole {

  /** A hole centre (row, column), as drawn by `np.random.randint`. */
  datatype Point = Point(y: int, x: int)

  /** The half-open rectangle of rows [y1, y2) and columns [x1, x2), the
      region `mask[y1: y2, x1: x2]` addresses. When y2 <= y1 or x2 <= x1
      the region is empty. */
  datatype Rect = Rect(y1: int, y2: int, x1: int, x2: int)

  /** Cell (i, j) lies in `r`. */
  predicate InRect(r: Rect, i: int, j: int) {
    r.y1 <= i < r.y2 && r.x1 <= j < r.x2
  }

  /** Python's `length // 2`: floor division, also for negative lengths. */
  function Half(length: int): (k: int)
    ensures 2 * k <= length < 2 * k + 2
  {
    length / 2
  }

  function Max(a: int, b: int): int { if a < b then b else a }

  function Min(a: int, b: int): int { if a < b then a else b }

  /** `np.clip(a, lo, hi)`, which is `minimum(maximum(a, lo), hi)`. */
  function Clip(a: int, lo: int, hi: int): (r: int)
    requires lo <= hi
    ensures lo <= r <= hi
    ensures a < lo ==> r == lo
    ensures hi < a ==> r == hi
    ensures lo <= a <= hi ==> r == a
  {
    Min(Max(a, lo), hi)
  }

  /** The clamped bounds of the hole centred at `p` in an (h, w) mask.
      Every bound is a legal slice index, and the rectangle is exactly the
      unclamped square [y - k, y + k) x [x - k, x + k), k = length // 2,
      cut down to the image. */
  function HoleRect(p: Point, length: int, h: nat, w: nat): (r: Rect)
    ensures 0 <= r.y1 <= h && 0 <= r.y2 <= h
    ensures 0 <= r.x1 <= w && 0 <= r.x2 <= w
    ensures forall i, j :: InRect(r, i, j) <==>
      && 0 <= i < h && 0 <= j < w
      && p.y - Half(length) <= i < p.y + Half(length)
      && p.x - Half(length) <= j < p.x + Half(length)
  {
    var k := Half(length);
    Rect(Clip(p.y - k, 0, h), Clip(p.y + k, 0, h), Clip(p.x - k, 0, w), Clip(p.x + k, 0, w))
  }

  /** Number of rows of `r` (zero when the range is empty). */
  function Rows(r: Rect): nat { if r.y1 < r.y2 then r.y2 - r.y1 else 0 }

  /** Number of columns of `r` (zero when the range is empty). */
  function Cols(r: Rect): nat { if r.x1 < r.x2 then r.x2 - r.x1 else 0 }

  /** Because of the floor division a hole spans at most 2 * (length // 2)
      rows and columns, exactly that many when it does not touch the border,
      and nothing at all when length // 2 <= 0. */
  lemma HoleSpan(p: Point, length: int, h: nat, w: nat)
    ensures var r := HoleRect(p, length, h, w);
      && Rows(r) <= Max(2 * Half(length), 0)
      && Cols(r) <= Max(2 * Half(length), 0)
    ensures var r := HoleRect(p, length, h, w);
      0 <= Half(length) <= p.y && p.y + Half(length) <= h ==> Rows(r) == 2 * Half(length)
    ensures var r := HoleRect(p, length, h, w);
      0 <= Half(length) <= p.x && p.x + Half(length) <= w ==> Cols(r) == 2 * Half(length)
    ensures Half(length) <= 0 ==> forall i, j :: !InRect(HoleRect(p, length, h, w), i, j)
  {
  }

  /** An odd length loses one row and one column: a hole of length 2k + 1
      spans 2k, so a length of 1 cuts nothing. */
  lemma OddLengthSpan(length: int)
    requires length > 0 && length % 2 == 1
    ensures 2 * Half(length) == length - 1
    ensures length == 1 ==> forall p: Point, h: nat, w: nat, i, j :: !InRect(HoleRect(p, length, h, w), i, j)
  {
  }
}
