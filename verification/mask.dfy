/** The cutout mask: an all-ones (H, W) grid in which every hole rectangle
    is set to zero, one hole after the other. */
module Mask {
  import opened Tensor
  import opened Hole

  /** Cell (i, j) lies in at least one of `holes`. */
  predicate Covered(holes: seq<Rect>, i: int, j: int) {
    exists k | 0 <= k < |holes| :: InRect(holes[k], i, j)
  }

  /** The rectangles of the holes centred at `centres`, in drawing order. */
  function HolesOf(centres: seq<Point>, length: int, h: nat, w: nat): (holes: seq<Rect>)
    ensures |holes| == |centres|
    ensures forall k | 0 <= k < |centres| :: holes[k] == HoleRect(centres[k], length, h, w)
  {
    seq(|centres|, k requires 0 <= k < |centres| => HoleRect(centres[k], length, h, w))
  }

  /** The slice assignment `mask[y1: y2, x1: x2] = 0.`: cells of `r` become
      0.0, every other cell keeps its value. */
  function ZeroRect(m: Grid, r: Rect): (m': Grid)
    ensures |m'| == |m| && forall i | 0 <= i < |m| :: |m'[i]| == |m[i]|
    ensures forall i, j | 0 <= i < |m| && 0 <= j < |m[i]| :: m'[i][j] == if InRect(r, i, j) then 0.0 else m[i][j]
  {
    seq(|m|, i requires 0 <= i < |m| =>
      seq(|m[i]|, j requires 0 <= j < |m[i]| => if InRect(r, i, j) then 0.0 else m[i][j]))
  }

  /** Zeroing the same rectangle twice is the same as zeroing it once. */
  lemma ZeroRectIdempotent(m: Grid, r: Rect)
    ensures ZeroRect(ZeroRect(m, r), r) == ZeroRect(m, r)
  {
    var once, twice := ZeroRect(m, r), ZeroRect(ZeroRect(m, r), r);
    forall i | 0 <= i < |m|
      ensures twice[i] == once[i]
    {
      assert |twice[i]| == |once[i]|;
    }
  }

  /** Two slice assignments commute: the order in which holes are zeroed
      does not matter. */
  lemma ZeroRectCommutes(m: Grid, r1: Rect, r2: Rect)
    ensures ZeroRect(ZeroRect(m, r1), r2) == ZeroRect(ZeroRect(m, r2), r1)
  {
    var a, b := ZeroRect(ZeroRect(m, r1), r2), ZeroRect(ZeroRect(m, r2), r1);
    forall i | 0 <= i < |m|
      ensures a[i] == b[i]
    {
      assert |a[i]| == |b[i]|;
    }
  }

  /** Adding one hole at the end extends the covered region by exactly that hole. */
  lemma CoveredSnoc(holes: seq<Rect>, i: int, j: int)
    requires |holes| > 0
    ensures Covered(holes, i, j) <==>
      Covered(holes[..|holes| - 1], i, j) || InRect(holes[|holes| - 1], i, j)
  {
  }

  /** The mask after cutting `holes` into `np.ones((h, w))` in order: an
      (h, w) grid that is 0.0 exactly on the union of the holes and 1.0
      everywhere else. */
  function MaskOf(h: nat, w: nat, holes: seq<Rect>): (m: Grid)
    ensures IsGrid(m, h, w)
    ensures forall i, j | 0 <= i < h && 0 <= j < w :: m[i][j] == if Covered(holes, i, j) then 0.0 else 1.0
    decreases |holes|
  {
    if |holes| == 0 then Filled(h, w, 1.0)
    else
      var prev := MaskOf(h, w, holes[..|holes| - 1]);
      var m := ZeroRect(prev, holes[|holes| - 1]);
      assert forall i, j | 0 <= i < h && 0 <= j < w :: m[i][j] == if Covered(holes, i, j) then 0.0 else 1.0 by {
        forall i, j | 0 <= i < h && 0 <= j < w
          ensures m[i][j] == if Covered(holes, i, j) then 0.0 else 1.0
        {
          CoveredSnoc(holes, i, j);
        }
      }
      m
  }

  /** Whatever holes are cut, every mask cell is 0.0 or 1.0. */
  lemma MaskIsBinary(h: nat, w: nat, holes: seq<Rect>)
    ensures IsBinary(MaskOf(h, w, holes))
  {
  }

  /** The mask depends only on which holes are cut: reordering the holes or
      cutting the same hole again changes nothing. */
  lemma MaskDependsOnlyOnHoleSet(h: nat, w: nat, a: seq<Rect>, b: seq<Rect>)
    requires forall r :: r in a <==> r in b
    ensures MaskOf(h, w, a) == MaskOf(h, w, b)
  {
    var ma, mb := MaskOf(h, w, a), MaskOf(h, w, b);
    forall i | 0 <= i < h
      ensures ma[i] == mb[i]
    {
      forall j | 0 <= j < w
        ensures ma[i][j] == mb[i][j]
      {
        if Covered(a, i, j) {
          var k :| 0 <= k < |a| && InRect(a[k], i, j);
          assert a[k] in b;
          var k' :| 0 <= k' < |b| && b[k'] == a[k];
          assert Covered(b, i, j);
        }
        if Covered(b, i, j) {
          var k :| 0 <= k < |b| && InRect(b[k], i, j);
          assert b[k] in a;
          var k' :| 0 <= k' < |a| && a[k'] == b[k];
          assert Covered(a, i, j);
        }
      }
    }
  }

  /** Cutting a hole that was already cut leaves the mask as it was. */
  lemma RepeatedHoleHarmless(h: nat, w: nat, holes: seq<Rect>, k: nat)
    requires k < |holes|
    ensures MaskOf(h, w, holes + [holes[k]]) == MaskOf(h, w, holes)
  {
    var longer := holes + [holes[k]];
    forall r
      ensures r in longer <==> r in holes
    {
      if r in longer {
        var n :| 0 <= n < |longer| && longer[n] == r;
        if n < |holes| { assert holes[n] == r; } else { assert holes[k] == r; }
      }
      if r in holes {
        var n :| 0 <= n < |holes| && holes[n] == r;
        assert longer[n] == r;
      }
    }
    MaskDependsOnlyOnHoleSet(h, w, longer, holes);
  }

  /** The loop of `Cutout.__call__` that builds the mask: start from all
      ones and zero each hole's clamped rectangle in drawing order. */
  method BuildMask(h: nat, w: nat, length: int, centres: seq<Point>) returns (mask: Grid)
    ensures mask == MaskOf(h, w, HolesOf(centres, length, h, w))
    ensures IsGrid(mask, h, w)
    ensures forall i, j | 0 <= i < h && 0 <= j < w ::
      mask[i][j] == 0.0 <==> exists k | 0 <= k < |centres| :: InRect(HoleRect(centres[k], length, h, w), i, j)
  {
    mask := Filled(h, w, 1.0);
    var n := 0;
    assert HolesOf(centres[..0], length, h, w) == [];
    while n < |centres|
      invariant 0 <= n <= |centres|
      invariant mask == MaskOf(h, w, HolesOf(centres[..n], length, h, w))
    {
      var r := HoleRect(centres[n], length, h, w);
      mask := ZeroRect(mask, r);
      ghost var next := HolesOf(centres[..n + 1], length, h, w);
      assert next[..n] == HolesOf(centres[..n], length, h, w);
      assert next[n] == r;
      n := n + 1;
    }
    assert centres[..n] == centres;
    ghost var holes := HolesOf(centres, length, h, w);
    forall i, j | 0 <= i < h && 0 <= j < w
      ensures Covered(holes, i, j) <==> exists k | 0 <= k < |centres| :: InRect(HoleRect(centres[k], length, h, w), i, j)
    {
      if Covered(holes, i, j) {
        var k :| 0 <= k < |holes| && InRect(holes[k], i, j);
        assert InRect(HoleRect(centres[k], length, h, w), i, j);
      }
    }
  }
}
