/**
 Where each pass is computed: inside the input grown by the radii spent so far, and inside the
 output grown by the radii still to come.
*/
module BlurGeometry {
  import opened Basics
  import opened BlurPlane

  datatype Region = Region(left: int, top: int, right: int, bottom: int)
  {
    predicate Contains(x: int, y: int)
    {
      left <= x < right && top <= y < bottom
    }
  }

  lemma {:induction false} SpentGrows(radii: seq<nat>, i: nat, j: nat)
    requires i <= j <= |radii|
    ensures Spent(radii, i) <= Spent(radii, j)
    decreases j - i
  {
    if i < j { SpentGrows(radii, i, j - 1); }
  }

  /** How much of the total radius is left before pass i. */
  function Rest(radii: seq<nat>, i: nat): (n: nat)
    requires i <= |radii|
  {
    SpentGrows(radii, i, |radii|);
    Spent(radii, |radii|) - Spent(radii, i)
  }

  /** The part of the plane on which pass i matters to an output of width by height. */
  function Needed(radii: seq<nat>, width: int, height: int, i: nat): Region
    requires i <= |radii|
  {
    var rest := Rest(radii, i);
    Region(0 - rest, 0 - rest, width + rest, height + rest)
  }

  function RegionOf(image: Image, width: int, height: int, i: nat): Region
    requires i <= |image.radii|
  {
    var s, needed := Spent(image.radii, i), Needed(image.radii, width, height, i);
    Region(Max(image.left - s, needed.left), Max(image.top - s, needed.top),
           Min(image.right + s, needed.right), Min(image.bottom + s, needed.bottom))
  }

  /** The test that input and output, blur included, meet at all. */
  predicate Meets(image: Image, width: int, height: int)
  {
    var r := Spent(image.radii, |image.radii|);
    && Min(image.right, width + r) > Max(image.left, 0 - r)
    && Min(image.bottom, height + r) > Max(image.top, 0 - r)
  }

  /** Whether there is anything to blur: otherwise the number of passes is set to zero. */
  predicate Blurs(image: Image, width: int, height: int)
  {
    0 < width && 0 < height && Spent(image.radii, |image.radii|) > 0 && Meets(image, width, height)
  }

  /** The last pass is needed wherever the output is, and no further. */
  lemma OutputNeeded(radii: seq<nat>, width: int, height: int)
    ensures Needed(radii, width, height, |radii|) == Region(0, 0, width, height)
  {
  }

  /** Then no pass is empty. */
  lemma RegionNotEmpty(image: Image, width: int, height: int, i: nat)
    requires i <= |image.radii| && 0 < width && 0 < height && Meets(image, width, height)
    requires i < |image.radii|
    ensures var g := RegionOf(image, width, height, i); g.left < g.right && g.top < g.bottom
  {
    SpentGrows(image.radii, i, |image.radii|);
  }

  /** The window of pass i around (x, y), cut down to its region. */
  function Clipped(image: Image, width: int, height: int, i: nat, x: int, y: int): Region
    requires i < |image.radii|
  {
    var g, r := RegionOf(image, width, height, i), image.radii[i];
    Region(Max(x - r, g.left), Max(y - r, g.top), Min(x + r + 1, g.right), Min(y + r + 1, g.bottom))
  }

  /** A point of the window that is outside the region of the pass is transparent: the region
      reaches as far as anything that pass i + 1 needs. */
  lemma OutsideIsBeyond(image: Image, width: int, height: int, i: nat, x: int, y: int, u: int, v: int)
    requires i < |image.radii| && Needed(image.radii, width, height, i + 1).Contains(x, y)
    requires x - image.radii[i] <= u <= x + image.radii[i] && y - image.radii[i] <= v <= y + image.radii[i]
    requires !RegionOf(image, width, height, i).Contains(u, v)
    ensures image.Beyond(i, u, v)
  {
    SpentGrows(image.radii, i + 1, |image.radii|);
  }

  /** So the clipped window has the sum of the whole one. */
  lemma ClippedSum(image: Image, width: int, height: int, i: nat, x: int, y: int)
    requires image.Valid() && i < |image.radii| && Needed(image.radii, width, height, i + 1).Contains(x, y)
    requires var c := Clipped(image, width, height, i, x, y); c.left <= c.right && c.top <= c.bottom
    ensures var c := Clipped(image, width, height, i, x, y);
            image.WindowSum(i, x, y) == image.RectSum(i, c.left, c.right, c.top, c.bottom)
  {
    var c, r := Clipped(image, width, height, i, x, y), image.radii[i];
    forall u, v | x - r <= u < x + r + 1 && y - r <= v < y + r + 1 && !(c.left <= u < c.right && c.top <= v < c.bottom)
      ensures image.Beyond(i, u, v)
    {
      OutsideIsBeyond(image, width, height, i, x, y, u, v);
    }
    image.RectClip(i, x - r, x + r + 1, y - r, y + r + 1, c.left, c.right, c.top, c.bottom);
  }

  /** A window that misses the region has sum 0. */
  lemma MissedSum(image: Image, width: int, height: int, i: nat, x: int, y: int)
    requires image.Valid() && i < |image.radii| && Needed(image.radii, width, height, i + 1).Contains(x, y)
    requires var c := Clipped(image, width, height, i, x, y); c.left >= c.right || c.top >= c.bottom
    ensures image.WindowSum(i, x, y) == 0
  {
    var r := image.radii[i];
    forall u, v | x - r <= u < x + r + 1 && y - r <= v < y + r + 1
      ensures image.Beyond(i, u, v)
    {
      OutsideIsBeyond(image, width, height, i, x, y, u, v);
    }
    image.RectBeyond(i, x - r, x + r + 1, y - r, y + r + 1);
  }

  /** Where the next pass is computed, the clipped window of this one is not empty. */
  lemma ClippedNotEmpty(image: Image, width: int, height: int, i: nat, x: int, y: int)
    requires i < |image.radii| && RegionOf(image, width, height, i + 1).Contains(x, y)
    requires var g := RegionOf(image, width, height, i); g.left < g.right && g.top < g.bottom
    ensures Needed(image.radii, width, height, i + 1).Contains(x, y)
    ensures var c := Clipped(image, width, height, i, x, y); c.left < c.right && c.top < c.bottom
  {
    SpentGrows(image.radii, i + 1, |image.radii|);
  }

  /** If input and output do not meet, nothing of the input shows in the output. */
  lemma NothingShows(image: Image, width: int, height: int, x: int, y: int)
    requires image.Valid() && !Meets(image, width, height) && 0 <= x < width && 0 <= y < height
    ensures image.Alpha(x, y) == 0
    ensures |image.radii| > 0 ==> image.WindowSum(|image.radii| - 1, x, y) == 0
  {
    if |image.radii| > 0 {
      var m := |image.radii| - 1;
      var r := image.radii[m];
      forall u, v | x - r <= u < x + r + 1 && y - r <= v < y + r + 1
        ensures image.Beyond(m, u, v)
      {
      }
      image.RectBeyond(m, x - r, x + r + 1, y - r, y + r + 1);
    }
  }
}
