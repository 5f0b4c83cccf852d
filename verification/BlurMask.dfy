/**
 How a window sum becomes a mask value: what is meant, what the engine computes in 32 bits, and
 exactly when the two are the same.
*/
module BlurMask {
  import opened Basics
  import opened BlurPlane
  import opened BlurGeometry
  import opened RowSlots

  /** The area of the largest window, which has radius 255. */
  const LARGEST_AREA := 511 * 511

  /** What is meant: the sum scaled by spread over 256 times the area, and saturated. No spread
      stands for an unbounded one, with a mask that is full throughout. */
  function Saturated(sum: int, area: int, spread: int): int
    requires area > 0
  {
    if spread == 0 then 255 else Min(255, sum * spread / (area * 256))
  }

  /** The largest sum that the engine does not saturate. The constant in front wraps around at 32
      bits, and the quotient is taken for a signed number. */
  function MaxSum(area: int, spread: int): int
    requires area > 0
  {
    if spread != 0 then Signed(0x100 * area * 256 % WORD / spread) else 0
  }

  /** The engine's scaling of one sum. The product is a 32-bit one, and the result cut to a byte. */
  function MaskValue(sum: int, area: int, spread: int): int
    requires area > 0
  {
    if sum <= MaxSum(area, spread) then sum * spread % WORD / (area * 256) % 256 else 0xFF
  }

  /** The greatest scaled sum that the saturation test lets through. */
  function Bound(area: int, spread: int): int
    requires area > 0 && spread > 0
  {
    var c := 65536 * area % WORD;
    if c / spread < INT32_LIMIT then c else -1
  }

  /** The scaled sums for which the engine is right: not those that the test saturates although
      their quotient is below 255, and not the one that it lets through with quotient 256. */
  predicate Exact(sum: int, area: int, spread: int)
    requires area > 0 && spread >= 0
  {
    if spread == 0 then sum > 0
    else
      var s, b := sum * spread, Bound(area, spread);
      !(b < s < 65280 * area) && !(s == 65536 * area == b)
  }

  lemma QuotientAtLeast(n: int, k: int, d: int)
    requires d > 0 && n >= k * d
    ensures n / d >= k
  {
    var e := n / d - k;
    assert e * d == n / d * d - k * d;
    if e < 0 { Multiple(e, d); }
  }

  lemma QuotientBelow(n: int, k: int, d: int)
    requires d > 0 && 0 <= n < k * d
    ensures 0 <= n / d < k
  {
    var e := n / d - k;
    assert e * d == n / d * d - k * d;
    if e >= 0 { NonNegativeProduct(e, d); }
    QuotientAtLeast(n, 0, d);
  }

  lemma NonNegativeProduct(a: int, b: int)
    requires a >= 0 && b >= 0
    ensures a * b >= 0
  {
  }

  lemma ProductAtMost(a: int, b: int, c: int)
    requires b > 0
    ensures a <= c / b <==> a * b <= c
  {
    if a * b <= c { QuotientAtLeast(c, a, b); }
    if a <= c / b { NonNegativeProduct(c / b - a, b); assert (c / b - a) * b == c / b * b - a * b; }
  }

  /** Quotients from 0 to 256, as far as the scaling tells them apart. */
  lemma Quotients(s: int, d: int)
    requires d > 0 && s >= 0
    ensures s / d >= 0
    ensures s < 255 * d ==> s / d < 255
    ensures s >= 255 * d ==> s / d >= 255
    ensures s < 256 * d ==> s / d < 256
    ensures s == 256 * d ==> s / d == 256
  {
    QuotientAtLeast(s, 0, d);
    if s < 255 * d { QuotientBelow(s, 255, d); } else { QuotientAtLeast(s, 255, d); }
    if s < 256 * d { QuotientBelow(s, 256, d); } else if s == 256 * d {
      QuotientAtLeast(s, 256, d);
      QuotientBelow(s, 257, d);
    }
  }

  /** A sum passes the saturation test just if the scaled sum is at most the bound. */
  lemma TestIsBound(sum: int, area: int, spread: int)
    requires area > 0 && spread > 0 && sum >= 0
    ensures sum <= MaxSum(area, spread) <==> sum * spread <= Bound(area, spread)
    ensures Bound(area, spread) <= 65536 * area && Bound(area, spread) < WORD
  {
    var c := 65536 * area % WORD;
    RemainderAtMost(65536 * area);
    NonNegativeProduct(sum, spread);
    ProductAtMost(sum, spread, c);
    QuotientAtMostSelf(c, spread);
  }

  lemma RemainderAtMost(n: int)
    requires n >= 0
    ensures 0 <= n % WORD <= n && n % WORD < WORD
  {
  }

  lemma QuotientAtMostSelf(n: int, d: int)
    requires n >= 0 && d > 0
    ensures 0 <= n / d <= n
  {
    QuotientAtLeast(n, 0, d);
    assert n + 1 <= (n + 1) * d by { NonNegativeProduct(n + 1, d - 1); }
    QuotientBelow(n, n + 1, d);
  }

  /** The engine's scaling is the one that is meant, for exactly those sums. */
  lemma MaskIsSaturatedQuotient(sum: int, area: int, spread: int)
    requires 0 < area <= LARGEST_AREA && 0 <= spread < WORD && sum >= 0
    ensures MaskValue(sum, area, spread) == Saturated(sum, area, spread) <==> Exact(sum, area, spread)
  {
    if spread == 0 {
      MaskWithoutSpread(sum, area);
    } else {
      TestIsBound(sum, area, spread);
      ScaledSums(sum, area, spread, sum * spread);
    }
  }

  lemma ScaledSums(sum: int, area: int, spread: int, s: int)
    requires area > 0 && spread > 0 && sum >= 0 && s == sum * spread
    requires sum <= MaxSum(area, spread) <==> s <= Bound(area, spread)
    requires Bound(area, spread) <= 65536 * area && Bound(area, spread) < WORD
    ensures MaskValue(sum, area, spread) == Saturated(sum, area, spread) <==> Exact(sum, area, spread)
  {
    hide MaxSum, Bound;
    NonNegativeProduct(sum, spread);
    Quotients(s, area * 256);
  }

  /** With no spread the mask is full wherever there is anything at all, and only there. */
  lemma MaskWithoutSpread(sum: int, area: int)
    requires area > 0 && sum >= 0
    ensures MaskValue(sum, area, 0) == if sum > 0 then 255 else 0
  {
    if sum == 0 {
      assert sum * 0 % WORD == 0;
      Quotients(0, area * 256);
      QuotientBelow(0, 1, area * 256);
    }
  }

  /** The constant fits 31 bits just up to radius 90, and 32 bits just up to radius 127. */
  lemma ConstantFits(r: nat)
    ensures 65536 * ((2 * r + 1) * (2 * r + 1)) < INT32_LIMIT <==> r <= 90
    ensures 65536 * ((2 * r + 1) * (2 * r + 1)) < WORD <==> r <= 127
  {
    var w := 2 * r + 1;
    if r <= 90 { SquareAtMost(w, 181); } else { SquareAtMost(183, w); }
    if r <= 127 { SquareAtMost(w, 255); } else { SquareAtMost(257, w); }
  }

  lemma SquareAtMost(a: nat, b: nat)
    requires a <= b
    ensures a * a <= b * b
  {
    NonNegativeProduct(b - a, b + a);
    assert (b - a) * (b + a) == b * b - a * a;
  }

  /** Up to radius 127 one scaled sum is wrong, the one whose quotient is just 256. */
  lemma SmallWindows(sum: int, r: nat, spread: int)
    requires r <= 127 && 2 <= spread < WORD && sum >= 0
    ensures Exact(sum, (2 * r + 1) * (2 * r + 1), spread) <==> sum * spread != 65536 * ((2 * r + 1) * (2 * r + 1))
  {
    var area := (2 * r + 1) * (2 * r + 1);
    SquareAtMost(1, 2 * r + 1);
    ConstantFits(r);
    ConstantPasses(area, spread);
    var s := sum * spread;
    assert Bound(area, spread) == 65536 * area;
  }

  lemma ConstantPasses(area: int, spread: int)
    requires area > 0 && 65536 * area < WORD && spread >= 2
    ensures Bound(area, spread) == 65536 * area
  {
    var c := 65536 * area;
    assert INT32_LIMIT * spread >= INT32_LIMIT * 2 by { NonNegativeProduct(INT32_LIMIT, spread - 2); }
    QuotientBelow(c, INT32_LIMIT, spread);
  }

  // ----- the mask of a blur -----

  ghost function Sum(image: Image, x: int, y: int): int
    requires image.Valid() && image.radii != []
  {
    image.WindowSum(|image.radii| - 1, x, y)
  }

  /** The window area of the last pass. */
  function Area(image: Image): (area: int)
    requires image.radii != []
    ensures area > 0
  {
    var w := image.Window(|image.radii| - 1);
    SquareAtMost(1, w);
    w * w
  }

  /** The mask at (x, y) that is meant: the naive blur, scaled. */
  ghost function NaiveMask(image: Image, spread: int, x: int, y: int): int
    requires image.Valid()
  {
    if Spent(image.radii, |image.radii|) == 0 then image.Alpha(x, y)
    else Saturated(Sum(image, x, y), Area(image), spread)
  }

  /** Where the last pass scales a sum; the rest of the mask is zero. */
  ghost predicate Reached(image: Image, width: int, height: int, x: int, y: int)
  {
    && Blurs(image, width, height)
    && var m := |image.radii| - 1;
       var g, r := RegionOf(image, width, height, m), image.radii[m];
       g.left - r <= x <= g.right + r && g.top - r <= y < g.bottom + r
  }

  /** The naive blur with the engine's scaling. */
  ghost function EngineMask(image: Image, width: int, height: int, spread: int, x: int, y: int): int
    requires image.Valid()
  {
    if Spent(image.radii, |image.radii|) == 0 then image.Alpha(x, y)
    else if Reached(image, width, height, x, y) then MaskValue(Sum(image, x, y), Area(image), spread)
    else 0
  }

  ghost predicate ExactAt(image: Image, width: int, height: int, spread: int, x: int, y: int)
    requires image.Valid() && spread >= 0
  {
    Spent(image.radii, |image.radii|) == 0
    || if Reached(image, width, height, x, y) then Exact(Sum(image, x, y), Area(image), spread) else spread > 0
  }

  /** Where the last pass does not reach, the window sum is zero. */
  lemma SumOutOfReach(image: Image, width: int, height: int, x: int, y: int)
    requires image.Valid() && Spent(image.radii, |image.radii|) > 0 && 0 <= x < width && 0 <= y < height
    requires !Reached(image, width, height, x, y)
    ensures Sum(image, x, y) == 0
  {
    var m := |image.radii| - 1;
    if Meets(image, width, height) {
      OutputNeeded(image.radii, width, height);
      RegionNotEmpty(image, width, height, m);
      MissedSum(image, width, height, m, x, y);
    } else {
      NothingShows(image, width, height, x, y);
    }
  }

  lemma LargestArea(image: Image)
    requires image.radii != [] && image.radii[|image.radii| - 1] <= 255
    ensures Area(image) <= LARGEST_AREA
  {
    SquareAtMost(image.Window(|image.radii| - 1), 511);
  }

  /** The engine's mask is the one that is meant for exactly those pixels. */
  lemma EngineIsNaive(image: Image, width: int, height: int, spread: int, x: int, y: int)
    requires image.Valid() && 0 <= spread < WORD && 0 <= x < width && 0 <= y < height
    requires forall i :: 0 <= i < |image.radii| ==> image.radii[i] <= 255
    ensures EngineMask(image, width, height, spread, x, y) == NaiveMask(image, spread, x, y)
            <==> ExactAt(image, width, height, spread, x, y)
  {
    hide MaskValue, Saturated, Exact, Reached, Image.WindowSum, Image.RectSum;
    if Spent(image.radii, |image.radii|) > 0 {
      if Reached(image, width, height, x, y) {
        LargestArea(image);
        SumNotNegative(image, x, y);
        MaskIsSaturatedQuotient(Sum(image, x, y), Area(image), spread);
      } else {
        SumOutOfReach(image, width, height, x, y);
        NothingScaled(Area(image), spread);
      }
    }
  }

  lemma SumNotNegative(image: Image, x: int, y: int)
    requires image.Valid() && image.radii != []
    ensures Sum(image, x, y) >= 0
  {
    var m := |image.radii| - 1;
    var r := image.radii[m];
    image.RectRange(m, x - r, x + r + 1, y - r, y + r + 1);
  }

  lemma NothingScaled(area: int, spread: int)
    requires area > 0 && spread >= 0
    ensures Saturated(0, area, spread) == if spread > 0 then 0 else 255
  {
    assert 0 * spread == 0;
    QuotientBelow(0, 1, area * 256);
  }

  /** It happens. With radius 28 the engine computes a spread of 512 for spread parameters from 58
      to 62; where the input is half transparent, the quotient is 256 and the mask 0, not 255. */
  lemma SaturationWraps(image: Image, width: int, height: int, x: int, y: int, spread: int)
    requires image.Valid() && image.radii == [28] && spread == 512
    requires 0 <= x < width && 0 <= y < height && Reached(image, width, height, x, y)
    requires forall u, v :: x - 28 <= u <= x + 28 && y - 28 <= v <= y + 28 ==> image.Alpha(u, v) == 128
    ensures EngineMask(image, width, height, spread, x, y) == 0 && NaiveMask(image, spread, x, y) == 255
  {
    image.UniformRect(0, x - 28, x + 29, y - 28, y + 29, 128);
    SpentOne(image.radii);
    var window := image.Window(0);
    assert window == 57 && Sum(image, x, y) == 415872 && Area(image) == 3249;
  }

  /** And with radius 128, where the engine computes a spread of 256 for a spread parameter of 0,
      the constant wraps: where the input is nearly transparent, the mask is full. */
  lemma LargeWindowSaturates(image: Image, width: int, height: int, x: int, y: int, spread: int)
    requires image.Valid() && image.radii == [128] && spread == 256
    requires 0 <= x < width && 0 <= y < height && Reached(image, width, height, x, y)
    requires forall u, v :: x - 128 <= u <= x + 128 && y - 128 <= v <= y + 128 ==> image.Alpha(u, v) == 2
    ensures EngineMask(image, width, height, spread, x, y) == 255 && NaiveMask(image, spread, x, y) == 2
  {
    image.UniformRect(0, x - 128, x + 129, y - 128, y + 129, 2);
    SpentOne(image.radii);
    var window := image.Window(0);
    assert window == 257 && Sum(image, x, y) == 132098 && Area(image) == 66049;
    assert MaxSum(66049, 256) == 131328;
  }

  /** Where alpha is the same as far around as the radii reach, the mask is that alpha scaled by the
      spread: the window does not matter. */
  lemma FlatMask(image: Image, spread: int, x: int, y: int, a: int)
    requires image.Valid() && Spent(image.radii, |image.radii|) > 0 && spread > 0
    requires var s := Spent(image.radii, |image.radii|);
             forall u, v :: x - s <= u <= x + s && y - s <= v <= y + s ==> image.Alpha(u, v) == a
    ensures NaiveMask(image, spread, x, y) == Min(255, a * spread / 256)
  {
    var m := |image.radii| - 1;
    var r, w := image.radii[m], image.Window(m);
    forall u, v | x - r <= u < x + r + 1 && y - r <= v < y + r + 1 ensures image.Level(m, u, v) == a {
      image.LevelFlat(m, u, v, a);
    }
    image.UniformRect(m, x - r, x + r + 1, y - r, y + r + 1, a);
    assert image.Alpha(x, y) == a;
    Cancelled(w, a, spread);
  }

  lemma Cancelled(w: int, a: int, spread: int)
    requires w > 0 && a >= 0 && spread > 0
    ensures w * w > 0 && w * (w * a) * spread / (w * w * 256) == a * spread / 256
  {
    var n, s, q := w * w, a * spread, a * spread / 256;
    assert w * (w * a) * spread == n * s;
    NonNegativeProduct(a, spread);
    assert s == q * 256 + s % 256;
    assert n * s == q * (n * 256) + n * (s % 256);
    NonNegativeProduct(n, s % 256);
    QuotientAtLeast(n * s, q, n * 256);
    NonNegativeProduct(n, 255 - s % 256);
    assert n * (256 - s % 256) == n * 256 - n * (s % 256) && (q + 1) * (n * 256) == q * (n * 256) + n * 256;
    NonNegativeProduct(n - 1, 256 - s % 256);
    NonNegativeProduct(n, s);
    QuotientBelow(n * s, q + 1, n * 256);
  }

  lemma SpentOne(radii: seq<nat>)
    requires |radii| == 1
    ensures Spent(radii, 1) == radii[0]
  {
  }
}
