/**
 The naive blur: repeated floor-averaged box sums over an infinite plane that is transparent
 outside the input. Nothing here is clipped, buffered or lazy.
*/
module BlurPlane {
  import opened Basics

  /** The sum of the first n radii. */
  function Spent(radii: seq<nat>, n: nat): nat
    requires n <= |radii|
  {
    if n == 0 then 0 else Spent(radii, n - 1) + radii[n - 1]
  }

  /** Input pixels, 32 bits each with alpha on top, at their place in the plane of the output, and
      the radius of each pass. */
  datatype Image = Image(left: int, top: int, right: int, bottom: int, pixels: seq<seq<int>>, radii: seq<nat>)
  {
    predicate Valid()
    {
      && left <= right && top <= bottom && |pixels| == bottom - top
      && (forall r :: 0 <= r < |pixels| ==> |pixels[r]| == right - left)
      && (forall r, c :: 0 <= r < |pixels| && 0 <= c < |pixels[r]| ==> 0 <= pixels[r][c] < WORD)
    }

    function Alpha(x: int, y: int): (a: int)
      requires Valid()
      ensures 0 <= a <= 255
    {
      if left <= x < right && top <= y < bottom then pixels[y - top][x - left] / 0x100_0000 else 0
    }

    function Window(i: nat): int
      requires i < |radii|
    {
      2 * radii[i] + 1
    }

    /** The plane after i passes. */
    ghost function Level(i: nat, x: int, y: int): int
      requires Valid() && i <= |radii|
      decreases i, 0, 0
    {
      if i == 0 then Alpha(x, y) else WindowSum(i - 1, x, y) / (Window(i - 1) * Window(i - 1))
    }

    /** The sum over the window of pass i around (x, y). */
    ghost function WindowSum(i: nat, x: int, y: int): int
      requires Valid() && i < |radii|
      decreases i, 3, 0
    {
      RectSum(i, x - radii[i], x + radii[i] + 1, y - radii[i], y + radii[i] + 1)
    }

    ghost function RowSum(i: nat, y: int, x0: int, x1: int): int
      requires Valid() && i <= |radii| && x0 <= x1
      decreases i, 1, x1 - x0
    {
      if x0 == x1 then 0 else RowSum(i, y, x0, x1 - 1) + Level(i, x1 - 1, y)
    }

    ghost function RectSum(i: nat, x0: int, x1: int, y0: int, y1: int): int
      requires Valid() && i <= |radii| && x0 <= x1 && y0 <= y1
      decreases i, 2, y1 - y0
    {
      if y0 == y1 then 0 else RectSum(i, x0, x1, y0, y1 - 1) + RowSum(i, y1 - 1, x0, x1)
    }

    lemma {:induction false} RowSplit(i: nat, y: int, x0: int, x1: int, x2: int)
      requires Valid() && i <= |radii| && x0 <= x1 <= x2
      ensures RowSum(i, y, x0, x2) == RowSum(i, y, x0, x1) + RowSum(i, y, x1, x2)
      decreases x2 - x1
    {
      if x1 < x2 { RowSplit(i, y, x0, x1, x2 - 1); }
    }

    lemma {:induction false} RectSplitX(i: nat, x0: int, x1: int, x2: int, y0: int, y1: int)
      requires Valid() && i <= |radii| && x0 <= x1 <= x2 && y0 <= y1
      ensures RectSum(i, x0, x2, y0, y1) == RectSum(i, x0, x1, y0, y1) + RectSum(i, x1, x2, y0, y1)
      decreases y1 - y0
    {
      if y0 < y1 {
        RectSplitX(i, x0, x1, x2, y0, y1 - 1);
        RowSplit(i, y1 - 1, x0, x1, x2);
      }
    }

    lemma {:induction false} RectSplitY(i: nat, x0: int, x1: int, y0: int, y1: int, y2: int)
      requires Valid() && i <= |radii| && x0 <= x1 && y0 <= y1 <= y2
      ensures RectSum(i, x0, x1, y0, y2) == RectSum(i, x0, x1, y0, y1) + RectSum(i, x0, x1, y1, y2)
      decreases y2 - y1
    {
      if y1 < y2 { RectSplitY(i, x0, x1, y0, y1, y2 - 1); }
    }

    lemma {:induction false} RectEmpty(i: nat, x: int, y0: int, y1: int)
      requires Valid() && i <= |radii| && y0 <= y1
      ensures RectSum(i, x, x, y0, y1) == 0
      decreases y1 - y0
    {
      if y0 < y1 { RectEmpty(i, x, y0, y1 - 1); }
    }

    lemma {:induction false} UniformRow(i: nat, y: int, x0: int, x1: int, a: int)
      requires Valid() && i <= |radii| && x0 <= x1 && forall x :: x0 <= x < x1 ==> Level(i, x, y) == a
      ensures RowSum(i, y, x0, x1) == (x1 - x0) * a
      decreases x1 - x0
    {
      if x0 < x1 {
        UniformRow(i, y, x0, x1 - 1, a);
        assert (x1 - x0) * a == (x1 - 1 - x0) * a + a;
      }
    }

    lemma {:induction false} UniformRect(i: nat, x0: int, x1: int, y0: int, y1: int, a: int)
      requires Valid() && i <= |radii| && x0 <= x1 && y0 <= y1
      requires forall x, y :: x0 <= x < x1 && y0 <= y < y1 ==> Level(i, x, y) == a
      ensures RectSum(i, x0, x1, y0, y1) == (y1 - y0) * ((x1 - x0) * a)
      decreases y1 - y0
    {
      var line := (x1 - x0) * a;
      if y0 < y1 {
        UniformRect(i, x0, x1, y0, y1 - 1, a);
        UniformRow(i, y1 - 1, x0, x1, a);
        assert (y1 - y0) * line == (y1 - 1 - y0) * line + line;
      }
    }

    /** Where alpha is the same as far around as the radii reach, blurring changes nothing. */
    lemma {:induction false} LevelFlat(i: nat, x: int, y: int, a: int)
      requires Valid() && i <= |radii|
      requires var s := Spent(radii, i);
               forall u, v :: x - s <= u <= x + s && y - s <= v <= y + s ==> Alpha(u, v) == a
      ensures Level(i, x, y) == a
    {
      if i > 0 {
        var j, r, w := i - 1, radii[i - 1], Window(i - 1);
        forall u, v | x - r <= u < x + r + 1 && y - r <= v < y + r + 1 ensures Level(j, u, v) == a {
          LevelFlat(j, u, v, a);
        }
        UniformRect(j, x - r, x + r + 1, y - r, y + r + 1, a);
        AverageOfSame(w, a);
      }
    }

    static lemma AverageOfSame(w: int, a: int)
      requires w > 0
      ensures w * w > 0 && w * (w * a) / (w * w) == a
    {
      var n := w * w;
      assert w * (w * a) == n * a;
      QuotientOfProduct(n, a);
    }

    static lemma QuotientOfProduct(n: int, a: int)
      requires n > 0
      ensures n * a / n == a
    {
      var d := n * a / n - a;
      assert d * n == n * a / n * n - a * n;
      ProductBeyond(d, n);
    }

    static lemma ProductBeyond(d: int, n: int)
      requires n > 0
      ensures d > 0 ==> d * n >= n
      ensures d < 0 ==> d * n <= -n
    {
    }

    /** Every value of every pass is an alpha value, and sums are bounded accordingly. */
    lemma {:induction false} LevelRange(i: nat, x: int, y: int)
      requires Valid() && i <= |radii|
      ensures 0 <= Level(i, x, y) <= 255
      decreases i, 0, 0
    {
      if i > 0 {
        var r, w := radii[i - 1], Window(i - 1);
        RectRange(i - 1, x - r, x + r + 1, y - r, y + r + 1);
        assert (x + r + 1 - (x - r)) * (y + r + 1 - (y - r)) == w * w;
        QuotientRange(WindowSum(i - 1, x, y), w * w);
      }
    }

    static lemma QuotientRange(s: int, a: int)
      requires a > 0 && 0 <= s <= 255 * a
      ensures 0 <= s / a <= 255
    {
    }

    lemma {:induction false} RowRange(i: nat, y: int, x0: int, x1: int)
      requires Valid() && i <= |radii| && x0 <= x1
      ensures 0 <= RowSum(i, y, x0, x1) <= 255 * (x1 - x0)
      decreases i, 1, x1 - x0
    {
      if x0 < x1 {
        RowRange(i, y, x0, x1 - 1);
        LevelRange(i, x1 - 1, y);
      }
    }

    lemma {:induction false} RectRange(i: nat, x0: int, x1: int, y0: int, y1: int)
      requires Valid() && i <= |radii| && x0 <= x1 && y0 <= y1
      ensures 0 <= RectSum(i, x0, x1, y0, y1) <= 255 * ((x1 - x0) * (y1 - y0))
      decreases i, 2, y1 - y0
    {
      if y0 < y1 {
        RectRange(i, x0, x1, y0, y1 - 1);
        RowRange(i, y1 - 1, x0, x1);
        assert (x1 - x0) * (y1 - y0) == (x1 - x0) * (y1 - 1 - y0) + (x1 - x0);
      } else {
        assert (x1 - x0) * (y1 - y0) == 0;
      }
    }

    /** Beyond the input grown by the radii spent so far the plane is transparent, as it is
        everywhere if there is no input. */
    predicate Beyond(i: nat, x: int, y: int)
      requires i <= |radii|
    {
      var s := Spent(radii, i);
      x < left - s || x >= right + s || y < top - s || y >= bottom + s || left >= right || top >= bottom
    }

    lemma {:induction false} LevelBeyond(i: nat, x: int, y: int)
      requires Valid() && i <= |radii| && Beyond(i, x, y)
      ensures Level(i, x, y) == 0
      decreases i, 0, 0
    {
      if i > 0 {
        var r := radii[i - 1];
        RectBeyond(i - 1, x - r, x + r + 1, y - r, y + r + 1);
      }
    }

    lemma {:induction false} RowBeyond(i: nat, y: int, x0: int, x1: int)
      requires Valid() && i <= |radii| && x0 <= x1
      requires forall x :: x0 <= x < x1 ==> Beyond(i, x, y)
      ensures RowSum(i, y, x0, x1) == 0
      decreases i, 1, x1 - x0
    {
      if x0 < x1 {
        RowBeyond(i, y, x0, x1 - 1);
        LevelBeyond(i, x1 - 1, y);
      }
    }

    lemma {:induction false} RectBeyond(i: nat, x0: int, x1: int, y0: int, y1: int)
      requires Valid() && i <= |radii| && x0 <= x1 && y0 <= y1
      requires forall x, y :: x0 <= x < x1 && y0 <= y < y1 ==> Beyond(i, x, y)
      ensures RectSum(i, x0, x1, y0, y1) == 0
      decreases i, 2, y1 - y0
    {
      if y0 < y1 {
        RectBeyond(i, x0, x1, y0, y1 - 1);
        RowBeyond(i, y1 - 1, x0, x1);
      }
    }

    /** A rectangle may be cut down as long as only transparent parts are cut away. */
    lemma RectClip(i: nat, x0: int, x1: int, y0: int, y1: int, l: int, r: int, t: int, b: int)
      requires Valid() && i <= |radii| && x0 <= l <= r <= x1 && y0 <= t <= b <= y1
      requires forall x, y :: x0 <= x < x1 && y0 <= y < y1 && !(l <= x < r && t <= y < b) ==> Beyond(i, x, y)
      ensures RectSum(i, x0, x1, y0, y1) == RectSum(i, l, r, t, b)
    {
      RectSplitY(i, x0, x1, y0, t, y1);
      RectSplitY(i, x0, x1, t, b, y1);
      RectBeyond(i, x0, x1, y0, t);
      RectBeyond(i, x0, x1, b, y1);
      RectSplitX(i, x0, l, x1, t, b);
      RectSplitX(i, l, r, x1, t, b);
      RectBeyond(i, x0, l, t, b);
      RectBeyond(i, r, x1, t, b);
    }

    /** The sum over a rectangle from four corners of a table of sums from a common origin. */
    lemma FourCorners(i: nat, l: int, x0: int, x1: int, t: int, y0: int, y1: int)
      requires Valid() && i <= |radii| && l <= x0 <= x1 && t <= y0 <= y1
      ensures RectSum(i, x0, x1, y0, y1)
           == RectSum(i, l, x0, t, y0) + RectSum(i, l, x1, t, y1) - RectSum(i, l, x1, t, y0) - RectSum(i, l, x0, t, y1)
    {
      RectSplitX(i, l, x0, x1, y0, y1);
      RectSplitY(i, l, x1, t, y0, y1);
      RectSplitY(i, l, x0, t, y0, y1);
    }
  }

  /** Keeping the table modulo 2^32 loses nothing as long as the true sum fits. */
  lemma CornersModulo(a: int, b: int, c: int, d: int)
    requires 0 <= a + b - c - d < WORD
    ensures (a % WORD + b % WORD - c % WORD - d % WORD) % WORD == a + b - c - d
  {
    var q := a / WORD + b / WORD - c / WORD - d / WORD;
    assert a % WORD + b % WORD - c % WORD - d % WORD == a + b - c - d - q * WORD;
    ModuloShift(a + b - c - d, q);
  }

  lemma ModuloShift(v: int, q: int)
    requires 0 <= v < WORD
    ensures (v - q * WORD) % WORD == v
  {
  }
}
