/**
 The fast Gaussian blur: a row-wise convolution kept in a ring of rows, and a column-wise one over
 the ring, both in saturating 32-bit arithmetic. The kernel is any kernel of 16.16 fractions.
*/
module FastGaussian {
  import opened Basics
  import opened BlurPlane
  import opened PixelSource
  import opened RowSlots

  const LARGEST: int := WORD - 1

  function Saturated(v: int): int { Min(v, LARGEST) }

  /** The sum of f(i) weighted with kernel[i], for i from a up to b. */
  ghost function Weighted(kernel: seq<nat>, f: int -> nat, a: nat, b: nat): nat
    requires a <= b <= |kernel|
    decreases b - a
  {
    if a == b then 0 else Weighted(kernel, f, a, b - 1) + kernel[b - 1] * f(b - 1)
  }

  lemma {:induction false} WeightedSplit(kernel: seq<nat>, f: int -> nat, a: nat, b: nat, c: nat)
    requires a <= b <= c <= |kernel|
    ensures Weighted(kernel, f, a, c) == Weighted(kernel, f, a, b) + Weighted(kernel, f, b, c)
    decreases c - b
  {
    if b < c { WeightedSplit(kernel, f, a, b, c - 1); }
  }

  lemma {:induction false} WeightedNone(kernel: seq<nat>, f: int -> nat, a: nat, b: nat)
    requires a <= b <= |kernel| && forall i :: a <= i < b ==> f(i) == 0
    ensures Weighted(kernel, f, a, b) == 0
    decreases b - a
  {
    if a < b {
      WeightedNone(kernel, f, a, b - 1);
      assert f(b - 1) == 0;
    }
  }

  lemma WeightedOne(kernel: seq<nat>, f: int -> nat, a: nat)
    requires a < |kernel|
    ensures Weighted(kernel, f, a, a + 1) == kernel[a] * f(a)
  {
  }

  /** Where f is zero does not count. */
  lemma WeightedClip(kernel: seq<nat>, f: int -> nat, lo: nat, hi: nat)
    requires lo <= hi <= |kernel| && forall i :: 0 <= i < |kernel| && !(lo <= i < hi) ==> f(i) == 0
    ensures Weighted(kernel, f, 0, |kernel|) == Weighted(kernel, f, lo, hi)
  {
    WeightedSplit(kernel, f, 0, lo, |kernel|);
    WeightedSplit(kernel, f, lo, hi, |kernel|);
    WeightedNone(kernel, f, 0, lo);
    WeightedNone(kernel, f, hi, |kernel|);
  }

  /** Total weight. */
  ghost function Total(kernel: seq<nat>, n: nat): nat
    requires n <= |kernel|
  {
    if n == 0 then 0 else Total(kernel, n - 1) + kernel[n - 1]
  }

  lemma {:induction false} WeightedAtMost(kernel: seq<nat>, f: int -> nat, n: nat, limit: nat)
    requires n <= |kernel| && forall i :: 0 <= i < n ==> f(i) <= limit
    ensures Weighted(kernel, f, 0, n) <= Total(kernel, n) * limit
  {
    if n > 0 {
      WeightedAtMost(kernel, f, n - 1, limit);
      assert f(n - 1) <= limit;
      Product(kernel[n - 1], f(n - 1), limit);
      assert Total(kernel, n) * limit == Total(kernel, n - 1) * limit + kernel[n - 1] * limit;
    }
  }

  lemma {:induction false} WeightedSame(kernel: seq<nat>, f: int -> nat, n: nat, v: nat)
    requires n <= |kernel| && forall i :: 0 <= i < n ==> f(i) == v
    ensures Weighted(kernel, f, 0, n) == Total(kernel, n) * v
  {
    if n > 0 {
      WeightedSame(kernel, f, n - 1, v);
      assert f(n - 1) == v;
      assert Total(kernel, n) * v == Total(kernel, n - 1) * v + kernel[n - 1] * v;
    }
  }

  lemma {:induction false} WeightedMonotone(k: seq<nat>, f: int -> nat, k': seq<nat>, f': int -> nat, n: nat)
    requires n <= |k| == |k'| && forall i :: 0 <= i < n ==> k[i] <= k'[i] && f(i) <= f'(i)
    ensures Weighted(k, f, 0, n) <= Weighted(k', f', 0, n)
  {
    if n > 0 {
      WeightedMonotone(k, f, k', f', n - 1);
      assert k[n - 1] <= k'[n - 1] && f(n - 1) <= f'(n - 1);
      Product(k[n - 1], f(n - 1), f'(n - 1));
      Product(f'(n - 1), k[n - 1], k'[n - 1]);
    }
  }

  lemma Product(a: nat, b: nat, c: nat)
    requires b <= c
    ensures a * b <= a * c
  {
  }

  /** The two-stage convolution on the infinite plane. */
  datatype Convolution = Convolution(image: Image, kernel: seq<nat>)
  {
    predicate Valid()
    {
      image.Valid() && |kernel| % 2 == 1 && forall i :: 0 <= i < |kernel| ==> kernel[i] <= 0x1_0000
    }

    function Radius(): int { (|kernel| - 1) / 2 }

    ghost function Across(x: int, y: int): int -> nat
      requires image.Valid()
    {
      i => (var a: nat := image.Alpha(x - Radius() + i, y); a)
    }

    ghost function Row(x: int, y: int): nat
      requires image.Valid()
    {
      Saturated(Weighted(kernel, Across(x, y), 0, |kernel|))
    }

    ghost function Down(x: int, y: int): int -> nat
      requires image.Valid()
    {
      i => (var v: nat := Row(x, y - Radius() + i) / 0x1_0000; v)
    }

    ghost function Column(x: int, y: int): nat
      requires image.Valid()
    {
      Saturated(Weighted(kernel, Down(x, y), 0, |kernel|))
    }

    ghost function Mask(x: int, y: int): nat
      requires image.Valid()
    {
      if Column(x, y) < 0x100_0000 then Column(x, y) / 0x1_0000 else 0xFF
    }

    lemma RowRange(x: int, y: int)
      requires image.Valid()
      ensures Row(x, y) <= LARGEST
    {
    }

    lemma RowBeyond(x: int, y: int)
      requires image.Valid() && !(image.top <= y < image.bottom)
      ensures Row(x, y) == 0
    {
      forall i | 0 <= i < |kernel| ensures Across(x, y)(i) == 0 {
        AcrossAt(x, y, i);
      }
      WeightedNone(kernel, Across(x, y), 0, |kernel|);
    }

    lemma AcrossAt(x: int, y: int, i: int)
      requires image.Valid()
      ensures Across(x, y)(i) == image.Alpha(x - Radius() + i, y)
    {
    }

    lemma DownAt(x: int, y: int, i: int)
      requires image.Valid()
      ensures Down(x, y)(i) == Row(x, y - Radius() + i) / 0x1_0000
    {
    }

    /** Whether a kernel entry, laid over the plane around a position, is off the input. */
    predicate OffColumns(x: int, i: int) { !(image.left <= x - Radius() + i < image.right) }

    predicate OffRows(y: int, i: int) { !(image.top <= y - Radius() + i < image.bottom) }

    /** Only input columns count in a row. */
    lemma RowClip(x: int, y: int, lo: nat, hi: nat)
      requires image.Valid() && lo <= hi <= |kernel|
      requires forall i :: 0 <= i < |kernel| && !(lo <= i < hi) ==> OffColumns(x, i)
      ensures Row(x, y) == Saturated(Weighted(kernel, Across(x, y), lo, hi))
    {
      forall i | 0 <= i < |kernel| && !(lo <= i < hi) ensures Across(x, y)(i) == 0 {
        assert OffColumns(x, i);
        AcrossAt(x, y, i);
      }
      WeightedClip(kernel, Across(x, y), lo, hi);
    }

    lemma ColumnClip(x: int, y: int, lo: nat, hi: nat)
      requires image.Valid() && lo <= hi <= |kernel|
      requires forall i :: 0 <= i < |kernel| && !(lo <= i < hi) ==> OffRows(y, i)
      ensures Column(x, y) == Saturated(Weighted(kernel, Down(x, y), lo, hi))
    {
      forall i | 0 <= i < |kernel| && !(lo <= i < hi) ensures Down(x, y)(i) == 0 {
        assert OffRows(y, i);
        RowBeyond(x, y - Radius() + i);
      }
      WeightedClip(kernel, Down(x, y), lo, hi);
    }

    /** A kernel of total weight at most one saturates nowhere. */
    lemma NothingSaturates(x: int, y: int)
      requires Valid() && Total(kernel, |kernel|) <= 0x1_0000
      ensures Row(x, y) == Weighted(kernel, Across(x, y), 0, |kernel|)
      ensures Column(x, y) == Weighted(kernel, Down(x, y), 0, |kernel|)
      ensures Mask(x, y) == Weighted(kernel, Down(x, y), 0, |kernel|) / 0x1_0000
    {
      var n := |kernel|;
      RowFits(x, y);
      forall i | 0 <= i < n ensures Down(x, y)(i) <= 255 {
        RowFits(x, y - Radius() + i);
      }
      WeightedAtMost(kernel, Down(x, y), n, 255);
    }

    /** Every pixel that the kernel lies over has that alpha. */
    ghost predicate Flat(x: int, y: int, a: int)
      requires image.Valid()
    {
      var left, top, n := x - Radius(), y - Radius(), |kernel|;
      forall u, v :: left <= u < left + n && top <= v < top + n ==> image.Alpha(u, v) == a
    }

    /** Where the kernel lies over one alpha only, its total weight counts, in the row and again in
        the column. */
    lemma FlatMask(x: int, y: int, a: nat)
      requires image.Valid() && Flat(x, y, a)
      ensures var w := Total(kernel, |kernel|);
              Mask(x, y) == Min(255, Saturated(w * (Saturated(w * a) / 0x1_0000)) / 0x1_0000)
    {
      var n, w := |kernel|, Total(kernel, |kernel|);
      forall j | 0 <= j < n ensures Down(x, y)(j) == Saturated(w * a) / 0x1_0000 {
        var t := y - Radius() + j;
        forall i | 0 <= i < n ensures Across(x, t)(i) == a {
          AcrossAt(x, t, i);
        }
        WeightedSame(kernel, Across(x, t), n, a);
        DownAt(x, y, j);
      }
      WeightedSame(kernel, Down(x, y), n, Saturated(w * a) / 0x1_0000);
      assert Column(x, y) == Saturated(w * (Saturated(w * a) / 0x1_0000));
    }

    /** So with total weight one the mask is that alpha, and with any greater weight opaque input stays
        opaque: where the column saturates, the mask is full. */
    lemma FlatStays(x: int, y: int, a: nat)
      requires image.Valid() && a <= 255 && Flat(x, y, a)
      ensures Total(kernel, |kernel|) == 0x1_0000 ==> Mask(x, y) == a
      ensures Total(kernel, |kernel|) >= 0x1_0000 && a == 255 ==> Mask(x, y) == 255
    {
      hide Mask, Flat;
      FlatMask(x, y, a);
      FlatWeights(Total(kernel, |kernel|), a);
    }

    static lemma FlatWeights(w: nat, a: nat)
      requires a <= 255
      ensures var m := Min(255, Saturated(w * (Saturated(w * a) / 0x1_0000)) / 0x1_0000);
              (w == 0x1_0000 ==> m == a) && (w >= 0x1_0000 && a == 255 ==> m == 255)
    {
      var v := Saturated(w * a) / 0x1_0000;
      if w >= 0x1_0000 && a == 255 {
        Product(a, 0x1_0000, w);
        Product(w, 255, v);
        Product(255, 0x1_0000, w);
      }
    }

    /** Higher alphas and higher kernel entries never lower the mask. */
    lemma MaskMonotone(other: Convolution, x: int, y: int)
      requires image.Valid() && other.image.Valid() && |kernel| == |other.kernel|
      requires forall i :: 0 <= i < |kernel| ==> kernel[i] <= other.kernel[i]
      requires forall u, v :: image.Alpha(u, v) <= other.image.Alpha(u, v)
      ensures Mask(x, y) <= other.Mask(x, y)
    {
      var n := |kernel|;
      forall j | 0 <= j < n ensures Down(x, y)(j) <= other.Down(x, y)(j) {
        var t := y - Radius() + j;
        forall i | 0 <= i < n ensures Across(x, t)(i) <= other.Across(x, t)(i) {
          AcrossAt(x, t, i);
          other.AcrossAt(x, t, i);
        }
        WeightedMonotone(kernel, Across(x, t), other.kernel, other.Across(x, t), n);
        DownAt(x, y, j);
        other.DownAt(x, y, j);
      }
      WeightedMonotone(kernel, Down(x, y), other.kernel, other.Down(x, y), n);
    }

    /** A single pixel that is not transparent is weighted with the entry that its column has in the
        kernel, and with the one that its row has. */
    lemma OnePixel(x: int, y: int, i: nat, j: nat)
      requires Valid() && i < |kernel| && j < |kernel|
      requires forall u, v :: (u, v) != (x - Radius() + i, y - Radius() + j) ==> image.Alpha(u, v) == 0
      ensures var a := image.Alpha(x - Radius() + i, y - Radius() + j);
              Mask(x, y) == kernel[j] * (kernel[i] * a / 0x1_0000) / 0x1_0000
    {
      hide Row, Image.Alpha;
      var t := y - Radius() + j;
      PixelRow(x, t, i);
      forall k | 0 <= k < |kernel| && k != j ensures Down(x, y)(k) == 0 {
        EmptyRow(x, y - Radius() + k);
        DownAt(x, y, k);
      }
      WeightedClip(kernel, Down(x, y), j, j + 1);
      WeightedOne(kernel, Down(x, y), j);
      DownAt(x, y, j);
      Shrinks(kernel[j], Row(x, t) / 0x1_0000, 255);
    }

    lemma PixelRow(x: int, t: int, i: nat)
      requires Valid() && i < |kernel| && forall u :: u != x - Radius() + i ==> image.Alpha(u, t) == 0
      ensures Row(x, t) == kernel[i] * image.Alpha(x - Radius() + i, t) && Row(x, t) / 0x1_0000 <= 255
    {
      hide Image.Alpha;
      forall k | 0 <= k < |kernel| && k != i ensures Across(x, t)(k) == 0 {
        AcrossAt(x, t, k);
      }
      WeightedClip(kernel, Across(x, t), i, i + 1);
      WeightedOne(kernel, Across(x, t), i);
      AcrossAt(x, t, i);
      Shrinks(kernel[i], image.Alpha(x - Radius() + i, t), 255);
    }

    lemma EmptyRow(x: int, t: int)
      requires image.Valid() && forall u :: image.Alpha(u, t) == 0
      ensures Row(x, t) == 0
    {
      forall i | 0 <= i < |kernel| ensures Across(x, t)(i) == 0 {
        AcrossAt(x, t, i);
      }
      WeightedNone(kernel, Across(x, t), 0, |kernel|);
    }

    lemma RowFits(x: int, y: int)
      requires Valid() && Total(kernel, |kernel|) <= 0x1_0000
      ensures Row(x, y) == Weighted(kernel, Across(x, y), 0, |kernel|) <= 255 * 0x1_0000
    {
      forall i | 0 <= i < |kernel| ensures Across(x, y)(i) <= 255 {
        AcrossAt(x, y, i);
      }
      WeightedAtMost(kernel, Across(x, y), |kernel|, 255);
    }
  }

  lemma Shrinks(k: nat, v: nat, limit: nat)
    requires k <= 0x1_0000 && v <= limit
    ensures 0 <= k * v <= 0x1_0000 * limit && k * v / 0x1_0000 <= limit
  {
    Product(v, k, 0x1_0000);
    Product(0x1_0000, v, limit);
  }

  /** The addition of the inner loops. */
  method AddSaturating(alpha: int, weighted: int) returns (sum: int)
    requires 0 <= alpha <= LARGEST && 0 <= weighted <= LARGEST
    ensures sum == Saturated(alpha + weighted)
  {
    if LARGEST - alpha > weighted {
      sum := alpha + weighted;
    } else {
      sum := LARGEST;
    }
  }

  /** Saturating as one goes is saturating at the end. */
  lemma SaturateOnce(a: nat, b: nat)
    ensures Saturated(Saturated(a) + b) == Saturated(a + b)
  {
  }

  lemma WordProduct(k: nat, v: nat)
    requires k <= 0x1_0000 && v < 0x1_0000
    ensures k * v % WORD == k * v < WORD
  {
    var p := k * v;
    assert p <= 0x1_0000 * v by { Product(v, k, 0x1_0000); }
    RemainderSame(p);
  }

  /** What the mask is to be; without a kernel the alpha values are copied. */
  ghost function Meant(image: Image, kernel: seq<nat>, x: int, y: int): int
    requires image.Valid()
  {
    if kernel == [] then image.Alpha(x, y) else Convolution(image, kernel).Mask(x, y)
  }

  /** The input, grown by the radius, reaches into one of the first n columns of the output, or into
      its first n rows. */
  predicate ColumnsMeet(image: Image, radius: int, n: int)
  {
    image.left < image.right && 0 < n && image.left - radius < n && image.right + radius > 0
  }

  predicate RowsMeet(image: Image, radius: int, n: int)
  {
    image.top < image.bottom && 0 < n && image.top - radius < n && image.bottom + radius > 0
  }

  /** An input that does not reach the output leaves it zero, whatever its pixels. */
  lemma NothingReaches(image: Image, kernel: seq<nat>, radius: int, width: int, height: int, x: int, y: int)
    requires image.Valid() && 0 < radius && |kernel| == 2 * radius + 1 && 0 <= x < width && 0 <= y < height
    requires !(ColumnsMeet(image, radius, width) && RowsMeet(image, radius, height))
    ensures Meant(image, kernel, x, y) == 0
  {
    hide Convolution.Row, Convolution.Down;
    var plane := Convolution(image, kernel);
    if RowsMeet(image, radius, height) {
      forall i | 0 <= i < |kernel| ensures plane.Down(x, y)(i) == 0 {
        NoColumns(image, kernel, radius, width, x, y - radius + i);
        plane.DownAt(x, y, i);
      }
      WeightedNone(kernel, plane.Down(x, y), 0, |kernel|);
    } else {
      assert forall i :: 0 <= i < |kernel| ==> plane.OffRows(y, i);
      plane.ColumnClip(x, y, 0, 0);
    }
  }

  lemma NoColumns(image: Image, kernel: seq<nat>, radius: int, width: int, x: int, t: int)
    requires image.Valid() && 0 < radius && |kernel| == 2 * radius + 1 && 0 <= x < width
    requires !ColumnsMeet(image, radius, width)
    ensures Convolution(image, kernel).Row(x, t) == 0
  {
    var plane := Convolution(image, kernel);
    assert forall i :: 0 <= i < |kernel| ==> plane.OffColumns(x, i);
    plane.RowClip(x, t, 0, 0);
  }

  /** The image is the one that the row pointer sees. If the pointer is off the place that was meant,
      that is not the one that was given, and astray says whether a pixel of it was read. */
  class Blur {
    const image: Image
    const source: Source
    const skew: int
    ghost var astray: bool
    const kernel: seq<nat>
    const radius: int
    const width: int
    const buffer: array2<int>
    var y: int
    var pixels: int
    var nextrow: int

    /** The kernel is left out if the radius is zero. Coordinates are 32-bit. */
    ghost predicate Shape()
    {
      && image.Valid() && 0 <= width && 0 <= radius < 0x4000_0000 && WithinInt32()
      && source.Lies(image, skew)
      && if radius == 0 then kernel == [] && skew == 0 else
         && |kernel| == 2 * radius + 1 && Plane().Valid()
         && buffer.Length0 == |kernel| && buffer.Length1 == width
    }

    ghost predicate WithinInt32()
    {
      0 - INT32_LIMIT <= image.top && image.bottom < INT32_LIMIT
    }

    ghost function Plane(): Convolution { Convolution(image, kernel) }

    function At(t: int): int { source.Row(t) + skew }

    ghost predicate Astray(n: int)
      reads this
    {
      astray <==> skew != 0 && image.top < n && ColumnsMeet(image, radius, width)
    }

    /** The row of the ring for a row of the plane: a 32-bit remainder. */
    function RingSlot(t: int): (s: int)
      requires |kernel| > 0
      ensures 0 <= s < |kernel|
    {
      (t + |kernel|) % WORD % |kernel|
    }

    lemma RingSlotIsSlot(t: int)
      requires Shape() && radius > 0 && 0 - |kernel| <= t < INT32_LIMIT
      ensures RingSlot(t) == Slot(t, |kernel|)
    {
      var h := |kernel|;
      assert t == t / h * h + t % h;
      assert t + h == (t / h + 1) * h + t % h;
      SlotUnique(t + h, h, t / h + 1, t % h);
    }

    ghost predicate RowHeld(t: int)
      requires Shape() && radius > 0
      reads buffer
    {
      forall x :: 0 <= x < width ==> buffer[RingSlot(t), x] == Plane().Row(x, t)
    }

    /** The last rows of the ring are those before n, as far as there are any. */
    ghost predicate RingHolds(n: int)
      requires Shape() && radius > 0
      reads buffer
    {
      forall t :: image.top <= t < n && n - |kernel| <= t && 0 - |kernel| <= t ==> RowHeld(t)
    }

    ghost predicate Ready()
      requires Shape()
      reads this, buffer
    {
      && 0 <= y
      && if radius == 0 then pixels == At(y) && !astray else
         && pixels == At(nextrow) && RingHolds(nextrow) && Astray(nextrow)
         && nextrow == if y == 0 || y <= image.top - radius || image.bottom + radius <= 0 then image.top
                       else Min(image.bottom, y + radius)
    }

    /** Initialize, given the kernel. The image is seen as it was given if the row pointer starts at
        the first input row, as it does if and only if the distance to that row is an unsigned 32-bit
        number or addresses have no more bits; or if there is nothing to blur, for then it starts at the
        first output row. */
    constructor (image: Image, source: Source, kernel: seq<nat>, radius: int, width: int)
      requires image.Valid() && 0 <= width && 0 <= radius < 0x4000_0000 && source.Holds(image)
      requires 0 - INT32_LIMIT <= image.top && image.bottom < INT32_LIMIT
      requires if radius == 0 then kernel == [] else |kernel| == 2 * radius + 1
      requires forall i :: 0 <= i < |kernel| ==> kernel[i] <= 0x1_0000
      ensures skew == if radius > 0 then source.Skew(image.top) else 0
      ensures this.image == source.Seen(image, skew) && this.source == source
      ensures this.kernel == kernel && this.radius == radius && this.width == width
      ensures skew == 0 <==> radius == 0 || !source.wide || 0 <= source.Row(image.top) < WORD
      ensures skew == 0 ==> this.image == image
      ensures Shape() && Ready() && y == 0 && !astray && fresh(buffer)
    {
      hide Source.Lies, Source.Seen, Source.Holds;
      var skew := if radius > 0 then source.Skew(image.top) else 0;
      this.skew, this.image, this.source := skew, source.Seen(image, skew), source;
      this.kernel, this.radius, this.width := kernel, radius, width;
      astray := false;
      buffer := new int[2 * radius + 1, width];
      y, nextrow := 0, image.top;
      pixels := if radius > 0 then source.Start(image.top) else 0;
      source.StartIsTop(image.top);
      source.SeenAsMeant(image);
    }

    /** A pixel of input row t, at the row pointer. */
    method ReadPixel(x: int, t: int) returns (pixel: int)
      requires image.Valid() && source.Lies(image, skew) && pixels == At(t)
      requires image.left <= x < image.right && image.top <= t < image.bottom
      modifies `astray
      ensures pixel == image.pixels[t - image.top][x - image.left]
      ensures astray <==> old(astray) || skew != 0
    {
      assert source.PixelLies(image, skew, x, t);
      pixel := source.memory(source.origin + pixels + x);
      astray := astray || pixels != source.Row(t);
    }

    /** The innermost row loop: one entry of the ring. */
    method Sample(x: int, t: int) returns (alpha: int)
      requires Shape() && radius > 0 && pixels == At(t) && image.top <= t < image.bottom && 0 <= x < width
      modifies `astray
      ensures alpha == Plane().Row(x, t)
      ensures astray <==>
                || old(astray)
                || (skew != 0 && image.left < image.right && image.left - radius <= x < image.right + radius)
    {
      hide Weighted, Convolution.Row;
      var left, right := Max(0 - radius, image.left - x), Min(image.right - x - 1, radius);
      var hcount := right - left;
      ghost var lo, hi := if hcount < 0 then 0 else radius + left, if hcount < 0 then 0 else radius + right + 1;
      ghost var f := Plane().Across(x, t);
      Plane().RowClip(x, t, lo, hi);
      WeightedNone(kernel, f, hi, hi);
      alpha := 0;
      var j := hcount;
      while j >= 0
        invariant j <= hcount && (if hcount >= 0 then -1 <= j else j == hcount)
        invariant astray <==> old(astray) || (skew != 0 && j < hcount)
        invariant alpha == Saturated(Weighted(kernel, f, if hcount < 0 then 0 else lo + j + 1, hi))
      {
        alpha := SampleStep(x, t, radius + left + j, hi, alpha);
        j := j - 1;
      }
    }

    method SampleStep(x: int, t: int, i: int, ghost hi: int, alpha: int) returns (alpha': int)
      requires Shape() && radius > 0 && pixels == At(t) && image.top <= t < image.bottom
      requires 0 <= i < hi <= |kernel|
      requires image.left <= x - radius + i < image.right
      requires alpha == Saturated(Weighted(kernel, Plane().Across(x, t), i + 1, hi))
      modifies `astray
      ensures alpha' == Saturated(Weighted(kernel, Plane().Across(x, t), i, hi))
      ensures astray <==> old(astray) || skew != 0
    {
      hide Weighted, Convolution.Across;
      var pixel := ReadPixel(x - radius + i, t);
      var weighted := kernel[i] * (pixel / 0x100_0000) % WORD;
      ghost var f := Plane().Across(x, t);
      WordProduct(kernel[i], image.Alpha(x - radius + i, t));
      WeightedSplit(kernel, f, i, i + 1, hi);
      WeightedOne(kernel, f, i);
      Plane().AcrossAt(x, t, i);
      SaturateOnce(Weighted(kernel, f, i + 1, hi), weighted);
      alpha' := AddSaturating(alpha, weighted);
    }

    /** One row of the ring. */
    method FillRow(t: int)
      requires Shape() && radius > 0 && pixels == At(t) && image.top <= t < image.bottom
      modifies `astray, buffer
      ensures RowHeld(t)
      ensures astray <==> old(astray) || (skew != 0 && ColumnsMeet(image, radius, width))
      ensures forall s, x :: 0 <= s < |kernel| && s != RingSlot(t) && 0 <= x < width ==>
                buffer[s, x] == old(buffer[s, x])
    {
      hide Convolution.Row, RingSlot, Convolution.Valid;
      var slot := RingSlot(t);
      var x := 0;
      while x < width
        invariant 0 <= x <= width
        invariant astray <==> old(astray) || (skew != 0 && ColumnsMeet(image, radius, x))
        invariant forall c :: 0 <= c < x ==> buffer[slot, c] == Plane().Row(c, t)
        invariant forall s, c :: 0 <= s < |kernel| && s != slot && 0 <= c < width ==> buffer[s, c] == old(buffer[s, c])
      {
        buffer[slot, x] := Sample(x, t);
        x := x + 1;
      }
    }

    /** A new row leaves the others that still count. */
    twostate lemma RingTurns(t: int)
      requires Shape() && radius > 0 && image.top <= t < INT32_LIMIT
      requires old(RingHolds(t)) && RowHeld(t)
      requires forall s, x :: 0 <= s < |kernel| && s != RingSlot(t) && 0 <= x < width ==>
                 buffer[s, x] == old(buffer[s, x])
      ensures RingHolds(t + 1)
    {
      hide RingSlot, Convolution.Row;
      forall u | image.top <= u < t + 1 && t + 1 - |kernel| <= u && 0 - |kernel| <= u ensures RowHeld(u) {
        if u < t {
          assert old(RowHeld(u));
          RingSlotIsSlot(u);
          RingSlotIsSlot(t);
          SlotsApart(u, t, |kernel|);
        }
      }
    }

    /** The new rows that a scanline needs: those before n. */
    method FillRows(n: int)
      requires Shape() && radius > 0 && RingHolds(nextrow) && pixels == At(nextrow) && Astray(nextrow)
      requires image.top <= nextrow <= n <= image.bottom
      modifies `pixels, `nextrow, `astray, buffer
      ensures RingHolds(n) && nextrow == n && pixels == At(n) && Astray(n)
    {
      hide Shape, RowHeld, RingHolds, RingSlot;
      var t := nextrow;
      while t < n
        invariant nextrow == old(nextrow) <= t <= n && pixels == At(t) && Shape() && RingHolds(t) && Astray(t)
      {
        FillStep(t);
        source.NextRow(t);
        pixels := pixels + source.stride;
        t := t + 1;
      }
      nextrow := n;
    }

    method FillStep(t: int)
      requires Shape() && radius > 0 && pixels == At(t) && image.top <= t < image.bottom && RingHolds(t)
      requires Astray(t)
      modifies `astray, buffer
      ensures RingHolds(t + 1) && Astray(t + 1)
    {
      hide RingHolds, RowHeld, RingSlot, Convolution.Row;
      FillRow(t);
      RingTurns(t);
    }

    /** One mask value from the ring. */
    method ColumnValue(x: int, n: int) returns (value: int)
      requires Shape() && radius > 0 && RingHolds(n) && 0 <= x < width && 0 <= y
      requires image.top - radius <= y < image.bottom + radius && n == Min(image.bottom, y + radius + 1)
      ensures value == Plane().Mask(x, y)
    {
      hide Weighted, Convolution.Row, Convolution.Down, RingHolds, Slot, RingSlot, Image.Valid, Convolution.Valid;
      var top, bottom := Max(0 - radius, image.top - y), Min(image.bottom - y - 1, radius);
      var vcount := bottom - top + 1;
      ghost var lo, hi := radius + top, Max(radius + top, radius + bottom + 1);
      ghost var f := Plane().Down(x, y);
      assert forall i :: 0 <= i < |kernel| && !(lo <= i < hi) ==> Plane().OffRows(y, i);
      Plane().ColumnClip(x, y, lo, hi);
      WeightedNone(kernel, f, lo, lo);
      var alpha := 0;
      var slot := RingSlot(top + y);
      var k := 0;
      while k < vcount
        invariant 0 <= k && (k <= vcount || (k == 0 && vcount < 0))
        invariant slot == RingSlot(top + y + k)
        invariant alpha == Saturated(Weighted(kernel, f, lo, lo + k))
      {
        alpha := ColumnStep(x, top + k, lo, n, slot, alpha);
        RingSlotIsSlot(top + y + k);
        RingSlotIsSlot(top + y + k + 1);
        SlotNext(top + y + k + 1, |kernel|);
        slot := if slot < |kernel| - 1 then slot + 1 else 0;
        k := k + 1;
      }
      value := if alpha < 0x100_0000 then alpha / 0x1_0000 else 0xFF;
    }

    method ColumnStep(x: int, dy: int, ghost lo: nat, ghost n: int, slot: int, alpha: int) returns (alpha': int)
      requires Shape() && radius > 0 && RingHolds(n) && 0 <= x < width && 0 <= y
      requires 0 - radius <= dy <= radius && image.top <= y + dy < n && y + radius + 1 >= n && n <= image.bottom
      requires slot == RingSlot(y + dy) && lo <= radius + dy
      requires alpha == Saturated(Weighted(kernel, Plane().Down(x, y), lo, radius + dy))
      ensures alpha' == Saturated(Weighted(kernel, Plane().Down(x, y), lo, radius + dy + 1))
    {
      hide Weighted, Convolution.Row, Convolution.Down, RingSlot;
      var i := radius + dy;
      ghost var f := Plane().Down(x, y);
      assert RowHeld(y + dy);
      Plane().DownAt(x, y, i);
      Plane().RowRange(x, y + dy);
      var weighted := kernel[i] * (buffer[slot, x] / 0x1_0000) % WORD;
      WordProduct(kernel[i], buffer[slot, x] / 0x1_0000);
      WeightedSplit(kernel, f, lo, i, i + 1);
      WeightedOne(kernel, f, i);
      SaturateOnce(Weighted(kernel, f, lo, i), weighted);
      alpha' := AddSaturating(alpha, weighted);
    }

    /** Further from the input than the radius there is nothing. */
    lemma OutOfReach(x: int, row: int)
      requires Shape() && radius > 0 && !(image.top - radius <= row < image.bottom + radius)
      ensures Plane().Mask(x, row) == 0
    {
      hide Convolution.Row, Convolution.Down;
      assert forall i :: 0 <= i < |kernel| ==> Plane().OffRows(row, i);
      Plane().ColumnClip(x, row, 0, 0);
    }

    /** When n scanlines are done. */
    lemma WentAstray(n: int)
      requires Shape() && Ready() && y == n
      ensures astray <==> skew != 0 && ColumnsMeet(image, radius, width) && RowsMeet(image, radius, n)
    {
      hide RingHolds;
    }

    ghost predicate Masked(mask: array<int>, row: int, n: int)
      requires image.Valid()
      reads mask
    {
      forall x :: 0 <= x < n && x < mask.Length ==> mask[x] == Meant(image, kernel, x, row)
    }

    /** One scanline. */
    method Process(mask: array<int>)
      requires Shape() && Ready() && mask.Length == width
      modifies `y, `pixels, `nextrow, `astray, buffer, mask
      ensures image.Valid() && Ready() && y == old(y) + 1 && Masked(mask, old(y), width)
    {
      if kernel != [] {
        ProcessKernel(mask);
      } else {
        ProcessPlain(mask);
      }
      y := y + 1;
    }

    method ProcessKernel(mask: array<int>)
      requires Shape() && Ready() && mask.Length == width && radius > 0
      modifies `pixels, `nextrow, `astray, buffer, mask
      ensures pixels == At(nextrow) && RingHolds(nextrow) && Astray(nextrow) && Masked(mask, y, width)
      ensures nextrow == if y + 1 <= image.top - radius || image.bottom + radius <= 0 then image.top
                         else Min(image.bottom, y + 1 + radius)
    {
      hide Convolution.Mask, RingHolds, Convolution.Valid, Masked;
      if y >= image.top - radius && y < image.bottom + radius {
        var bottom := Min(image.bottom - y - 1, radius);
        FillRows(bottom + y + 1);
        MaskColumns(mask, nextrow);
      } else {
        MaskZero(mask);
      }
    }

    method MaskColumns(mask: array<int>, n: int)
      requires Shape() && radius > 0 && RingHolds(n) && mask.Length == width && 0 <= y
      requires image.top - radius <= y < image.bottom + radius && n == Min(image.bottom, y + radius + 1)
      modifies mask
      ensures Masked(mask, y, width)
    {
      hide Convolution.Mask, RingHolds, Convolution.Valid;
      var x := 0;
      while x < width
        invariant 0 <= x <= width && RingHolds(n) && Masked(mask, y, x)
      {
        mask[x] := ColumnValue(x, n);
        x := x + 1;
      }
    }

    method MaskZero(mask: array<int>)
      requires Shape() && radius > 0 && mask.Length == width && !(image.top - radius <= y < image.bottom + radius)
      modifies mask
      ensures Masked(mask, y, width)
    {
      hide Convolution.Mask, Convolution.Valid;
      var x := 0;
      while x < width
        invariant 0 <= x <= width && Masked(mask, y, x)
      {
        OutOfReach(x, y);
        mask[x] := 0;
        x := x + 1;
      }
    }

    /** Without a kernel the alpha values are copied. */
    method ProcessPlain(mask: array<int>)
      requires Shape() && Ready() && mask.Length == width && radius == 0
      modifies `pixels, `astray, mask
      ensures pixels == At(y + 1) && !astray && Masked(mask, y, width)
    {
      var x := 0;
      if y >= image.top && y < image.bottom {
        var left, right := Min(width, image.left), Min(width, image.right);
        while x < left
          invariant 0 <= x <= Max(0, left) && pixels == At(y) && !astray && Masked(mask, y, x)
        {
          mask[x] := 0;
          x := x + 1;
        }
        while x < right
          invariant Max(0, left) <= x <= Max(0, Max(left, right)) && pixels == At(y) && !astray && Masked(mask, y, x)
        {
          var pixel := ReadPixel(x, y);
          mask[x] := pixel / 0x100_0000;
          x := x + 1;
        }
      }
      while x < width
        invariant 0 <= x <= width && pixels == At(y) && !astray && Masked(mask, y, x)
        invariant x >= Min(width, image.right) || !(image.top <= y < image.bottom)
      {
        mask[x] := 0;
        x := x + 1;
      }
      source.NextRow(y);
      pixels := pixels + source.stride;
    }
  }

  method NextScanline(blur: Blur) returns (row: seq<int>)
    requires blur.Shape() && blur.Ready()
    modifies blur`y, blur`pixels, blur`nextrow, blur`astray, blur.buffer
    ensures blur.image.Valid() && blur.Ready() && blur.y == old(blur.y) + 1
    ensures |row| == blur.width
    ensures forall x :: 0 <= x < |row| ==> row[x] == Meant(blur.image, blur.kernel, x, old(blur.y))
  {
    hide Meant, Blur.Ready;
    var mask := new int[blur.width](_ => 0);
    blur.Process(mask);
    row := mask[..];
  }

  /** The rows are the direct convolution of an image. */
  ghost predicate Convolved(rows: seq<seq<int>>, image: Image, kernel: seq<nat>, width: int)
    requires image.Valid()
  {
    && (forall y :: 0 <= y < |rows| ==> |rows[y]| == width)
    && (forall y, x :: 0 <= y < |rows| && 0 <= x < width ==> rows[y][x] == Meant(image, kernel, x, y))
  }

  /** A whole run gives the direct convolution of the image that the row pointer sees. Some pixel that
      is read is not the intended one if and only if the pointer starts in the wrong place and the
      input, grown by the radius, reaches the output. In all other cases the run gives the direct
      convolution of the image as it was given. */
  method BlurAll(image: Image, source: Source, kernel: seq<nat>, radius: int, width: int, height: nat)
    returns (rows: seq<seq<int>>, ghost astray: bool)
    requires image.Valid() && 0 <= width && 0 <= radius < 0x4000_0000 && source.Holds(image)
    requires 0 - INT32_LIMIT <= image.top && image.bottom < INT32_LIMIT
    requires if radius == 0 then kernel == [] else |kernel| == 2 * radius + 1
    requires forall i :: 0 <= i < |kernel| ==> kernel[i] <= 0x1_0000
    ensures |rows| == height
    ensures Convolved(rows, source.Seen(image, if radius > 0 then source.Skew(image.top) else 0), kernel, width)
    ensures astray <==>
              && radius > 0 && source.wide && !(0 <= source.Row(image.top) < WORD)
              && ColumnsMeet(image, radius, width) && RowsMeet(image, radius, height)
    ensures !astray ==> Convolved(rows, image, kernel, width)
  {
    hide Blur.Shape, Blur.Ready, Meant, Source.Holds, Source.Seen;
    var blur := new Blur(image, source, kernel, radius, width);
    rows := [];
    while |rows| < height
      invariant blur.Shape() && blur.Ready() && blur.y == |rows| <= height
      invariant blur.kernel == kernel && blur.width == width
      invariant blur.image.Valid() && Convolved(rows, blur.image, kernel, width)
      invariant fresh(blur) && fresh(blur.buffer)
    {
      var row := NextScanline(blur);
      rows := rows + [row];
    }
    astray := blur.astray;
    blur.WentAstray(height);
    if !astray && blur.skew != 0 {
      forall y, x | 0 <= y < |rows| && 0 <= x < width
        ensures Meant(blur.image, kernel, x, y) == Meant(image, kernel, x, y)
      {
        NothingReaches(image, kernel, radius, width, height, x, y);
        NothingReaches(blur.image, kernel, radius, width, height, x, y);
      }
    }
  }

  /** Sixteen pixels in memory, four to a row, with their numbers as alpha: without a radius the mask
      of an output two pixels wide and three high, over an input of two by two, is what is there. */
  method CopyPixels() returns (rows: seq<seq<int>>)
    ensures rows == [[0, 1], [4, 5], [0, 0]]
  {
    hide Source.Seen, Source.Holds, Image.Valid, Convolution.Mask;
    var image, source := Numbers(), Source(a => a % 16 * 0x100_0000, 0, 4, true);
    NumbersHeld(source);
    ghost var astray;
    rows, astray := BlurAll(image, source, [], 0, 2, 3);
    NumbersMeant();
    assert forall y :: 0 <= y < 3 ==> rows[y] == [rows[y][0], rows[y][1]];
    assert rows == [rows[0], rows[1], rows[2]];
  }

  function Numbers(): Image
  {
    Image(0, 0, 2, 2, [[0, 0x100_0000], [0x400_0000, 0x500_0000]], [])
  }

  lemma NumbersAre()
    ensures var p := Numbers().pixels;
            |p| == 2 && p[0] == [0, 0x100_0000] && p[1] == [0x400_0000, 0x500_0000]
    ensures Numbers().Valid()
  {
    var p := Numbers().pixels;
    forall r, c | 0 <= r < 2 && 0 <= c < |p[r]| ensures 0 <= p[r][c] < WORD {
      if r == 0 { assert p[r] == p[0]; } else { assert p[r] == p[1]; }
    }
  }

  lemma NumbersHeld(source: Source)
    requires source == Source(a => a % 16 * 0x100_0000, 0, 4, true)
    ensures Numbers().Valid() && source.Holds(Numbers())
  {
    hide Numbers, Image.Valid;
    NumbersAre();
    var image := Numbers();
    assert image.left == image.top == 0 && image.right == image.bottom == 2 by { NumbersPlace(); }
    forall x, y | 0 <= x < 2 && 0 <= y < 2 ensures source.PixelLies(image, 0, x, y) {
      NumberLies(source, x, y);
    }
  }

  lemma NumbersPlace()
    ensures var i := Numbers(); i.left == i.top == 0 && i.right == i.bottom == 2
  {
  }

  lemma NumberLies(source: Source, x: int, y: int)
    requires source == Source(a => a % 16 * 0x100_0000, 0, 4, true) && 0 <= x < 2 && 0 <= y < 2
    ensures |Numbers().pixels| == 2 && |Numbers().pixels[y]| == 2
    ensures source.Pixel(0, x, y) == Numbers().pixels[y][x]
  {
    hide Numbers;
    NumbersAre();
    var p := Numbers().pixels;
    if y == 0 {
      assert p[y] == p[0] && source.Row(y) == 0;
    } else {
      assert p[y] == p[1] && source.Row(y) == 4;
    }
  }

  lemma NumbersMeant()
    ensures Numbers().Valid()
    ensures Meant(Numbers(), [], 0, 0) == 0 && Meant(Numbers(), [], 1, 0) == 1
    ensures Meant(Numbers(), [], 0, 1) == 4 && Meant(Numbers(), [], 1, 1) == 5
    ensures Meant(Numbers(), [], 0, 2) == 0 && Meant(Numbers(), [], 1, 2) == 0
  {
    hide Numbers, Image.Valid, Convolution.Mask;
    NumbersAre();
    NumbersPlace();
    var image := Numbers();
    assert image.pixels[0][0] == 0 && image.pixels[0][1] == 0x100_0000;
    assert image.pixels[1][0] == 0x400_0000 && image.pixels[1][1] == 0x500_0000;
  }
}
