/**
 The box blur as it is computed: scanline by scanline, each pass extended only as far as the next
 scanline needs and clipped to where it can be non-zero and is needed, and one row buffer shared by
 all passes.
*/
module BoxBlur {
  import opened Basics
  import opened BlurPlane
  import opened BlurGeometry
  import opened RowSlots
  import opened BoxPass
  import opened BlurMask

  /** The radius of each of n passes: what is left, divided by the passes left, rounded up. */
  function Radii(t: nat, n: nat): (r: seq<nat>)
    ensures |r| == n
    decreases n
  {
    if n == 0 then []
    else
      var first := (t + n - 1) / n;
      CeilingBelow(t, n);
      [first] + Radii(t - first, n - 1)
  }

  lemma CeilingBelow(t: nat, n: nat)
    requires n > 0
    ensures 0 <= (t + n - 1) / n <= t
  {
    if t > 0 { Multiple(n, t); }
    assert (t + 1) * n == n * t + n;
    QuotientBelow(t + n - 1, t + 1, n);
  }

  lemma {:induction false} RadiiSum(t: nat, n: nat)
    requires n > 0
    ensures Spent(Radii(t, n), n) == t
    ensures forall i :: 0 <= i < n ==> Radii(t, n)[i] <= t
    decreases n
  {
    var first := (t + n - 1) / n;
    CeilingBelow(t, n);
    if n == 1 {
      SpentOne(Radii(t, 1));
    } else {
      var rest := Radii(t - first, n - 1);
      RadiiSum(t - first, n - 1);
      SpentShift(first, rest, n - 1);
    }
  }

  /** Radii that differ by one at most, the larger ones first. */
  predicate Even(radii: seq<nat>)
  {
    forall i, j :: 0 <= i < j < |radii| ==> radii[j] <= radii[i] <= radii[j] + 1
  }

  /** What is left over when the radius is divided evenly goes to the first passes. */
  lemma {:induction false} RadiiAre(t: nat, n: nat)
    requires n > 0
    ensures forall i :: 0 <= i < n ==> Radii(t, n)[i] == t / n + if i < t % n then 1 else 0
    ensures Even(Radii(t, n))
    decreases n
  {
    hide Radii;
    FirstRadius(t, n);
    if n > 1 {
      LeftOver(t, n);
      RadiiAre(t - (t / n + if t % n > 0 then 1 else 0), n - 1);
    }
  }

  lemma LeftOver(t: nat, n: nat)
    requires n > 1
    ensures var rest := t - (t / n + if t % n > 0 then 1 else 0);
            rest >= 0 && rest / (n - 1) == t / n && rest % (n - 1) == if t % n > 0 then t % n - 1 else 0
  {
    var q, m := t / n, t % n;
    var m' := if m > 0 then m - 1 else 0;
    assert t == q * n + m;
    assert q * n == q * (n - 1) + q;
    Division(q, n - 1, m');
  }

  lemma FirstRadius(t: nat, n: nat)
    requires n > 0
    ensures var first := t / n + if t % n > 0 then 1 else 0;
            first <= t && Radii(t, n) == [first] + Radii(t - first, n - 1)
  {
    CeilingBelow(t, n);
    CeilingIs(t, n);
  }

  lemma CeilingIs(t: nat, n: nat)
    requires n > 0
    ensures (t + n - 1) / n == t / n + if t % n > 0 then 1 else 0
  {
    hide Radii;
    var q, m := t / n, t % n;
    assert t == q * n + m;
    if m > 0 {
      assert t + n - 1 == (q + 1) * n + (m - 1);
      Division(q + 1, n, m - 1);
    } else {
      Division(q, n, n - 1);
    }
  }

  lemma Division(q: nat, n: nat, m: nat)
    requires m < n
    ensures (q * n + m) / n == q && (q * n + m) % n == m
  {
    assert q * n >= 0;
    QuotientAtLeast(q * n + m, q, n);
    assert (q + 1) * n == q * n + n;
    QuotientBelow(q * n + m, q + 1, n);
  }

  /** No other even radii have that sum. */
  lemma {:induction false} EvenRadii(radii: seq<nat>, t: nat)
    requires radii != [] && Even(radii) && Spent(radii, |radii|) == t
    ensures radii == Radii(t, |radii|)
    decreases |radii|
  {
    hide Radii, Spent;
    var n, rest := |radii|, radii[1..];
    LargestRadius(radii, t);
    FirstRadius(t, n);
    assert radii == [radii[0]] + rest;
    if n > 1 {
      SpentShift(radii[0], rest, n - 1);
      EvenRadii(rest, t - radii[0]);
    }
  }

  lemma LargestRadius(radii: seq<nat>, t: nat)
    requires radii != [] && Even(radii) && Spent(radii, |radii|) == t
    ensures radii[0] == t / |radii| + if t % |radii| > 0 then 1 else 0
    ensures |radii| == 1 ==> radii[0] == t
  {
    hide Spent, Even;
    var n := |radii|;
    SpentBetween(radii, n);
    var first := t / n + if t % n > 0 then 1 else 0;
    CeilingAround(t, n, first);
    SameCeiling(radii[0], first, n, t);
  }

  lemma CeilingAround(t: nat, n: nat, q: nat)
    requires n > 0 && q == t / n + if t % n > 0 then 1 else 0
    ensures n * (q as int - 1) < t <= n * q
  {
    assert t == n * (t / n) + t % n;
    assert n * (q as int - 1) == n * q - n;
    if t % n > 0 { assert n * q == n * (t / n) + n; }
  }

  lemma SameCeiling(a: nat, b: nat, n: nat, t: nat)
    requires n > 0 && n * (a as int - 1) < t <= n * a && n * (b as int - 1) < t <= n * b
    ensures a == b
  {
    var e, f: int := a - b, b - a;
    assert n * (e - 1) == n * (a - 1) - n * b && n * (f - 1) == n * (b - 1) - n * a;
    if e > 0 { NonNegativeProduct(n, e - 1); }
    if f > 0 { NonNegativeProduct(n, f - 1); }
  }

  lemma {:induction false} SpentBetween(radii: seq<nat>, k: nat)
    requires 0 < k <= |radii| && Even(radii)
    ensures k * (radii[0] as int - 1) < Spent(radii, k) <= k * radii[0]
  {
    if k > 1 {
      SpentBetween(radii, k - 1);
      var r: int := radii[0];
      assert k * (r - 1) == (k - 1) * (r - 1) + (r - 1) && k * r == (k - 1) * r + r;
    }
  }

  lemma {:induction false} SpentShift(first: nat, rest: seq<nat>, k: nat)
    requires k <= |rest|
    ensures Spent([first] + rest, k + 1) == first + Spent(rest, k)
    decreases k
  {
    if k > 0 { SpentShift(first, rest, k - 1); }
  }

  /** A pass as Initialize leaves it. */
  ghost predicate Built(p: Pass, image: Image, width: int, height: int, i: nat)
    reads p, p.buffer
  {
    && i < |image.radii| && p.image == image && p.level == i && p.Shape()
    && Region(p.left, p.top, p.right, p.bottom) == RegionOf(image, width, height, i)
    && p.nextrow == p.top && p.RowsDone(p.top)
  }

  /** The loop of Initialize, with the region of each pass computed from that of the one before. */
  method BuildPasses(image: Image, width: int, height: int) returns (passes: seq<Pass>, maxWidth: int)
    requires image.Valid() && Blurs(image, width, height)
    requires forall i :: 0 <= i < |image.radii| ==> image.radii[i] <= 255
    ensures |passes| == |image.radii| && maxWidth >= 0
    ensures forall i :: 0 <= i < |passes| ==>
              fresh(passes[i]) && fresh(passes[i].buffer) && passes[i].right - passes[i].left <= maxWidth
    ensures forall i :: 0 <= i < |passes| ==> Built(passes[i], image, width, height, i)
    ensures forall i, j :: 0 <= i < j < |passes| ==> passes[i] != passes[j] && passes[i].buffer != passes[j].buffer
  {
    hide Pass.Shape, Pass.RowsDone, Meets, Image.Valid;
    var m := |image.radii|;
    var radius: int := Spent(image.radii, m);
    var left, top, right, bottom := image.left, image.top, image.right, image.bottom;
    var needLeft: int, needTop: int := 0 - radius, 0 - radius;
    var needRight: int, needBottom: int := width + radius, height + radius;
    passes, maxWidth := [], 0;
    var i := 0;
    while i < m
      invariant 0 <= i <= m && |passes| == i && maxWidth >= 0
      invariant left == image.left - Spent(image.radii, i) && right == image.right + Spent(image.radii, i)
      invariant top == image.top - Spent(image.radii, i) && bottom == image.bottom + Spent(image.radii, i)
      invariant Region(needLeft, needTop, needRight, needBottom) == Needed(image.radii, width, height, i)
      invariant forall k :: 0 <= k < i ==>
                  fresh(passes[k]) && fresh(passes[k].buffer) && passes[k].right - passes[k].left <= maxWidth
      invariant forall k :: 0 <= k < i ==> Built(passes[k], image, width, height, k)
      invariant forall k, l :: 0 <= k < l < i ==> passes[k] != passes[l] && passes[k].buffer != passes[l].buffer
    {
      RegionNotEmpty(image, width, height, i);
      var pass := new Pass(image, i, image.radii[i], Max(left, needLeft), Max(top, needTop), Min(right, needRight),
                           Min(bottom, needBottom));
      maxWidth := Max(pass.right - pass.left, maxWidth);
      passes := passes + [pass];
      var r := image.radii[i];
      left, right, top, bottom := left - r, right + r, top - r, bottom + r;
      needLeft, needRight, needTop, needBottom := needLeft + r, needRight - r, needTop + r, needBottom - r;
      i := i + 1;
    }
  }

  class Blur {
    const image: Image
    const width: int
    const height: int
    const spread: int
    const passes: seq<Pass>
    const rowBuffer: array<int>
    var y: int
    var pixels: int

    ghost predicate Shape()
    {
      && image.Valid() && 0 <= width && 0 <= height && 0 <= spread < WORD
      && (if passes == [] then !Blurs(image, width, height)
          else |passes| == |image.radii| && Blurs(image, width, height))
      && (forall i :: 0 <= i < |passes| ==> passes[i].Shape())
      && (forall i :: 0 <= i < |passes| ==> PassFits(i))
      && (forall i, j :: 0 <= i < j < |passes| ==> passes[i] != passes[j] && passes[i].buffer != passes[j].buffer)
    }

    /** Initialize: the passes with their radii, regions and zeroed tables. */
    constructor (pixels: seq<seq<int>>, left: int, top: int, right: int, bottom: int, width: int, height: int,
                 radius: nat, passCount: nat, spread: int)
      requires 0 < passCount && radius <= 255
      requires 0 <= width && 0 <= height && 0 <= spread < WORD
      requires Image(left, top, right, bottom, pixels, []).Valid()
      ensures image == Image(left, top, right, bottom, pixels,
                             Radii(if width == 0 || height == 0 then 0 else radius, passCount))
      ensures this.width == width && this.height == height && this.spread == spread
      ensures Shape() && Ready() && y == 0
      ensures fresh(rowBuffer) && fresh(PassSet(|passes|)) && fresh(BufferSet(|passes|))
    {
      hide Blurs, RegionOf, Radii, Image.Window, Spent, Built, Shape, Ready, Pass.Shape;
      var r := if width == 0 || height == 0 then 0 else radius;
      var img := Image(left, top, right, bottom, pixels, Radii(r, passCount));
      RadiiSum(r, passCount);
      var list: seq<Pass> := [];
      var maxWidth := 0;
      if Blurs(img, width, height) {
        list, maxWidth := BuildPasses(img, width, height);
      }
      image, this.width, this.height, this.spread := img, width, height, spread;
      passes := list;
      rowBuffer := new int[maxWidth](_ => 0);
      this.pixels := if list != [] then list[0].top else 0;
      y := 0;
      new;
      Begun();
    }

    lemma Begun()
      requires image.Valid() && 0 <= width && 0 <= height && 0 <= spread < WORD
      requires if passes == [] then !Blurs(image, width, height)
               else |passes| == |image.radii| && Blurs(image, width, height)
      requires forall i :: 0 <= i < |passes| ==>
                 Built(passes[i], image, width, height, i) && passes[i].right - passes[i].left <= rowBuffer.Length
      requires forall i, j :: 0 <= i < j < |passes| ==> passes[i] != passes[j] && passes[i].buffer != passes[j].buffer
      requires y == 0 && pixels == if passes != [] then passes[0].top else 0
      ensures Shape() && Ready()
    {
      hide Blurs, RegionOf, Image.Window, Spent, Pass.RowsDone;
    }

    ghost predicate PassFits(i: nat)
      requires i < |passes|
    {
      var p := passes[i];
      && i < |image.radii| && p.image == image && p.level == i && p.radius == image.radii[i]
      && Region(p.left, p.top, p.right, p.bottom) == RegionOf(image, width, height, i)
      && p.right - p.left <= rowBuffer.Length
    }

    ghost function PassSet(k: nat): set<Pass>
      requires k <= |passes|
    {
      set i | 0 <= i < k :: passes[i]
    }

    ghost function BufferSet(k: nat): set<array2<int>>
      requires k <= |passes|
    {
      set i | 0 <= i < k :: passes[i].buffer
    }

    /** Pass i - 1 has produced just the rows that rows before n of pass i call for. */
    ghost predicate Lag(i: nat, n: int)
      requires 1 <= i < |passes|
      reads {passes[i - 1]}`nextrow
    {
      var p := passes[i - 1];
      p.nextrow == if n == passes[i].top then p.top else Min(p.bottom, n + p.radius)
    }

    /** The tables of the first k passes are as they should be, and no row is produced that the
        next pass does not call for. */
    ghost predicate Sound(k: nat)
      requires Shape() && k <= |passes|
      reads `pixels, (set i | 0 <= i < k :: passes[i])`nextrow, (set i | 0 <= i < k :: passes[i])`computed, BufferSet(k)
    {
      && (forall i :: 0 <= i < k ==> passes[i].RowsDone(passes[i].nextrow))
      && (forall i :: 1 <= i < k ==> Lag(i, passes[i].nextrow))
      && (k > 0 ==> pixels == passes[0].nextrow)
    }

    lemma SoundOneMore(p: nat)
      requires Shape() && p < |passes|
      ensures passes[p].Shape()
      ensures Sound(p + 1) <==>
                (&& Sound(p) && passes[p].RowsDone(passes[p].nextrow)
                 && if p == 0 then pixels == passes[p].nextrow else Lag(p, passes[p].nextrow))
    {
    }

    lemma ShapeOf(i: nat)
      requires Shape() && i < |passes|
      ensures PassFits(i) && passes[i].Shape() && image.Valid()
      ensures |passes| == |image.radii| && 0 < width && 0 < height && Meets(image, width, height)
      ensures Spent(image.radii, |image.radii|) > 0 && 0 <= spread < WORD
    {
    }

    lemma Apart(p: nat)
      requires Shape() && p < |passes|
      ensures passes[p] !in PassSet(p) && passes[p].buffer !in BufferSet(p)
      ensures PassSet(p) <= PassSet(p + 1) && BufferSet(p) <= BufferSet(p + 1)
      ensures passes[p] in PassSet(p + 1) && passes[p].buffer in BufferSet(p + 1)
      ensures forall k :: p < k <= |passes| ==> PassSet(p) <= PassSet(k) && BufferSet(p) <= BufferSet(k)
    {
    }

    /** Row t of pass p, as the row buffer holds it. */
    ghost predicate RowHeld(p: nat, t: int)
      requires Shape() && p < |passes| && p <= |image.radii|
      reads rowBuffer
    {
      && passes[p].right - passes[p].left <= rowBuffer.Length
      && forall x :: 0 <= x < passes[p].right - passes[p].left ==> rowBuffer[x] == image.Level(p, passes[p].left + x, t)
    }

    method FillFromPixels(t: int)
      requires Shape() && passes != [] && passes[0].top <= t < passes[0].bottom && pixels == t
      modifies this`pixels, rowBuffer
      ensures RowHeld(0, t) && pixels == t + 1
    {
      hide Shape, Meets;
      ShapeOf(0);
      var pass := passes[0];
      var line := image.pixels[pixels - image.top];
      pixels := pixels + 1;
      var x := 0;
      while x < pass.right - pass.left
        invariant 0 <= x <= pass.right - pass.left && pixels == t + 1
        invariant forall k :: 0 <= k < x ==> rowBuffer[k] == image.Level(0, pass.left + k, t)
      {
        assert image.Level(0, pass.left + x, t) == image.Alpha(pass.left + x, t);
        rowBuffer[x] := line[pass.left + x - image.left] / 0x100_0000;
        x := x + 1;
      }
    }

    /** The query of the table of pass p for the window around (x, t), in columns of the table. */
    ghost function Query(p: nat, top: int, bottom: int, c0: int, c1: int): int
      requires p < |passes| && passes[p].Shape()
      requires 0 <= c0 <= passes[p].right - passes[p].left && 0 <= c1 <= passes[p].right - passes[p].left
      reads passes[p].buffer
    {
      var pass := passes[p];
      pass.Corners(Slot(top, pass.buffer.Length0), Slot(bottom, pass.buffer.Length0), c0, c1)
    }

    lemma QueryIsWindowSum(p: nat, x: int, t: int, n: int, c: Region)
      requires Shape() && p < |passes| && p < |image.radii|
      requires Needed(image.radii, width, height, p + 1).Contains(x, t)
      requires c == Clipped(image, width, height, p, x, t) && c.left <= c.right && c.top <= c.bottom <= n
      requires passes[p].Shape() && passes[p].RowsDone(n)
      ensures passes[p].left <= c.left && c.right <= passes[p].right
      ensures Query(p, c.top - 1, c.bottom - 1, c.left - passes[p].left, c.right - passes[p].left)
              == image.WindowSum(p, x, t)
    {
      hide Meets, Image.RectSum, Pass.RowsDone, Pass.Corners;
      ShapeOf(p);
      ClippedSum(image, width, height, p, x, t);
      passes[p].CornerQuery(n, c.top, c.bottom, c.left - passes[p].left, c.right - passes[p].left);
    }

    /** The same, for a point where pass p + 1 is computed, with the offsets that the code uses. */
    lemma QueryIsLevel(p: nat, x: int, t: int, n: int)
      requires Shape() && p + 1 < |passes| && 0 <= x < passes[p + 1].right - passes[p + 1].left
      requires passes[p + 1].top <= t < passes[p + 1].bottom
      requires passes[p].Shape() && passes[p].RowsDone(n) && t + Min(passes[p].bottom - t - 1, passes[p].radius) < n
      ensures var pass, prev := passes[p + 1], passes[p];
              var top, bottom := Max(0 - prev.radius, prev.top - t), Min(prev.bottom - t - 1, prev.radius);
              var relLeft := prev.left - pass.left;
              var c0 := x + Max(0 - prev.radius, relLeft - x) - relLeft;
              var c1 := x + Min(prev.right - pass.left - x - 1, prev.radius) - relLeft + 1;
              && 0 <= c0 <= c1 <= prev.right - prev.left
              && image.Valid() && p + 1 <= |image.radii|
              && Query(p, t + top - 1, t + bottom, c0, c1) / ((2 * prev.radius + 1) * (2 * prev.radius + 1))
                 == image.Level(p + 1, pass.left + x, t)
    {
      hide Shape, Meets, Pass.RowsDone, Query, Image.RectSum, Image.WindowSum, Image.RowSum, Image.Valid, Spent;
      ShapeOf(p);
      ShapeOf(p + 1);
      var X := passes[p + 1].left + x;
      RegionNotEmpty(image, width, height, p);
      ClippedNotEmpty(image, width, height, p, X, t);
      QueryIsWindowSum(p, X, t, n, Clipped(image, width, height, p, X, t));
    }

    /** Row t of pass p, value by value, from the table of the pass before it. */
    method QueryRow(p: nat, t: int, top: int, bottom: int)
      requires Shape() && 1 <= p < |passes| && passes[p].top <= t < passes[p].bottom
      requires passes[p - 1].Shape() && passes[p - 1].RowsDone(passes[p - 1].nextrow)
               && t + bottom < passes[p - 1].nextrow
      requires top == Max(0 - passes[p - 1].radius, passes[p - 1].top - t)
      requires bottom == Min(passes[p - 1].bottom - t - 1, passes[p - 1].radius)
      modifies rowBuffer
      ensures p <= |image.radii| && RowHeld(p, t)
    {
      hide Shape, Meets, Pass.RowsDone, Image.Level, Pass.Corners, Slot, RegionOf;
      ShapeOf(p);
      ShapeOf(p - 1);
      var pass, prev := passes[p], passes[p - 1];
      var topSlot := SlotOf(t + top - 1, prev.buffer.Length0);
      var bottomSlot := SlotOf(t + bottom, prev.buffer.Length0);
      var relLeft, relRight := prev.left - pass.left, prev.right - pass.left;
      var area := (2 * prev.radius + 1) * (2 * prev.radius + 1);
      var x := 0;
      while x < pass.right - pass.left
        invariant 0 <= x <= pass.right - pass.left
        invariant prev.RowsDone(prev.nextrow)
        invariant forall k :: 0 <= k < x ==> rowBuffer[k] == image.Level(p, pass.left + k, t)
      {
        var left := Max(0 - prev.radius, relLeft - x) - 1;
        var right := Min(relRight - x - 1, prev.radius);
        QueryIsLevel(p - 1, x, t, prev.nextrow);
        rowBuffer[x] := prev.Corners(topSlot, bottomSlot, x + left - relLeft + 1, x + right - relLeft + 1) / area;
        x := x + 1;
      }
    }

    /** The row that row t of pass p needs of the pass before it is never behind what there is, and
        producing up to it keeps the lag. */
    lemma NextNeed(p: nat, t: int)
      requires Shape() && 1 <= p < |passes| && Lag(p, t) && passes[p].top <= t < passes[p].bottom
      ensures var prev := passes[p - 1];
              var need := Min(prev.bottom - t - 1, prev.radius) + t;
              && prev.nextrow - 1 <= need < prev.bottom
              && need + 1 == Min(prev.bottom, t + 1 + prev.radius)
    {
      hide Shape, Meets;
      ShapeOf(p);
      ShapeOf(p - 1);
      RegionNotEmpty(image, width, height, p - 1);
      ClippedNotEmpty(image, width, height, p - 1, passes[p].left, t);
    }

    /** Row t of pass p from the table of the pass before it, which is extended as needed. */
    method FillFromPass(p: nat, t: int)
      requires Shape() && 1 <= p < |passes| && Sound(p) && Lag(p, t)
      requires passes[p].top <= t < passes[p].bottom
      modifies this`pixels, rowBuffer, PassSet(p), BufferSet(p)
      ensures Sound(p) && Lag(p, t + 1) && p <= |image.radii| && RowHeld(p, t)
      decreases p, 0
    {
      hide Shape, Meets, Image.Level, RowHeld, Sound, Pass.RowsDone, RegionOf;
      ShapeOf(p - 1);
      Apart(p - 1);
      NextNeed(p, t);
      var prev := passes[p - 1];
      var top := Max(0 - prev.radius, prev.top - t);
      var bottom := Min(prev.bottom - t - 1, prev.radius);
      prev.needrow := bottom + t;
      CalculateRows(p - 1);
      SoundOneMore(p - 1);
      QueryRow(p, t, top, bottom);
    }

    /** Extends pass p up to the row that is needed of it. */
    method CalculateRows(p: nat)
      requires Shape() && p < |passes| && Sound(p + 1)
      requires passes[p].nextrow - 1 <= passes[p].needrow < passes[p].bottom
      modifies this`pixels, rowBuffer, PassSet(p), {passes[p]}`nextrow, {passes[p]}`computed, BufferSet(p + 1)
      ensures Sound(p + 1)
      ensures passes[p].nextrow == passes[p].needrow + 1
      decreases p, 1
    {
      hide Shape, Meets, Image.Level, RowHeld, Sound, Lag, Slot;
      ShapeOf(p);
      Apart(p);
      SoundOneMore(p);
      var pass := passes[p];
      var prevSlot := SlotOf(pass.nextrow - 1, pass.buffer.Length0);
      var t := pass.nextrow;
      while t <= pass.needrow
        invariant pass.nextrow == old(pass.nextrow) <= t <= pass.needrow + 1
        invariant pass.RowsDone(t) && prevSlot == Slot(t - 1, pass.buffer.Length0)
        invariant if p == 0 then pixels == t else Sound(p) && Lag(p, t)
      {
        if p != 0 {
          FillFromPass(p, t);
        } else {
          FillFromPixels(t);
        }
        SlotNext(t, pass.buffer.Length0);
        var slot := if prevSlot < pass.buffer.Length0 - 1 then prevSlot + 1 else 0;
        AddHeldRow(p, t, prevSlot, slot);
        prevSlot := slot;
        t := t + 1;
      }
      pass.nextrow := pass.needrow + 1;
      SoundNone();
      SoundOneMore(p);
    }

    lemma SoundNone()
      requires Shape()
      ensures Sound(0)
    {
    }

    method AddHeldRow(p: nat, t: int, prevSlot: int, slot: int)
      requires Shape() && p < |passes| && p <= |image.radii| && RowHeld(p, t)
      requires passes[p].Shape() && passes[p].RowsDone(t) && passes[p].top <= t < passes[p].bottom
      requires prevSlot == Slot(t - 1, passes[p].buffer.Length0) && slot == Slot(t, passes[p].buffer.Length0)
      modifies {passes[p]}`computed, passes[p].buffer
      ensures passes[p].RowsDone(t + 1)
    {
      ShapeOf(p);
      passes[p].AddRow(rowBuffer, t, prevSlot, slot);
    }

    // ----- the output -----

    /** Between scanlines: the last pass has produced just the rows that the scanlines before y
        call for. Without passes the pixel pointer follows the scanline. */
    ghost predicate Ready()
      requires Shape()
      reads `y, `pixels, (set i | 0 <= i < |passes| :: passes[i])`nextrow,
            (set i | 0 <= i < |passes| :: passes[i])`computed, BufferSet(|passes|)
    {
      && 0 <= y && Sound(|passes|)
      && (if passes == [] then pixels == y else
            var last := passes[|passes| - 1];
            last.nextrow == if y == 0 || y <= last.top - last.radius then last.top
                            else Min(last.bottom, y + last.radius))
    }

    /** What the engine makes of a scanline. */
    ghost predicate Masked(mask: array<int>, row: int, from: int, to: int)
      requires image.Valid()
      reads mask
    {
      && 0 <= from <= to <= mask.Length
      && forall x :: from <= x < to ==> mask[x] == EngineMask(image, width, height, spread, x, row)
    }

    /** Where the last pass reaches, the sum that is read off its table is that of the whole window. */
    lemma SumRead(x: int, row: int, n: int)
      requires Shape() && passes != [] && 0 <= x < width && 0 <= row < height
      requires var last := passes[|passes| - 1];
               && last.Shape() && last.RowsDone(n) && row + Min(last.bottom - row - 1, last.radius) < n
               && last.top - last.radius <= row < last.bottom + last.radius
               && last.left - last.radius <= x <= last.right + last.radius
      ensures var last := passes[|passes| - 1];
              var top, bottom := Max(0 - last.radius, last.top - row), Min(last.bottom - row - 1, last.radius);
              var c0 := x + Max(0 - last.radius, last.left - x) - last.left;
              var c1 := x + Min(last.right - x - 1, last.radius) - last.left + 1;
              && 0 <= c0 <= c1 <= last.right - last.left && image.Valid() && image.radii != []
              && Query(|passes| - 1, row + top - 1, row + bottom, c0, c1) == Sum(image, x, row)
              && (2 * last.radius + 1) * (2 * last.radius + 1) == Area(image)
    {
      hide Shape, Meets, Image.WindowSum, Pass.RowsDone, Query;
      var m := |passes| - 1;
      ShapeOf(m);
      OutputNeeded(image.radii, width, height);
      QueryIsWindowSum(m, x, row, n, Clipped(image, width, height, m, x, row));
    }

    /** The mask is that of a scaled sum where the last pass reaches, and zero elsewhere. */
    lemma MaskThere(x: int, row: int)
      requires Shape() && passes != []
      ensures image.Valid() && image.radii != [] && Spent(image.radii, |image.radii|) > 0
      ensures var last := passes[|passes| - 1];
              EngineMask(image, width, height, spread, x, row)
              == if last.left - last.radius <= x <= last.right + last.radius
                    && last.top - last.radius <= row < last.bottom + last.radius
                 then MaskValue(Sum(image, x, row), Area(image), spread)
                 else 0
    {
      hide Shape, Meets, Image.WindowSum, RegionOf, MaskValue;
      ShapeOf(|passes| - 1);
    }

    /** The scaling of one sum, with the greatest unsaturated sum computed beforehand. */
    method Scale(sum: int, area: int, maxSum: int) returns (value: int)
      requires area > 0 && maxSum == MaxSum(area, spread)
      ensures value == MaskValue(sum, area, spread)
    {
      if sum <= maxSum {
        value := sum * spread % WORD / (area * 256) % 256;
      } else {
        value := 0xFF;
      }
    }

    lemma LeftInReach()
      requires Shape() && passes != []
      ensures var last := passes[|passes| - 1]; last.left - last.radius < width
    {
      hide Shape, Meets;
      var m := |passes| - 1;
      ShapeOf(m);
      OutputNeeded(image.radii, width, height);
      RegionNotEmpty(image, width, height, m);
    }

    /** Columns out of reach of the last pass. */
    method MaskZero(mask: array<int>, from: int, to: int)
      requires Shape() && passes != [] && mask.Length == width && 0 <= y < height && 0 <= from <= to <= width
      requires image.Valid() && Masked(mask, y, 0, from)
      requires forall x :: from <= x < to ==> EngineMask(image, width, height, spread, x, y) == 0
      modifies mask
      ensures Masked(mask, y, 0, to)
    {
      hide Shape, EngineMask;
      var x := from;
      while x < to
        invariant from <= x <= to && Masked(mask, y, 0, x)
      {
        mask[x] := 0;
        x := x + 1;
      }
    }

    /** The columns of the scanline that the last pass reaches. */
    method MaskColumns(mask: array<int>, top: int, bottom: int)
      requires Shape() && passes != [] && mask.Length == width && 0 <= y < height
      requires var last := passes[|passes| - 1];
               && last.Shape() && last.RowsDone(last.nextrow) && y + bottom < last.nextrow
               && last.top - last.radius <= y < last.bottom + last.radius
               && top == Max(0 - last.radius, last.top - y) && bottom == Min(last.bottom - y - 1, last.radius)
      modifies mask
      ensures Masked(mask, y, 0, width)
    {
      hide Shape, Meets, Pass.RowsDone, Pass.Corners, Slot, EngineMask, MaskValue, MaxSum, RegionOf;
      var m := |passes| - 1;
      ShapeOf(m);
      forall x { MaskThere(x, y); }
      LeftInReach();
      var last := passes[m];
      var topSlot := SlotOf(y + top - 1, last.buffer.Length0);
      var bottomSlot := SlotOf(y + bottom, last.buffer.Length0);
      var area := (2 * last.radius + 1) * (2 * last.radius + 1);
      SquareAtMost(1, 2 * last.radius + 1);
      var sleft := last.left - last.radius;
      var sright := Min(width, last.right + last.radius + 1);
      var maxSum := MaxSum(area, spread);
      var x := Max(0, sleft);
      MaskZero(mask, 0, x);
      while x < sright
        invariant sleft <= x <= Max(x, sright) && 0 <= x <= width && Masked(mask, y, 0, x)
                  && last.RowsDone(last.nextrow)
      {
        var left := Max(0 - last.radius, last.left - x) - 1;
        var right := Min(last.right - x - 1, last.radius);
        SumRead(x, y, last.nextrow);
        MaskThere(x, y);
        var sum := last.Corners(topSlot, bottomSlot, x + left - last.left + 1, x + right - last.left + 1);
        mask[x] := Scale(sum, area, maxSum);
        x := x + 1;
      }
      MaskZero(mask, x, width);
    }

    /** Process: the next scanline of the mask. */
    method Process(mask: array<int>)
      requires Shape() && Ready() && y < height && mask.Length == width && mask != rowBuffer
      modifies this`y, this`pixels, rowBuffer, mask, PassSet(|passes|), BufferSet(|passes|)
      ensures Ready() && y == old(y) + 1
      ensures image.Valid() && Masked(mask, old(y), 0, width)
    {
      hide Shape, Sound, EngineMask;
      if passes != [] {
        ProcessPasses(mask);
      } else {
        ProcessPlain(mask);
        pixels := pixels + 1;
        SoundNone();
      }
      y := y + 1;
    }

    /** The scanline by way of the passes; the scanline counter is moved on afterwards. */
    method ProcessPasses(mask: array<int>)
      requires Shape() && Ready() && passes != [] && 0 <= y < height && mask.Length == width && mask != rowBuffer
      modifies this`pixels, rowBuffer, mask, PassSet(|passes|), BufferSet(|passes|)
      ensures Sound(|passes|) && image.Valid() && Masked(mask, y, 0, width)
      ensures var last := passes[|passes| - 1];
              last.nextrow == if y + 1 <= last.top - last.radius then last.top
                              else Min(last.bottom, y + 1 + last.radius)
    {
      hide Shape, Meets, Sound, EngineMask, Pass.RowsDone;
      var m := |passes| - 1;
      ShapeOf(m);
      Apart(m);
      RegionNotEmpty(image, width, height, m);
      var last := passes[m];
      if y >= last.top - last.radius && y < last.bottom + last.radius {
        var top := Max(0 - last.radius, last.top - y);
        var bottom := Min(last.bottom - y - 1, last.radius);
        last.needrow := bottom + y;
        CalculateRows(m);
        SoundOneMore(m);
        MaskColumns(mask, top, bottom);
        SoundOneMore(m);
      } else {
        forall x { MaskThere(x, y); }
        MaskZero(mask, 0, width);
      }
    }

    /** The scanline without blur: alpha inside the input, nothing elsewhere. */
    method ProcessPlain(mask: array<int>)
      requires Shape() && passes == [] && 0 <= y < height && pixels == y && mask.Length == width
      modifies mask
      ensures image.Valid() && Masked(mask, y, 0, width)
    {
      hide Meets, Image.WindowSum;
      var x := 0;
      if y >= image.top && y < image.bottom {
        var left, right := Min(width, image.left), Min(width, image.right);
        while x < left
          invariant 0 <= x <= width && Masked(mask, y, 0, x)
        {
          PlainMask(x, y);
          mask[x] := 0;
          x := x + 1;
        }
        while x < right
          invariant 0 <= x <= width && (left <= x || right <= x) && Masked(mask, y, 0, x)
        {
          PlainMask(x, y);
          mask[x] := image.pixels[pixels - image.top][x - image.left] / 0x100_0000;
          x := x + 1;
        }
        while x < width
          invariant 0 <= x <= width && right <= x && Masked(mask, y, 0, x)
        {
          PlainMask(x, y);
          mask[x] := 0;
          x := x + 1;
        }
      } else {
        while x < width
          invariant 0 <= x <= width && Masked(mask, y, 0, x)
        {
          PlainMask(x, y);
          mask[x] := 0;
          x := x + 1;
        }
      }
    }

    lemma PlainMask(x: int, row: int)
      requires Shape() && passes == [] && 0 <= x < width && 0 <= row < height
      ensures EngineMask(image, width, height, spread, x, row) == image.Alpha(x, row)
    {
      if Spent(image.radii, |image.radii|) > 0 {
        NothingShows(image, width, height, x, row);
      }
    }
  }

  method NextScanline(blur: Blur) returns (row: seq<int>)
    requires blur.Shape() && blur.Ready() && blur.y < blur.height
    modifies blur`y, blur`pixels, blur.rowBuffer, blur.PassSet(|blur.passes|), blur.BufferSet(|blur.passes|)
    ensures blur.Ready() && blur.y == old(blur.y) + 1
    ensures blur.image.Valid() && |row| == blur.width
    ensures forall x :: 0 <= x < |row| ==>
              row[x] == EngineMask(blur.image, blur.width, blur.height, blur.spread, x, old(blur.y))
  {
    hide EngineMask;
    var mask := new int[blur.width](_ => 0);
    blur.Process(mask);
    row := mask[..];
  }

  /** A whole run, one call of Process for each scanline, for every radius and number of passes.
      The mask is the naive blur with the engine's scaling throughout, and the one that is meant for
      exactly those pixels where that scaling is right. */
  method BlurAll(pixels: seq<seq<int>>, left: int, top: int, right: int, bottom: int, width: int, height: int,
                 radius: nat, passCount: nat, spread: int) returns (rows: seq<seq<int>>, ghost image: Image)
    requires 0 < passCount && radius <= 255
    requires 0 <= width && 0 <= height && 0 <= spread < WORD
    requires Image(left, top, right, bottom, pixels, []).Valid()
    ensures var r := if width == 0 || height == 0 then 0 else radius;
            && image == Image(left, top, right, bottom, pixels, Radii(r, passCount)) && image.Valid()
            && |image.radii| == passCount && Spent(image.radii, passCount) == r && Even(image.radii)
    ensures |rows| == height && forall y :: 0 <= y < height ==> |rows[y]| == width
    ensures forall y, x :: 0 <= y < height && 0 <= x < width ==>
              && rows[y][x] == EngineMask(image, width, height, spread, x, y)
              && (rows[y][x] == NaiveMask(image, spread, x, y) <==> ExactAt(image, width, height, spread, x, y))
  {
    hide Blur.Shape, Blur.Ready, EngineMask, NaiveMask, ExactAt, Radii, Blur.PassSet, Blur.BufferSet;
    var blur := new Blur(pixels, left, top, right, bottom, width, height, radius, passCount, spread);
    rows := [];
    image := blur.image;
    while |rows| < height
      invariant blur.Shape() && blur.Ready() && blur.y == |rows| <= height && image.Valid() && blur.image == image
      invariant fresh(blur) && fresh(blur.rowBuffer) && fresh(blur.PassSet(|blur.passes|))
                && fresh(blur.BufferSet(|blur.passes|))
      invariant forall y :: 0 <= y < |rows| ==> |rows[y]| == width
      invariant forall y, x :: 0 <= y < |rows| && 0 <= x < width ==>
                  rows[y][x] == EngineMask(image, width, height, spread, x, y)
    {
      var row := NextScanline(blur);
      rows := rows + [row];
    }
    RadiiSum(if width == 0 || height == 0 then 0 else radius, passCount);
    RadiiAre(if width == 0 || height == 0 then 0 else radius, passCount);
    forall y, x | 0 <= y < height && 0 <= x < width
      ensures rows[y][x] == NaiveMask(image, spread, x, y) <==> ExactAt(image, width, height, spread, x, y)
    {
      EngineIsNaive(image, width, height, spread, x, y);
    }
  }

  /** One pixel of alpha 225 in the middle of an output of five by five, blurred in two passes of
      radius one each: it is spread evenly over nine pixels, and then over twenty-five. */
  method BlurPixel() returns (rows: seq<seq<int>>)
    ensures |rows| == 5 && |rows[0]| == |rows[2]| == 5 && rows[2][2] == 76 && rows[0][0] == 8
  {
    hide Radii, EngineMask, NaiveMask, ExactAt, Image.Valid;
    var pixels := [[0xE100_0000]];
    ghost var image;
    assert Image(2, 2, 3, 3, pixels, []).Valid() by { PixelIsValid(); }
    rows, image := BlurAll(pixels, 2, 2, 3, 3, 5, 5, 2, 2, 788);
    RadiiAre(2, 2);
    assert image.radii == [1, 1];
    PixelMask(image);
  }

  lemma PixelIsValid()
    ensures Image(2, 2, 3, 3, [[0xE100_0000]], []).Valid()
  {
  }

  lemma PixelMask(image: Image)
    requires image == Image(2, 2, 3, 3, [[0xE100_0000]], [1, 1])
    ensures image.Valid()
    ensures EngineMask(image, 5, 5, 788, 2, 2) == 76 && EngineMask(image, 5, 5, 788, 0, 0) == 8
  {
    hide Image.RectSum, Image.RowSum, Image.Level, MaskValue;
    PixelSums(image);
    assert Spent(image.radii, 1) == 1 && Spent(image.radii, 2) == 2;
    assert Spent(image.radii, 0) == 0;
    assert Area(image) == 9;
    PixelScaled();
  }

  lemma PixelScaled()
    ensures MaskValue(225, 9, 788) == 76 && MaskValue(25, 9, 788) == 8
  {
  }

  lemma PixelSums(image: Image)
    requires image == Image(2, 2, 3, 3, [[0xE100_0000]], [1, 1])
    ensures image.Valid() && image.WindowSum(1, 2, 2) == 225 && image.WindowSum(1, 0, 0) == 25
  {
    hide Image.RectSum, Image.RowSum;
    assert image.Level(0, 2, 2) == 225;
    image.UniformRect(0, 2, 3, 2, 3, 225);
    assert Spent(image.radii, 0) == 0 && Spent(image.radii, 1) == 1;
    forall x, y | 1 <= x < 4 && 1 <= y < 4 ensures image.Level(1, x, y) == 25 {
      image.RectClip(0, x - 1, x + 2, y - 1, y + 2, 2, 3, 2, 3);
    }
    image.UniformRect(1, 1, 4, 1, 4, 25);
    image.UniformRect(1, 1, 2, 1, 2, 25);
    image.RectClip(1, -1, 2, -1, 2, 1, 2, 1, 2);
  }
}
