/**
 One pass of the box blur: a table of sums modulo 2^32, from which a window sum is read off at its
 four corners.
*/
module BoxPass {
  import opened Basics
  import opened BlurPlane
  import opened RowSlots

  ghost function RowsFrom(from: int, to: int): seq<int>
    requires from <= to
  {
    seq(to - from, i => from + i)
  }

  class Pass {
    const radius: nat
    const left: int
    const top: int
    const right: int
    const bottom: int
    const buffer: array2<int>
    ghost const image: Image
    ghost const level: nat
    var nextrow: int
    var needrow: int
    /** The rows computed so far, in the order in which they were. */
    ghost var computed: seq<int>

    ghost predicate Shape()
    {
      && image.Valid() && level < |image.radii| && radius == image.radii[level] <= 255
      && left < right && top < bottom
      && buffer.Length0 == bottom - top + 1 && buffer.Length1 == right - left + 1
    }

    /** What the table holds: sums from the top left corner of the pass. */
    ghost function Table(row: int, c: int): int
      requires Shape() && top - 1 <= row && 0 <= c
    {
      image.RectSum(level, left, left + c, top, row + 1) % WORD
    }

    /** Rows top - 1 (all zero) to n - 1 are in their slots, and column 0 is zero throughout. Rows
        from top on were computed in order, each once. */
    ghost predicate RowsDone(n: int)
      requires Shape()
      reads `computed, buffer
    {
      && top <= n <= bottom && computed == RowsFrom(top, n)
      && (forall row, c :: top - 1 <= row < n && 0 <= c <= right - left ==>
            buffer[Slot(row, buffer.Length0), c] == Table(row, c))
      && (forall s :: 0 <= s < buffer.Length0 ==> buffer[s, 0] == 0)
    }

    constructor (ghost image: Image, ghost level: nat, radius: nat, left: int, top: int, right: int, bottom: int)
      requires image.Valid() && level < |image.radii| && radius == image.radii[level] <= 255
      requires left < right && top < bottom
      ensures this.image == image && this.level == level
      ensures this.left == left && this.top == top && this.right == right && this.bottom == bottom
      ensures fresh(buffer) && Shape() && RowsDone(top)
      ensures nextrow == top && needrow == top - 1
    {
      this.image, this.level, this.radius := image, level, radius;
      this.left, this.top, this.right, this.bottom := left, top, right, bottom;
      buffer := new int[bottom - top + 1, right - left + 1]((_, _) => 0);
      nextrow := top;
      needrow := top - 1;
      computed := [];
    }

    lemma TableStep(row: int, c: int)
      requires Shape() && top <= row && 0 <= c
      ensures Table(row, c + 1)
              == (Table(row, c) + image.Level(level, left + c, row) + Table(row - 1, c + 1) - Table(row - 1, c)) % WORD
    {
      var above := image.RectSum(level, left, left + c, top, row);
      var above1 := image.RectSum(level, left, left + c + 1, top, row);
      var line := image.RowSum(level, row, left, left + c);
      assert image.RectSum(level, left, left + c + 1, top, row + 1)
             == above1 + line + image.Level(level, left + c, row);
      assert image.RectSum(level, left, left + c, top, row + 1) == above + line;
      SumModulo(above + line, image.Level(level, left + c, row), above1, above);
    }

    /** Extends the table by the row whose values are in line. Only the slot of that row is written,
        and of it not column 0. */
    method AddRow(line: array<int>, row: int, prevSlot: int, slot: int)
      requires Shape() && RowsDone(row) && top <= row < bottom
      requires prevSlot == Slot(row - 1, buffer.Length0) && slot == Slot(row, buffer.Length0)
      requires line.Length >= right - left
      requires forall x :: 0 <= x < right - left ==> line[x] == image.Level(level, left + x, row)
      modifies `computed, buffer
      ensures RowsDone(row + 1) && computed == old(computed) + [row]
      ensures forall r, c :: 0 <= r < buffer.Length0 && 0 <= c < buffer.Length1 && (r != slot || c == 0) ==>
                buffer[r, c] == old(buffer[r, c])
      ensures forall r :: top - 1 <= r < row ==> Slot(r, buffer.Length0) != slot
    {
      SlotsApart(row - 1, row, buffer.Length0);
      forall r | top - 1 <= r < row ensures Slot(r, buffer.Length0) != slot { SlotsApart(r, row, buffer.Length0); }
      var alpha := 0;
      var x := 0;
      image.RectEmpty(level, left, top, row + 1);
      while x < right - left
        invariant 0 <= x <= right - left && computed == old(computed)
        invariant alpha == Table(row, x)
        invariant forall r, c :: 0 <= r < buffer.Length0 && 0 <= c < buffer.Length1 && !(r == slot && 1 <= c <= x) ==>
                    buffer[r, c] == old(buffer[r, c])
        invariant forall c :: 0 <= c <= x ==> buffer[slot, c] == Table(row, c)
      {
        TableStep(row, x);
        alpha := (alpha + line[x] + buffer[prevSlot, x + 1] - buffer[prevSlot, x]) % WORD;
        buffer[slot, x + 1] := alpha;
        x := x + 1;
      }
      assert RowsFrom(top, row) + [row] == RowsFrom(top, row + 1);
      computed := computed + [row];
    }

    /** Bottom right plus top left minus top right minus bottom left, in unsigned arithmetic. */
    function Corners(topSlot: int, bottomSlot: int, c0: int, c1: int): int
      requires 0 <= topSlot < buffer.Length0 && 0 <= bottomSlot < buffer.Length0
      requires 0 <= c0 < buffer.Length1 && 0 <= c1 < buffer.Length1
      reads buffer
    {
      (buffer[topSlot, c0] + buffer[bottomSlot, c1] - buffer[topSlot, c1] - buffer[bottomSlot, c0]) % WORD
    }

    lemma RowAt(n: int, row: int, c: int)
      requires Shape() && RowsDone(n) && top - 1 <= row < n && 0 <= c <= right - left
      ensures buffer[Slot(row, buffer.Length0), c] == Table(row, c)
    {
    }

    /** The four-corner query, exact although the table is kept modulo 2^32. */
    lemma CornerQuery(n: int, y0: int, y1: int, c0: int, c1: int)
      requires Shape() && RowsDone(n) && top <= y0 <= y1 <= n && 0 <= c0 <= c1 <= right - left
      requires c1 - c0 <= 2 * radius + 1 && y1 - y0 <= 2 * radius + 1
      ensures Corners(Slot(y0 - 1, buffer.Length0), Slot(y1 - 1, buffer.Length0), c0, c1)
           == image.RectSum(level, left + c0, left + c1, y0, y1)
    {
      hide RowsDone, Slot, Image.RectSum, Image.Valid;
      var a, b := image.RectSum(level, left, left + c0, top, y0), image.RectSum(level, left, left + c1, top, y1);
      var c, d := image.RectSum(level, left, left + c1, top, y0), image.RectSum(level, left, left + c0, top, y1);
      RowAt(n, y0 - 1, c0);
      RowAt(n, y0 - 1, c1);
      RowAt(n, y1 - 1, c0);
      RowAt(n, y1 - 1, c1);
      image.FourCorners(level, left, left + c0, left + c1, top, y0, y1);
      image.RectRange(level, left + c0, left + c1, y0, y1);
      AreaBound(c1 - c0, y1 - y0);
      CornersModulo(a, b, c, d);
    }
  }

  lemma AreaBound(w: int, h: int)
    requires 0 <= w <= 511 && 0 <= h <= 511
    ensures 255 * (w * h) < WORD
  {
    assert w * h <= 511 * h;
  }
}
