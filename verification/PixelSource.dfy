/**
 Source pixels as a blur gets them: the memory, the place in it of the output's top left corner, and
 the distance from one row to the next.
*/
module PixelSource {
  import opened Basics
  import opened BlurPlane
  import opened RowSlots

  type word = w: int | 0 <= w < WORD

  /** What lies at any address, inside the pixels that were meant and outside; wide says that addresses
      have more than 32 bits. */
  datatype Source = Source(memory: int -> word, origin: int, stride: int, wide: bool)
  {
    /** How far a row is from the origin. */
    function Row(y: int): int { stride * y }

    /** Where the row pointer of the fast Gaussian starts: the row number is unsigned, and so is its
        product with the stride. Only where addresses wrap around with it is that no matter. */
    function Start(top: int): int
    {
      if wide then stride * (top % WORD) % WORD else Row(top)
    }

    /** How far the row pointer then is from the first input row. */
    function Skew(top: int): int { Start(top) - Row(top) }

    /** What a row pointer for row y finds in column x when it is that far off. */
    function Pixel(skew: int, x: int, y: int): (p: int)
      ensures 0 <= p < WORD
    {
      memory(origin + Row(y) + skew + x)
    }

    function PixelRow(skew: int, left: int, right: int, y: int): (row: seq<int>)
      requires left <= right
      ensures |row| == right - left
      ensures forall c :: 0 <= c < |row| ==> row[c] == Pixel(skew, left + c, y) && 0 <= row[c] < WORD
    {
      seq(right - left, c => Pixel(skew, left + c, y))
    }

    function PixelRows(skew: int, left: int, right: int, top: int, bottom: int): (rows: seq<seq<int>>)
      requires left <= right && top <= bottom
      ensures |rows| == bottom - top
      ensures forall r :: 0 <= r < |rows| ==> rows[r] == PixelRow(skew, left, right, top + r)
    {
      seq(bottom - top, r => PixelRow(skew, left, right, top + r))
    }

    ghost predicate PixelLies(image: Image, skew: int, x: int, y: int)
      requires image.Valid() && image.left <= x < image.right && image.top <= y < image.bottom
    {
      Pixel(skew, x, y) == image.pixels[y - image.top][x - image.left]
    }

    ghost predicate Lies(image: Image, skew: int)
      requires image.Valid()
    {
      forall x, y :: image.left <= x < image.right && image.top <= y < image.bottom ==> PixelLies(image, skew, x, y)
    }

    /** The image that such a pointer sees in the place of the given one. */
    function Seen(image: Image, skew: int): (seen: Image)
      requires image.Valid()
      ensures seen.Valid() && Lies(seen, skew)
      ensures seen.left == image.left && seen.right == image.right
      ensures seen.top == image.top && seen.bottom == image.bottom && seen.radii == image.radii
    {
      image.(pixels := PixelRows(skew, image.left, image.right, image.top, image.bottom))
    }

    /** The input pixels of the image are where they are meant to be. */
    ghost predicate Holds(image: Image)
      requires image.Valid()
    {
      Lies(image, 0)
    }

    lemma SeenAsMeant(image: Image)
      requires image.Valid() && Holds(image)
      ensures Seen(image, 0) == image
    {
      var seen := Seen(image, 0);
      forall r | 0 <= r < |seen.pixels| ensures seen.pixels[r] == image.pixels[r] {
        forall c | 0 <= c < image.right - image.left ensures seen.pixels[r][c] == image.pixels[r][c] {
          assert PixelLies(image, 0, image.left + c, image.top + r);
        }
      }
    }

    lemma NextRow(y: int)
      ensures Row(y + 1) == Row(y) + stride
    {
    }

    /** The pointer starts at the first input row if and only if addresses wrap around or the
        distance to that row is an unsigned 32-bit number. */
    lemma StartIsTop(top: int)
      ensures Start(top) == Row(top) <==> !wide || 0 <= Row(top) < WORD
    {
      if wide { UnsignedProduct(stride, top); }
    }

    /** So with rows that run down in memory it is wrong just when the input starts above the
        output. */
    lemma StartAboveOutput(top: int)
      requires wide && stride > 0 && -INT32_LIMIT <= Row(top) < INT32_LIMIT
      ensures Start(top) == Row(top) <==> top >= 0
    {
      StartIsTop(top);
      if top >= 0 {
        Sign(stride, top);
      } else {
        Sign(stride, -top - 1);
        assert stride * (-top - 1) == -Row(top) - stride;
      }
    }
  }

  lemma Sign(a: int, b: int)
    requires a >= 0 && b >= 0
    ensures a * b >= 0
  {
  }

  /** The unsigned product of two numbers is their product modulo 2^32. */
  lemma UnsignedProduct(a: int, b: int)
    ensures a * (b % WORD) % WORD == a * b % WORD
    ensures a * b % WORD == a * b <==> 0 <= a * b < WORD
  {
    var q := b / WORD;
    assert b % WORD == b - q * WORD;
    assert a * (b - q * WORD) == a * b - a * (q * WORD) && a * (q * WORD) == (a * q) * WORD;
    RemainderShift(a * b, a * q);
    RemainderSame(a * b);
  }

  lemma RemainderSame(n: int)
    ensures n % WORD == n <==> 0 <= n < WORD
  {
  }

  /** One row above the output, rows of 100 pixels: the pointer starts 2^32 pixels too far. */
  lemma StartTooFar()
    ensures var s := Source(_ => 0, 0, 100, true); s.Start(-1) == 4294967196 && s.Row(-1) == -100
  {
  }
}
