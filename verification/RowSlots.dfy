/**
 Rows of the plane kept in the rows of a buffer, at their number modulo the buffer's height, and
 sums kept modulo 2^32.
*/
module RowSlots {
  import opened Basics

  /** The buffer row that holds a row of the plane. */
  function Slot(row: int, height: nat): (s: int)
    requires height > 0
    ensures 0 <= s < height
  {
    row % height
  }

  lemma SlotNext(row: int, height: nat)
    requires height > 0
    ensures Slot(row, height) == if Slot(row - 1, height) < height - 1 then Slot(row - 1, height) + 1 else 0
  {
    var q, s := (row - 1) / height, (row - 1) % height;
    assert row - 1 == q * height + s;
    if s < height - 1 {
      assert row == q * height + (s + 1);
      SlotUnique(row, height, q, s + 1);
    } else {
      assert row == (q + 1) * height;
      SlotUnique(row, height, q + 1, 0);
    }
  }

  lemma {:induction false} Multiple(k: int, height: int)
    requires height > 0 && k != 0
    ensures k > 0 ==> k * height >= height
    ensures k < 0 ==> k * height <= 0 - height
    decreases if k > 0 then k else 0 - k
  {
    if k > 1 { Multiple(k - 1, height); }
    if k < -1 { Multiple(k + 1, height); }
  }

  /** Quotient and remainder are determined by their product and sum. */
  lemma QuotientUnique(height: nat, q: int, s: int, q': int, s': int)
    requires height > 0 && q * height + s == q' * height + s' && 0 <= s < height && 0 <= s' < height
    ensures q == q' && s == s'
  {
    if q != q' {
      assert (q - q') * height == q * height - q' * height;
      Multiple(q - q', height);
    }
  }

  lemma SlotUnique(row: int, height: nat, q: int, s: int)
    requires height > 0 && row == q * height + s && 0 <= s < height
    ensures row % height == s
  {
    QuotientUnique(height, q, s, row / height, row % height);
  }

  /** Fewer than height rows apart, two rows have different slots. */
  lemma SlotsApart(a: int, b: int, height: nat)
    requires height > 0 && a < b < a + height
    ensures Slot(a, height) != Slot(b, height)
  {
    var qa, qb, s := a / height, b / height, a % height;
    if s == b % height {
      assert qa * height + s == a && qb * height + s == b;
      assert (qb - qa) * height == b - a;
      if qb != qa { Multiple(qb - qa, height); }
    }
  }

  /** Adds the buffer height until the row is not negative, then takes the remainder. */
  method SlotOf(row: int, height: nat) returns (s: int)
    requires height > 0
    ensures s == Slot(row, height)
  {
    var n := row;
    while n < 0
      invariant Slot(n, height) == Slot(row, height)
    {
      SlotUnique(n + height, height, n / height + 1, n % height);
      n := n + height;
    }
    s := n % height;
  }

  /** A sum modulo 2^32 of terms that are themselves kept modulo 2^32. */
  lemma SumModulo(a: int, v: int, b: int, c: int)
    ensures (a % WORD + v + b % WORD - c % WORD) % WORD == (a + v + b - c) % WORD
  {
    var q := a / WORD + b / WORD - c / WORD;
    assert a % WORD + v + b % WORD - c % WORD == a + v + b - c - q * WORD;
    RemainderShift(a + v + b - c, q);
  }

  lemma RemainderShift(n: int, q: int)
    ensures (n - q * WORD) % WORD == n % WORD
  {
    assert n - q * WORD == (n / WORD - q) * WORD + n % WORD;
    SlotUnique(n - q * WORD, WORD, n / WORD - q, n % WORD);
  }
}
