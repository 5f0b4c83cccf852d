/**
 Which chunks the references name, said of the parts of the text itself.
*/
module ChunkRefs {
  import opened Basics
  import opened Delimited
  import opened Chunk
  import opened ChunkLaws

  /** Getting, putting into and deleting the lines of a reference is doing so with that many parts of
      the text, from that one on. Parts that are not there are empty, and are padded for when put. */
  ghost predicate Stands(t: text, l: char, i: char, ref: ChunkRef, first: nat, count: nat)
  {
    var parts := Split(t, l);
    && Got(t, l, i, Some(ref), None) == Join(parts[Min(first, |parts|)..Min(first + count, |parts|)], l)
    && (forall x :: Free(x, l) ==>
          Split(Put(t, l, i, Some(ref), None, x), l) == Replaced(Pad(parts, first + 1), first, count, [x]))
    && (first < |parts| ==> Split(Deleted(t, l, i, Some(ref), None), l) == Left(Replaced(parts, first, count, [])))
  }

  lemma Standing(t: text, l: char, i: char, ref: ChunkRef)
    requires At0(ref, t, l).count > 0
    ensures Stands(t, l, i, ref, At0(ref, t, l).first, At0(ref, t, l).count)
  {
    hide Split, Join, Pad, Resolve, ChunkCount, Put, Deleted, Replaced;
    var s := At0(ref, t, l);
    GotParts(t, l, i, ref);
    forall x | Free(x, l)
      ensures Split(Put(t, l, i, Some(ref), None, x), l)
           == Replaced(Pad(Split(t, l), s.first + 1), s.first, s.count, [x])
    {
      PutLine(t, l, i, ref, x);
    }
    if s.first < |Split(t, l)| { DeleteLine(t, l, i, ref); }
  }

  lemma GotParts(t: text, l: char, i: char, ref: ChunkRef)
    requires At0(ref, t, l).count > 0
    ensures var s, parts := At0(ref, t, l), Split(t, l);
            Got(t, l, i, Some(ref), None)
            == Join(parts[Min(s.first, |parts|)..Min(s.first + s.count, |parts|)], l)
  {
    hide Split, Join, Resolve, ChunkCount, FocusOn;
    var s := At0(ref, t, l);
    FocusParts(t, l, s.first, s.count);
    assert Got(t, l, i, Some(ref), None) == FocusOn(t, l, s.first, s.count, false).focus;
  }

  lemma FocusParts(t: text, d: char, first: nat, count: nat)
    requires count > 0
    ensures var parts := Split(t, d);
            FocusOn(t, d, first, count, false).focus == Join(parts[Min(first, |parts|)..Min(first + count, |parts|)], d)
  {
    hide Split, Join;
    JoinNothing(d);
    var parts := Split(t, d);
    if first >= |parts| { assert parts[|parts|..|parts|] == []; }
  }

  /** The chunks that a reference to a single one names when there are n of them, counted from zero. */
  lemma Resolved(n: nat, k: nat)
    requires n > 0
    ensures Resolve(Last, n) == Span(n - 1, 1) && Resolve(Middle, n) == Span(n / 2, 1)
    ensures Resolve(Nth(k), n) == Span(k, 1) == Resolve(At(k + 1), n)
    ensures k < n ==> Resolve(At(-(k + 1)), n) == Span(n - (k + 1), 1)
  {
  }

  /** How many chunks a text has: an empty last part does not count, unless it is the only one. */
  lemma CountIs(t: text, l: char)
    ensures var parts := Split(t, l);
            ChunkCount(t, l) == if |parts| > 1 && parts[|parts| - 1] == [] then |parts| - 1 else |parts|
  {
    if t != [] { SplitEnds(t, l); }
  }

  /** The last line, a line by its number, the middle one, and one counted from the front or from the
      end. */
  lemma SingleLines(t: text, l: char, i: char, k: nat)
    ensures var n := ChunkCount(t, l);
            && Stands(t, l, i, Last, n - 1, 1)
            && Stands(t, l, i, Nth(k), k, 1)
            && Stands(t, l, i, Middle, n / 2, 1)
            && Stands(t, l, i, At(k + 1), k, 1)
            && (k < n ==> Stands(t, l, i, At(-(k + 1)), n - (k + 1), 1))
  {
    hide Stands, ChunkCount, Resolve;
    Resolved(ChunkCount(t, l), k);
    Standing(t, l, i, Last);
    Standing(t, l, i, Nth(k));
    Standing(t, l, i, Middle);
    Standing(t, l, i, At(k + 1));
    if k < ChunkCount(t, l) { Standing(t, l, i, At(-(k + 1))); }
  }

  /** What is got of them. */
  lemma GetSingle(t: text, l: char, i: char, k: nat)
    ensures var n, parts := ChunkCount(t, l), Split(t, l);
            && n <= |parts|
            && Got(t, l, i, Some(Last), None) == parts[n - 1]
            && Got(t, l, i, Some(Middle), None) == (if n / 2 < |parts| then parts[n / 2] else [])
            && Got(t, l, i, Some(Nth(k)), None) == (if k < |parts| then parts[k] else [])
            && Got(t, l, i, Some(At(k + 1)), None) == (if k < |parts| then parts[k] else [])
            && (k < n ==> Got(t, l, i, Some(At(-(k + 1))), None) == parts[n - (k + 1)])
  {
    hide Split, ChunkCount, Got, Stands;
    CountIs(t, l);
    SingleLines(t, l, i, k);
    var n := ChunkCount(t, l);
    GotOne(t, l, i, Last, n - 1);
    GotOne(t, l, i, Middle, n / 2);
    GotOne(t, l, i, Nth(k), k);
    GotOne(t, l, i, At(k + 1), k);
    if k < n { GotOne(t, l, i, At(-(k + 1)), n - (k + 1)); }
  }

  lemma GotOne(t: text, l: char, i: char, ref: ChunkRef, k: nat)
    requires Stands(t, l, i, ref, k, 1)
    ensures Got(t, l, i, Some(ref), None) == if k < |Split(t, l)| then Split(t, l)[k] else []
  {
    hide Split, Got, Put, Deleted;
    var parts := Split(t, l);
    if k < |parts| {
      assert parts[k..k + 1] == [parts[k]];
    } else {
      assert parts[|parts|..|parts|] == [];
    }
  }

  lemma RangeResolved(n: nat, a: int, b: int, from: int, to: int)
    requires a <= b && 1 <= b
    requires from == a >= 0 || from == a - n - 1 < 0
    requires to == b >= 0 || to == b - n - 1 < 0
    ensures Resolve(Range(from, to), n) == Span(Max(a, 1) - 1, b - Max(a, 1) + 1)
  {
  }

  lemma GotRange(t: text, l: char, i: char, ref: ChunkRef, a: int, b: int)
    requires 1 <= a <= b <= |Split(t, l)| && Stands(t, l, i, ref, a - 1, b - a + 1)
    ensures Got(t, l, i, Some(ref), None) == Join(Split(t, l)[a - 1..b], l)
  {
    hide Split, Join, Got, Put, Deleted;
  }

  /** A range from a to b. Each end may be counted from the end instead, and what lies before the
      first line is left out. */
  lemma RangeOfLines(t: text, l: char, i: char, a: int, b: int, from: int, to: int)
    requires a <= b && 1 <= b
    requires from == a >= 0 || from == a - ChunkCount(t, l) - 1 < 0
    requires to == b >= 0 || to == b - ChunkCount(t, l) - 1 < 0
    ensures Stands(t, l, i, Range(from, to), Max(a, 1) - 1, b - Max(a, 1) + 1)
    ensures var parts := Split(t, l);
            1 <= a && b <= |parts| ==> Got(t, l, i, Some(Range(from, to)), None) == Join(parts[a - 1..b], l)
  {
    hide Split, Join, ChunkCount, Got, Stands, Resolve;
    RangeResolved(ChunkCount(t, l), a, b, from, to);
    Standing(t, l, i, Range(from, to));
    if 1 <= a && b <= |Split(t, l)| { GotRange(t, l, i, Range(from, to), a, b); }
  }

  /** An index of zero or before the first line names nothing. Nothing is got, and what is put goes to
      the front of the text. */
  lemma NoLine(t: text, l: char, i: char, k: int, x: text)
    requires k == 0 || k < -(ChunkCount(t, l) as int)
    ensures Got(t, l, i, Some(At(k)), None) == [] && Put(t, l, i, Some(At(k)), None, x) == x + t
  {
    hide ChunkCount, Split, FocusOn;
  }

  /** Neither does a range that ends before it starts, or before the first line. */
  lemma EmptyRange(t: text, l: char, i: char, a: int, b: int, from: int, to: int, x: text)
    requires b < a || b < 1
    requires from == a >= 0 || from == a - ChunkCount(t, l) - 1 < 0
    requires to == b >= 0 || to == b - ChunkCount(t, l) - 1 < 0
    ensures Got(t, l, i, Some(Range(from, to)), None) == [] && Put(t, l, i, Some(Range(from, to)), None, x) == x + t
  {
    hide ChunkCount, Split, FocusOn;
  }

  /** An empty range of items is a place between them, where what is put goes in: in front of the item
      that the range starts with, or at the end if there is none. */
  lemma EmptyItems(t: text, l: char, i: char, a: nat, b: nat, x: text)
    requires b < a
    ensures var parts := Split(t, i);
            && Got(t, l, i, None, Some(Range(a, b))) == []
            && Put(t, l, i, None, Some(Range(a, b)), x)
               == if a <= |parts| then Glue(parts[..a - 1], i) + x + Join(parts[a - 1..], i) else t + x
  {
    hide Split, Join, Glue, ChunkCount;
    var parts := Split(t, i);
    var before := FocusOn(t, i, a - 1, 1, false).before;
    FocusKeeps(t, i, a - 1, 1);
    JoinSplit(t, i);
    if a <= |parts| {
      GlueRest(parts, a - 1, i);
      assert t[|before|..] == Join(parts[a - 1..], i);
    }
    NoItems(t, l, i, Range(a, b), x);
  }

  /** Where an item reference names nothing. */
  lemma NoItems(t: text, l: char, i: char, item: ChunkRef, x: text)
    requires Resolve(item, ChunkCount(t, i)).count == 0
    ensures var first := Resolve(item, ChunkCount(t, i)).first;
            var before := FocusOn(t, i, first, 1, false).before;
            && |before| <= |t|
            && Got(t, l, i, None, Some(item)) == []
            && Put(t, l, i, None, Some(item), x) == before + x + t[|before|..]
  {
    hide FocusOn, Split, ChunkCount, Resolve;
    FocusKeeps(t, i, Resolve(item, ChunkCount(t, i)).first, 1);
  }

  /** Items are counted in the line that is got, in the same way as lines are in the text. */
  lemma ItemsOfLine(t: text, l: char, i: char, line: ChunkRef, item: ChunkRef)
    ensures Got(t, l, i, Some(line), Some(item)) == Got(Got(t, l, i, Some(line), None), i, l, Some(item), None)
  {
    hide Split, Join, FocusOn, Resolve, ChunkCount;
  }
}
