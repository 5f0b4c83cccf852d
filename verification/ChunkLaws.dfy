/**
 What set, get and delete mean for the lines and items of a text, on the range that mark finds.
*/
module ChunkLaws {
  import opened Basics
  import opened Delimited
  import opened Chunk

  /** Where a reference leads among the parts of a text. */
  ghost function At0(ref: ChunkRef, t: text, d: char): Span
  {
    Resolve(ref, ChunkCount(t, d))
  }

  /** The lines of a text, and the items of one of them, padded as far as a chunk that is put. */
  ghost function Lines(t: text, l: char, line: ChunkRef): seq<text>
  {
    Pad(Split(t, l), At0(line, t, l).first + 1)
  }

  ghost function Line(t: text, l: char, line: ChunkRef): text
  {
    Lines(t, l, line)[At0(line, t, l).first]
  }

  ghost function Items(t: text, l: char, i: char, line: ChunkRef, item: ChunkRef): seq<text>
  {
    Pad(Split(Line(t, l, line), i), At0(item, Line(t, l, line), i).first + 1)
  }

  /** The text that set leaves when it puts x into a chunk. */
  ghost function Put(t: text, l: char, i: char, line: Option<ChunkRef>, item: Option<ChunkRef>, x: text): text
  {
    Written(Marked(t, l, i, line, item, true, false), x, Into)
  }

  /** The text that set leaves when it puts x before or after a chunk. */
  ghost function Beside(t: text, l: char, i: char, line: Option<ChunkRef>, item: Option<ChunkRef>, x: text,
                        prep: Preposition): text
  {
    Written(Marked(t, l, i, line, item, true, false), x, prep)
  }

  /** The part of a span that such a text goes to: the first one, or the last. */
  ghost function Place(parts: seq<text>, s: Span, prep: Preposition): nat
    requires s.count > 0 && s.first < |parts|
  {
    if prep == Before then s.first else Min(s.first + s.count, |parts|) - 1
  }

  ghost function Grown(parts: seq<text>, s: Span, x: text, prep: Preposition): seq<text>
    requires s.count > 0 && s.first < |parts|
  {
    var k := Place(parts, s, prep);
    parts[k := if prep == Before then x + parts[k] else parts[k] + x]
  }

  ghost function Got(t: text, l: char, i: char, line: Option<ChunkRef>, item: Option<ChunkRef>): text
  {
    Marked(t, l, i, line, item, false, false).focus
  }

  ghost function Deleted(t: text, l: char, i: char, line: Option<ChunkRef>, item: Option<ChunkRef>): text
  {
    var z := Marked(t, l, i, line, item, true, true);
    z.before + z.after
  }

  lemma Positive(k: nat, n: nat)
    requires k >= 1
    ensures Resolve(At(k), n) == Span(k - 1, 1)
  {
  }

  /** The lines put into become one line x, the missing ones before them become empty, the others
      stay, and the new line is what is got. */
  lemma PutLine(t: text, l: char, i: char, line: ChunkRef, x: text)
    requires At0(line, t, l).count > 0 && Free(x, l)
    ensures var s := At0(line, t, l);
            && Split(Put(t, l, i, Some(line), None, x), l) == Replaced(Lines(t, l, line), s.first, s.count, [x])
            && Got(Put(t, l, i, Some(line), None, x), l, i, Some(At(s.first + 1)), None) == x
  {
    hide Split, Pad, FocusOn, Resolve, ChunkCount;
    var s := At0(line, t, l);
    var z := FocusOn(t, l, s.first, s.count, true);
    var t' := Put(t, l, i, Some(line), None, x);
    Edges(z, Zipper([], z.focus, []), x);
    assert t' == z.before + x + z.after;
    GetPutLaw(t, l, s.first, s.count, x);
    Positive(s.first + 1, ChunkCount(t', l));
  }

  lemma Edges(zl: Zipper, zi: Zipper, x: text)
    ensures (zl.before + zi.before) + x + (zi.after + zl.after) == zl.before + (zi.before + x + zi.after) + zl.after
    ensures (zl.before + zi.before) + (zi.after + zl.after) == zl.before + (zi.before + zi.after) + zl.after
  {
  }

  /** The items of the line put into become one item x, missing lines and items before it become
      empty, everything else stays, and the new item is what is got. */
  lemma PutItem(t: text, l: char, i: char, line: ChunkRef, item: ChunkRef, x: text)
    requires l != i && Free(x, l) && Free(x, i)
    requires At0(line, t, l).count == 1 && At0(item, Line(t, l, line), i).count > 0
    ensures var j, s := At0(line, t, l).first, At0(item, Line(t, l, line), i);
            var items := Replaced(Items(t, l, i, line, item), s.first, s.count, [x]);
            var t' := Put(t, l, i, Some(line), Some(item), x);
            && Split(t', l) == Lines(t, l, line)[j := Join(items, i)]
            && Split(Join(items, i), i) == items
            && Got(t', l, i, Some(At(j + 1)), Some(At(s.first + 1))) == x
  {
    hide Split, Join, Pad, FocusOn, Resolve, ChunkCount;
    var j, s := At0(line, t, l).first, At0(item, Line(t, l, line), i);
    var zl := FocusOn(t, l, j, 1, true);
    var zi := FocusOn(zl.focus, i, s.first, s.count, true);
    var t' := Put(t, l, i, Some(line), Some(item), x);
    NestedPutLaw(t, l, i, j, s.first, s.count, x);
    DelimiterBefore(t, l, j, 1);
    Edges(zl, zi, x);
    assert t' == zl.before + (zi.before + x + zi.after) + zl.after;
    ItemsSplit(Line(t, l, line), i, s, x);
    NestedGetPutLaw(t, l, i, j, s.first, s.count, x);
    var focus := FocusOn(t', l, j, 1, false).focus;
    Positive(j + 1, ChunkCount(t', l));
    Positive(s.first + 1, ChunkCount(focus, i));
  }

  lemma GrownFree(parts: seq<text>, s: Span, x: text, prep: Preposition, d: char)
    requires s.count > 0 && s.first < |parts| && AllFree(parts, d) && Free(x, d)
    ensures AllFree(Grown(parts, s, x, prep), d)
  {
  }

  lemma BesideLaw(t: text, d: char, s: Span, x: text, prep: Preposition)
    requires prep != Into && s.count > 0
    ensures var z := FocusOn(t, d, s.first, s.count, true);
            z.before + (if prep == Before then x + z.focus else z.focus + x) + z.after
            == Join(Grown(Pad(Split(t, d), s.first + 1), s, x, prep), d)
  {
    hide Split, Join, Pad, FocusOn;
    if prep == Before {
      BeforeLaw(t, d, s.first, s.count, x);
    } else {
      AfterLaw(t, d, s.first, s.count, x);
    }
  }

  /** Putting x before or after lines changes the first or the last of them, x in front of it or
      behind it, and that line is what is got. */
  lemma BesideLine(t: text, l: char, i: char, line: ChunkRef, x: text, prep: Preposition)
    requires prep != Into && At0(line, t, l).count > 0 && Free(x, l)
    ensures var s, lines := At0(line, t, l), Lines(t, l, line);
            var k, t' := Place(lines, s, prep), Beside(t, l, i, Some(line), None, x, prep);
            && Split(t', l) == Grown(lines, s, x, prep)
            && Got(t', l, i, Some(At(k + 1)), None) == Grown(lines, s, x, prep)[k]
  {
    hide Split, Join, Pad, FocusOn, Resolve, ChunkCount;
    var s, lines := At0(line, t, l), Lines(t, l, line);
    var k, t' := Place(lines, s, prep), Beside(t, l, i, Some(line), None, x, prep);
    var z := FocusOn(t, l, s.first, s.count, true);
    BesideLaw(t, l, s, x, prep);
    Edges(z, Zipper([], z.focus, []), if prep == Before then x + z.focus else z.focus + x);
    BesideFocus(z, Zipper([], z.focus, []), x, prep);
    assert t' == z.before + (if prep == Before then x + z.focus else z.focus + x) + z.after;
    SplitFree(t, l);
    GrownFree(lines, s, x, prep, l);
    SplitJoin(Grown(lines, s, x, prep), l);
    FocusOfOne(t', l, k, false);
    Positive(k + 1, ChunkCount(t', l));
  }

  lemma BesideFocus(zl: Zipper, zi: Zipper, x: text, prep: Preposition)
    requires prep != Into
    ensures Written(Zipper(zl.before + zi.before, zi.focus, zi.after + zl.after), x, prep)
         == (zl.before + zi.before) + (if prep == Before then x + zi.focus else zi.focus + x) + (zi.after + zl.after)
  {
  }

  /** One line put in the place of another. */
  lemma NewLine(t: text, l: char, j: nat, new': text)
    requires Free(new', l)
    ensures var zl := FocusOn(t, l, j, 1, true);
            var t' := zl.before + new' + zl.after;
            Split(t', l) == Pad(Split(t, l), j + 1)[j := new'] && FocusOn(t', l, j, 1, false).focus == new'
  {
    hide Split, Join, FocusOn;
    GetPutLaw(t, l, j, 1, new');
    var lines := Pad(Split(t, l), j + 1);
    assert Replaced(lines, j, 1, [new']) == lines[j := new'];
  }

  lemma ItemsGrown(t: text, l: char, i: char, s: Span, x: text, prep: Preposition)
    requires l != i && Free(t, l) && Free(x, l) && Free(x, i) && s.count > 0
    ensures var was := Pad(Split(t, i), s.first + 1);
            var items, k := Grown(was, s, x, prep), Place(was, s, prep);
            && Free(Join(items, i), l) && Split(Join(items, i), i) == items
            && FocusOn(Join(items, i), i, k, 1, false).focus == items[k]
  {
    hide Split, Join, FocusOn;
    var was := Pad(Split(t, i), s.first + 1);
    var items, k := Grown(was, s, x, prep), Place(was, s, prep);
    PartsFree(t, i, l);
    GrownFree(was, s, x, prep, l);
    JoinFree(items, i, l);
    SplitFree(t, i);
    GrownFree(was, s, x, prep, i);
    SplitJoin(items, i);
    FocusOfOne(Join(items, i), i, k, false);
  }

  /** Putting x before or after items of a line changes the first or the last of them; missing lines
      and items before it become empty, and everything else stays. */
  lemma BesideItem(t: text, l: char, i: char, line: ChunkRef, item: ChunkRef, x: text, prep: Preposition)
    requires prep != Into && l != i && Free(x, l) && Free(x, i)
    requires At0(line, t, l).count == 1 && At0(item, Line(t, l, line), i).count > 0
    ensures var j, s := At0(line, t, l).first, At0(item, Line(t, l, line), i);
            var items := Grown(Items(t, l, i, line, item), s, x, prep);
            var k := Place(Items(t, l, i, line, item), s, prep);
            var t' := Beside(t, l, i, Some(line), Some(item), x, prep);
            && Split(t', l) == Lines(t, l, line)[j := Join(items, i)]
            && Split(Join(items, i), i) == items
            && Got(t', l, i, Some(At(j + 1)), Some(At(k + 1))) == items[k]
  {
    hide Split, Join, Pad, FocusOn, Resolve, ChunkCount, Grown, Place;
    var j, s := At0(line, t, l).first, At0(item, Line(t, l, line), i);
    var was := Items(t, l, i, line, item);
    var items, k := Grown(was, s, x, prep), Place(was, s, prep);
    var zl := FocusOn(t, l, j, 1, true);
    var zi := FocusOn(zl.focus, i, s.first, s.count, true);
    var t', line' := Beside(t, l, i, Some(line), Some(item), x, prep), Join(items, i);
    FocusOfOne(t, l, j, true);
    DelimiterBefore(t, l, j, 1);
    BesideLaw(zl.focus, i, s, x, prep);
    Edges(zl, zi, if prep == Before then x + zi.focus else zi.focus + x);
    BesideFocus(zl, zi, x, prep);
    assert t' == zl.before + line' + zl.after;
    SplitFree(t, l);
    ItemsGrown(zl.focus, l, i, s, x, prep);
    NewLine(t, l, j, line');
    Positive(j + 1, ChunkCount(t', l));
    Positive(k + 1, ChunkCount(line', i));
  }

  lemma ItemsSplit(t: text, i: char, s: Span, x: text)
    requires Free(x, i) && s.count > 0
    ensures var items := Replaced(Pad(Split(t, i), s.first + 1), s.first, s.count, [x]);
            Split(Join(items, i), i) == items
  {
    hide Split, Join, Pad, FocusOn;
    PutLaw(t, i, s.first, s.count, x);
    GetPutLaw(t, i, s.first, s.count, x);
  }

  /** The parts that are left, or one empty part. */
  ghost function Left(parts: seq<text>): seq<text>
  {
    if parts == [] then [[]] else parts
  }

  lemma SplitLeft(parts: seq<text>, d: char)
    requires AllFree(parts, d)
    ensures Split(Join(parts, d), d) == Left(parts)
  {
    if parts != [] { SplitJoin(parts, d); }
  }

  /** Deleting lines leaves the other lines as they were. */
  lemma DeleteLine(t: text, l: char, i: char, line: ChunkRef)
    requires var s := At0(line, t, l); s.count > 0 && s.first < |Split(t, l)|
    ensures var s := At0(line, t, l);
            Split(Deleted(t, l, i, Some(line), None), l) == Left(Replaced(Split(t, l), s.first, s.count, []))
  {
    hide Split, Join, Pad, FocusOn, Resolve, ChunkCount, Widened;
    var s := At0(line, t, l);
    var w := Widened(FocusOn(t, l, s.first, s.count, false));
    Edges(w, Zipper([], w.focus, []), []);
    assert Deleted(t, l, i, Some(line), None) == w.before + w.after;
    DeleteLaw(t, l, s.first, s.count);
    SplitFree(t, l);
    SplitLeft(Replaced(Split(t, l), s.first, s.count, []), l);
  }

  /** Deleting items of a line leaves the other lines, and the other items of that line. */
  lemma DeleteItem(t: text, l: char, i: char, line: ChunkRef, item: ChunkRef)
    requires l != i
    requires At0(line, t, l).count == 1 && At0(line, t, l).first < |Split(t, l)|
    requires var s := At0(item, Line(t, l, line), i); s.count > 0 && s.first < |Split(Line(t, l, line), i)|
    ensures var j, s := At0(line, t, l).first, At0(item, Line(t, l, line), i);
            var items := Replaced(Split(Split(t, l)[j], i), s.first, s.count, []);
            && Split(Deleted(t, l, i, Some(line), Some(item)), l) == Split(t, l)[j := Join(items, i)]
            && Split(Join(items, i), i) == Left(items)
  {
    hide Split, Join, Pad, FocusOn, Resolve, ChunkCount, Widened;
    var j, s := At0(line, t, l).first, At0(item, Line(t, l, line), i);
    var zl := FocusOn(t, l, j, 1, false);
    FocusPresent(t, l, j, 1);
    FocusOfOne(t, l, j, true);
    FocusOfOne(t, l, j, false);
    PadKeeps(Split(t, l), j);
    var w := Widened(FocusOn(zl.focus, i, s.first, s.count, false));
    Edges(zl, w, []);
    assert Deleted(t, l, i, Some(line), Some(item)) == zl.before + (w.before + w.after) + zl.after;
    NestedDeleteLaw(t, l, i, j, s.first, s.count);
    SplitFree(Split(t, l)[j], i);
    SplitLeft(Replaced(Split(Split(t, l)[j], i), s.first, s.count, []), i);
  }

  lemma PadKeeps(parts: seq<text>, k: nat)
    requires k < |parts|
    ensures Pad(parts, k + 1) == parts
  {
  }

  /** Deleting an item that is not there leaves the text alone if and only if its line is there:
      otherwise the text is padded up to the line first, and keeps the padding. */
  lemma DeleteMissingItem(t: text, l: char, i: char, line: ChunkRef, item: ChunkRef)
    requires At0(line, t, l).count == 1
    requires var s := At0(item, Line(t, l, line), i); s.count > 0
    requires At0(line, t, l).first < |Split(t, l)| ==>
               At0(item, Line(t, l, line), i).first >= |Split(Line(t, l, line), i)|
    ensures Deleted(t, l, i, Some(line), Some(item)) == t <==> At0(line, t, l).first < |Split(t, l)|
    ensures var j, n := At0(line, t, l).first, |Split(t, l)|;
            j >= n ==> Deleted(t, l, i, Some(line), Some(item)) == t + Repeat(l, j + 1 - n)
  {
    hide Split, Join, Pad, FocusOn, Resolve, ChunkCount;
    var j, s := At0(line, t, l).first, At0(item, Line(t, l, line), i);
    var zl := FocusOn(t, l, j, 1, true);
    FocusOfOne(t, l, j, true);
    FocusWhole(t, l, j, 1, true);
    RepeatNone(l);
    if j < |Split(t, l)| {
      MissingAtEnd(zl.focus, i, s);
      Edges(zl, Zipper(zl.focus, [], []), []);
      assert Deleted(t, l, i, Some(line), Some(item)) == zl.Whole();
      assert t + [] == t;
    } else {
      FocusMissing(t, l, j, 1);
      NothingThere(i, s, AfterDelimiter(zl, i));
      Edges(zl, Zipper([], [], []), []);
      assert Deleted(t, l, i, Some(line), Some(item)) == zl.before;
    }
  }

  lemma NothingThere(i: char, s: Span, misread: bool)
    requires s.count > 0
    ensures Stage([], i, s, true, true, misread) == Zipper([], [], [])
  {
    if s.first == 0 {
      assert Split([], i)[0..1] == [[]];
    }
  }

  /** If lines and items have the same delimiter, a line is a single item: what is put into an item
      of a line is got back if and only if that is the first item, or nothing was put. */
  lemma EqualDelimiters(t: text, d: char, line: ChunkRef, item: ChunkRef, x: text)
    requires Free(x, d) && At0(line, t, d).count == 1 && At0(item, Line(t, d, line), d).count > 0
    ensures var j, s := At0(line, t, d).first, At0(item, Line(t, d, line), d);
            Got(Put(t, d, d, Some(line), Some(item), x), d, d, Some(At(j + 1)), Some(At(s.first + 1))) == x
            <==> s.first == 0 || x == []
  {
    hide Split, Join, Pad, FocusOn, Resolve, ChunkCount, Put, Got, Line;
    if At0(item, Line(t, d, line), d).first > 0 {
      var j, first := At0(line, t, d).first, At0(item, Line(t, d, line), d).first;
      LaterItem(Put(t, d, d, Some(line), Some(item), x), d, j, first);
    } else {
      FirstItem(t, d, line, item, x);
    }
  }

  lemma LaterItem(t: text, d: char, j: nat, first: nat)
    requires first > 0
    ensures Got(t, d, d, Some(At(j + 1)), Some(At(first + 1))) == []
  {
    hide Split, Join, Pad, FocusOn, Resolve, ChunkCount;
    var focus := FocusOn(t, d, j, 1, false).focus;
    Positive(j + 1, ChunkCount(t, d));
    Positive(first + 1, ChunkCount(focus, d));
    FocusOneItem(t, d, j);
    MissingAtEnd(focus, d, Span(first, 1));
  }

  lemma FirstItem(t: text, d: char, line: ChunkRef, item: ChunkRef, x: text)
    requires Free(x, d) && At0(line, t, d).count == 1
    requires At0(item, Line(t, d, line), d).count > 0 && At0(item, Line(t, d, line), d).first == 0
    ensures Got(Put(t, d, d, Some(line), Some(item), x), d, d, Some(At(At0(line, t, d).first + 1)), Some(At(1))) == x
  {
    hide Split, Join, Pad, FocusOn, Resolve, ChunkCount;
    var j, s := At0(line, t, d).first, At0(item, Line(t, d, line), d);
    var zl := FocusOn(t, d, j, 1, true);
    var t' := Put(t, d, d, Some(line), Some(item), x);
    FocusOfOne(t, d, j, true);
    SplitFree(t, d);
    LineIsItem(zl.focus, d, s.count);
    Edges(zl, Zipper([], zl.focus, []), x);
    assert t' == zl.before + x + zl.after;
    GetPutLaw(t, d, j, 1, x);
    Positive(j + 1, ChunkCount(t', d));
    Positive(1, ChunkCount(x, d));
    LineIsItem(x, d, 1);
  }

  /** A single line has no delimiter in it. */
  lemma FocusOneItem(t: text, d: char, j: nat)
    ensures |Split(FocusOn(t, d, j, 1, false).focus, d)| == 1
  {
    hide Split, Join;
    SplitFree(t, d);
    if j < |Split(t, d)| { FocusOfOne(t, d, j, false); }
    assert Free(FocusOn(t, d, j, 1, false).focus, d);
    SplitOne(FocusOn(t, d, j, 1, false).focus, d);
  }

  lemma LineIsItem(t: text, d: char, count: nat)
    requires Free(t, d) && count > 0
    ensures FocusOn(t, d, 0, count, true) == Zipper([], t, []) == FocusOn(t, d, 0, count, false)
  {
    SplitOne(t, d);
    assert [t][0..1] == [t];
  }

  /** Deleting the first item of the third line of a text of one line leaves two empty lines. */
  lemma DeletingAddsLines()
    ensures Deleted("a", '\n', ',', Some(At(3)), Some(At(1))) == "a\n\n"
  {
    var t: text, l, i := "a", '\n', ',';
    Positive(3, ChunkCount(t, l));
    Positive(1, ChunkCount(Line(t, l, At(3)), i));
    SplitOne(t, l);
    DeleteMissingItem(t, l, i, At(3), At(1));
    assert Repeat(l, 2) == "\n\n";
  }

  /** And a delimiter too few is padded for a later item of an empty line: the one that ends the line
      before is counted with them. */
  lemma EqualDelimitersShort()
    ensures Put("a,", ',', ',', Some(At(2)), Some(At(3)), "x") == "a,,x"
  {
    var t: text, d := "a,", ',';
    SplitFirst("a", [], d);
    SplitOne("a", d);
    assert t == "a" + [d] + [];
    assert Split(t, d) == ["a", ""];
    Positive(2, ChunkCount(t, d));
    Positive(3, ChunkCount("", d));
    GlueNothing(d);
    GlueMore([], "a", d);
    assert Split(t, d)[..1] == [] + ["a"] && Split(t, d)[1..2] == [""];
    assert Glue(["a"], d) == "a,";
    assert FocusOn(t, d, 1, 1, true) == Zipper("a,", [], []);
    assert Repeat(d, 1) == ",";
  }

  /** What is put into the second item of a line is not there if lines have the same delimiter. */
  lemma EqualDelimitersLose()
    ensures var put := Put("a", ',', ',', Some(At(1)), Some(At(2)), "b");
            Got(put, ',', ',', Some(At(1)), Some(At(2))) != "b"
  {
    var t: text, x: text, d := "a", "b", ',';
    Positive(1, ChunkCount(t, d));
    Positive(2, ChunkCount(Line(t, d, At(1)), d));
    EqualDelimiters(t, d, At(1), At(2), x);
  }
}
