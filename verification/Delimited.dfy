/**
 Delimiter-separated text: splitting, joining, and the part of a text that a chunk names.
*/
module Delimited {
  import opened Basics

  type text = seq<char>

  /** All the parts of a text, so one more than it has delimiters. */
  function Split(t: text, d: char): (parts: seq<text>)
    ensures |parts| >= 1
  {
    if t == [] then [[]]
    else
      var rest := Split(t[1..], d);
      if t[0] == d then [[]] + rest else [[t[0]] + rest[0]] + rest[1..]
  }

  function Join(parts: seq<text>, d: char): text
  {
    if parts == [] then [] else if |parts| == 1 then parts[0] else parts[0] + [d] + Join(parts[1..], d)
  }

  /** Every part with its delimiter after it. */
  function Glue(parts: seq<text>, d: char): text
  {
    if parts == [] then [] else parts[0] + [d] + Glue(parts[1..], d)
  }

  predicate Free(t: text, d: char)
  {
    d !in t
  }

  predicate AllFree(parts: seq<text>, d: char)
  {
    forall i :: 0 <= i < |parts| ==> Free(parts[i], d)
  }

  lemma {:induction false} SplitFree(t: text, d: char)
    ensures AllFree(Split(t, d), d)
  {
    if t != [] { SplitFree(t[1..], d); }
  }

  lemma {:induction false} JoinSplit(t: text, d: char)
    ensures Join(Split(t, d), d) == t
  {
    if t != [] {
      var rest := Split(t[1..], d);
      JoinSplit(t[1..], d);
      if t[0] == d { JoinNewPart(rest, d); } else { JoinLonger(t[0], rest, d); }
      assert t == [t[0]] + t[1..];
    }
  }

  lemma JoinNewPart(rest: seq<text>, d: char)
    requires rest != []
    ensures Join([[]] + rest, d) == [d] + Join(rest, d)
  {
    assert ([[]] + rest)[1..] == rest;
  }

  lemma JoinLonger(c: char, rest: seq<text>, d: char)
    requires rest != []
    ensures Join([[c] + rest[0]] + rest[1..], d) == [c] + Join(rest, d)
  {
    assert ([[c] + rest[0]] + rest[1..])[1..] == rest[1..];
    if |rest| > 1 {
      assert ([c] + rest[0]) + [d] + Join(rest[1..], d) == [c] + (rest[0] + [d] + Join(rest[1..], d));
    }
  }

  lemma SplitNothing(d: char)
    ensures Split([], d) == [[]]
  {
  }

  lemma {:induction false} SplitOne(t: text, d: char)
    requires Free(t, d)
    ensures Split(t, d) == [t]
  {
    if t != [] {
      assert t[0] in t && forall c :: c in t[1..] ==> c in t;
      SplitOne(t[1..], d);
      assert t == [t[0]] + t[1..];
    }
  }

  lemma {:induction false} SplitFirst(head: text, rest: text, d: char)
    requires Free(head, d)
    ensures Split(head + [d] + rest, d) == [head] + Split(rest, d)
  {
    var t := head + [d] + rest;
    if head == [] {
      assert t[1..] == rest;
    } else {
      assert head[0] in head && forall c :: c in head[1..] ==> c in head;
      SplitFirst(head[1..], rest, d);
      assert t[1..] == head[1..] + [d] + rest;
      assert [head[0]] + head[1..] == head;
    }
  }

  lemma {:induction false} SplitJoin(parts: seq<text>, d: char)
    requires |parts| >= 1 && AllFree(parts, d)
    ensures Split(Join(parts, d), d) == parts
  {
    if |parts| == 1 {
      SplitOne(parts[0], d);
    } else {
      SplitJoin(parts[1..], d);
      SplitFirst(parts[0], Join(parts[1..], d), d);
    }
  }

  lemma JoinSingle(part: text, d: char)
    ensures Join([part], d) == part
  {
  }

  lemma JoinNothing(d: char)
    ensures Join([], d) == []
  {
  }

  lemma GlueNothing(d: char)
    ensures Glue([], d) == []
  {
  }

  lemma {:induction false} GlueJoin(a: seq<text>, b: seq<text>, d: char)
    requires b != []
    ensures Join(a + b, d) == Glue(a, d) + Join(b, d)
  {
    if a == [] {
      assert a + b == b;
    } else {
      GlueJoin(a[1..], b, d);
      assert (a + b)[0] == a[0] && (a + b)[1..] == a[1..] + b;
      assert a[0] + [d] + (Glue(a[1..], d) + Join(b, d)) == a[0] + [d] + Glue(a[1..], d) + Join(b, d);
    }
  }

  lemma {:induction false} GlueMore(a: seq<text>, part: text, d: char)
    ensures Glue(a + [part], d) == Glue(a, d) + part + [d]
  {
    if a == [] {
      assert a + [part] == [part];
    } else {
      GlueMore(a[1..], part, d);
      assert (a + [part])[1..] == a[1..] + [part];
    }
  }

  /** A run of one character. */
  function Repeat(c: char, n: nat): (t: text)
    ensures |t| == n && forall i :: 0 <= i < n ==> t[i] == c
  {
    if n == 0 then [] else [c] + Repeat(c, n - 1)
  }

  /** Empty parts added until there are n. */
  function Pad(parts: seq<text>, n: nat): (p: seq<text>)
    ensures parts <= p && |p| == (if |parts| < n then n else |parts|)
    ensures forall i :: |parts| <= i < |p| ==> p[i] == []
    decreases n - |parts|
  {
    if |parts| >= n then parts else Pad(parts + [[]], n)
  }

  lemma {:induction false} JoinPad(parts: seq<text>, n: nat, d: char)
    requires |parts| >= 1
    ensures Join(Pad(parts, n), d) == Join(parts, d) + Repeat(d, if |parts| < n then n - |parts| else 0)
    decreases n - |parts|
  {
    if |parts| < n {
      JoinPad(parts + [[]], n, d);
      JoinOneEmpty(parts, d);
      assert Join(parts, d) + [d] + Repeat(d, n - |parts| - 1) == Join(parts, d) + Repeat(d, n - |parts|);
    }
  }

  lemma JoinOneEmpty(parts: seq<text>, d: char)
    requires |parts| >= 1
    ensures Join(parts + [[]], d) == Join(parts, d) + [d]
  {
    var n := |parts|;
    GlueJoin(parts, [[]], d);
    var front, last := parts[..n - 1], parts[n - 1];
    assert parts == front + [last];
    GlueMore(front, last, d);
    GlueJoin(front, [last], d);
  }

  /** A text taken apart around a stretch of it. */
  datatype Zipper = Zipper(before: text, focus: text, after: text)
  {
    function Whole(): text { before + focus + after }
  }

  /** The text around parts first.. first + count - 1, as a reference. If there are not that many
      parts, the text is padded with delimiters when forced, and an empty stretch at its end is
      meant otherwise. */
  function FocusOn(t: text, d: char, first: nat, count: nat, force: bool): Zipper
  {
    var parts := Pad(Split(t, d), if force then first + 1 else 0);
    if first >= |parts| then Zipper(t, [], [])
    else
      var end := Min(first + count, |parts|);
      Zipper(Glue(parts[..first], d), Join(parts[first..end], d),
             if end < |parts| then [d] + Join(parts[end..], d) else [])
  }

  /** The parts once some of them are replaced by others. */
  function Replaced(parts: seq<text>, first: nat, count: nat, others: seq<text>): seq<text>
    requires first <= |parts|
  {
    parts[..first] + others + parts[Min(first + count, |parts|)..]
  }

  lemma JoinMiddle(parts: seq<text>, first: nat, end: nat, x: text, d: char)
    requires first <= end <= |parts|
    ensures Join(parts[..first] + [x] + parts[end..], d)
         == Glue(parts[..first], d) + x + if end < |parts| then [d] + Join(parts[end..], d) else []
  {
    var tail := parts[end..];
    assert parts[..first] + [x] + tail == parts[..first] + ([x] + tail);
    GlueJoin(parts[..first], [x] + tail, d);
    if tail != [] {
      assert ([x] + tail)[1..] == tail;
    }
  }

  /** Replacing the focus replaces those parts, and nothing else. */
  lemma PutLaw(t: text, d: char, first: nat, count: nat, x: text)
    requires count > 0
    ensures var z := FocusOn(t, d, first, count, true);
            z.before + x + z.after == Join(Replaced(Pad(Split(t, d), first + 1), first, count, [x]), d)
  {
    var parts := Pad(Split(t, d), first + 1);
    JoinMiddle(parts, first, Min(first + count, |parts|), x, d);
  }

  /** Text put in front of the focus goes into its first part. */
  lemma BeforeLaw(t: text, d: char, first: nat, count: nat, x: text)
    requires count > 0
    ensures var z, parts := FocusOn(t, d, first, count, true), Pad(Split(t, d), first + 1);
            z.before + (x + z.focus) + z.after == Join(parts[first := x + parts[first]], d)
  {
    hide Split, Join, Pad, FocusOn, Repeat;
    var z, parts := FocusOn(t, d, first, count, true), Pad(Split(t, d), first + 1);
    var z1, x1 := FocusOn(t, d, first, 1, true), x + parts[first];
    FocusEdges(t, d, first, count);
    PutLaw(t, d, first, 1, x1);
    FocusOfOne(t, d, first, true);
    FocusWhole(t, d, first, count, true);
    FocusWhole(t, d, first, 1, true);
    SameRest(z, z1, x);
    assert Replaced(parts, first, 1, [x1]) == parts[first := x1];
  }

  /** Text put behind the focus goes into its last part. */
  lemma AfterLaw(t: text, d: char, first: nat, count: nat, x: text)
    requires count > 0
    ensures var z, parts := FocusOn(t, d, first, count, true), Pad(Split(t, d), first + 1);
            var last := Min(first + count, |parts|) - 1;
            z.before + (z.focus + x) + z.after == Join(parts[last := parts[last] + x], d)
  {
    hide Split, Join, Pad, FocusOn, Repeat;
    var z, parts := FocusOn(t, d, first, count, true), Pad(Split(t, d), first + 1);
    var last := Min(first + count, |parts|) - 1;
    var z1, x1 := FocusOn(t, d, last, 1, true), parts[last] + x;
    FocusEdges(t, d, first, count);
    PutLaw(t, d, last, 1, x1);
    FocusOfOne(t, d, last, true);
    FocusWhole(t, d, first, count, true);
    FocusWhole(t, d, last, 1, true);
    SameFront(z, z1, x);
    assert Replaced(parts, last, 1, [x1]) == parts[last := x1];
  }

  /** A focus starts where its first part does and ends where its last part does. */
  lemma FocusEdges(t: text, d: char, first: nat, count: nat)
    requires count > 0
    ensures var parts := Pad(Split(t, d), first + 1);
            var last := Min(first + count, |parts|) - 1;
            && FocusOn(t, d, first, 1, true).before == FocusOn(t, d, first, count, true).before
            && Pad(Split(t, d), last + 1) == parts
            && FocusOn(t, d, last, 1, true).after == FocusOn(t, d, first, count, true).after
  {
    hide Split, Join, Glue;
  }

  lemma SameRest(z: Zipper, z1: Zipper, x: text)
    requires z.Whole() == z1.Whole() && z.before == z1.before
    ensures z.before + (x + z.focus) + z.after == z1.before + (x + z1.focus) + z1.after
  {
    assert z.Whole()[|z.before|..] == z.focus + z.after;
    assert z1.Whole()[|z.before|..] == z1.focus + z1.after;
    assert z.before + (x + z.focus) + z.after == z.before + x + (z.focus + z.after);
    assert z1.before + (x + z1.focus) + z1.after == z1.before + x + (z1.focus + z1.after);
  }

  lemma SameFront(z: Zipper, z1: Zipper, x: text)
    requires z.Whole() == z1.Whole() && z.after == z1.after
    ensures z.before + (z.focus + x) + z.after == z1.before + (z1.focus + x) + z1.after
  {
    var n := |z.Whole()| - |z.after|;
    assert z.Whole()[..n] == z.before + z.focus && z1.Whole()[..n] == z1.before + z1.focus;
    assert z.before + (z.focus + x) == z.before + z.focus + x && z1.before + (z1.focus + x) == z1.before + z1.focus + x;
  }

  lemma GlueRest(parts: seq<text>, k: nat, d: char)
    requires k < |parts|
    ensures Glue(parts[..k], d) + Join(parts[k..], d) == Join(parts, d)
  {
    assert parts == parts[..k] + parts[k..];
    GlueJoin(parts[..k], parts[k..], d);
  }

  lemma JoinRest(parts: seq<text>, k: nat, d: char)
    requires 0 < k <= |parts|
    ensures Join(parts, d) == Join(parts[..k], d) + if k < |parts| then [d] + Join(parts[k..], d) else []
  {
    hide Join, Glue;
    var front, last, tail := parts[..k - 1], parts[k - 1], parts[k..];
    assert parts == front + [last] + tail && parts[..k] == front + [last] + parts[..k][k..];
    assert parts[..k][..k - 1] == front;
    JoinMiddle(parts, k - 1, k, last, d);
    JoinMiddle(parts[..k], k - 1, k, last, d);
  }

  lemma RepeatNone(c: char)
    ensures Repeat(c, 0) == []
  {
  }

  /** The stretch in focus and what is around it make up the text, padded if need be. */
  lemma FocusWhole(t: text, d: char, first: nat, count: nat, force: bool)
    requires count > 0
    ensures var missing := if force && |Split(t, d)| <= first then first + 1 - |Split(t, d)| else 0;
            FocusOn(t, d, first, count, force).Whole() == t + Repeat(d, missing)
  {
    hide Split, Glue, Join, Pad, Repeat;
    var split := Split(t, d);
    var parts := Pad(split, if force then first + 1 else 0);
    JoinSplit(t, d);
    JoinPad(split, if force then first + 1 else 0, d);
    RepeatNone(d);
    if first < |parts| {
      var end := Min(first + count, |parts|);
      GlueRest(parts, first, d);
      JoinRest(parts[first..], end - first, d);
      assert parts[first..][..end - first] == parts[first..end] && parts[first..][end - first..] == parts[end..];
    }
  }

  lemma FocusKeeps(t: text, d: char, first: nat, count: nat)
    requires count > 0
    ensures FocusOn(t, d, first, count, false).Whole() == t
    ensures var z := FocusOn(t, d, first, count, false); |z.before| <= |t| && t[..|z.before|] == z.before
  {
    hide FocusOn, Split;
    FocusWhole(t, d, first, count, false);
    RepeatNone(d);
    var z := FocusOn(t, d, first, count, false);
    assert t + [] == t && z.before + z.focus + z.after == z.before + (z.focus + z.after);
  }

  lemma FocusOfOne(t: text, d: char, first: nat, force: bool)
    requires force || first < |Split(t, d)|
    ensures var parts := Pad(Split(t, d), if force then first + 1 else 0);
            first < |parts| && FocusOn(t, d, first, 1, force).focus == parts[first]
    ensures !force ==> Pad(Split(t, d), 0) == Split(t, d)
  {
    var parts := Pad(Split(t, d), if force then first + 1 else 0);
    assert parts[first..first + 1] == [parts[first]];
  }

  /** When the whole chunk is meant, the delimiter after it goes with it, or the one before it if
      it is the last. */
  function Widened(z: Zipper): Zipper
  {
    if z.after != [] then Zipper(z.before, z.focus + [z.after[0]], z.after[1..])
    else if z.before != [] then Zipper(z.before[..|z.before| - 1], [z.before[|z.before| - 1]] + z.focus, [])
    else z
  }

  /** Deleting parts leaves the others, whichever delimiter goes. */
  lemma DeleteLaw(t: text, d: char, first: nat, count: nat)
    requires count > 0 && first < |Split(t, d)|
    ensures var w := Widened(FocusOn(t, d, first, count, false));
            w.before + w.after == Join(Replaced(Split(t, d), first, count, []), d)
  {
    hide Split, Glue, Join, Pad;
    var parts := Split(t, d);
    FocusOfOne(t, d, first, false);
    var end := Min(first + count, |parts|);
    var front, tail := parts[..first], parts[end..];
    var z := FocusOn(t, d, first, count, false);
    assert front + [] + tail == front + tail;
    if tail != [] {
      GlueJoin(front, tail, d);
      assert z.after[1..] == Join(tail, d);
    } else if first == 0 {
      JoinNothing(d);
      GlueNothing(d);
      assert front == [] && front + tail == [];
    } else {
      assert front == parts[..first - 1] + [parts[first - 1]];
      GlueMore(parts[..first - 1], parts[first - 1], d);
      GlueJoin(parts[..first - 1], [parts[first - 1]], d);
      JoinSingle(parts[first - 1], d);
      assert z.before == Join(front, d) + [d];
      assert Replaced(parts, first, count, []) == front;
    }
  }

  /** What was put is what is got. */
  lemma GetPutLaw(t: text, d: char, first: nat, count: nat, x: text)
    requires count > 0 && Free(x, d)
    ensures var z := FocusOn(t, d, first, count, true);
            FocusOn(z.before + x + z.after, d, first, 1, false).focus == x
    ensures var z := FocusOn(t, d, first, count, true);
            Split(z.before + x + z.after, d) == Replaced(Pad(Split(t, d), first + 1), first, count, [x])
  {
    var parts := Pad(Split(t, d), first + 1);
    var parts' := Replaced(parts, first, count, [x]);
    PutLaw(t, d, first, count, x);
    SplitFree(t, d);
    SplitJoin(parts', d);
    assert parts'[first..first + 1] == [x];
  }

  lemma {:induction false} JoinFree(parts: seq<text>, d: char, e: char)
    requires d != e && AllFree(parts, e)
    ensures Free(Join(parts, d), e)
  {
    if |parts| > 1 {
      JoinFree(parts[1..], d, e);
    }
  }

  lemma PartsFree(t: text, d: char, e: char)
    requires Free(t, e)
    ensures AllFree(Split(t, d), e)
    decreases |t|
  {
    if t != [] {
      assert t[0] in t && forall c :: c in t[1..] ==> c in t;
      PartsFree(t[1..], d, e);
    }
  }

  /** Putting x into parts of a line: the text splits into the old lines, padded as far as that
      line, with the line replaced by its old parts, padded and with those parts replaced. */
  lemma NestedPutLaw(t: text, l: char, i: char, line: nat, first: nat, count: nat, x: text)
    requires l != i && count > 0 && Free(x, l)
    ensures var zl := FocusOn(t, l, line, 1, true);
            var zi := FocusOn(zl.focus, i, first, count, true);
            var lines := Pad(Split(t, l), line + 1);
            var parts := Pad(Split(lines[line], i), first + 1);
            && zl.focus == lines[line]
            && Split(zl.before + (zi.before + x + zi.after) + zl.after, l)
               == lines[line := Join(Replaced(parts, first, count, [x]), i)]
  {
    hide Split, Glue, Join, Pad, FocusOn;
    FocusOfOne(t, l, line, true);
    var lines := Pad(Split(t, l), line + 1);
    var was, parts := lines[line], Pad(Split(lines[line], i), first + 1);
    var replaced := Replaced(parts, first, count, [x]);
    var new' := Join(replaced, i);
    SplitFree(t, l);
    PartsFree(was, i, l);
    JoinFree(replaced, i, l);
    PutLaw(was, i, first, count, x);
    GetPutLaw(t, l, line, 1, new');
    assert Replaced(lines, line, 1, [new']) == lines[line := new'];
  }

  /** And getting the same chunk of the same line returns x. */
  lemma NestedGetPutLaw(t: text, l: char, i: char, line: nat, first: nat, count: nat, x: text)
    requires l != i && count > 0 && Free(x, l) && Free(x, i)
    ensures var zl := FocusOn(t, l, line, 1, true);
            var zi := FocusOn(zl.focus, i, first, count, true);
            var t' := zl.before + (zi.before + x + zi.after) + zl.after;
            FocusOn(FocusOn(t', l, line, 1, false).focus, i, first, 1, false).focus == x
  {
    hide Split, Glue, Join, Pad, FocusOn;
    FocusOfOne(t, l, line, true);
    var zl := FocusOn(t, l, line, 1, true);
    var zi := FocusOn(zl.focus, i, first, count, true);
    var new' := zi.before + x + zi.after;
    var lines := Pad(Split(t, l), line + 1);
    NestedPutLaw(t, l, i, line, first, count, x);
    PutLaw(lines[line], i, first, count, x);
    SplitFree(t, l);
    PartsFree(lines[line], i, l);
    JoinFree(Replaced(Pad(Split(lines[line], i), first + 1), first, count, [x]), i, l);
    GetPutLaw(t, l, line, 1, new');
    GetPutLaw(lines[line], i, first, count, x);
  }

  /** Deleting parts of a line leaves the other lines and the other parts. */
  lemma NestedDeleteLaw(t: text, l: char, i: char, line: nat, first: nat, count: nat)
    requires l != i && count > 0 && line < |Split(t, l)| && first < |Split(Split(t, l)[line], i)|
    ensures var zl := FocusOn(t, l, line, 1, false);
            var w := Widened(FocusOn(zl.focus, i, first, count, false));
            Split(zl.before + (w.before + w.after) + zl.after, l)
            == Split(t, l)[line := Join(Replaced(Split(Split(t, l)[line], i), first, count, []), i)]
  {
    hide Split, Glue, Join, Pad;
    FocusOfOne(t, l, line, false);
    var lines := Split(t, l);
    var was := lines[line];
    var kept := Join(Replaced(Split(was, i), first, count, []), i);
    DeleteLaw(was, i, first, count);
    SplitFree(t, l);
    PartsFree(was, i, l);
    JoinFree(Replaced(Split(was, i), first, count, []), i, l);
    JoinMiddle(lines, line, line + 1, kept, l);
    var lines' := lines[line := kept];
    assert lines[..line] + [kept] + lines[line + 1..] == lines';
    SplitJoin(lines', l);
  }
}
