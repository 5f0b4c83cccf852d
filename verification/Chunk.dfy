/**
 Addressing lines and items of a text container: from a chunk reference to a byte range, padding
 with delimiters when forced, and putting, getting and deleting what is in the range.
*/
module Chunk {
  import opened Basics
  import opened Delimited

  /** first.. tenth (from 0), last, middle, an index, or a range of indices. Indices count from
      one, or from the end if negative. */
  datatype ChunkRef = Nth(k: nat) | Last | Middle | At(index: int) | Range(from: int, to: int)

  datatype Preposition = Before | Into | After

  /** Text put before, into or after a stretch of text. */
  function Written(z: Zipper, x: text, prep: Preposition): text
  {
    match prep
    case Before => z.before + x + z.focus + z.after
    case Into => z.before + x + z.after
    case After => z.before + z.focus + x + z.after
  }

  /** How many chunks a text has: its parts, but a delimiter at the very end does not count. */
  function ChunkCount(t: text, d: char): (n: nat)
    ensures n >= 1
  {
    if t != [] && t[|t| - 1] == d then (assert |Split(t, d)| >= 2 by { SplitEnds(t, d); } |Split(t, d)| - 1)
    else |Split(t, d)|
  }

  /** A text ends with a delimiter if and only if its last part is empty. */
  lemma {:induction false} SplitEnds(t: text, d: char)
    requires t != []
    ensures var parts := Split(t, d);
            t[|t| - 1] == d <==> parts[|parts| - 1] == []
    ensures t[|t| - 1] == d ==> |Split(t, d)| >= 2
  {
    if |t| > 1 {
      SplitEnds(t[1..], d);
    } else {
      assert t[1..] == [];
    }
  }

  /** The index from the front that an index stands for. */
  function FromFront(i: int, count: nat): int
  {
    if i < 0 then i + count + 1 else i
  }

  /** The first and last index that a reference covers. */
  function Lower(ref: ChunkRef, count: nat): int
  {
    match ref
    case Nth(k) => k + 1
    case Last => count
    case Middle => count / 2 + 1
    case At(i) => FromFront(i, count)
    case Range(from, _) => FromFront(from, count)
  }

  function Upper(ref: ChunkRef, count: nat): int
  {
    match ref
    case Range(_, to) => FromFront(to, count)
    case _ => Lower(ref, count)
  }

  datatype Span = Span(first: nat, count: nat)
  {
    /** Whether the span holds the chunk with index k, counted from one. */
    predicate Holds(k: int) { first < k <= first + count }
  }

  /** The chunks that a reference covers, counted from zero: those at or above the lower index and
      at or below the upper one, and nothing before the first chunk. */
  ghost predicate Covers(ref: ChunkRef, count: nat, span: Span)
  {
    && (forall k :: 1 <= k ==> (span.Holds(k) <==> Lower(ref, count) <= k <= Upper(ref, count)))
    && (span.first == if Lower(ref, count) < 1 then 0 else Lower(ref, count) - 1)
  }

  function Resolve(ref: ChunkRef, count: nat): (span: Span)
    ensures Covers(ref, count, span)
  {
    var first := if Lower(ref, count) < 1 then 0 else Lower(ref, count) - 1;
    Span(first, if Upper(ref, count) < first then 0 else Upper(ref, count) - first)
  }

  lemma CoversOnce(ref: ChunkRef, count: nat, a: Span, b: Span)
    requires Covers(ref, count, a) && Covers(ref, count, b)
    ensures a == b
  {
    if a.count < b.count {
      assert b.Holds(a.first + a.count + 1) && !a.Holds(a.first + a.count + 1);
      assert false;
    } else if b.count < a.count {
      assert a.Holds(b.first + b.count + 1) && !b.Holds(b.first + b.count + 1);
      assert false;
    }
  }

  /** countlines, countitems */
  method CountChunks(t: text, lo: nat, hi: nat, d: char) returns (n: nat)
    requires lo <= hi <= |t|
    ensures n == ChunkCount(t[lo..hi], d)
  {
    n := 1;
    var p := lo;
    assert t[lo..lo] == [];
    while p < hi
      invariant lo <= p <= hi
      invariant n == (if p == hi then ChunkCount(t[lo..p], d) else |Split(t[lo..p], d)|)
    {
      if t[p] == d && p + 1 < hi {
        n := n + 1;
      }
      SplitSnoc(t[lo..p], t[p], d);
      assert t[lo..p + 1] == t[lo..p] + [t[p]];
      p := p + 1;
    }
  }

  lemma {:induction false} SplitSnoc(t: text, c: char, d: char)
    ensures |Split(t + [c], d)| == |Split(t, d)| + if c == d then 1 else 0
  {
    if t == [] {
      assert ([] + [c])[1..] == [];
    } else {
      assert (t + [c])[1..] == t[1..] + [c];
      SplitSnoc(t[1..], c, d);
    }
  }

  /** extents */
  method Extents(ref: ChunkRef, t: text, lo: nat, hi: nat, d: char) returns (span: Span)
    requires lo <= hi <= |t|
    ensures span == Resolve(ref, ChunkCount(t[lo..hi], d))
  {
    var start, number: int := 0, 1;
    match ref {
      case Nth(k) => start := k;
      case Last =>
        var n := CountChunks(t, lo, hi, d);
        start := n - 1;
      case Middle =>
        var n := CountChunks(t, lo, hi, d);
        start := n / 2;
      case At(i) =>
        if i < 0 {
          var n := CountChunks(t, lo, hi, d);
          start := i + n;
        } else {
          start := i - 1;
        }
      case Range(from, to) =>
        var n := CountChunks(t, lo, hi, d);
        start := if from < 0 then from + n else from - 1;
        number := (if to < 0 then to + n + 1 else to) - start;
    }
    if start < 0 {
      number := number + start;
      start := 0;
    }
    if number < 0 {
      number := 0;
    }
    span := Span(start, number);
    assert Covers(ref, ChunkCount(t[lo..hi], d), span);
    CoversOnce(ref, ChunkCount(t[lo..hi], d), span, Resolve(ref, ChunkCount(t[lo..hi], d)));
  }

  /** Moves past the next delimiter, or to the end of the range if there is none. */
  method PastDelimiter(t: text, from: nat, hi: nat, d: char) returns (pos: nat)
    requires from <= hi <= |t|
    ensures from <= pos <= hi
    ensures (pos == hi && Free(t[from..hi], d)) || (from < pos && t[pos - 1] == d && Free(t[from..pos - 1], d))
  {
    pos := from;
    while pos < hi
      invariant from <= pos <= hi && Free(t[from..pos], d)
    {
      var c := t[pos];
      pos := pos + 1;
      if c == d {
        return;
      }
    }
  }

  /** One more part skipped. */
  lemma SkipPart(t: text, lo: nat, from: nat, pos: nat, hi: nat, d: char, parts: seq<text>, k: nat)
    requires lo <= from <= pos <= hi <= |t| && k < |parts|
    requires t[lo..from] == Glue(parts[..k], d) && Split(t[from..hi], d) == parts[k..]
    requires (pos == hi && Free(t[from..hi], d)) || (from < pos && t[pos - 1] == d && Free(t[from..pos - 1], d))
    ensures k + 1 < |parts| ==> t[lo..pos] == Glue(parts[..k + 1], d) && Split(t[pos..hi], d) == parts[k + 1..]
    ensures k + 1 < |parts| ==> from < pos && t[pos - 1] == d
    ensures k + 1 == |parts| ==> pos == hi && Free(t[from..hi], d)
  {
    hide Split, Glue;
    if Free(t[from..hi], d) {
      SplitOne(t[from..hi], d);
      if pos > from && t[pos - 1] == d { assert t[from..hi][pos - 1 - from] == d; }
    } else {
      var head := t[from..pos - 1];
      assert t[from..hi] == head + [d] + t[pos..hi];
      SplitFirst(head, t[pos..hi], d);
      assert parts[k..][0] == head && parts[k..][1..] == parts[k + 1..];
      assert parts[..k + 1] == parts[..k] + [head];
      GlueMore(parts[..k], head, d);
      assert t[lo..pos] == t[lo..from] + head + [d];
    }
  }

  /** Whether the test at the end of a range looks at a delimiter before the range. */
  predicate Misread(t: text, lo: nat, hi: nat, d: char)
    requires lo <= hi <= |t|
  {
    lo == hi && 0 < lo && t[lo - 1] == d
  }

  /** The position after k of the parts of [lo, hi), or its end if there are not that many. */
  ghost predicate Skipped(t: text, lo: nat, pos: nat, hi: nat, d: char, parts: seq<text>, k: nat)
  {
    && lo <= pos <= hi <= |t|
    && (k < |parts| ==> t[lo..pos] == Glue(parts[..k], d) && Split(t[pos..hi], d) == parts[k..])
    && (k >= |parts| ==> pos == hi)
  }

  /** How many delimiters are found missing when k of n parts are skipped. ends is one if the range
      ends with a delimiter; last says that no more parts are to be skipped. */
  ghost function Missing(n: nat, ends: nat, misread: bool, k: nat, last: bool): int
  {
    if k < n - ends then 0
    else if !last || (ends == 0 && !misread) then k + 1 + ends - n
    else k + ends - n
  }

  /** Skips s parts of [lo, hi), and counts how many delimiters are missing for that. The test at
      the end of the text looks at the byte before, even if that byte is outside the range. */
  method Skip(t: text, lo: nat, hi: nat, d: char, s: nat) returns (pos: nat, add: int)
    requires lo <= hi <= |t|
    ensures lo <= pos <= hi
    ensures var parts := Split(t[lo..hi], d);
            && (s < |parts| ==> t[lo..pos] == Glue(parts[..s], d) && Split(t[pos..hi], d) == parts[s..] && add == 0)
            && (s >= |parts| ==> pos == hi && add == s + 1 - |parts| - if Misread(t, lo, hi, d) then 1 else 0)
  {
    hide Split, Glue, Free, Skipped;
    ghost var parts := Split(t[lo..hi], d);
    ghost var ends := if lo < hi && t[hi - 1] == d then 1 else 0;
    EndPart(t, lo, hi, d);
    SkippedNone(t, lo, hi, d);
    pos, add := lo, 0;
    var left := s;
    while left > 0
      invariant 0 <= left <= s && lo <= pos <= hi
      invariant Skipped(t, lo, pos, hi, d, parts, s - left)
      invariant add == Missing(|parts|, ends, Misread(t, lo, hi, d), s - left, left == 0)
    {
      left := left - 1;
      ghost var from := pos;
      pos := PastDelimiter(t, pos, hi, d);
      SkippedMore(t, lo, from, pos, hi, d, parts, s - left);
      if pos == hi && !(left == 0 && pos > 0 && t[pos - 1] == d) {
        add := add + 1;
      }
    }
    SkippedAll(t, lo, pos, hi, d, parts, s);
  }

  lemma SkippedNone(t: text, lo: nat, hi: nat, d: char)
    requires lo <= hi <= |t|
    ensures Skipped(t, lo, lo, hi, d, Split(t[lo..hi], d), 0)
  {
    hide Split;
    var parts := Split(t[lo..hi], d);
    SkipNone(parts, d);
    assert t[lo..lo] == [] && parts[0..] == parts;
  }

  lemma SkippedMore(t: text, lo: nat, from: nat, pos: nat, hi: nat, d: char, parts: seq<text>, k: nat)
    requires lo <= from <= pos <= hi <= |t| && parts == Split(t[lo..hi], d) && k > 0
    requires Skipped(t, lo, from, hi, d, parts, k - 1)
    requires (pos == hi && Free(t[from..hi], d)) || (from < pos && t[pos - 1] == d && Free(t[from..pos - 1], d))
    ensures Skipped(t, lo, pos, hi, d, parts, k)
    ensures pos == hi <==> k >= |parts| - if lo < hi && t[hi - 1] == d then 1 else 0
  {
    hide Split, Glue, Free;
    if k <= |parts| {
      SkipPart(t, lo, from, pos, hi, d, parts, k - 1);
      AtEnd(t, lo, pos, hi, d, parts, k);
    }
  }

  lemma SkippedAll(t: text, lo: nat, pos: nat, hi: nat, d: char, parts: seq<text>, s: nat)
    requires Skipped(t, lo, pos, hi, d, parts, s)
    ensures s < |parts| ==> t[lo..pos] == Glue(parts[..s], d) && Split(t[pos..hi], d) == parts[s..]
    ensures s >= |parts| ==> pos == hi
  {
  }

  lemma SkipNone(parts: seq<text>, d: char)
    ensures Glue(parts[..0], d) == []
  {
  }

  /** The range ends with a delimiter if and only if its last part is empty and not its only one. */
  lemma EndPart(t: text, lo: nat, hi: nat, d: char)
    requires lo <= hi <= |t|
    ensures var parts := Split(t[lo..hi], d);
            && (lo < hi && t[hi - 1] == d ==> |parts| >= 2)
            && (lo < hi ==> (t[hi - 1] == d <==> parts[|parts| - 1] == []))
            && (lo == hi ==> parts == [[]])
  {
    if lo < hi {
      assert t[lo..hi][|t[lo..hi]| - 1] == t[hi - 1];
      SplitEnds(t[lo..hi], d);
    }
  }

  /** After k parts the position is the end of the range just if none is left, or an empty last. */
  lemma AtEnd(t: text, lo: nat, pos: nat, hi: nat, d: char, parts: seq<text>, k: nat)
    requires lo <= pos <= hi <= |t| && parts == Split(t[lo..hi], d) && 0 < k <= |parts|
    requires k < |parts| ==> Split(t[pos..hi], d) == parts[k..] && lo < pos
    requires k == |parts| ==> pos == hi
    ensures pos == hi <==> k >= |parts| - if lo < hi && t[hi - 1] == d then 1 else 0
  {
    EndPart(t, lo, hi, d);
    if k < |parts| {
      EndPart(t, pos, hi, d);
      assert parts[k..][|parts| - k - 1] == parts[|parts| - 1];
    }
  }

  /** Moves to the next delimiter, or to the end of the range if there is none. */
  method ToDelimiter(t: text, from: nat, hi: nat, d: char) returns (end: nat)
    requires from <= hi <= |t|
    ensures from <= end <= hi && d !in t[from..end] && (end == hi || t[end] == d)
  {
    end := from;
    while end < hi && t[end] != d
      invariant from <= end <= hi && d !in t[from..end]
    {
      end := end + 1;
    }
  }

  /** From the start of a part to the end of the n-th one from there, or to the end of the range. */
  method Extend(t: text, pos: nat, hi: nat, d: char, n: nat) returns (end: nat)
    requires pos <= hi <= |t| && n > 0
    ensures pos <= end <= hi
    ensures var parts := Split(t[pos..hi], d);
            var m := Min(n, |parts|);
            && t[pos..end] == Join(parts[..m], d)
            && t[end..hi] == if m < |parts| then [d] + Join(parts[m..], d) else []
  {
    hide Split, Glue, Join, Free;
    ghost var parts := Split(t[pos..hi], d);
    SkipNone(parts, d);
    assert t[pos..pos] == [] && parts[0..] == parts;
    end := pos;
    var left := n;
    ghost var k := 0;
    while end < hi && left > 0
      invariant 0 <= left == n - k && pos <= end <= hi && k <= |parts|
      invariant (k < |parts| && left > 0 && t[pos..end] == Glue(parts[..k], d) && Split(t[end..hi], d) == parts[k..])
             || (k == |parts| && end == hi)
             || (k == n < |parts| && end < hi && t[end] == d
                 && t[pos..end] == Glue(parts[..k - 1], d) + parts[k - 1] && Split(t[end + 1..hi], d) == parts[k..])
    {
      left := left - 1;
      ghost var from := end;
      end := ToDelimiter(t, end, hi, d);
      ExtendPart(t, pos, from, end, hi, d, parts, k);
      if end < hi && left != 0 {
        end := end + 1;
      }
      k := k + 1;
    }
    ExtendEnd(t, pos, end, hi, d, parts, k, n);
  }

  lemma ExtendPart(t: text, lo: nat, from: nat, end: nat, hi: nat, d: char, parts: seq<text>, k: nat)
    requires lo <= from <= end <= hi <= |t| && k < |parts|
    requires t[lo..from] == Glue(parts[..k], d) && Split(t[from..hi], d) == parts[k..]
    requires d !in t[from..end] && (end == hi || t[end] == d)
    ensures t[lo..end] == Glue(parts[..k], d) + parts[k]
    ensures end == hi ==> k + 1 == |parts|
    ensures end < hi ==> k + 1 < |parts| && Split(t[end + 1..hi], d) == parts[k + 1..]
    ensures end < hi ==> k + 1 < |parts| && t[lo..end + 1] == Glue(parts[..k + 1], d)
  {
    hide Split, Glue;
    var head := t[from..end];
    assert t[lo..end] == t[lo..from] + head;
    if end == hi {
      SplitOne(head, d);
      assert parts[k..][0] == head;
    } else {
      var rest := t[end + 1..hi];
      assert t[from..hi] == head + [d] + rest;
      SplitFirst(head, rest, d);
      assert parts[k..][0] == head && parts[k..][1..] == parts[k + 1..];
      assert parts[..k + 1] == parts[..k] + [head];
      GlueMore(parts[..k], head, d);
      assert t[lo..end + 1] == t[lo..end] + [d];
    }
  }

  lemma ExtendEnd(t: text, pos: nat, end: nat, hi: nat, d: char, parts: seq<text>, k: nat, n: nat)
    requires pos <= end <= hi <= |t| && parts == Split(t[pos..hi], d) && k <= n && n > 0 && k <= |parts|
    requires end == hi || k == n
    requires (k < |parts| && k < n && t[pos..end] == Glue(parts[..k], d) && Split(t[end..hi], d) == parts[k..])
          || (k == |parts| && end == hi)
          || (k == n < |parts| && end < hi && t[end] == d
              && t[pos..end] == Glue(parts[..k - 1], d) + parts[k - 1] && Split(t[end + 1..hi], d) == parts[k..])
    ensures var m := Min(n, |parts|);
            && t[pos..end] == Join(parts[..m], d)
            && t[end..hi] == if m < |parts| then [d] + Join(parts[m..], d) else []
  {
    hide Split, Glue, Join;
    if end == hi {
      if k < |parts| {
        assert t[hi..hi] == [];
        SplitNothing(d);
        assert |parts[k..]| == 1;
      }
      ExtendAll(t, pos, hi, d, parts);
    } else {
      ExtendSome(t, pos, end, hi, d, parts, k);
    }
  }

  lemma ExtendAll(t: text, pos: nat, hi: nat, d: char, parts: seq<text>)
    requires pos <= hi <= |t| && parts == Split(t[pos..hi], d)
    ensures t[pos..hi] == Join(parts[..|parts|], d) && t[hi..hi] == []
  {
    hide Split, Join;
    JoinSplit(t[pos..hi], d);
    assert parts[..|parts|] == parts;
  }

  lemma ExtendSome(t: text, pos: nat, end: nat, hi: nat, d: char, parts: seq<text>, k: nat)
    requires pos <= end < hi <= |t| && 0 < k < |parts| && t[end] == d
    requires t[pos..end] == Glue(parts[..k - 1], d) + parts[k - 1] && Split(t[end + 1..hi], d) == parts[k..]
    ensures t[pos..end] == Join(parts[..k], d) && t[end..hi] == [d] + Join(parts[k..], d)
  {
    hide Split, Glue, Join;
    JoinSplit(t[end + 1..hi], d);
    assert t[end..hi] == [d] + t[end + 1..hi];
    assert parts[..k] == parts[..k - 1] + [parts[k - 1]];
    GlueJoin(parts[..k - 1], [parts[k - 1]], d);
    JoinSingle(parts[k - 1], d);
  }

  /** Where a span lies in [lo, hi), without padding, and how many delimiters are missing. */
  method Bounds(t: text, lo: nat, hi: nat, d: char, span: Span) returns (start: nat, end: nat, add: int)
    requires lo <= hi <= |t| && span.count > 0
    ensures Found(t, lo, hi, d, span, start, end, add)
  {
    hide Split, Glue, Join;
    start, add := Skip(t, lo, hi, d, span.first);
    end := Extend(t, start, hi, d, span.count);
    ghost var parts := Split(t[lo..hi], d);
    if span.first < |parts| {
      ghost var m := Min(span.first + span.count, |parts|);
      assert parts[span.first..][..m - span.first] == parts[span.first..m]
             && parts[span.first..][m - span.first..] == parts[m..];
    } else {
      assert t[hi..hi] == [];
      assert t[start..end] == [] && t[end..hi] == [];
    }
  }

  /** A missing chunk, once padded for, is an empty stretch at the end of the padded text. */
  lemma FocusMissing(t: text, d: char, first: nat, count: nat)
    requires count > 0 && first >= |Split(t, d)|
    ensures FocusOn(t, d, first, count, true) == Zipper(t + Repeat(d, first + 1 - |Split(t, d)|), [], [])
  {
    FocusWhole(t, d, first, count, true);
    var parts := Pad(Split(t, d), first + 1);
    assert parts[first..first + 1] == [[]];
  }

  lemma FocusPresent(t: text, d: char, first: nat, count: nat)
    requires first < |Split(t, d)|
    ensures FocusOn(t, d, first, count, true) == FocusOn(t, d, first, count, false)
  {
  }

  /** A stretch that does not begin the text has a delimiter before it. */
  lemma DelimiterBefore(t: text, d: char, first: nat, count: nat)
    requires count > 0
    ensures var z := FocusOn(t, d, first, count, true); z.before == [] || z.before[|z.before| - 1] == d
  {
    var parts := Pad(Split(t, d), first + 1);
    if first > 0 {
      assert parts[..first] == parts[..first - 1] + [parts[first - 1]];
      GlueMore(parts[..first - 1], parts[first - 1], d);
    }
  }

  /** What one level of a chunk expression picks out of a text; whole says that the delimiter is to
      go with the chunk. If the text is empty and a delimiter before it is misread as part of it, one
      delimiter too few is padded. */
  ghost function Stage(t: text, d: char, span: Span, force: bool, whole: bool, misread: bool): Zipper
    requires span.count > 0
  {
    if whole then
      var z := FocusOn(t, d, span.first, span.count, false);
      if span.first < |Split(t, d)| then Widened(z) else z
    else if force && misread && span.first > 0 then Zipper(Repeat(d, span.first - 1), [], [])
    else FocusOn(t, d, span.first, span.count, force)
  }

  ghost function LineStage(t: text, d: char, line: Option<ChunkRef>, force: bool, whole: bool): Zipper
  {
    match line
    case None => Zipper([], t, [])
    case Some(ref) =>
      var span := Resolve(ref, ChunkCount(t, d));
      if span.count == 0 then Zipper([], [], t) else Stage(t, d, span, force, whole, false)
  }

  ghost function ItemStage(t: text, d: char, item: Option<ChunkRef>, force: bool, whole: bool, misread: bool): Zipper
  {
    match item
    case None => Zipper([], t, [])
    case Some(ref) =>
      var span := Resolve(ref, ChunkCount(t, d));
      if span.count == 0 then
        var before := FocusOn(t, d, span.first, 1, false).before;
        FocusKeeps(t, d, span.first, 1);
        Zipper(before, [], t[|before|..])
      else Stage(t, d, span, force, whole, misread)
  }

  /** An empty stretch just after a delimiter. */
  predicate AfterDelimiter(z: Zipper, d: char)
  {
    z.focus == [] && z.before != [] && z.before[|z.before| - 1] == d
  }

  /** What a chunk expression picks out of a container. */
  ghost function Marked(t: text, l: char, i: char, line: Option<ChunkRef>, item: Option<ChunkRef>, force: bool,
                        whole: bool): Zipper
  {
    var zl := LineStage(t, l, line, force, whole && item.None?);
    var zi := ItemStage(zl.focus, i, item, force, whole, AfterDelimiter(zl, i));
    Zipper(zl.before + zi.before, zi.focus, zi.after + zl.after)
  }

  class Container {
    var text: text
    const lineDel: char
    const itemDel: char

    constructor (text: text, lineDel: char, itemDel: char)
      ensures this.text == text && this.lineDel == lineDel && this.itemDel == itemDel
    {
      this.text, this.lineDel, this.itemDel := text, lineDel, itemDel;
    }

    method Fill(s: nat, c: char, n: nat)
      requires s <= |text|
      modifies this
      ensures text == old(text[..s]) + Repeat(c, n) + old(text[s..])
    {
      text := text[..s] + Repeat(c, n) + text[s..];
    }

    method Insert(x: text, s: nat, e: nat)
      requires s <= e <= |text|
      modifies this
      ensures text == old(text[..s]) + x + old(text[e..])
    {
      text := text[..s] + x + text[e..];
    }

    method Overwrite(x: text, s: nat)
      requires s + |x| <= |text|
      modifies this
      ensures text == old(text[..s]) + x + old(text[s + |x|..])
    {
      text := text[..s] + x + text[s + |x|..];
    }

    /** One level of mark: the bounds of a span inside [lo, hi), widened when the whole chunk is
        meant, or padded for when forced. */
    method MarkSpan(lo: nat, hi: nat, d: char, span: Span, force: bool, whole: bool) returns (start: nat, end: nat)
      requires lo <= hi <= |text| && span.count > 0
      modifies this
      ensures lo <= hi <= |old(text)|
      ensures var z := Stage(old(text[lo..hi]), d, span, force, whole, Misread(old(text), lo, hi, d));
              Placed(old(text), lo, hi, z, text, start, end)
    {
      hide Split, FocusOn, Repeat, Placed, Stage;
      var add;
      start, end, add := Bounds(text, lo, hi, d, span);
      if whole {
        ghost var s0, e0 := start, end;
        if end < hi {
          end := end + 1;
        } else if start > lo && add == 0 {
          start := start - 1;
        }
        WholeBounds(text, lo, hi, d, span, force, s0, e0, add, start, end);
        return;
      }
      ghost var was, s0, e0 := text, start, end;
      if force && add > 0 {
        Fill(start, d, add);
        start := start + add;
        end := end + add;
      }
      ForcedBounds(was, lo, hi, d, span, force, s0, e0, add, text, start, end);
    }

    /** The line part of mark. */
    method MarkLine(line: ChunkRef, force: bool, whole: bool) returns (start: nat, end: nat)
      modifies this
      ensures var z := LineStage(old(text), lineDel, Some(line), force, whole);
              text == z.Whole() && start == |z.before| && end == start + |z.focus|
    {
      hide Split, FocusOn, Resolve, ChunkCount, Covers, Stage;
      start, end := 0, |text|;
      assert text[0..|text|] == text;
      var span := Extents(line, text, start, end, lineDel);
      if span.count == 0 {
        end := start;
      } else {
        start, end := MarkSpan(start, end, lineDel, span, force, whole);
      }
    }

    /** The item part, inside a line or a whole text at [lo, hi). */
    method MarkItem(lo: nat, hi: nat, item: ChunkRef, force: bool, whole: bool) returns (start: nat, end: nat)
      requires lo <= hi <= |text|
      modifies this
      ensures lo <= hi <= |old(text)|
      ensures var misread := Misread(old(text), lo, hi, itemDel);
              var z := ItemStage(old(text[lo..hi]), itemDel, Some(item), force, whole, misread);
              Placed(old(text), lo, hi, z, text, start, end)
    {
      hide Split, FocusOn, Resolve, ChunkCount, Covers, Stage;
      var span := Extents(item, text, lo, hi, itemDel);
      if span.count == 0 {
        var add;
        start, add := Skip(text, lo, hi, itemDel, span.first);
        end := start;
        SkipIsBefore(text, lo, start, hi, itemDel, span.first);
      } else {
        start, end := MarkSpan(lo, hi, itemDel, span, force, whole);
      }
    }

    /** mark: the byte range of a chunk expression, the text padded if forced. */
    method Mark(line: Option<ChunkRef>, item: Option<ChunkRef>, force: bool, whole: bool) returns (start: nat, end: nat)
      modifies this
      ensures var z := Marked(old(text), lineDel, itemDel, line, item, force, whole);
              text == z.Whole() && start == |z.before| && end == start + |z.focus|
    {
      hide LineStage, ItemStage;
      ghost var t := text;
      ghost var zl := LineStage(t, lineDel, line, force, whole && item.None?);
      start, end := 0, |text|;
      NoStage(t, lineDel, force, whole && item.None?);
      if line.Some? {
        assert line == Some(line.value);
        start, end := MarkLine(line.value, force, whole && item.None?);
      }
      assert text == zl.Whole() && start == |zl.before| && end == start + |zl.focus|;
      ghost var zi := ItemStage(zl.focus, itemDel, item, force, whole, AfterDelimiter(zl, itemDel));
      Pieces(zl);
      if item.Some? {
        assert item == Some(item.value);
        start, end := MarkItem(start, end, item.value, force, whole);
      } else {
        NoItem(zl.focus, itemDel, force, whole, AfterDelimiter(zl, itemDel));
      }
      Nested(zl, zi, text);
    }

    /** gets */
    method Get(line: Option<ChunkRef>, item: Option<ChunkRef>) returns (x: text)
      modifies this
      ensures x == Marked(old(text), lineDel, itemDel, line, item, false, false).focus && text == old(text)
    {
      hide Marked;
      MarkedWhole(text, lineDel, itemDel, line, item);
      var start, end := Mark(line, item, false, false);
      x := text[start..end];
    }

    /** set, with text put before, into or after the chunk; plain variables take a shortcut when
        nothing changes its place */
    method Set(x: text, prep: Preposition, line: Option<ChunkRef>, item: Option<ChunkRef>, plain: bool)
      modifies this
      ensures var z := Marked(old(text), lineDel, itemDel, line, item, true, false);
              text == Written(z, x, prep)
    {
      hide Marked;
      ghost var z := Marked(text, lineDel, itemDel, line, item, true, false);
      var oldLength := |text|;
      var start, end := Mark(line, item, true, false);
      Pieces(z);
      if plain && end - start == |x| && prep == Into && |text| == oldLength {
        Overwrite(x, start);
        return;
      }
      match prep {
        case Before => Insert(x, start, start);
        case Into => Insert(x, start, end);
        case After => Insert(x, end, end);
      }
    }

    /** del */
    method Delete(line: Option<ChunkRef>, item: Option<ChunkRef>)
      requires line.Some? || item.Some?
      modifies this
      ensures var z := Marked(old(text), lineDel, itemDel, line, item, true, true); text == z.before + z.after
    {
      hide Marked;
      ghost var z := Marked(text, lineDel, itemDel, line, item, true, true);
      var start, end := Mark(line, item, true, true);
      Pieces(z);
      Insert([], start, end);
    }
  }

  lemma Pieces(z: Zipper)
    ensures var w, a, b := z.Whole(), |z.before|, |z.before| + |z.focus|;
            && w[..a] == z.before && w[a..b] == z.focus && w[b..] == z.after && w[..b] == z.before + z.focus
            && w[a..] == z.focus + z.after
  {
  }

  lemma Nested(zl: Zipper, zi: Zipper, t: text)
    requires t == zl.before + zi.Whole() + zl.after
    ensures Zipper(zl.before + zi.before, zi.focus, zi.after + zl.after).Whole() == t
  {
  }

  /** With no chunk named, the focus is everything. */
  lemma NoStage(t: text, d: char, force: bool, whole: bool)
    ensures LineStage(t, d, None, force, whole) == Zipper([], t, [])
    ensures Zipper([], t, []).Whole() == t
  {
  }

  lemma NoItem(t: text, d: char, force: bool, whole: bool, misread: bool)
    ensures ItemStage(t, d, None, force, whole, misread) == Zipper([], t, [])
    ensures Zipper([], t, []).Whole() == t
  {
  }

  lemma SkipIsBefore(t: text, lo: nat, pos: nat, hi: nat, d: char, s: nat)
    requires lo <= pos <= hi <= |t|
    requires var parts := Split(t[lo..hi], d);
             (s < |parts| ==> t[lo..pos] == Glue(parts[..s], d)) && (s >= |parts| ==> pos == hi)
    ensures FocusOn(t[lo..hi], d, s, 1, false).before == t[lo..pos]
    ensures t[..lo] + Zipper(t[lo..pos], [], t[lo..hi][pos - lo..]).Whole() + t[hi..] == t
  {
    hide Split, Glue, Join;
    assert t[lo..hi][pos - lo..] == t[pos..hi] && t[pos..pos] == [];
    SpliceBack(t, lo, pos, pos, hi);
  }

  lemma LineWhole(t: text, l: char, line: Option<ChunkRef>)
    ensures LineStage(t, l, line, false, false).Whole() == t
  {
    hide FocusOn, Resolve, ChunkCount;
    if line.Some? {
      var span := Resolve(line.value, ChunkCount(t, l));
      if span.count > 0 { FocusKeeps(t, l, span.first, span.count); }
    }
  }

  lemma ItemWhole(t: text, i: char, item: Option<ChunkRef>, misread: bool)
    ensures ItemStage(t, i, item, false, false, misread).Whole() == t
  {
    hide FocusOn, Resolve, ChunkCount;
    if item.Some? {
      var span := Resolve(item.value, ChunkCount(t, i));
      FocusKeeps(t, i, span.first, if span.count > 0 then span.count else 1);
    }
  }

  /** Marking without force leaves the text alone. */
  lemma MarkedWhole(t: text, l: char, i: char, line: Option<ChunkRef>, item: Option<ChunkRef>)
    ensures Marked(t, l, i, line, item, false, false).Whole() == t
  {
    hide LineStage, ItemStage;
    var zl := LineStage(t, l, line, false, false);
    LineWhole(t, l, line);
    ItemWhole(zl.focus, i, item, AfterDelimiter(zl, i));
    Nested(zl, ItemStage(zl.focus, i, item, false, false, AfterDelimiter(zl, i)), t);
  }

  /** text' is was with [lo, hi) replaced by the whole of z, and [start, end) is the focus there. */
  ghost predicate Placed(was: text, lo: nat, hi: nat, z: Zipper, text': text, start: nat, end: nat)
    requires lo <= hi <= |was|
  {
    && text' == was[..lo] + z.Whole() + was[hi..]
    && start == lo + |z.before| && end == start + |z.focus|
  }

  /** What Bounds found. */
  ghost predicate Found(t: text, lo: nat, hi: nat, d: char, span: Span, start: nat, end: nat, add: int)
  {
    && lo <= start <= end <= hi <= |t| && span.count > 0
    && Zipper(t[lo..start], t[start..end], t[end..hi]) == FocusOn(t[lo..hi], d, span.first, span.count, false)
    && (add == if span.first < |Split(t[lo..hi], d)| then 0
               else span.first + 1 - |Split(t[lo..hi], d)| - if Misread(t, lo, hi, d) then 1 else 0)
  }

  lemma WholeBounds(t: text, lo: nat, hi: nat, d: char, span: Span, force: bool, s0: nat, e0: nat, add: int,
                    start: nat, end: nat)
    requires Found(t, lo, hi, d, span, s0, e0, add)
    requires start == if e0 == hi && s0 > lo && add == 0 then s0 - 1 else s0
    requires end == if e0 < hi then e0 + 1 else e0
    ensures Placed(t, lo, hi, Stage(t[lo..hi], d, span, force, true, Misread(t, lo, hi, d)), t, start, end)
  {
    hide Split, FocusOn;
    if span.first >= |Split(t[lo..hi], d)| {
      MissingAtEnd(t[lo..hi], d, span);
    } else {
      WidenSlices(t, lo, s0, e0, hi);
    }
    SpliceBack(t, lo, start, end, hi);
  }

  lemma WidenSlices(t: text, lo: nat, a: nat, b: nat, hi: nat)
    requires lo <= a <= b <= hi <= |t|
    ensures Widened(Zipper(t[lo..a], t[a..b], t[b..hi]))
         == if b < hi then Zipper(t[lo..a], t[a..b + 1], t[b + 1..hi])
            else if a > lo then Zipper(t[lo..a - 1], t[a - 1..b], t[b..hi])
            else Zipper(t[lo..a], t[a..b], t[b..hi])
  {
    if b < hi {
      assert t[a..b] + [t[b]] == t[a..b + 1] && t[b..hi][1..] == t[b + 1..hi];
    } else if a > lo {
      assert [t[a - 1]] + t[a..b] == t[a - 1..b] && t[lo..a][..a - lo - 1] == t[lo..a - 1];
    }
  }

  lemma SpliceBack(t: text, lo: nat, a: nat, b: nat, hi: nat)
    requires lo <= a <= b <= hi <= |t|
    ensures t == t[..lo] + Zipper(t[lo..a], t[a..b], t[b..hi]).Whole() + t[hi..]
  {
    assert t[lo..a] + t[a..b] + t[b..hi] == t[lo..hi];
  }

  lemma ForcedBounds(was: text, lo: nat, hi: nat, d: char, span: Span, force: bool, s0: nat, e0: nat, add: int,
                     text': text, start: nat, end: nat)
    requires Found(was, lo, hi, d, span, s0, e0, add)
    requires start == s0 + (if force && add > 0 then add else 0) && end == e0 + (if force && add > 0 then add else 0)
    requires text' == if force && add > 0 then was[..s0] + Repeat(d, add) + was[s0..] else was
    ensures Placed(was, lo, hi, Stage(was[lo..hi], d, span, force, false, Misread(was, lo, hi, d)), text', start, end)
  {
    hide Split, FocusOn, Repeat;
    if force && Misread(was, lo, hi, d) && span.first > 0 {
      EndPart(was, lo, hi, d);
      PaddedOneLess(was, lo, d, span, add);
    } else if force && add > 0 {
      PaddedAtEnd(was, lo, hi, d, span, add);
      assert s0 == hi by { MissingAtEnd(was[lo..hi], d, span); }
    } else {
      if force { FocusPresent(was[lo..hi], d, span.first, span.count); }
      SpliceBack(was, lo, s0, e0, hi);
    }
  }

  lemma PaddedAtEnd(was: text, lo: nat, hi: nat, d: char, span: Span, add: int)
    requires lo <= hi <= |was| && span.count > 0 && span.first >= |Split(was[lo..hi], d)|
    requires add == span.first + 1 - |Split(was[lo..hi], d)|
    ensures Placed(was, lo, hi, FocusOn(was[lo..hi], d, span.first, span.count, true),
                   was[..hi] + Repeat(d, add) + was[hi..], hi + add, hi + add)
  {
    hide Split, FocusOn, Repeat;
    FocusMissing(was[lo..hi], d, span.first, span.count);
    assert was[..hi] == was[..lo] + was[lo..hi];
  }

  lemma PaddedOneLess(was: text, at: nat, d: char, span: Span, add: nat)
    requires at <= |was| && span.count > 0 && span.first == add + 1
    ensures Placed(was, at, at, Zipper(Repeat(d, add), [], []), was[..at] + Repeat(d, add) + was[at..], at + add,
                   at + add)
    ensures add == 0 ==> was[..at] + Repeat(d, add) + was[at..] == was
  {
    RepeatNone(d);
  }

  lemma MissingAtEnd(t: text, d: char, span: Span)
    requires span.first >= |Split(t, d)|
    ensures FocusOn(t, d, span.first, span.count, false) == Zipper(t, [], [])
  {
  }
}
