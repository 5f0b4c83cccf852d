/**
 The suffix sort of the patch builder: bucket pass, then doubling phases over an index array
 in which finished stretches are overwritten by negative run lengths.
*/
module SuffixSort {
  import opened Basics
  import opened SuffixOrder
  import opened SuffixRanks
  import opened SuffixBuckets
  import opened SuffixSplit

  /** The reference: all suffixes, the empty one included, in strictly increasing order. */
  ghost predicate IsSuffixArray(text: seq<byte>, index: seq<int>)
  {
    && Permutation(index, |text| + 1)
    && forall p, q :: 0 <= p < q < |index| ==> LexLess(text[index[p]..], text[index[q]..])
  }

  /** Every position of [lo, hi) is a group of its own. */
  ghost predicate AllSingle(rank: seq<int>, order: seq<int>, lo: int, hi: int)
  {
    && Permutation(order, |rank|) && 0 <= lo <= hi <= |rank|
    && forall p :: lo <= p < hi ==> rank[order[p]] == p
  }

  /** How the index array tiles [lo, hi): runs of finished positions, marked by their negated
      length at their first entry, and open groups, which are still listed in full. From the
      second phase on an open group holds more than one suffix. */
  ghost predicate Runs(s: Stage, h: nat, lo: int, hi: int)
    requires Grouped(s.rank, s.order) && |s.index| == |s.rank| && 0 <= lo <= hi <= |s.rank|
    decreases hi - lo
  {
    if lo == hi then true
    else if s.index[lo] < 0 then
      lo - s.index[lo] <= hi && AllSingle(s.rank, s.order, lo, lo - s.index[lo]) && Runs(s, h, lo - s.index[lo], hi)
    else
      var last := s.rank[s.order[lo]];
      && last < hi && (last > lo || h == 1)
      && (forall p :: lo <= p <= last ==> s.index[p] == s.order[p])
      && Runs(s, h, last + 1, hi)
  }

  /** Two stages that show the same thing at [lo, hi). */
  ghost predicate SameAt(s: Stage, t: Stage, lo: int, hi: int)
  {
    && Grouped(s.rank, s.order) && |s.index| == |s.rank|
    && Grouped(t.rank, t.order) && |t.index| == |t.rank| == |s.rank|
    && 0 <= lo <= hi <= |s.rank|
    && forall p :: lo <= p < hi ==>
         s.index[p] == t.index[p] && s.order[p] == t.order[p] && s.rank[s.order[p]] == t.rank[t.order[p]]
  }

  lemma {:induction false} RunsFrame(s: Stage, t: Stage, h: nat, lo: int, hi: int)
    requires SameAt(s, t, lo, hi) && Runs(s, h, lo, hi)
    ensures Runs(t, h, lo, hi)
    decreases hi - lo
  {
    if lo < hi {
      var next := if s.index[lo] < 0 then lo - s.index[lo] else s.rank[s.order[lo]] + 1;
      SameAtEnd(s, t, lo, next, hi);
      RunsFrame(s, t, h, next, hi);
      RunsFront(s, t, h, lo, hi);
    }
  }

  lemma SameAtEnd(s: Stage, t: Stage, lo: int, mid: int, hi: int)
    requires SameAt(s, t, lo, hi) && lo <= mid <= hi
    ensures SameAt(s, t, mid, hi)
  {
    hide Grouped;
  }

  /** The first run or group of a tiling, seen in the other stage. */
  lemma RunsFront(s: Stage, t: Stage, h: nat, lo: int, hi: int)
    requires SameAt(s, t, lo, hi) && lo < hi && Runs(s, h, lo, hi)
    requires var next := if s.index[lo] < 0 then lo - s.index[lo] else s.rank[s.order[lo]] + 1;
             lo < next <= hi && Runs(t, h, next, hi)
    ensures Runs(t, h, lo, hi)
  {
    assert s.index[lo] == t.index[lo] && s.order[lo] == t.order[lo] && s.rank[s.order[lo]] == t.rank[t.order[lo]];
  }

  lemma {:induction false} RunsJoin(s: Stage, h: nat, lo: int, mid: int, hi: int)
    requires Grouped(s.rank, s.order) && |s.index| == |s.rank| && 0 <= lo <= mid <= hi <= |s.rank|
    requires Runs(s, h, lo, mid) && Runs(s, h, mid, hi)
    ensures Runs(s, h, lo, hi)
    decreases mid - lo
  {
    if lo < mid {
      if s.index[lo] < 0 {
        RunsJoin(s, h, lo - s.index[lo], mid, hi);
      } else {
        RunsJoin(s, h, s.rank[s.order[lo]] + 1, mid, hi);
      }
    }
  }

  lemma GroupIsSingle(rank: seq<int>, order: seq<int>, lo: int, hi: int)
    requires Grouped(rank, order) && 0 <= lo < hi <= |rank| && Opens(rank, order, lo) && Opens(rank, order, hi)
    ensures lo <= rank[order[lo]] < hi && Opens(rank, order, rank[order[lo]] + 1)
    ensures forall p :: lo <= p <= rank[order[lo]] ==> (Single(rank, order, p) <==> rank[order[lo]] == lo)
  {
    var last := rank[order[lo]];
    if last >= hi { OpensSeparates(rank, order, hi, lo, last); }
    forall p | lo <= p <= last ensures Single(rank, order, p) <==> last == lo {
      assert rank[order[p]] == last;
      if p > lo { assert rank[order[p - 1]] == last; }
    }
  }

  lemma RunsNone(s: Stage, h: nat, lo: int)
    requires Grouped(s.rank, s.order) && |s.index| == |s.rank| && 0 <= lo <= |s.rank|
    ensures Runs(s, h, lo, lo)
  {
  }

  /** A finished position, or a whole group, before a tiling. */
  lemma RunsStep(s: Stage, h: nat, lo: int, hi: int)
    requires Grouped(s.rank, s.order) && |s.index| == |s.rank| && 0 <= lo < hi <= |s.rank|
    requires var last := s.rank[s.order[lo]];
             && last < hi && Runs(s, h, last + 1, hi)
             && if Single(s.rank, s.order, lo) && s.index[lo] == -1 then last == lo else
                (last > lo || h == 1) && forall p :: lo <= p <= last ==> s.index[p] == s.order[p]
    ensures Runs(s, h, lo, hi)
  {
  }

  /** What Split leaves on a stretch is a tiling of it. */
  lemma {:induction false} RefinedRuns(s: Stage, h: nat, lo: int, hi: int)
    requires Grouped(s.rank, s.order) && |s.index| == |s.rank| && 0 <= lo <= hi <= |s.rank|
    requires Opens(s.rank, s.order, lo) && Opens(s.rank, s.order, hi)
    requires forall p :: lo <= p < hi ==>
               s.index[p] == if Single(s.rank, s.order, p) then -1 else s.order[p]
    ensures Runs(s, h, lo, hi)
    decreases hi - lo
  {
    hide Runs, Single;
    if lo == hi {
      RunsNone(s, h, lo);
    } else {
      GroupIsSingle(s.rank, s.order, lo, hi);
      RefinedRuns(s, h, s.rank[s.order[lo]] + 1, hi);
      RunsStep(s, h, lo, hi);
    }
  }

  /** Recording a pending run of finished positions joins it to what lies before. */
  lemma RecordRun(s: Stage, t: Stage, h: nat, at: int, to: int)
    requires Grouped(s.rank, s.order) && |s.index| == |s.rank| && 0 <= at < to <= |s.rank|
    requires Runs(s, h, 0, at) && AllSingle(s.rank, s.order, at, to)
    requires t.rank == s.rank && t.order == s.order && t.index == s.index[at := at - to]
    ensures Runs(t, h, 0, to)
  {
    RunsFrame(s, t, h, 0, at);
    assert Runs(t, h, to, to);
    assert Runs(t, h, at, to);
    RunsJoin(t, h, 0, at, to);
  }

  /** What holds between two doubling phases. */
  ghost predicate Sorting(text: seq<byte>, s: Stage, h: nat)
  {
    && h >= 1 && |s.index| == |s.rank|
    && Ranked(text, s.rank, s.order, h)
    && Runs(s, h, 0, |s.rank|)
    && s.order[0] == |text| && s.index[0] < 0
  }

  /** A phase that has dealt with [0, i), of which the last len positions are a run of finished
      ones not recorded yet. */
  ghost predicate Midway(text: seq<byte>, s: Stage, h: nat, i: int, len: int)
  {
    && h >= 1 && |s.index| == |s.rank|
    && Ranked(text, s.rank, s.order, h)
    && 0 <= len <= i <= |s.rank|
    && Opens(s.rank, s.order, i)
    && Runs(s, 2 * h, 0, i - len) && AllSingle(s.rank, s.order, i - len, i) && Runs(s, h, i, |s.rank|)
    && s.order[0] == |text| && s.index[0] < 0
    && (forall p, q :: 0 <= p < i && 0 <= q < i && s.rank[s.order[p]] == s.rank[s.order[q]] ==>
          Agree(text, s.order[p], s.order[q], 2 * h))
  }

  lemma MidStart(text: seq<byte>, s: Stage, h: nat)
    requires Sorting(text, s, h)
    ensures Midway(text, s, h, 0, 0)
  {
  }

  lemma MidSkip(text: seq<byte>, s: Stage, h: nat, i: int, len: int)
    requires Midway(text, s, h, i, len) && i < |s.rank| && s.index[i] < 0
    ensures Midway(text, s, h, i - s.index[i], len - s.index[i])
  {
    var to := i - s.index[i];
    forall p, q | 0 <= p < to && 0 <= q < to && s.rank[s.order[p]] == s.rank[s.order[q]]
      ensures Agree(text, s.order[p], s.order[q], 2 * h)
    {
      if p >= i && q >= i {
        AgreeReflexive(text, s.order[p], 2 * h);
      } else if p < i <= q {
        OpensSeparates(s.rank, s.order, i, p, q);
      } else if q < i <= p {
        OpensSeparates(s.rank, s.order, i, q, p);
      }
    }
  }

  lemma MidRecord(text: seq<byte>, s: Stage, t: Stage, h: nat, i: int, len: int)
    requires Midway(text, s, h, i, len) && len > 0
    requires t == s.(index := s.index[i - len := -len])
    ensures Midway(text, t, h, i, 0)
  {
    RecordRun(s, t, 2 * h, i - len, i);
    RunsFrame(s, t, h, i, |s.rank|);
  }

  lemma MidReady(text: seq<byte>, s: Stage, h: nat, i: int)
    requires Midway(text, s, h, i, 0) && i < |s.rank| && s.index[i] >= 0
    ensures 1 <= i && s.index[i] == s.order[i] && s.index[i] < |s.rank|
    ensures i <= s.rank[s.order[i]] && Ready(text, s, i, s.rank[s.order[i]] + 1, h)
  {
    var last := s.rank[s.order[i]];
    forall p | i <= p <= last
      ensures s.order[p] + h < |s.rank|
    {
      if last == i {
        assert s.order[i] != s.order[0];
      } else {
        var q := if p == i then last else i;
        AgreeInRange(text, s.order[p], s.order[q], h);
      }
    }
  }

  lemma MidSplit(text: seq<byte>, s: Stage, t: Stage, h: nat, i: int, to: int)
    requires Midway(text, s, h, i, 0) && 1 <= i < to <= |s.rank|
    requires s.index[i] >= 0 && to == s.rank[s.order[i]] + 1
    requires Done(text, s, t, i, to, h)
    ensures Midway(text, t, h, to, 0)
  {
    DoneOutside(text, s, t, i, to, h);
    RunsFrame(s, t, 2 * h, 0, i);
    RunsFrame(s, t, h, to, |s.rank|);
    RefinedRuns(t, 2 * h, i, to);
    RunsJoin(t, 2 * h, 0, i, to);
    MidSplitAgrees(text, s, t, h, i, to);
  }

  lemma MidSplitAgrees(text: seq<byte>, s: Stage, t: Stage, h: nat, i: int, to: int)
    requires Midway(text, s, h, i, 0) && 1 <= i < to <= |s.rank|
    requires Done(text, s, t, i, to, h)
    ensures forall p, q :: 0 <= p < to && 0 <= q < to && t.rank[t.order[p]] == t.rank[t.order[q]] ==>
              Agree(text, t.order[p], t.order[q], 2 * h)
  {
    hide Less, Agree, Runs;
    DoneOutside(text, s, t, i, to, h);
    forall p, q | 0 <= p < to && 0 <= q < to && t.rank[t.order[p]] == t.rank[t.order[q]]
      ensures Agree(text, t.order[p], t.order[q], 2 * h)
    {
      if p < i <= q { OpensSeparates(t.rank, t.order, i, p, q); }
      if q < i <= p { OpensSeparates(t.rank, t.order, i, q, p); }
    }
  }

  lemma MidEnd(text: seq<byte>, s: Stage, h: nat)
    requires Midway(text, s, h, |s.rank|, 0)
    ensures Sorting(text, s, 2 * h)
  {
    forall a, b | 0 <= a < |s.rank| && 0 <= b < |s.rank| && s.rank[a] == s.rank[b]
      ensures Agree(text, a, b, 2 * h)
    {
      assert a in s.order && b in s.order;
    }
  }

  /** One pass over the array: splits every open group by the ranks h further on and records
      the runs of finished positions. */
  method Phase(index: array<int>, rank: array<int>, h: nat, ghost text: seq<byte>, ghost order: seq<int>)
    returns (ghost order': seq<int>)
    requires index != rank && index.Length == rank.Length == |text| + 1
    requires Sorting(text, Stage(index[..], rank[..], order), h)
    modifies index, rank
    ensures Sorting(text, Stage(index[..], rank[..], order'), 2 * h)
    ensures h > 1 && AllSingle(old(rank[..]), order, 0, |text| + 1) ==>
              AllSingle(rank[..], order', 0, |text| + 1) && index[0] == -(|text| + 1)
  {
    hide Sorting, Midway, Runs, Ready, Refined, AllSingle;
    ghost var was := Stage(index[..], rank[..], order);
    ghost var cur := was;
    ghost var settled := h > 1 && AllSingle(was.rank, was.order, 0, |text| + 1);
    MidStart(text, was, h);
    var len := 0;
    var i := 0;
    while i < index.Length
      invariant 0 <= len <= i <= index.Length
      invariant cur.index == index[..] && cur.rank == rank[..]
      invariant Midway(text, cur, h, i, len)
      invariant settled ==> cur == was && len == i
    {
      if index[i] < 0 {
        MidSkip(text, cur, h, i, len);
        MidBounds(text, cur, h, i - index[i], len - index[i]);
        len := len - index[i];
        i := i - index[i];
      } else {
        if settled { NoOpenGroup(text, cur, h, i, len); }
        if len > 0 {
          MidRecord(text, cur, cur.(index := cur.index[i - len := -len]), h, i, len);
          index[i - len] := -len;
          cur := Stage(index[..], rank[..], cur.order);
        }
        MidReady(text, cur, h, i);
        len := rank[index[i]] + 1 - i;
        ghost var next := Split(index, rank, i, len, h, text, cur.order);
        MidSplit(text, cur, Stage(index[..], rank[..], next), h, i, i + len);
        cur := Stage(index[..], rank[..], next);
        MidBounds(text, cur, h, i + len, 0);
        i := i + len;
        len := 0;
      }
    }
    if len > 0 {
      MidRecord(text, cur, cur.(index := cur.index[i - len := -len]), h, i, len);
      index[i - len] := -len;
      cur := Stage(index[..], rank[..], cur.order);
    }
    MidEnd(text, cur, h);
    order' := cur.order;
  }

  lemma MidBounds(text: seq<byte>, s: Stage, h: nat, i: int, len: int)
    requires Midway(text, s, h, i, len)
    ensures 0 <= len <= i <= |s.rank| == |s.index| == |text| + 1
  {
  }

  lemma NoOpenGroup(text: seq<byte>, s: Stage, h: nat, i: int, len: int)
    requires Midway(text, s, h, i, len) && i < |s.rank| && s.index[i] >= 0 && h > 1
    ensures !AllSingle(s.rank, s.order, 0, |s.rank|)
  {
  }

  lemma SortingBounds(text: seq<byte>, s: Stage, h: nat)
    requires Sorting(text, s, h)
    ensures |s.rank| == |s.index| == |s.order| == |text| + 1 && Permutation(s.order, |s.rank|)
    ensures AllSingle(s.rank, s.order, 0, |s.rank|) || h <= |text|
    ensures s.index[0] == -(|text| + 1) ==> AllSingle(s.rank, s.order, 0, |s.rank|)
  {
    if !AllSingle(s.rank, s.order, 0, |s.rank|) {
      var p :| 0 <= p < |s.rank| && s.rank[s.order[p]] != p;
      AgreeInRange(text, s.order[p], s.order[s.rank[s.order[p]]], h);
    }
  }

  /** When every suffix has a group of its own the hidden order is the suffix array. */
  lemma SettledIsSuffixArray(text: seq<byte>, rank: seq<int>, order: seq<int>, h: nat)
    requires Ranked(text, rank, order, h) && AllSingle(rank, order, 0, |rank|)
    ensures IsSuffixArray(text, order)
  {
    forall p, q | 0 <= p < q < |order|
      ensures LexLess(text[order[p]..], text[order[q]..])
    {
      assert rank[order[p]] < rank[order[q]];
      LessIsLexicographic(text, order[p], order[q]);
    }
  }

  /** The state after the bucket pass and its marks. */
  lemma BucketedIsSorting(text: seq<byte>, index: seq<int>, rank: seq<int>, order: seq<int>)
    requires Bucketed(text, rank, order) && |index| == |rank| && Permutation(order, |rank|)
    requires index[0] == -1
    requires forall p :: 0 < p < |index| ==>
               index[p] == if 0 < text[order[p]] && Single(rank, order, p) then -1 else order[p]
    ensures Sorting(text, Stage(index, rank, order), 1)
  {
    BucketedPermutation(text, rank, order);
    BucketedIsRanked(text, rank, order);
    var s := Stage(index, rank, order);
    BucketRuns(text, s, 1);
    assert Runs(s, 1, 1, |s.rank|) && AllSingle(rank, order, 0, 1);
  }

  lemma {:induction false} BucketRuns(text: seq<byte>, s: Stage, lo: int)
    requires Ranked(text, s.rank, s.order, 1) && |s.index| == |s.rank| && 1 <= lo <= |s.rank|
    requires Opens(s.rank, s.order, lo)
    requires forall p :: 0 < p < |s.index| ==> s.order[p] < |text|
    requires forall p :: 0 < p < |s.index| ==>
               s.index[p] == if 0 < text[s.order[p]] && Single(s.rank, s.order, p) then -1 else s.order[p]
    ensures Runs(s, 1, lo, |s.rank|)
    decreases |s.rank| - lo
  {
    hide Runs, Single;
    if lo == |s.rank| {
      RunsNone(s, 1, lo);
    } else {
      var last := s.rank[s.order[lo]];
      assert s.rank[s.order[last]] == last;
      GroupIsSingle(s.rank, s.order, lo, last + 1);
      BucketRuns(text, s, last + 1);
      RunsStep(s, 1, lo, |s.rank|);
    }
  }

  /** Puts every suffix at its slot, and leaves in buckets where each bucket ends. */
  method PlaceSuffixes(index: array<int>, text: seq<byte>) returns (buckets: array<int>)
    requires index.Length == |text| + 1
    modifies index
    ensures fresh(buckets) && buckets.Length == 256
    ensures forall c :: 0 <= c < 256 ==> buckets[c] == BucketEnd(text, c)
    ensures forall a :: 0 <= a < |text| ==> 0 < Slot(text, a) <= |text| && index[Slot(text, a)] == a
    ensures index[0] == |text|
  {
    buckets := CountBytes(text);
    var i := 0;
    while i < |text|
      invariant 0 <= i <= |text|
      invariant forall c :: 0 <= c < 256 ==> buckets[c] == CountBelow(text, |text|, c) + CountOf(text, i, c)
      invariant forall a :: 0 <= a < i ==> 0 < Slot(text, a) <= |text| && index[Slot(text, a)] == a
    {
      SlotInBucket(text, i);
      forall a | 0 <= a < i ensures Slot(text, a) != Slot(text, i) { SlotsApart(text, a, i); }
      buckets[text[i]] := buckets[text[i]] + 1;
      index[buckets[text[i]]] := i;
      i := i + 1;
    }
    index[0] := |text|;
    forall c | 0 <= c < 256 ensures buckets[c] == BucketEnd(text, c) { BelowNext(text, |text|, c); }
  }

  /** Marks the buckets that hold a single suffix, and the empty suffix. */
  method MarkBuckets(index: array<int>, buckets: array<int>, ghost text: seq<byte>, ghost rank: seq<int>,
                     ghost order: seq<int>)
    requires buckets.Length == 256 && index != buckets && index[..] == order
    requires forall c :: 0 <= c < 256 ==> buckets[c] == BucketEnd(text, c)
    requires Bucketed(text, rank, order) && Permutation(order, |rank|)
    modifies index
    ensures Sorting(text, Stage(index[..], rank, order), 1)
  {
    hide Sorting, Permutation;
    var i := 1;
    while i < 256
      invariant 1 <= i <= 256
      invariant forall c :: 0 <= c < 256 ==> buckets[c] == BucketEnd(text, c)
      invariant BucketMarks(text, index[..], rank, order, i)
    {
      BucketSingle(text, rank, order, i);
      if buckets[i] == buckets[i - 1] + 1 {
        index[buckets[i]] := -1;
      }
      i := i + 1;
    }
    BucketedPermutation(text, rank, order);
    index[0] := -1;
    BucketedIsSorting(text, index[..], rank, order);
  }

  /** The first part of qsufsort: bucket pass, ranks, marks. */
  method BucketPass(index: array<int>, rank: array<int>, text: seq<byte>) returns (ghost order: seq<int>)
    requires index != rank && index.Length == rank.Length == |text| + 1
    modifies index, rank
    ensures Sorting(text, Stage(index[..], rank[..], order), 1)
  {
    hide Sorting;
    var buckets := PlaceSuffixes(index, text);
    order := index[..];
    var i := 0;
    while i < |text|
      invariant 0 <= i <= |text|
      invariant index[..] == order
      invariant forall c :: 0 <= c < 256 ==> buckets[c] == BucketEnd(text, c)
      invariant forall a :: 0 <= a < i ==> rank[a] == BucketEnd(text, text[a])
    {
      rank[i] := buckets[text[i]];
      i := i + 1;
    }
    rank[|text|] := 0;
    ghost var ranks := rank[..];
    BucketedPermutation(text, ranks, order);
    MarkBuckets(index, buckets, text, ranks, order);
    assert rank[..] == ranks;
  }

  /** qsufsort: leaves the suffix array of text in index and its inverse in rank. */
  method SortSuffixes(index: array<int>, rank: array<int>, text: seq<byte>)
    requires index != rank && index.Length == rank.Length == |text| + 1
    modifies index, rank
    ensures IsSuffixArray(text, index[..])
    ensures forall p :: 0 <= p <= |text| ==> rank[index[p]] == p
    ensures forall a :: 0 <= a <= |text| ==> 0 <= rank[a] <= |text| && index[rank[a]] == a
  {
    hide Sorting;
    ghost var order := BucketPass(index, rank, text);
    var h := 1;
    SortingBounds(text, Stage(index[..], rank[..], order), h);
    while index[0] != -(|text| + 1)
      invariant h >= 1
      invariant Sorting(text, Stage(index[..], rank[..], order), h)
      invariant Permutation(order, |text| + 1)
      decreases if h == 1 then |text| + 2 else if AllSingle(rank[..], order, 0, |text| + 1) then 0 else |text| + 1 - h,
                if index[0] == -(|text| + 1) then 0 else 1
    {
      SortingBounds(text, Stage(index[..], rank[..], order), h);
      order := Phase(index, rank, h, text, order);
      h := h + h;
      SortingBounds(text, Stage(index[..], rank[..], order), h);
    }
    SortingBounds(text, Stage(index[..], rank[..], order), h);
    Settled(text, Stage(index[..], rank[..], order), h);
    ghost var ranks := rank[..];
    var i := 0;
    while i < |text| + 1
      invariant 0 <= i <= |text| + 1
      invariant rank[..] == ranks
      invariant forall a :: 0 <= a < i ==> index[ranks[a]] == a
    {
      index[rank[i]] := i;
      i := i + 1;
    }
    forall p | 0 <= p <= |text| ensures index[p] == order[p] {
      assert index[ranks[order[p]]] == order[p];
    }
    assert index[..] == order;
  }

  lemma Settled(text: seq<byte>, s: Stage, h: nat)
    requires Sorting(text, s, h) && AllSingle(s.rank, s.order, 0, |s.rank|)
    ensures IsSuffixArray(text, s.order)
    ensures forall p :: 0 <= p <= |text| ==> s.rank[s.order[p]] == p
    ensures forall a :: 0 <= a <= |text| ==> 0 <= s.rank[a] <= |text|
    ensures forall a, b :: 0 <= a < b <= |text| ==> s.rank[a] != s.rank[b]
  {
    SettledIsSuffixArray(text, s.rank, s.order, h);
    forall a | 0 <= a <= |text| ensures 0 <= s.rank[a] <= |text| && s.order[s.rank[a]] == a {
      assert a in s.order;
    }
  }
}
