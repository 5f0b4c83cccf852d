/**
 One refinement of a group of the suffix sort: suffixes that share their first h symbols are
 regrouped, in place, by the rank of the suffix h further on.
*/
module SuffixSplit {
  import opened Basics
  import opened SuffixOrder
  import opened SuffixRanks

  /** The two arrays, with the order that the run marks in the first one hide. */
  datatype Stage = Stage(index: seq<int>, rank: seq<int>, order: seq<int>)

  /** Positions [from, to) open a group, are all still listed in the index array, can be
      keyed h further on, and come before whatever else their group holds. */
  ghost predicate Ready(text: seq<byte>, s: Stage, from: int, to: int, h: nat)
  {
    && Ranked(text, s.rank, s.order, h)
    && |s.index| == |s.rank|
    && 0 <= from < to <= |s.rank|
    && Opens(s.rank, s.order, from)
    && to <= s.rank[s.order[from]] + 1
    && (forall p :: from <= p < to ==> s.index[p] == s.order[p] && s.order[p] + h < |s.rank|)
    && (forall p, q :: from <= p < to <= q <= s.rank[s.order[from]] ==> Less(text, s.order[p], s.order[q]))
  }

  /** Positions [from, to) now hold whole groups whose suffixes agree on 2h symbols, with
      singletons marked -1; positions up to end may have been rearranged, nothing else. */
  ghost predicate Refined(text: seq<byte>, s: Stage, t: Stage, from: int, to: int, end: int, h: nat)
  {
    && |s.index| == |s.rank| == |t.index| == |t.rank| == |s.order|
    && from <= to <= end
    && Ranked(text, t.rank, t.order, h)
    && Rearranges(s.order, t.order, from, end)
    && Opens(t.rank, t.order, from) && Opens(t.rank, t.order, to)
    && (forall p :: 0 <= p < |s.index| && !(from <= p < end) ==>
          t.index[p] == s.index[p] && t.rank[s.order[p]] == s.rank[s.order[p]])
    && (forall p :: from <= p < to ==>
          t.index[p] == if Single(t.rank, t.order, p) then -1 else t.order[p])
    && (forall p, q :: from <= p < to && from <= q < to && t.rank[t.order[p]] == t.rank[t.order[q]] ==>
          Agree(text, t.order[p], t.order[q], 2 * h))
  }

  ghost predicate Done(text: seq<byte>, s: Stage, t: Stage, from: int, to: int, h: nat)
  {
    Refined(text, s, t, from, to, to, h)
  }

  lemma DoneOutside(text: seq<byte>, s: Stage, t: Stage, from: int, to: int, h: nat)
    requires Done(text, s, t, from, to, h)
    ensures |s.index| == |s.rank| == |t.index| == |t.rank| == |s.order| == |t.order|
    ensures Permutation(t.order, |t.order|)
    ensures forall p :: 0 <= p < |s.index| && !(from <= p < to) ==>
              t.order[p] == s.order[p] && t.index[p] == s.index[p] && t.rank[t.order[p]] == s.rank[s.order[p]]
  {
  }

  /** Refining the next part of a stretch extends what is refined of it. */
  lemma RefinedMore(text: seq<byte>, s: Stage, t: Stage, u: Stage, from: int, mid: int, to: int, end: int, h: nat)
    requires from <= mid <= to <= end && Refined(text, s, t, from, mid, end, h) && Done(text, t, u, mid, to, h)
    ensures Refined(text, s, u, from, to, end, h)
  {
    hide Less, Agree, RanksBySuffix, AgreesTo;
    DoneOutside(text, t, u, mid, to, h);
    RefinedMarks(text, s, t, u, from, mid, to, end, h);
    RefinedAgrees(text, s, t, u, from, mid, to, end, h);
  }

  lemma RefinedMarks(text: seq<byte>, s: Stage, t: Stage, u: Stage, from: int, mid: int, to: int, end: int, h: nat)
    requires from <= mid <= to <= end && Refined(text, s, t, from, mid, end, h) && Done(text, t, u, mid, to, h)
    ensures forall p :: from <= p < to ==>
          u.index[p] == if Single(u.rank, u.order, p) then -1 else u.order[p]
  {
    hide Less, Agree, Ranked;
    DoneOutside(text, t, u, mid, to, h);
    forall p | from <= p < mid
      ensures Single(u.rank, u.order, p) <==> Single(t.rank, t.order, p)
    {
    }
  }

  lemma RefinedAgrees(text: seq<byte>, s: Stage, t: Stage, u: Stage, from: int, mid: int, to: int, end: int, h: nat)
    requires from <= mid <= to <= end && Refined(text, s, t, from, mid, end, h) && Done(text, t, u, mid, to, h)
    ensures forall p, q :: from <= p < to && from <= q < to && u.rank[u.order[p]] == u.rank[u.order[q]] ==>
              Agree(text, u.order[p], u.order[q], 2 * h)
  {
    hide Less, Agree, RanksBySuffix, AgreesTo;
    DoneOutside(text, t, u, mid, to, h);
    forall p, q | from <= p < to && from <= q < to && u.rank[u.order[p]] == u.rank[u.order[q]]
      ensures Agree(text, u.order[p], u.order[q], 2 * h)
    {
      if p < mid <= q { OpensSeparates(u.rank, u.order, mid, p, q); }
      if q < mid <= p { OpensSeparates(u.rank, u.order, mid, q, p); }
    }
  }

  /** A stretch whose suffixes all precede the rest of its group can be refined by itself. */
  lemma ReadyFront(text: seq<byte>, s: Stage, from: int, mid: int, to: int, h: nat)
    requires from < mid <= to && Ready(text, s, from, to, h)
    requires forall p, q :: from <= p < mid <= q < to ==> Less(text, s.order[p], s.order[q])
    ensures Ready(text, s, from, mid, h)
  {
  }

  /** Once the front of a stretch is refined, what is left of it is a stretch of its own. */
  lemma ReadyRest(text: seq<byte>, s: Stage, t: Stage, from: int, mid: int, to: int, h: nat)
    requires from <= mid < to && Ready(text, s, from, to, h) && Done(text, s, t, from, mid, h)
    ensures Ready(text, t, mid, to, h)
    ensures t.rank[t.order[mid]] == s.rank[s.order[from]]
  {
    assert s.rank[s.order[mid]] == s.rank[s.order[from]];
  }

  /** Every suffix listed in [lo, hi) has a rank h further on. */
  ghost predicate Keyed(index: seq<int>, rank: seq<int>, lo: int, hi: int, h: nat)
  {
    0 <= lo <= hi <= |index| && forall p :: lo <= p < hi ==> 0 <= index[p] && index[p] + h < |rank|
  }

  function Key(index: seq<int>, rank: seq<int>, p: int, h: nat): int
    requires 0 <= p < |index| && 0 <= index[p] && index[p] + h < |rank|
  {
    rank[index[p] + h]
  }

  lemma ReadyKeyed(text: seq<byte>, s: Stage, from: int, to: int, h: nat)
    requires Ready(text, s, from, to, h)
    ensures Keyed(s.index, s.rank, from, to, h)
  {
  }

  /** What the keys of a ready stretch say about its suffixes. */
  lemma KeysOrder(text: seq<byte>, s: Stage, from: int, to: int, h: nat, p: int, q: int)
    requires Ready(text, s, from, to, h) && from <= p < to && from <= q < to
    ensures Key(s.index, s.rank, p, h) < Key(s.index, s.rank, q, h) ==> Less(text, s.order[p], s.order[q])
    ensures Key(s.index, s.rank, p, h) == Key(s.index, s.rank, q, h) ==> Agree(text, s.order[p], s.order[q], 2 * h)
  {
    assert s.rank[s.order[p]] == s.rank[s.order[from]] == s.rank[s.order[q]];
    KeyOrders(text, s.rank, s.order, h, s.order[p], s.order[q]);
  }

  function Swapped(s: seq<int>, i: int, j: int): seq<int>
    requires 0 <= i < |s| && 0 <= j < |s|
  {
    s[i := s[j]][j := s[i]]
  }

  lemma KeySwapped(index: seq<int>, rank: seq<int>, lo: int, hi: int, h: nat, i: int, j: int)
    requires Keyed(index, rank, lo, hi, h) && lo <= i < hi && lo <= j < hi
    ensures Keyed(Swapped(index, i, j), rank, lo, hi, h)
    ensures forall p :: lo <= p < hi ==>
              Key(Swapped(index, i, j), rank, p, h)
              == if p == i then Key(index, rank, j, h) else if p == j then Key(index, rank, i, h)
                 else Key(index, rank, p, h)
  {
  }

  /** after is before with the entries of [lo, hi) permuted. */
  ghost predicate Shuffled(before: seq<int>, after: seq<int>, lo: int, hi: int)
  {
    && 0 <= lo <= hi <= |before| == |after|
    && multiset(before[lo..hi]) == multiset(after[lo..hi])
    && (forall p :: 0 <= p < |before| && !(lo <= p < hi) ==> after[p] == before[p])
  }

  lemma ShuffledNot(s: seq<int>, lo: int, hi: int)
    requires 0 <= lo <= hi <= |s|
    ensures Shuffled(s, s, lo, hi)
  {
  }

  lemma ShuffledTwice(s: seq<int>, t: seq<int>, u: seq<int>, lo: int, hi: int)
    requires Shuffled(s, t, lo, hi) && Shuffled(t, u, lo, hi)
    ensures Shuffled(s, u, lo, hi)
  {
  }

  /** Moving suffixes about inside a ready stretch leaves it ready, and what is refined before
      it stays refined. */
  lemma ReadyMoved(text: seq<byte>, s: Stage, index': seq<int>, from: int, to: int, h: nat) returns (t: Stage)
    requires Ready(text, s, from, to, h) && Shuffled(s.index, index', from, to)
    ensures t.index == index' && t.rank == s.rank
    ensures Rearranges(s.order, t.order, from, to)
    ensures Ready(text, t, from, to, h)
  {
    var order' := s.order[..from] + index'[from..to] + s.order[to..];
    t := Stage(index', s.rank, order');
    assert s.index[from..to] == s.order[from..to];
    SpliceRearranges(s.order, index'[from..to], from, to);
    RearrangeInGroup(text, s.rank, s.order, order', h, from, to);
    var last := s.rank[s.order[from]];
    forall p | from <= p < to
      ensures index'[p] == order'[p] && order'[p] + h < |s.rank|
      ensures forall q :: to <= q <= last ==> Less(text, order'[p], order'[q])
    {
      assert index'[p] == index'[from..to][p - from];
      var r := RearrangedFrom(s.order, order', from, to, p);
    }
    assert from > 0 ==> order'[from - 1] == s.order[from - 1];
  }

  lemma RefinedMoved(text: seq<byte>, s: Stage, t: Stage, u: Stage, from: int, mid: int, end: int, h: nat)
    requires Refined(text, s, t, from, mid, end, h)
    requires Ready(text, u, mid, end, h) && u.rank == t.rank && Rearranges(t.order, u.order, mid, end)
    requires Shuffled(t.index, u.index, mid, end)
    ensures Refined(text, s, u, from, mid, end, h)
  {
    hide Less, Agree, RanksBySuffix, AgreesTo, Grouped, Single, Opens;
    SingleMoved(t, u, from, mid, end);
    RearrangedOn(s.order, t.order, u.order, from, mid, end);
  }

  /** What comes before a rearranged stretch is as single as it was. */
  lemma SingleMoved(t: Stage, u: Stage, from: int, mid: int, end: int)
    requires 0 <= from <= mid <= end && u.rank == t.rank && Rearranges(t.order, u.order, mid, end)
    requires Permutation(t.order, |t.rank|) && Permutation(u.order, |t.rank|) && mid <= |t.rank|
    ensures Opens(u.rank, u.order, from) <==> Opens(t.rank, t.order, from)
    ensures Opens(u.rank, u.order, mid) <==> Opens(t.rank, t.order, mid)
    ensures forall p :: from <= p < mid ==> (Single(u.rank, u.order, p) <==> Single(t.rank, t.order, p))
  {
    forall p | from <= p < mid ensures Single(u.rank, u.order, p) <==> Single(t.rank, t.order, p) {
      assert p > 0 ==> u.order[p - 1] == t.order[p - 1];
    }
  }

  lemma RearrangedOn(a: seq<int>, b: seq<int>, c: seq<int>, from: int, mid: int, end: int)
    requires from <= mid && Rearranges(a, b, from, end) && Rearranges(b, c, mid, end)
    ensures Rearranges(a, c, from, end)
  {
  }

  lemma SwapShuffles(before: seq<int>, s: seq<int>, i: int, j: int, lo: int, hi: int)
    requires Shuffled(before, s, lo, hi) && lo <= i < hi && lo <= j < hi
    ensures Shuffled(before, Swapped(s, i, j), lo, hi)
  {
    var piece := s[lo..hi];
    assert Swapped(s, i, j)[lo..hi] == piece[i - lo := piece[j - lo]][j - lo := piece[i - lo]];
  }

  method Swap(a: array<int>, i: int, j: int)
    requires 0 <= i < a.Length && 0 <= j < a.Length
    modifies a
    ensures a[..] == Swapped(old(a[..]), i, j)
  {
    var tmp := a[i];
    a[i] := a[j];
    a[j] := tmp;
  }

  /** Of [start, start + i), the first j have the least key x so far. */
  ghost predicate Selected(index: seq<int>, rank: seq<int>, start: int, end: int, h: nat, x: int, j: int, i: int)
  {
    && Keyed(index, rank, start, end, h) && 0 <= j <= i <= end - start
    && (forall p :: start <= p < start + j ==> Key(index, rank, p, h) == x)
    && (forall p :: start + j <= p < start + i ==> x < Key(index, rank, p, h))
  }

  lemma SelectFirst(index: seq<int>, rank: seq<int>, start: int, end: int, h: nat)
    requires Keyed(index, rank, start, end, h) && start < end
    ensures Selected(index, rank, start, end, h, Key(index, rank, start, h), 1, 1)
  {
  }

  lemma SelectStep(index: seq<int>, rank: seq<int>, start: int, end: int, h: nat, x: int, j: int, i: int)
    requires Selected(index, rank, start, end, h, x, j, i) && start + i < end
    ensures Key(index, rank, start + i, h) < x ==>
              Selected(index, rank, start, end, h, Key(index, rank, start + i, h), 0, i)
    ensures Key(index, rank, start + i, h) > x ==> Selected(index, rank, start, end, h, x, j, i + 1)
    ensures Keyed(Swapped(index, start + j, start + i), rank, start, end, h)
    ensures Key(index, rank, start + i, h) == x ==>
              Selected(Swapped(index, start + j, start + i), rank, start, end, h, x, j + 1, i + 1)
  {
    KeySwapped(index, rank, start, end, h, start + j, start + i);
  }

  /** Brings the suffixes with the least key to the front of [start, end) and counts them. */
  method SelectLeast(index: array<int>, rank: array<int>, start: int, end: int, h: nat)
    returns (j: int, ghost least: int)
    requires index != rank && start < end && Keyed(index[..], rank[..], start, end, h)
    modifies index
    ensures Shuffled(old(index[..]), index[..], start, end)
    ensures 1 <= j <= end - start && Keyed(index[..], rank[..], start, end, h)
    ensures Selected(index[..], rank[..], start, end, h, least, j, end - start)
  {
    hide Shuffled, Swapped, Selected;
    ghost var was, keys := index[..], rank[..];
    ghost var cur := was;
    ShuffledNot(was, start, end);
    j := 1;
    var x := rank[index[start] + h];
    SelectFirst(cur, keys, start, end, h);
    var i := 1;
    while start + i < end
      invariant 1 <= j <= i <= end - start
      invariant index[..] == cur && rank[..] == keys && Keyed(cur, keys, start, end, h)
      invariant Selected(cur, keys, start, end, h, x, j, i)
      invariant Shuffled(was, cur, start, end)
    {
      SelectStep(cur, keys, start, end, h, x, j, i);
      if rank[index[start + i] + h] < x {
        x := rank[index[start + i] + h];
        j := 0;
        SelectStep(cur, keys, start, end, h, x, j, i);
      }
      if rank[index[start + i] + h] == x {
        SwapShuffles(was, cur, start + j, start + i, start, end);
        Swap(index, start + j, start + i);
        cur := index[..];
        j := j + 1;
      }
      i := i + 1;
    }
    least := x;
  }

  lemma ClosedSingle(rank: seq<int>, order: seq<int>, from: int, to: int)
    requires Permutation(order, |rank|) && 0 <= from < to <= |rank| && Opens(rank, order, from)
    requires forall p :: from <= p < to ==> rank[order[p]] == to - 1
    ensures forall p :: from <= p < to ==> (Single(rank, order, p) <==> from == to - 1)
  {
    forall p | from <= p < to ensures Single(rank, order, p) <==> from == to - 1 {
      if p > from { assert rank[order[p - 1]] == to - 1; }
    }
  }

  lemma ClosedIsDone(text: seq<byte>, s: Stage, t: Stage, from: int, to: int, h: nat)
    requires Ready(text, s, from, to, h)
    requires forall p, q :: from <= p < to && from <= q < to ==> Agree(text, s.order[p], s.order[q], 2 * h)
    requires t.order == s.order && |t.index| == |s.index| && Splits(s.rank, t.rank, s.order, from, to)
    requires t.index == if from == to - 1 then s.index[from := -1] else s.index
    ensures Done(text, s, t, from, to, h)
  {
    hide Less, Agree, RanksBySuffix, AgreesTo, Grouped;
    SplitKeepsRanked(text, s.rank, t.rank, s.order, h, from, to);
    ClosedSingle(t.rank, t.order, from, to);
    forall p | from <= p < to
      ensures t.index[p] == if Single(t.rank, t.order, p) then -1 else t.order[p]
    {
      assert s.index[p] == s.order[p];
    }
  }

  /** Numbers the suffixes at [from, to) as a group of their own. */
  method CloseGroup(index: array<int>, rank: array<int>, from: int, to: int, ghost text: seq<byte>,
                    ghost order: seq<int>, ghost h: nat)
    requires index != rank && index.Length == rank.Length
    requires Ready(text, Stage(index[..], rank[..], order), from, to, h)
    requires forall p, q :: from <= p < to && from <= q < to ==> Agree(text, order[p], order[q], 2 * h)
    modifies index, rank
    ensures Done(text, old(Stage(index[..], rank[..], order)), Stage(index[..], rank[..], order), from, to, h)
  {
    hide Done, Agree, Less, AgreesTo, RanksBySuffix;
    ghost var was := Stage(index[..], rank[..], order);
    var i := 0;
    while i < to - from
      invariant 0 <= i <= to - from
      invariant index[..] == was.index
      invariant Permutation(order, rank.Length)
      invariant forall p :: from <= p < from + i ==> rank[order[p]] == to - 1
      invariant forall p :: 0 <= p < index.Length && !(from <= p < from + i) ==> rank[order[p]] == was.rank[order[p]]
    {
      assert index[from + i] == was.index[from + i] == order[from + i];
      rank[index[from + i]] := to - 1;
      i := i + 1;
    }
    if from == to - 1 {
      index[from] := -1;
    }
    ClosedIsDone(text, was, Stage(index[..], rank[..], order), from, to, h);
  }

  function Side(key: int, x: int): (side: int)
    ensures -1 <= side <= 1
  {
    if key < x then -1 else if key == x then 0 else 1
  }

  /** How many keys of [lo, hi) are on the given side of x. */
  ghost function Count(index: seq<int>, rank: seq<int>, h: nat, x: int, side: int, lo: int, hi: int): (n: nat)
    requires lo <= hi && Keyed(index, rank, lo, hi, h)
    ensures n <= hi - lo
    decreases hi - lo
  {
    if lo == hi then 0
    else Count(index, rank, h, x, side, lo, hi - 1) + if Side(Key(index, rank, hi - 1, h), x) == side then 1 else 0
  }

  lemma {:induction false} CountSplit(index: seq<int>, rank: seq<int>, h: nat, x: int, side: int, lo: int, mid: int,
                                      hi: int)
    requires lo <= mid <= hi && Keyed(index, rank, lo, hi, h)
    ensures Count(index, rank, h, x, side, lo, hi)
         == Count(index, rank, h, x, side, lo, mid) + Count(index, rank, h, x, side, mid, hi)
    decreases hi - mid
  {
    if mid < hi { CountSplit(index, rank, h, x, side, lo, mid, hi - 1); }
  }

  lemma {:induction false} CountFull(index: seq<int>, rank: seq<int>, h: nat, x: int, side: int, lo: int, hi: int)
    requires lo <= hi && Keyed(index, rank, lo, hi, h)
    requires forall p :: lo <= p < hi ==> Side(Key(index, rank, p, h), x) == side
    ensures Count(index, rank, h, x, side, lo, hi) == hi - lo
    decreases hi - lo
  {
    if lo < hi { CountFull(index, rank, h, x, side, lo, hi - 1); }
  }

  lemma {:induction false} CountAll(index: seq<int>, rank: seq<int>, h: nat, x: int, lo: int, hi: int)
    requires lo <= hi && Keyed(index, rank, lo, hi, h)
    ensures Count(index, rank, h, x, -1, lo, hi) + Count(index, rank, h, x, 0, lo, hi)
            + Count(index, rank, h, x, 1, lo, hi) == hi - lo
    decreases hi - lo
  {
    if lo < hi { CountAll(index, rank, h, x, lo, hi - 1); }
  }

  lemma {:induction false} CountUpdate(index: seq<int>, rank: seq<int>, h: nat, x: int, side: int, lo: int, hi: int,
                                       i: int, v: int)
    requires lo <= i < hi && Keyed(index, rank, lo, hi, h) && 0 <= v && v + h < |rank|
    ensures Count(index[i := v], rank, h, x, side, lo, hi) + (if Side(Key(index, rank, i, h), x) == side then 1 else 0)
         == Count(index, rank, h, x, side, lo, hi) + (if Side(rank[v + h], x) == side then 1 else 0)
    decreases hi - lo
  {
    if i < hi - 1 {
      CountUpdate(index, rank, h, x, side, lo, hi - 1, i, v);
    } else {
      CountUntouched(index, rank, h, x, side, lo, hi - 1, i, v);
    }
  }

  lemma {:induction false} CountUntouched(index: seq<int>, rank: seq<int>, h: nat, x: int, side: int, lo: int,
                                          hi: int, i: int, v: int)
    requires lo <= hi <= i < |index| && Keyed(index, rank, lo, hi, h)
    ensures Count(index[i := v], rank, h, x, side, lo, hi) == Count(index, rank, h, x, side, lo, hi)
    decreases hi - lo
  {
    if lo < hi { CountUntouched(index, rank, h, x, side, lo, hi - 1, i, v); }
  }

  /** A run of keys on one side, with one more on that side elsewhere, is not all of them. */
  lemma Room(index: seq<int>, rank: seq<int>, h: nat, x: int, side: int, lo: int, hi: int, from: int, to: int, p: int)
    requires Keyed(index, rank, lo, hi, h) && lo <= from <= to <= hi && lo <= p < hi && !(from <= p < to)
    requires Side(Key(index, rank, p, h), x) == side
    requires forall q :: from <= q < to ==> Side(Key(index, rank, q, h), x) == side
    ensures to - from < Count(index, rank, h, x, side, lo, hi)
  {
    CountFull(index, rank, h, x, side, from, to);
    CountSplit(index, rank, h, x, side, lo, from, hi);
    CountSplit(index, rank, h, x, side, from, to, hi);
    if p < from {
      CountSplit(index, rank, h, x, side, lo, p, from);
      CountSplit(index, rank, h, x, side, p, p + 1, from);
      CountFull(index, rank, h, x, side, p, p + 1);
    } else {
      CountSplit(index, rank, h, x, side, to, p, hi);
      CountSplit(index, rank, h, x, side, p, p + 1, hi);
      CountFull(index, rank, h, x, side, p, p + 1);
    }
  }

  /** The boundaries of the three parts, counted before anything is moved. */
  ghost predicate Bounds(index: seq<int>, rank: seq<int>, h: nat, x: int, start: int, jj: int, kk: int, end: int)
  {
    && start <= jj <= kk <= end && Keyed(index, rank, start, end, h)
    && Count(index, rank, h, x, -1, start, end) == jj - start
    && Count(index, rank, h, x, 0, start, end) == kk - jj
    && Count(index, rank, h, x, 1, start, end) == end - kk
  }

  lemma SwapKeepsBounds(index: seq<int>, rank: seq<int>, h: nat, x: int, start: int, jj: int, kk: int, end: int,
                        i: int, j: int)
    requires Bounds(index, rank, h, x, start, jj, kk, end) && start <= i < end && start <= j < end
    ensures Bounds(Swapped(index, i, j), rank, h, x, start, jj, kk, end)
  {
    var once := index[i := index[j]];
    CountUpdate(index, rank, h, x, -1, start, end, i, index[j]);
    CountUpdate(index, rank, h, x, 0, start, end, i, index[j]);
    CountUpdate(index, rank, h, x, 1, start, end, i, index[j]);
    CountUpdate(once, rank, h, x, -1, start, end, j, index[i]);
    CountUpdate(once, rank, h, x, 0, start, end, j, index[i]);
    CountUpdate(once, rank, h, x, 1, start, end, j, index[i]);
  }

  /** The partition so far: i keys below x in front, j equal ones from jj, k above from kk. */
  ghost predicate Parted(index: seq<int>, rank: seq<int>, h: nat, x: int, start: int, i: int, jj: int, j: int,
                         kk: int, k: int, end: int)
  {
    && Bounds(index, rank, h, x, start, jj, kk, end)
    && start <= i <= jj && 0 <= j <= kk - jj && 0 <= k <= end - kk
    && (forall p :: start <= p < i ==> Key(index, rank, p, h) < x)
    && (forall p :: jj <= p < jj + j ==> Key(index, rank, p, h) == x)
    && (forall p :: kk <= p < kk + k ==> Key(index, rank, p, h) > x)
  }

  lemma PartStart(index: seq<int>, rank: seq<int>, h: nat, x: int, start: int, jj: int, kk: int, end: int)
    requires start < end && Keyed(index, rank, start, end, h)
    requires x == Key(index, rank, start + (end - start) / 2, h)
    requires jj == start + Count(index, rank, h, x, -1, start, end)
             && kk == jj + Count(index, rank, h, x, 0, start, end)
    ensures jj < kk <= end && Parted(index, rank, h, x, start, start, jj, 0, kk, 0, end)
  {
    CountAll(index, rank, h, x, start, end);
    Room(index, rank, h, x, 0, start, end, start, start, start + (end - start) / 2);
  }

  /** Keys that already lie in the part they belong to are only counted. */
  lemma PartInPlace(index: seq<int>, rank: seq<int>, h: nat, x: int, start: int, i: int, jj: int, j: int, kk: int,
                    k: int, end: int)
    requires Parted(index, rank, h, x, start, i, jj, j, kk, k, end)
    ensures start <= jj <= kk <= end && 0 <= j <= kk - jj && 0 <= k <= end - kk
    ensures i < jj && Key(index, rank, i, h) < x ==> Parted(index, rank, h, x, start, i + 1, jj, j, kk, k, end)
    ensures jj + j < kk && Key(index, rank, jj + j, h) == x ==>
              Parted(index, rank, h, x, start, i, jj, j + 1, kk, k, end)
  {
  }

  lemma PartEqual(index: seq<int>, rank: seq<int>, h: nat, x: int, start: int, i: int, jj: int, j: int, kk: int,
                  k: int, end: int)
    requires Parted(index, rank, h, x, start, i, jj, j, kk, k, end) && i < jj
    requires Key(index, rank, i, h) == x
    ensures jj + j < kk && Keyed(Swapped(index, i, jj + j), rank, start, end, h)
    ensures Parted(Swapped(index, i, jj + j), rank, h, x, start, i, jj, j + 1, kk, k, end)
  {
    Room(index, rank, h, x, 0, start, end, jj, jj + j, i);
    KeySwapped(index, rank, start, end, h, i, jj + j);
    SwapKeepsBounds(index, rank, h, x, start, jj, kk, end, i, jj + j);
  }

  lemma PartAbove(index: seq<int>, rank: seq<int>, h: nat, x: int, start: int, i: int, jj: int, j: int, kk: int,
                  k: int, end: int, p: int)
    requires Parted(index, rank, h, x, start, i, jj, j, kk, k, end) && (p == i < jj || (i == jj && p == jj + j < kk))
    requires Key(index, rank, p, h) > x
    ensures kk + k < end && Keyed(Swapped(index, p, kk + k), rank, start, end, h)
    ensures Parted(Swapped(index, p, kk + k), rank, h, x, start, i, jj, j, kk, k + 1, end)
  {
    Room(index, rank, h, x, 1, start, end, kk, kk + k, p);
    KeySwapped(index, rank, start, end, h, p, kk + k);
    SwapKeepsBounds(index, rank, h, x, start, jj, kk, end, p, kk + k);
  }

  /** Once the front part is complete no key below x is left behind it. */
  lemma NoneBelow(index: seq<int>, rank: seq<int>, h: nat, x: int, start: int, jj: int, j: int, kk: int, k: int,
                  end: int, p: int)
    requires Parted(index, rank, h, x, start, jj, jj, j, kk, k, end) && jj <= p < end
    ensures Key(index, rank, p, h) >= x
  {
    if Key(index, rank, p, h) < x { Room(index, rank, h, x, -1, start, end, start, jj, p); }
  }

  lemma PartEnd(index: seq<int>, rank: seq<int>, h: nat, x: int, start: int, jj: int, kk: int, k: int, end: int)
    requires Parted(index, rank, h, x, start, jj, jj, kk - jj, kk, k, end)
    ensures forall p :: start <= p < jj ==> Key(index, rank, p, h) < x
    ensures forall p :: jj <= p < kk ==> Key(index, rank, p, h) == x
    ensures forall p :: kk <= p < end ==> Key(index, rank, p, h) > x
  {
    forall p | kk <= p < end ensures Key(index, rank, p, h) > x {
      NoneBelow(index, rank, h, x, start, jj, kk - jj, kk, k, end, p);
      if Key(index, rank, p, h) == x { Room(index, rank, h, x, 0, start, end, jj, kk, p); }
    }
  }

  method Tally(index: array<int>, rank: array<int>, start: int, end: int, h: nat, x: int)
    returns (below: int, equal: int)
    requires Keyed(index[..], rank[..], start, end, h)
    ensures below == Count(index[..], rank[..], h, x, -1, start, end)
    ensures equal == Count(index[..], rank[..], h, x, 0, start, end)
  {
    below, equal := 0, 0;
    var i := start;
    while i < end
      invariant start <= i <= end
      invariant below == Count(index[..], rank[..], h, x, -1, start, i)
      invariant equal == Count(index[..], rank[..], h, x, 0, start, i)
    {
      if rank[index[i] + h] < x { below := below + 1; }
      if rank[index[i] + h] == x { equal := equal + 1; }
      i := i + 1;
    }
  }

  /** The first swap loop: brings the keys below the pivot to the front, the others behind. */
  method PartitionFront(index: array<int>, rank: array<int>, start: int, jj: int, kk: int, end: int, h: nat, x: int)
    returns (j: int, k: int)
    requires index != rank && Keyed(index[..], rank[..], start, end, h)
    requires Parted(index[..], rank[..], h, x, start, start, jj, 0, kk, 0, end)
    modifies index
    ensures Shuffled(old(index[..]), index[..], start, end) && Keyed(index[..], rank[..], start, end, h)
    ensures Parted(index[..], rank[..], h, x, start, jj, jj, j, kk, k, end)
  {
    hide Shuffled, Parted, Bounds, Swapped;
    ghost var was, keys := index[..], rank[..];
    ghost var cur := was;
    j, k := 0, 0;
    var i := start;
    PartInPlace(cur, keys, h, x, start, i, jj, j, kk, k, end);
    ShuffledNot(was, start, end);
    while i < jj
      invariant start <= i <= jj && 0 <= j <= kk - jj && 0 <= k <= end - kk
      invariant index[..] == cur && rank[..] == keys && Keyed(cur, keys, start, end, h)
      invariant Parted(cur, keys, h, x, start, i, jj, j, kk, k, end)
      invariant Shuffled(was, cur, start, end)
      decreases (jj - i) + (kk - jj - j) + (end - kk - k)
    {
      PartInPlace(cur, keys, h, x, start, i, jj, j, kk, k, end);
      if rank[index[i] + h] < x {
        i := i + 1;
      } else if rank[index[i] + h] == x {
        PartEqual(cur, keys, h, x, start, i, jj, j, kk, k, end);
        SwapShuffles(was, cur, i, jj + j, start, end);
        Swap(index, i, jj + j);
        cur := index[..];
        j := j + 1;
      } else {
        PartAbove(cur, keys, h, x, start, i, jj, j, kk, k, end, i);
        SwapShuffles(was, cur, i, kk + k, start, end);
        Swap(index, i, kk + k);
        cur := index[..];
        k := k + 1;
      }
    }
  }

  /** In-place three-way partition of [start, start + len) by the key of its middle entry. */
  method Partition(index: array<int>, rank: array<int>, start: int, len: int, h: nat)
    returns (jj: int, kk: int, ghost pivot: int)
    requires index != rank && 0 < len && Keyed(index[..], rank[..], start, start + len, h)
    modifies index
    ensures Shuffled(old(index[..]), index[..], start, start + len)
    ensures start <= jj < kk <= start + len
    ensures Keyed(index[..], rank[..], start, start + len, h)
    ensures forall p :: start <= p < jj ==> Key(index[..], rank[..], p, h) < pivot
    ensures forall p :: jj <= p < kk ==> Key(index[..], rank[..], p, h) == pivot
    ensures forall p :: kk <= p < start + len ==> Key(index[..], rank[..], p, h) > pivot
  {
    hide Shuffled, Parted, Bounds, Swapped, Count, Side;
    ghost var was, end := index[..], start + len;
    var x := rank[index[start + len / 2] + h];
    jj, kk := Tally(index, rank, start, start + len, h, x);
    jj := jj + start;
    kk := kk + jj;
    PartStart(was, rank[..], h, x, start, jj, kk, end);

    var j, k := PartitionFront(index, rank, start, jj, kk, start + len, h, x);
    ghost var cur := index[..];
    PartitionMiddle(index, rank, jj, j, kk, k, h, x, start, end);
    ShuffledTwice(was, cur, index[..], start, end);
    pivot := x;
  }

  /** The second loop: sorts out what still lies between the equal keys and the third part. */
  method PartitionMiddle(index: array<int>, rank: array<int>, jj: int, j0: int, kk: int, k0: int, h: nat, x: int,
                         ghost start: int, ghost end: int)
    requires index != rank && Keyed(index[..], rank[..], start, end, h)
    requires Parted(index[..], rank[..], h, x, start, jj, jj, j0, kk, k0, end)
    modifies index
    ensures Shuffled(old(index[..]), index[..], start, end)
    ensures Keyed(index[..], rank[..], start, end, h)
    ensures forall p :: start <= p < jj ==> Key(index[..], rank[..], p, h) < x
    ensures forall p :: jj <= p < kk ==> Key(index[..], rank[..], p, h) == x
    ensures forall p :: kk <= p < end ==> Key(index[..], rank[..], p, h) > x
  {
    hide Shuffled, Parted, Bounds, Swapped;
    ghost var was, keys := index[..], rank[..];
    ghost var cur := was;
    var j, k := j0, k0;
    PartInPlace(cur, keys, h, x, start, jj, jj, j, kk, k, end);
    ShuffledNot(was, start, end);
    while jj + j < kk
      invariant 0 <= j <= kk - jj && 0 <= k <= end - kk
      invariant index[..] == cur && rank[..] == keys && Keyed(cur, keys, start, end, h)
      invariant Parted(cur, keys, h, x, start, jj, jj, j, kk, k, end)
      invariant Shuffled(was, cur, start, end)
      decreases (kk - jj - j) + (end - kk - k)
    {
      PartInPlace(cur, keys, h, x, start, jj, jj, j, kk, k, end);
      if rank[index[jj + j] + h] == x {
        j := j + 1;
      } else {
        NoneBelow(cur, keys, h, x, start, jj, j, kk, k, end, jj + j);
        PartAbove(cur, keys, h, x, start, jj, jj, j, kk, k, end, jj + j);
        SwapShuffles(was, cur, jj + j, kk + k, start, end);
        Swap(index, jj + j, kk + k);
        cur := index[..];
        k := k + 1;
      }
    }
    PartEnd(cur, keys, h, x, start, jj, kk, k, end);
  }

  /** Where the keys of a ready stretch place its suffixes: those at [from, mid) have the
      key least, those after it a greater one. */
  lemma FrontByKey(text: seq<byte>, s: Stage, from: int, mid: int, to: int, h: nat, least: int)
    requires Ready(text, s, from, to, h) && from < mid <= to
    requires Selected(s.index, s.rank, from, to, h, least, mid - from, to - from)
    ensures Ready(text, s, from, mid, h)
    ensures forall p, q :: from <= p < mid && from <= q < mid ==> Agree(text, s.order[p], s.order[q], 2 * h)
  {
    forall p, q | from <= p < mid && from <= q < to
      ensures q < mid ==> Agree(text, s.order[p], s.order[q], 2 * h)
      ensures q >= mid ==> Less(text, s.order[p], s.order[q])
    {
      KeysOrder(text, s, from, to, h, p, q);
    }
    ReadyFront(text, s, from, mid, to, h);
  }

  /** Where the keys place the three parts of a partitioned stretch. */
  lemma PartsByKey(text: seq<byte>, s: Stage, from: int, jj: int, kk: int, to: int, h: nat, pivot: int)
    requires Ready(text, s, from, to, h) && from <= jj < kk <= to
    requires forall p :: from <= p < jj ==> Key(s.index, s.rank, p, h) < pivot
    requires forall p :: jj <= p < kk ==> Key(s.index, s.rank, p, h) == pivot
    requires forall p :: kk <= p < to ==> Key(s.index, s.rank, p, h) > pivot
    ensures forall p, q :: from <= p < jj <= q < to ==> Less(text, s.order[p], s.order[q])
    ensures forall p, q :: jj <= p < kk <= q < to ==> Less(text, s.order[p], s.order[q])
    ensures forall p, q :: jj <= p < kk && jj <= q < kk ==> Agree(text, s.order[p], s.order[q], 2 * h)
  {
    forall p, q | from <= p < to && from <= q < to
      ensures p < jj <= q || jj <= p < kk <= q ==> Less(text, s.order[p], s.order[q])
      ensures jj <= p < kk && jj <= q < kk ==> Agree(text, s.order[p], s.order[q], 2 * h)
    {
      KeysOrder(text, s, from, to, h, p, q);
    }
  }

  /** The selection path for short stretches: closes off the suffixes with the least key,
      again and again. */
  method SplitBySelection(index: array<int>, rank: array<int>, start: int, len: int, h: nat, ghost text: seq<byte>,
                          ghost order: seq<int>)
    returns (ghost order': seq<int>)
    requires index != rank && index.Length == rank.Length
    requires Ready(text, Stage(index[..], rank[..], order), start, start + len, h)
    modifies index, rank
    ensures Done(text, old(Stage(index[..], rank[..], order)), Stage(index[..], rank[..], order'), start,
                 start + len, h)
  {
    hide Ready, Refined, Ranked, Rearranges, Keyed, Shuffled, Selected;
    ghost var was, end := Stage(index[..], rank[..], order), start + len;
    ghost var cur := was;
    var k := start;
    RefinedNothing(text, was, start, end, h);
    while k < start + len
      invariant start <= k <= end <= index.Length
      invariant cur.index == index[..] && cur.rank == rank[..]
      invariant Refined(text, was, cur, start, k, end, h)
      invariant k < end ==> Ready(text, cur, k, end, h)
    {
      ReadyKeyed(text, cur, k, end, h);
      ghost var least;
      var j;
      j, least := SelectLeast(index, rank, k, start + len, h);
      ghost var mid := ReadyMoved(text, cur, index[..], k, end, h);
      RefinedMoved(text, was, cur, mid, start, k, end, h);
      FrontByKey(text, mid, k, k + j, end, h, least);
      CloseGroup(index, rank, k, k + j, text, mid.order, h);
      cur := Stage(index[..], rank[..], mid.order);
      RefinedMore(text, was, mid, cur, start, k, k + j, end, h);
      if k + j < end { ReadyRest(text, mid, cur, k, k + j, end, h); }
      k := k + j;
    }
    order' := cur.order;
  }

  lemma RefinedNothing(text: seq<byte>, s: Stage, from: int, end: int, h: nat)
    requires Ready(text, s, from, end, h)
    ensures 0 <= from < end <= |s.index| && |s.rank| == |s.index|
    ensures Refined(text, s, s, from, from, end, h)
  {
  }

  /** split: regroups [start, start + len) by the ranks h further on. */
  method Split(index: array<int>, rank: array<int>, start: int, len: int, h: nat, ghost text: seq<byte>,
               ghost order: seq<int>)
    returns (ghost order': seq<int>)
    requires index != rank && index.Length == rank.Length
    requires Ready(text, Stage(index[..], rank[..], order), start, start + len, h)
    modifies index, rank
    ensures Done(text, old(Stage(index[..], rank[..], order)), Stage(index[..], rank[..], order'), start,
                 start + len, h)
    decreases len
  {
    hide Ready, Refined, Ranked, Rearranges, Keyed, Shuffled, Less, Agree;
    ghost var was, end := Stage(index[..], rank[..], order), start + len;
    if len < 16 {
      order' := SplitBySelection(index, rank, start, len, h, text, order);
      return;
    }
    RefinedNothing(text, was, start, end, h);
    ReadyKeyed(text, was, start, end, h);
    var jj, kk;
    ghost var pivot;
    jj, kk, pivot := Partition(index, rank, start, len, h);
    ghost var cur := ReadyMoved(text, was, index[..], start, end, h);
    RefinedMoved(text, was, was, cur, start, start, end, h);
    PartsByKey(text, cur, start, jj, kk, end, h, pivot);
    ghost var parted := cur;

    if jj > start {
      ReadyFront(text, cur, start, jj, end, h);
      ghost var order1 := Split(index, rank, start, jj - start, h, text, cur.order);
      ghost var next := Stage(index[..], rank[..], order1);
      RefinedMore(text, was, cur, next, start, start, jj, end, h);
      ReadyRest(text, cur, next, start, jj, end, h);
      DoneOutside(text, cur, next, start, jj, h);
      cur := next;
    }

    ReadyFront(text, cur, jj, kk, end, h);
    CloseGroup(index, rank, jj, kk, text, cur.order, h);
    ghost var closed := Stage(index[..], rank[..], cur.order);
    RefinedMore(text, was, cur, closed, start, jj, kk, end, h);
    order' := cur.order;

    if start + len > kk {
      ReadyRest(text, cur, closed, jj, kk, end, h);
      order' := Split(index, rank, kk, start + len - kk, h, text, closed.order);
      RefinedMore(text, was, closed, Stage(index[..], rank[..], order'), start, kk, end, end, h);
    }
  }
}
