/**
 The ranking that the suffix sort refines in place, as a relation between plain sequences.

 order[p] is the suffix at position p. rank[a] is the last position of the group of suffix a:
 a group is a run of positions whose suffixes the sort cannot tell apart yet. The array that
 the sort works on overwrites the entries of finished groups with run marks, so the order
 itself is a ghost value here.
*/
module SuffixRanks {
  import opened Basics
  import opened SuffixOrder

  ghost predicate Permutation(order: seq<int>, n: nat)
  {
    && |order| == n
    && (forall p :: 0 <= p < n ==> 0 <= order[p] < n)
    && (forall p, q :: 0 <= p < q < n ==> order[p] != order[q])
    && (forall a :: 0 <= a < n ==> a in order)
  }

  /** Position s opens a group. */
  ghost predicate Opens(rank: seq<int>, order: seq<int>, s: int)
    requires Permutation(order, |rank|) && 0 <= s <= |rank|
  {
    s == 0 || rank[order[s - 1]] == s - 1
  }

  /** Position p is a group of its own. */
  ghost predicate Single(rank: seq<int>, order: seq<int>, p: int)
    requires Permutation(order, |rank|) && 0 <= p < |rank|
  {
    Opens(rank, order, p) && rank[order[p]] == p
  }

  /** Groups are contiguous runs of positions and carry their last position as their number. */
  ghost predicate Grouped(rank: seq<int>, order: seq<int>)
  {
    && Permutation(order, |rank|)
    && (forall p :: 0 <= p < |rank| ==> p <= rank[order[p]] < |rank|)
    && (forall p, q :: 0 <= p <= q < |rank| && q <= rank[order[p]] ==> rank[order[q]] == rank[order[p]])
  }

  /** A lower rank means an earlier suffix. */
  ghost predicate RanksBySuffix(text: seq<byte>, rank: seq<int>)
  {
    forall a, b :: 0 <= a < |rank| && 0 <= b < |rank| && rank[a] < rank[b] ==> Less(text, a, b)
  }

  /** Suffixes in one group have the same first h symbols. */
  ghost predicate AgreesTo(text: seq<byte>, rank: seq<int>, h: nat)
  {
    forall a, b :: 0 <= a < |rank| && 0 <= b < |rank| && rank[a] == rank[b] ==> Agree(text, a, b, h)
  }

  ghost predicate Ranked(text: seq<byte>, rank: seq<int>, order: seq<int>, h: nat)
  {
    && |rank| == |text| + 1
    && Grouped(rank, order)
    && RanksBySuffix(text, rank)
    && AgreesTo(text, rank, h)
  }

  /** rank' gives positions [from, to) of a group that opens at from the number to - 1. */
  ghost predicate Splits(rank: seq<int>, rank': seq<int>, order: seq<int>, from: int, to: int)
  {
    && |rank'| == |rank|
    && Permutation(order, |rank|)
    && 0 <= from < to <= |rank|
    && (forall p :: from <= p < to ==> rank'[order[p]] == to - 1)
    && (forall p :: 0 <= p < |rank| && !(from <= p < to) ==> rank'[order[p]] == rank[order[p]])
  }

  lemma OpensSeparates(rank: seq<int>, order: seq<int>, s: int, p: int, q: int)
    requires Grouped(rank, order)
    requires 0 <= p < s <= q < |rank| && Opens(rank, order, s)
    ensures rank[order[p]] < s <= rank[order[q]]
  {
  }

  lemma SplitKeepsGrouped(rank: seq<int>, rank': seq<int>, order: seq<int>, from: int, to: int)
    requires Grouped(rank, order) && Splits(rank, rank', order, from, to)
    requires Opens(rank, order, from) && to <= rank[order[from]] + 1
    ensures Grouped(rank', order)
    ensures Opens(rank', order, from) && Opens(rank', order, to)
  {
    forall p | 0 <= p < |rank| ensures p <= rank'[order[p]] < |rank| {
    }
    forall p, q | 0 <= p <= q < |rank| && q <= rank'[order[p]]
      ensures rank'[order[q]] == rank'[order[p]]
    {
      if p < from { OpensSeparates(rank, order, from, p, from); }
    }
  }

  /** The new rank of a position, and where it stands towards the old ones. */
  lemma SplitRank(rank: seq<int>, rank': seq<int>, order: seq<int>, from: int, to: int, a: int) returns (p: int)
    requires Grouped(rank, order) && Splits(rank, rank', order, from, to)
    requires Opens(rank, order, from) && to <= rank[order[from]] + 1
    requires 0 <= a < |rank|
    ensures 0 <= p < |rank| && order[p] == a
    ensures rank'[a] == if from <= p < to then to - 1 else rank[a]
    ensures p < from ==> rank[a] < from
    ensures from <= p <= rank[order[from]] ==> rank[a] == rank[order[from]]
    ensures p > rank[order[from]] ==> rank[a] > rank[order[from]]
  {
    assert a in order;
    p :| 0 <= p < |rank| && order[p] == a;
    if p < from { OpensSeparates(rank, order, from, p, from); }
  }

  lemma SplitKeepsRanked(text: seq<byte>, rank: seq<int>, rank': seq<int>, order: seq<int>, h: nat, from: int, to: int)
    requires Ranked(text, rank, order, h) && Splits(rank, rank', order, from, to)
    requires Opens(rank, order, from) && to <= rank[order[from]] + 1
    requires forall p, q :: from <= p < to <= q <= rank[order[from]] ==> Less(text, order[p], order[q])
    ensures Ranked(text, rank', order, h)
    ensures Opens(rank', order, from) && Opens(rank', order, to)
  {
    SplitKeepsGrouped(rank, rank', order, from, to);
    forall a, b | 0 <= a < |rank| && 0 <= b < |rank|
      ensures rank'[a] < rank'[b] ==> Less(text, a, b)
      ensures rank'[a] == rank'[b] ==> Agree(text, a, b, h)
    {
      var p := SplitRank(rank, rank', order, from, to, a);
      var q := SplitRank(rank, rank', order, from, to, b);
    }
  }

  /** order' moves suffixes about inside positions [from, to) only. */
  ghost predicate Rearranges(order: seq<int>, order': seq<int>, from: int, to: int)
  {
    && 0 <= from <= to <= |order| == |order'|
    && Permutation(order, |order|) && Permutation(order', |order|)
    && (forall p :: 0 <= p < |order| && !(from <= p < to) ==> order'[p] == order[p])
  }

  /** What was in the moved range is still in it. */
  lemma RearrangedFrom(order: seq<int>, order': seq<int>, from: int, to: int, p: int) returns (q: int)
    requires Rearranges(order, order', from, to) && from <= p < to
    ensures from <= q < to && order'[p] == order[q]
  {
    assert order'[p] in order;
    q :| 0 <= q < |order| && order[q] == order'[p];
  }

  lemma RearrangeInGroup(text: seq<byte>, rank: seq<int>, order: seq<int>, order': seq<int>, h: nat, from: int, to: int)
    requires Ranked(text, rank, order, h) && Rearranges(order, order', from, to)
    requires forall p :: from <= p < to ==> rank[order[p]] == rank[order[from]]
    ensures Ranked(text, rank, order', h)
    ensures forall p :: 0 <= p < |rank| ==> rank[order'[p]] == rank[order[p]]
  {
    forall p | 0 <= p < |rank|
      ensures rank[order'[p]] == rank[order[p]]
    {
      if from <= p < to {
        var q := RearrangedFrom(order, order', from, to, p);
      }
    }
  }

  lemma SameElementsPermutation(order: seq<int>, order': seq<int>)
    requires Permutation(order, |order|)
    requires multiset(order') == multiset(order)
    ensures Permutation(order', |order|)
  {
    assert |order'| == |multiset(order')| && |order| == |multiset(order)|;
    forall a | 0 <= a < |order| ensures a in order' {
      assert a in order && a in multiset(order);
      assert a in multiset(order');
    }
    forall p | 0 <= p < |order'| ensures 0 <= order'[p] < |order| {
      assert order'[p] in multiset(order);
      assert order'[p] in order;
    }
    DistinctByCount(order, order');
  }

  /** Replacing a stretch of the order by a permutation of it gives an order again. */
  lemma SpliceRearranges(order: seq<int>, piece: seq<int>, from: int, to: int)
    requires Permutation(order, |order|) && 0 <= from <= to <= |order|
    requires multiset(piece) == multiset(order[from..to])
    ensures |piece| == to - from
    ensures Rearranges(order, order[..from] + piece + order[to..], from, to)
  {
    var order' := order[..from] + piece + order[to..];
    assert |piece| == |multiset(piece)| && |order[from..to]| == |multiset(order[from..to])|;
    assert order == order[..from] + order[from..to] + order[to..];
    assert multiset(order') == multiset(order);
    SameElementsPermutation(order, order');
  }

  lemma DistinctByCount(s: seq<int>, t: seq<int>)
    requires multiset(s) == multiset(t)
    requires forall p, q :: 0 <= p < q < |s| ==> s[p] != s[q]
    ensures forall p, q :: 0 <= p < q < |t| ==> t[p] != t[q]
  {
    forall p, q | 0 <= p < q < |t| ensures t[p] != t[q] {
      if t[p] == t[q] {
        assert t == t[..p] + [t[p]] + t[p + 1..q] + [t[q]] + t[q + 1..];
        assert multiset(t)[t[p]] >= 2;
        AtMostOnce(s, t[p]);
      }
    }
  }

  lemma {:induction false} AtMostOnce(s: seq<int>, x: int)
    requires forall p, q :: 0 <= p < q < |s| ==> s[p] != s[q]
    ensures multiset(s)[x] <= 1
  {
    if s != [] {
      assert s == [s[0]] + s[1..];
      AtMostOnce(s[1..], x);
      if s[0] == x { assert x !in s[1..]; }
    }
  }

  /** Keys h further on order the suffixes of one group, or extend their agreement to 2h. */
  lemma KeyOrders(text: seq<byte>, rank: seq<int>, order: seq<int>, h: nat, a: int, b: int)
    requires Ranked(text, rank, order, h)
    requires 0 <= a && 0 <= b && a + h < |rank| && b + h < |rank| && rank[a] == rank[b]
    ensures rank[a + h] < rank[b + h] ==> Less(text, a, b)
    ensures rank[a + h] == rank[b + h] ==> Agree(text, a, b, 2 * h)
  {
    assert Agree(text, a, b, h);
    if rank[a + h] < rank[b + h] {
      LessAfterAgree(text, a, b, h);
    } else if rank[a + h] == rank[b + h] {
      AgreeExtend(text, a, b, h, h);
      assert h + h == 2 * h;
    }
  }
}
