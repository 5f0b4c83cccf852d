/**
 The bucket pass of the suffix sort: a counting sort by first byte, which gives the ranking
 that the doubling phases start from.
*/
module SuffixBuckets {
  import opened Basics
  import opened SuffixOrder
  import opened SuffixRanks

  /** How many of the first m bytes are equal to c. */
  ghost function CountOf(text: seq<byte>, m: nat, c: int): (n: nat)
    requires m <= |text|
    ensures n <= m
  {
    if m == 0 then 0 else CountOf(text, m - 1, c) + if text[m - 1] == c then 1 else 0
  }

  /** How many of the first m bytes are below c. */
  ghost function CountBelow(text: seq<byte>, m: nat, c: int): (n: nat)
    requires m <= |text|
    ensures n <= m
  {
    if m == 0 then 0 else CountBelow(text, m - 1, c) + if text[m - 1] < c then 1 else 0
  }

  lemma {:induction false} BelowNext(text: seq<byte>, m: nat, c: int)
    requires m <= |text|
    ensures CountBelow(text, m, c + 1) == CountBelow(text, m, c) + CountOf(text, m, c)
  {
    if m > 0 { BelowNext(text, m - 1, c); }
  }

  lemma {:induction false} BelowMonotone(text: seq<byte>, m: nat, c: int, d: int)
    requires m <= |text| && c <= d
    ensures CountBelow(text, m, c) <= CountBelow(text, m, d)
  {
    if m > 0 { BelowMonotone(text, m - 1, c, d); }
  }

  lemma {:induction false} BelowEnds(text: seq<byte>, m: nat)
    requires m <= |text|
    ensures CountBelow(text, m, 0) == 0 && CountBelow(text, m, 256) == m
  {
    if m > 0 { BelowEnds(text, m - 1); }
  }

  lemma {:induction false} CountMonotone(text: seq<byte>, m: nat, k: nat, c: int)
    requires m <= k <= |text|
    ensures CountOf(text, m, c) <= CountOf(text, k, c)
  {
    if m < k { CountMonotone(text, m, k - 1, c); }
  }

  /** The position at which the bucket pass puts suffix a. */
  ghost function Slot(text: seq<byte>, a: nat): nat
    requires a < |text|
  {
    CountBelow(text, |text|, text[a]) + CountOf(text, a + 1, text[a])
  }

  /** The last position of the bucket of byte c. */
  ghost function BucketEnd(text: seq<byte>, c: int): nat
  {
    CountBelow(text, |text|, c + 1)
  }

  lemma SlotInBucket(text: seq<byte>, a: nat)
    requires a < |text|
    ensures BucketEnd(text, text[a] as int - 1) < Slot(text, a) <= BucketEnd(text, text[a]) <= |text|
  {
    BelowNext(text, |text|, text[a]);
    CountMonotone(text, a + 1, |text|, text[a]);
  }

  lemma SlotsApart(text: seq<byte>, a: nat, b: nat)
    requires a < |text| && b < |text|
    ensures text[a] < text[b] ==>
              BucketEnd(text, text[a]) < Slot(text, b) && BucketEnd(text, text[a]) < BucketEnd(text, text[b])
    ensures a != b ==> Slot(text, a) != Slot(text, b)
  {
    SlotInBucket(text, a);
    SlotInBucket(text, b);
    if text[a] < text[b] {
      BelowMonotone(text, |text|, text[a] as int + 1, text[b]);
    } else if text[b] < text[a] {
      BelowMonotone(text, |text|, text[b] as int + 1, text[a]);
    } else if a < b {
      CountMonotone(text, a + 1, b, text[a]);
    } else if b < a {
      CountMonotone(text, b + 1, a, text[b]);
    }
  }

  ghost function UpTo(n: nat): (s: set<int>)
    ensures forall a :: a in s <==> 0 <= a < n
    ensures |s| == n
  {
    if n == 0 then {} else UpTo(n - 1) + {n - 1}
  }

  ghost function Elements(s: seq<int>): (e: set<int>)
    ensures forall a :: a in e <==> a in s
    ensures |e| <= |s|
    ensures |e| == |s| ==> forall p, q :: 0 <= p < q < |s| ==> s[p] != s[q]
  {
    if s == [] then {} else
    var rest := Elements(s[1..]);
    assert s == [s[0]] + s[1..];
    assert |{s[0]} + rest| <= 1 + |rest|;
    assert s[0] in rest ==> {s[0]} + rest == rest;
    {s[0]} + rest
  }

  /** A sequence as long as a range and covering it is a permutation of it. */
  lemma CoveringIsPermutation(s: seq<int>)
    requires forall a :: 0 <= a < |s| ==> a in s
    ensures Permutation(s, |s|)
  {
    var all, e := UpTo(|s|), Elements(s);
    SameSizeSubset(all, e);
    assert forall p :: 0 <= p < |s| ==> s[p] in e;
  }

  lemma SameSizeSubset(a: set<int>, b: set<int>)
    requires a <= b && |b| <= |a|
    ensures a == b
  {
    assert b == a + (b - a);
  }

  /** What the bucket pass leaves behind: suffixes at their slots, ranked by bucket. */
  ghost predicate Bucketed(text: seq<byte>, rank: seq<int>, order: seq<int>)
  {
    && |rank| == |text| + 1 == |order|
    && order[0] == |text| && rank[|text|] == 0
    && (forall a :: 0 <= a < |text| ==> Slot(text, a) <= |text| && order[Slot(text, a)] == a)
    && (forall a :: 0 <= a < |text| ==> rank[a] == BucketEnd(text, text[a]))
  }

  lemma BucketedPermutation(text: seq<byte>, rank: seq<int>, order: seq<int>)
    requires Bucketed(text, rank, order)
    ensures Permutation(order, |rank|)
    ensures forall p :: 0 < p < |rank| ==> order[p] < |text| && Slot(text, order[p]) == p
  {
    forall a | 0 <= a < |order| ensures a in order {
      if a < |text| { assert order[Slot(text, a)] == a; } else { assert order[0] == a; }
    }
    CoveringIsPermutation(order);
    forall p | 0 < p < |rank| ensures order[p] < |text| && Slot(text, order[p]) == p {
      var a := order[p];
      if a < |text| { SlotInBucket(text, a); assert order[Slot(text, a)] == a; }
    }
  }

  lemma BucketedIsRanked(text: seq<byte>, rank: seq<int>, order: seq<int>)
    requires Bucketed(text, rank, order)
    ensures Ranked(text, rank, order, 1)
  {
    BucketedPermutation(text, rank, order);
    forall p | 0 <= p < |rank| ensures p <= rank[order[p]] < |rank| {
      if p > 0 { SlotInBucket(text, order[p]); }
    }
    forall p, q | 0 <= p <= q < |rank| && q <= rank[order[p]]
      ensures rank[order[q]] == rank[order[p]]
    {
      if p > 0 {
        SlotInBucket(text, order[p]);
        SlotInBucket(text, order[q]);
        SlotsApart(text, order[p], order[q]);
        SlotsApart(text, order[q], order[p]);
      }
    }
    forall a, b | 0 <= a < |rank| && 0 <= b < |rank|
      ensures rank[a] < rank[b] ==> Less(text, a, b)
      ensures rank[a] == rank[b] ==> Agree(text, a, b, 1)
    {
      if a < |text| && b < |text| {
        SlotsApart(text, a, b);
        SlotsApart(text, b, a);
        assert Sym(text, a) == 1 + text[a] as int && Sym(text, b) == 1 + text[b] as int;
      } else {
        if a < |text| { SlotInBucket(text, a); }
        if b < |text| { SlotInBucket(text, b); }
      }
      assert Agree(text, a + 1, b + 1, 0);
    }
  }

  /** Fills buckets with the number of bytes below each byte value. */
  method CountBytes(text: seq<byte>) returns (buckets: array<int>)
    ensures buckets.Length == 256 && fresh(buckets)
    ensures forall c :: 0 <= c < 256 ==> buckets[c] == CountBelow(text, |text|, c)
  {
    buckets := new int[256](_ => 0);
    CountEach(buckets, text);
    AddUp(buckets, text);
    ShiftUp(buckets, text);
  }

  method CountEach(buckets: array<int>, text: seq<byte>)
    requires buckets.Length == 256 && forall c :: 0 <= c < 256 ==> buckets[c] == 0
    modifies buckets
    ensures forall c :: 0 <= c < 256 ==> buckets[c] == CountOf(text, |text|, c)
  {
    var i := 0;
    while i < |text|
      invariant 0 <= i <= |text|
      invariant forall c :: 0 <= c < 256 ==> buckets[c] == CountOf(text, i, c)
    {
      buckets[text[i]] := buckets[text[i]] + 1;
      i := i + 1;
    }
  }

  method AddUp(buckets: array<int>, ghost text: seq<byte>)
    requires buckets.Length == 256 && forall c :: 0 <= c < 256 ==> buckets[c] == CountOf(text, |text|, c)
    modifies buckets
    ensures forall c :: 0 <= c < 256 ==> buckets[c] == CountBelow(text, |text|, c + 1)
  {
    hide CountOf, CountBelow;
    var i := 1;
    BelowEnds(text, |text|);
    BelowNext(text, |text|, 0);
    while i < 256
      invariant 1 <= i <= 256
      invariant forall c :: 0 <= c < i ==> buckets[c] == CountBelow(text, |text|, c + 1)
      invariant forall c :: i <= c < 256 ==> buckets[c] == CountOf(text, |text|, c)
    {
      BelowNext(text, |text|, i);
      buckets[i] := buckets[i] + buckets[i - 1];
      i := i + 1;
    }
  }

  method ShiftUp(buckets: array<int>, ghost text: seq<byte>)
    requires buckets.Length == 256 && forall c :: 0 <= c < 256 ==> buckets[c] == CountBelow(text, |text|, c + 1)
    modifies buckets
    ensures forall c :: 0 <= c < 256 ==> buckets[c] == CountBelow(text, |text|, c)
  {
    hide CountOf, CountBelow;
    var i := 255;
    while i > 0
      invariant 0 <= i <= 255
      invariant forall c :: 0 <= c <= i ==> buckets[c] == CountBelow(text, |text|, c + 1)
      invariant forall c :: i < c < 256 ==> buckets[c] == CountBelow(text, |text|, c)
    {
      buckets[i] := buckets[i - 1];
      i := i - 1;
    }
    buckets[0] := 0;
    BelowEnds(text, |text|);
  }

  /** Where the bucket pass puts its marks: the empty suffix, and every bucket of one suffix
      except that of byte 0, which the marking loop does not look at. */
  ghost predicate BucketMarks(text: seq<byte>, index: seq<int>, rank: seq<int>, order: seq<int>, c: int)
    requires |index| == |rank| && Permutation(order, |rank|) && |rank| == |text| + 1
  {
    forall p :: 0 <= p < |index| ==>
      index[p] == if order[p] < |text| && 0 < text[order[p]] < c && Single(rank, order, p) then -1 else order[p]
  }

  lemma BucketSingle(text: seq<byte>, rank: seq<int>, order: seq<int>, c: int)
    requires Bucketed(text, rank, order) && Permutation(order, |rank|) && 0 < c < 256
    ensures BucketEnd(text, c - 1) <= BucketEnd(text, c) <= |text|
    ensures BucketEnd(text, c) == BucketEnd(text, c - 1) + 1 ==>
              order[BucketEnd(text, c)] < |text| && text[order[BucketEnd(text, c)]] == c
              && Single(rank, order, BucketEnd(text, c))
    ensures forall p :: 0 <= p <= |text| && order[p] < |text| && text[order[p]] == c && Single(rank, order, p) ==>
              p == BucketEnd(text, c) == BucketEnd(text, c - 1) + 1
  {
    BucketedPermutation(text, rank, order);
    BelowMonotone(text, |text|, c, c + 1);
    var e := BucketEnd(text, c);
    if e == BucketEnd(text, c - 1) + 1 {
      SlotByte(text, order[e], e, c);
      if e > 1 {
        var b := order[e - 1];
        SlotInBucket(text, b);
        if text[b] >= c { BelowMonotone(text, |text|, c + 1, text[b] as int + 1); SlotsApart(text, order[e], b); }
        BelowMonotone(text, |text|, text[b] as int + 1, c);
      }
    }
    forall p | 0 <= p <= |text| && order[p] < |text| && text[order[p]] == c && Single(rank, order, p)
      ensures p == BucketEnd(text, c) == BucketEnd(text, c - 1) + 1
    {
      SlotInBucket(text, order[p]);
      if p - 1 > BucketEnd(text, c - 1) {
        SlotByte(text, order[p - 1], p - 1, c);
      }
    }
  }

  /** A slot inside the bucket of c belongs to a suffix that starts with c. */
  lemma SlotByte(text: seq<byte>, a: nat, p: nat, c: int)
    requires a < |text| && Slot(text, a) == p && BucketEnd(text, c - 1) < p <= BucketEnd(text, c)
    ensures text[a] == c
  {
    SlotInBucket(text, a);
    if text[a] < c { BelowMonotone(text, |text|, text[a] as int + 1, c); }
    if text[a] > c { BelowMonotone(text, |text|, c + 1, text[a]); }
  }
}
