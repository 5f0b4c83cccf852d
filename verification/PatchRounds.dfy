/**
 What is known of single rounds of the builder.
*/
module PatchRounds {
  import opened Basics
  import opened SuffixRanks
  import opened SuffixSort
  import opened MatchSearch
  import opened PatchScan
  import opened PatchRecord
  import opened PatchBuild

  /** Byte q agrees at that offset. */
  ghost predicate Along(base: seq<byte>, target: seq<byte>, offset: int, q: int)
  {
    Same(base, q + offset, target, q)
  }

  lemma {:induction false} MatchesAlong(base: seq<byte>, target: seq<byte>, offset: int, q: int, n: nat)
    ensures (forall k :: q <= k < q + n ==> !Along(base, target, offset, k)) ==>
              Matches(base, q + offset, target, q, n) == 0
    ensures (forall k :: q <= k < q + n ==> Along(base, target, offset, k)) ==>
              Matches(base, q + offset, target, q, n) == n
  {
    if n > 0 {
      MatchesAlong(base, target, offset, q, n - 1);
      var k := q + n - 1;
      assert Along(base, target, offset, k) <==> Same(base, q + offset + n - 1, target, k);
    }
  }

  /** At the place where it starts, a scan looks at the match there alone. */
  lemma ScoreAtStart(base: seq<byte>, index: seq<int>, target: seq<byte>, s: int, offset: int)
    requires Permutation(index, |base| + 1) && 0 <= s < |target|
    ensures Score(base, index, target, s, s, offset)
         == Matches(base, s + offset, target, s, LenAt(base, index, target, s))
  {
    hide LenAt, Matches;
    assert Frontier(base, index, target, s, s - 1) == s;
  }

  /** If a round can stop where it starts, it does. */
  lemma StopsAtOnce(base: seq<byte>, order: seq<int>, target: seq<byte>, s: Scan, t: Scan, d: Division)
    requires IsSuffixArray(base, order) && Round(base, order, target, s, t, d)
    requires s.scan + s.len < |target|
    ensures Permutation(order, |base| + 1)
    ensures var from := s.scan + s.len;
            Stops(base, order, target, from, from, s.lastOffset) ==>
              && t.scan == from && t.pos <= |base|
              && t.len == LenAt(base, order, target, from) == CommonPrefix(base[t.pos..], target[from..])
              && if t.len != Score(base, order, target, from, from, s.lastOffset) then
                   |t.p.control| == |s.p.control| + 3 && t.lastOffset == t.pos - t.scan
                 else
                   t.p == s.p && t.lastOffset == s.lastOffset && t.lastScan == s.lastScan && t.lastPos == s.lastPos
  {
    hide IsSuffixArray, Stops, LenAt, Score, CommonPrefix, Divides;
    SuffixArrayPermutation(base, order);
  }

  lemma AtEnd(base: seq<byte>, order: seq<int>, target: seq<byte>, s: Scan, t: Scan, d: Division)
    requires IsSuffixArray(base, order) && Round(base, order, target, s, t, d)
    requires s.scan + s.len == |target|
    ensures t.scan == |target| && |t.p.control| == |s.p.control| + 3
  {
    hide IsSuffixArray, Stops, LenAt, Score, CommonPrefix, Divides;
    SuffixArrayPermutation(base, order);
  }

  lemma RunNotEmpty(base: seq<byte>, order: seq<int>, target: seq<byte>, run: seq<Scan>, cuts: seq<Division>)
    requires IsSuffixArray(base, order) && Rounds(base, order, target, run, cuts)
    ensures |run| > 0
  {
  }
}
