/**
 The measurements behind one patch record: how many bytes two stretches share, how far a match
 is worth extending either way, and where an overlap of the two is best cut.
*/
module PatchScan {
  import opened Basics
  import opened SuffixRanks
  import opened SuffixSort
  import opened MatchSearch

  /** Byte p of the old file is there and equals byte q of the new one. */
  predicate Same(base: seq<byte>, p: int, target: seq<byte>, q: int)
  {
    0 <= p < |base| && 0 <= q < |target| && base[p] == target[q]
  }

  /** How many of n consecutive bytes agree. */
  ghost function Matches(base: seq<byte>, p: int, target: seq<byte>, q: int, n: nat): (m: nat)
    ensures m <= n
  {
    if n == 0 then 0
    else Matches(base, p, target, q, n - 1) + if Same(base, p + n - 1, target, q + n - 1) then 1 else 0
  }

  lemma {:induction false} MatchesFront(base: seq<byte>, p: int, target: seq<byte>, q: int, n: nat)
    requires n > 0
    ensures Matches(base, p, target, q, n)
         == Matches(base, p + 1, target, q + 1, n - 1) + if Same(base, p, target, q) then 1 else 0
  {
    if n > 1 { MatchesFront(base, p, target, q, n - 1); }
  }

  lemma NoMatches(base: seq<byte>, p: int, target: seq<byte>, q: int)
    ensures Matches(base, p, target, q, 0) == 0
  {
  }

  /** What an extension, or a cut of an overlap, by i bytes is worth. An extension gains one for
      each agreeing byte and loses one for each other. A cut gives the first i bytes to the
      earlier record, which reads them from p on, rather than to the later one, from p2 on. */
  datatype Gain =
    | Forward(base: seq<byte>, p: int, target: seq<byte>, q: int)
    | Backward(base: seq<byte>, p: int, target: seq<byte>, q: int)
    | Cut(base: seq<byte>, p: int, p2: int, target: seq<byte>, q: int)
  {
    ghost function At(i: nat): int
    {
      match this
      case Forward(_, _, _, _) => 2 * Matches(base, p, target, q, i) - i
      case Backward(_, _, _, _) => 2 * Matches(base, p - i, target, q - i, i) - i
      case Cut(_, _, _, _, _) => Matches(base, p, target, q, i) - Matches(base, p2, target, q, i)
    }
  }

  /** k is the smallest of 0..max at which the gain is greatest. */
  ghost predicate FirstBest(gain: Gain, k: nat, max: nat)
  {
    && k <= max
    && (forall i: nat :: i <= max ==> gain.At(i) <= gain.At(k))
    && (forall i: nat :: i < k ==> gain.At(i) < gain.At(k))
  }

  lemma FirstBestNext(gain: Gain, k: nat, max: nat)
    ensures FirstBest(gain, 0, 0)
    ensures FirstBest(gain, k, max) ==>
              FirstBest(gain, if gain.At(max + 1) > gain.At(k) then max + 1 else k, max + 1)
  {
  }

  lemma {:induction false} MatchesSplit(base: seq<byte>, p: int, target: seq<byte>, q: int, a: nat, b: nat)
    ensures Matches(base, p, target, q, a + b)
         == Matches(base, p, target, q, a) + Matches(base, p + a, target, q + a, b)
    decreases b
  {
    if b > 0 { MatchesSplit(base, p, target, q, a, b - 1); }
  }

  /** Of the bytes from i up to k of an extension, counted from where it starts, more than half
      agree. */
  ghost predicate MostAgree(base: seq<byte>, p: int, target: seq<byte>, q: int, i: nat, k: nat)
    requires i <= k
  {
    2 * Matches(base, p + i, target, q + i, k - i) > k - i
  }

  ghost predicate MostAgreeBack(base: seq<byte>, p: int, target: seq<byte>, q: int, i: nat, k: nat)
    requires i <= k
  {
    2 * Matches(base, p - k, target, q - k, k - i) > k - i
  }

  /** An extension forward is the best one if and only if in every piece at its end most bytes agree,
      and in none of the pieces that follow it. */
  lemma ForwardPieces(base: seq<byte>, p: int, target: seq<byte>, q: int, k: nat, max: nat)
    requires k <= max
    ensures FirstBest(Forward(base, p, target, q), k, max) <==>
              && (forall i: nat :: i < k ==> MostAgree(base, p, target, q, i, k))
              && (forall i: nat :: k < i <= max ==> !MostAgree(base, p, target, q, k, i))
  {
    hide Matches;
    var gain := Forward(base, p, target, q);
    forall i: nat | i <= max
      ensures i <= k ==> (gain.At(i) < gain.At(k) <==> MostAgree(base, p, target, q, i, k))
      ensures k <= i ==> (gain.At(i) <= gain.At(k) <==> !MostAgree(base, p, target, q, k, i))
    {
      if i <= k { MatchesSplit(base, p, target, q, i, k - i); } else { MatchesSplit(base, p, target, q, k, i - k); }
    }
  }

  /** And so backward. */
  lemma BackwardPieces(base: seq<byte>, p: int, target: seq<byte>, q: int, k: nat, max: nat)
    requires k <= max
    ensures FirstBest(Backward(base, p, target, q), k, max) <==>
              && (forall i: nat :: i < k ==> MostAgreeBack(base, p, target, q, i, k))
              && (forall i: nat :: k < i <= max ==> !MostAgreeBack(base, p, target, q, k, i))
  {
    hide Matches;
    var gain := Backward(base, p, target, q);
    forall i: nat | i <= max
      ensures i <= k ==> (gain.At(i) < gain.At(k) <==> MostAgreeBack(base, p, target, q, i, k))
      ensures k <= i ==> (gain.At(i) <= gain.At(k) <==> !MostAgreeBack(base, p, target, q, k, i))
    {
      if i <= k {
        MatchesSplit(base, p - k, target, q - k, k - i, i);
      } else {
        MatchesSplit(base, p - i, target, q - i, i - k, k);
      }
    }
  }

  /** How many bytes of an overlap agree when the earlier record has the first i of them. */
  ghost function Agreeing(base: seq<byte>, p: int, p2: int, target: seq<byte>, q: int, overlap: nat, i: nat): nat
    requires i <= overlap
  {
    Matches(base, p, target, q, i) + Matches(base, p2 + i, target, q + i, overlap - i)
  }

  /** The best cut of an overlap is the first one with which most bytes agree. */
  lemma CutAgrees(base: seq<byte>, p: int, p2: int, target: seq<byte>, q: int, k: nat, overlap: nat)
    requires k <= overlap
    ensures FirstBest(Cut(base, p, p2, target, q), k, overlap) <==>
              && (forall i: nat :: i <= overlap ==>
                    Agreeing(base, p, p2, target, q, overlap, i) <= Agreeing(base, p, p2, target, q, overlap, k))
              && (forall i: nat :: i < k ==>
                    Agreeing(base, p, p2, target, q, overlap, i) < Agreeing(base, p, p2, target, q, overlap, k))
  {
    hide Matches;
    var gain := Cut(base, p, p2, target, q);
    forall i: nat | i <= overlap
      ensures Agreeing(base, p, p2, target, q, overlap, i) == gain.At(i) + Matches(base, p2, target, q, overlap)
    {
      MatchesSplit(base, p2, target, q, i, overlap - i);
    }
  }

  /** The forward extension of the previous match. */
  method ExtendForward(base: seq<byte>, target: seq<byte>, lastPos: nat, lastScan: nat, scan: nat) returns (lenf: nat)
    requires lastPos <= |base| && lastScan <= scan <= |target|
    ensures var max := if scan - lastScan <= |base| - lastPos then scan - lastScan else |base| - lastPos;
            FirstBest(Forward(base, lastPos, target, lastScan), lenf, max)
  {
    hide FirstBest;
    var s, best := 0, 0;
    lenf := 0;
    var i := 0;
    ghost var gain := Forward(base, lastPos, target, lastScan);
    FirstBestNext(gain, 0, 0);
    while lastScan + i < scan && lastPos + i < |base|
      invariant lastScan + i <= scan && lastPos + i <= |base|
      invariant s == Matches(base, lastPos, target, lastScan, i)
      invariant best == Matches(base, lastPos, target, lastScan, lenf)
      invariant FirstBest(gain, lenf, i)
    {
      FirstBestNext(gain, lenf, i);
      if base[lastPos + i] == target[lastScan + i] { s := s + 1; }
      i := i + 1;
      assert gain.At(i) == 2 * s - i && gain.At(lenf) == 2 * best - lenf;
      if s * 2 - i > best * 2 - lenf {
        best := s;
        lenf := i;
      }
    }
  }

  /** The backward extension of the match just found. */
  method ExtendBackward(base: seq<byte>, target: seq<byte>, pos: nat, lastScan: nat, scan: nat) returns (lenb: nat)
    requires pos <= |base| && lastScan <= scan <= |target|
    ensures var max := if scan - lastScan <= pos then scan - lastScan else pos;
            FirstBest(Backward(base, pos, target, scan), lenb, max)
  {
    hide FirstBest, Matches;
    NoMatches(base, pos, target, scan);
    var s, best := 0, 0;
    lenb := 0;
    var i := 1;
    ghost var gain := Backward(base, pos, target, scan);
    FirstBestNext(gain, 0, 0);
    while scan >= lastScan + i && pos >= i
      invariant 1 <= i <= scan - lastScan + 1 && i <= pos + 1
      invariant s == Matches(base, pos - (i - 1), target, scan - (i - 1), i - 1)
      invariant best == Matches(base, pos - lenb, target, scan - lenb, lenb)
      invariant FirstBest(gain, lenb, i - 1)
    {
      FirstBestNext(gain, lenb, i - 1);
      MatchesFront(base, pos - i, target, scan - i, i);
      if base[pos - i] == target[scan - i] { s := s + 1; }
      assert gain.At(i) == 2 * s - i && gain.At(lenb) == 2 * best - lenb;
      if s * 2 - i > best * 2 - lenb {
        best := s;
        lenb := i;
      }
      i := i + 1;
    }
  }

  /** Where to cut overlap bytes of the new file that both extensions claim: the earlier record
      reads them from p1 on in the old file, the later one from p2 on. */
  method CutOverlap(base: seq<byte>, target: seq<byte>, p1: nat, p2: nat, q: nat, overlap: nat) returns (lens: nat)
    requires p1 + overlap <= |base| && p2 + overlap <= |base| && q + overlap <= |target|
    ensures FirstBest(Cut(base, p1, p2, target, q), lens, overlap)
  {
    hide FirstBest;
    var s, best := 0, 0;
    lens := 0;
    var i := 0;
    ghost var gain := Cut(base, p1, p2, target, q);
    FirstBestNext(gain, 0, 0);
    while i < overlap
      invariant i <= overlap
      invariant s == gain.At(i)
      invariant best == gain.At(lens)
      invariant FirstBest(gain, lens, i)
    {
      FirstBestNext(gain, lens, i);
      if target[q + i] == base[p1 + i] { s := s + 1; }
      if target[q + i] == base[p2 + i] { s := s - 1; }
      assert gain.At(i + 1) == s && gain.At(lens) == best;
      if s > best {
        best := s;
        lens := i + 1;
      }
      i := i + 1;
    }
  }

  /** How long a match the search reports at position s of the new file. */
  ghost function LenAt(base: seq<byte>, index: seq<int>, target: seq<byte>, s: int): (len: nat)
    requires Permutation(index, |base| + 1) && 0 <= s < |target|
    ensures s + len <= |target|
  {
    MatchLen(base, index, target[s..])
  }

  /** How far the matches found at from..s reach. */
  ghost function Frontier(base: seq<byte>, index: seq<int>, target: seq<byte>, from: int, s: int): (f: int)
    requires Permutation(index, |base| + 1) && 0 <= from <= s + 1 && s < |target|
    ensures from <= f <= |target| && s <= f && (s >= from ==> s + LenAt(base, index, target, s) <= f)
    decreases s
  {
    if s < from then from
    else
      var before := Frontier(base, index, target, from, s - 1);
      var reach := s + LenAt(base, index, target, s);
      if before < reach then reach else before
  }

  /** How many of the bytes from s to the frontier would agree at the previous match's offset. */
  ghost function Score(base: seq<byte>, index: seq<int>, target: seq<byte>, from: int, s: int, offset: int): nat
    requires Permutation(index, |base| + 1) && 0 <= from <= s < |target|
  {
    Matches(base, s + offset, target, s, Frontier(base, index, target, from, s) - s)
  }

  /** The scan stops at s: the match there is no better than going on as before, or much better. */
  ghost predicate Stops(base: seq<byte>, index: seq<int>, target: seq<byte>, from: int, s: int, offset: int)
    requires Permutation(index, |base| + 1) && 0 <= from <= s < |target|
  {
    var len, score := LenAt(base, index, target, s), Score(base, index, target, from, s, offset);
    (len == score && len != 0) || len > score + 8
  }

  lemma UnmatchedByte(base: seq<byte>, index: seq<int>, target: seq<byte>, s: int, p: int)
    requires IsSuffixArray(base, index) && 0 <= s < |target| && LenAt(base, index, target, s) == 0
    ensures !Same(base, p, target, s)
  {
    SearchFindsFirstByte(base, index, target[s..]);
    assert target[s..][0] == target[s];
  }

  lemma SuffixArrayPermutation(base: seq<byte>, index: seq<int>)
    requires IsSuffixArray(base, index)
    ensures Permutation(index, |base| + 1)
  {
  }

  /** The inner counting loop: moves the frontier up to reach, counting agreeing bytes. */
  method CountOn(base: seq<byte>, target: seq<byte>, offset: int, ghost s: int, scsc0: int, reach: int, score0: int)
    returns (scsc: int, score: int)
    requires 0 <= s <= reach <= |target| && s + offset >= 0 && s - 1 <= scsc0 <= |target|
    requires scsc0 < s ==> 0 <= scsc0 && 0 <= scsc0 + offset && !Same(base, scsc0 + offset, target, scsc0)
    requires score0 == Matches(base, s + offset, target, s, if scsc0 < s then 0 else scsc0 - s)
    ensures scsc == if scsc0 < reach then reach else scsc0
    ensures score == Matches(base, s + offset, target, s, scsc - s)
  {
    scsc, score := scsc0, score0;
    while scsc < reach
      invariant scsc0 <= scsc <= (if scsc0 < reach then reach else scsc0)
      invariant score == Matches(base, s + offset, target, s, if scsc < s then 0 else scsc - s)
    {
      if scsc + offset < |base| && base[scsc + offset] == target[scsc] {
        score := score + 1;
      }
      scsc := scsc + 1;
    }
  }

  /** The bookkeeping of the scan at the top of its loop. The count may trail the scan by one
      byte, but only past a byte that does not agree. */
  ghost predicate Scanning(base: seq<byte>, index: seq<int>, target: seq<byte>, from: int, offset: int, scan: int,
                           scsc: int, score: int)
    requires Permutation(index, |base| + 1) && 0 <= from <= scan <= |target|
  {
    && from + offset >= 0
    && scsc == Frontier(base, index, target, from, scan - 1)
    && (scsc < scan ==> from < scan && !Same(base, scsc + offset, target, scsc))
    && score == Matches(base, scan + offset, target, scan, if scsc < scan then 0 else scsc - scan)
  }

  lemma ScanCounts(base: seq<byte>, index: seq<int>, target: seq<byte>, from: int, offset: int, scan: int, scsc: int,
                   score: int)
    requires Permutation(index, |base| + 1) && 0 <= from <= scan < |target|
    requires Scanning(base, index, target, from, offset, scan, scsc, score)
    ensures scan + offset >= 0 && scan - 1 <= scsc <= |target|
    ensures scsc < scan ==> 0 <= scsc && 0 <= scsc + offset && !Same(base, scsc + offset, target, scsc)
    ensures score == Matches(base, scan + offset, target, scan, if scsc < scan then 0 else scsc - scan)
    ensures var reach := scan + LenAt(base, index, target, scan);
            Frontier(base, index, target, from, scan) == if scsc < reach then reach else scsc
  {
  }

  lemma ScanMoves(base: seq<byte>, index: seq<int>, target: seq<byte>, from: int, offset: int, scan: int)
    requires IsSuffixArray(base, index) && Permutation(index, |base| + 1)
    requires 0 <= from <= scan < |target| && from + offset >= 0
    ensures var score := Score(base, index, target, from, scan, offset);
            Scanning(base, index, target, from, offset, scan + 1, Frontier(base, index, target, from, scan),
                     if Same(base, scan + offset, target, scan) then score - 1 else score)
  {
    hide IsSuffixArray, MatchLen, Permutation, LenAt, Frontier;
    var scsc := Frontier(base, index, target, from, scan);
    if scsc > scan {
      MatchesFront(base, scan + offset, target, scan, scsc - scan);
    } else {
      UnmatchedByte(base, index, target, scan, scan + offset);
    }
  }

  /** The first place from from on where the scan stops, or the end of the new file. */
  ghost predicate Next(base: seq<byte>, order: seq<int>, target: seq<byte>, from: int, offset: int, scan: int,
                       len: int, pos: int, score: int)
    requires IsSuffixArray(base, order)
  {
    SuffixArrayPermutation(base, order);
    && 0 <= from <= scan <= |target| && 0 <= pos <= |base| && 0 <= len
    && (forall k :: from <= k < scan ==> !Stops(base, order, target, from, k, offset))
    && (scan < |target| ==>
          && Stops(base, order, target, from, scan, offset)
          && len == LenAt(base, order, target, scan) == CommonPrefix(base[pos..], target[scan..])
          && score == Score(base, order, target, from, scan, offset))
  }

  /** The scan for the next place where a match is worth a look. When it reaches the end of the
      new file, len and pos are what the last search left. */
  method NextMatch(index: array<int>, base: seq<byte>, target: seq<byte>, from: int, offset: int, len0: nat, pos0: int)
    returns (scan: int, len: nat, pos: int, score: int)
    requires IsSuffixArray(base, index[..])
    requires 0 <= from <= |target| && from + offset >= 0 && 0 <= pos0 <= |base|
    ensures from <= scan <= |target| && 0 <= pos <= |base|
    ensures Next(base, index[..], target, from, offset, scan, len, pos, score)
    ensures scan < |target| ==> 0 < len <= |target| - scan && (len == score || len > score + 8 >= 8)
  {
    hide IsSuffixArray, CommonPrefix, Landing, Permutation, MatchLen, Scanning, Frontier, Matches;
    ghost var order := index[..];
    SuffixArrayPermutation(base, order);
    scan, len, pos, score := from, len0, pos0, 0;
    var scsc := scan;
    ScanStart(base, order, target, from, offset);
    while scan < |target|
      invariant from <= scan <= |target| && 0 <= pos <= |base|
      invariant Scanning(base, order, target, from, offset, scan, scsc, score)
      invariant forall s :: from <= s < scan ==> !Stops(base, order, target, from, s, offset)
    {
      len, pos := Search(index, base, target[scan..], 0, |base|);
      BestIsMatchLen(base, order, target[scan..], len, pos);
      ScanCounts(base, order, target, from, offset, scan, scsc, score);
      scsc, score := CountOn(base, target, offset, scan, scsc, scan + len, score);
      if (len == score && len != 0) || len > score + 8 {
        return;
      }
      ScanMoves(base, order, target, from, offset, scan);
      if scan + offset < |base| && base[scan + offset] == target[scan] {
        score := score - 1;
      }
      scan := scan + 1;
    }
  }

  lemma ScanStart(base: seq<byte>, index: seq<int>, target: seq<byte>, from: int, offset: int)
    requires Permutation(index, |base| + 1) && 0 <= from <= |target| && from + offset >= 0
    ensures Scanning(base, index, target, from, offset, from, from, 0)
  {
  }
}
