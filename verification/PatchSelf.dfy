/**
 The patch of a file against itself: one record, with nothing in it but zeros.
*/
module PatchSelf {
  import opened Basics
  import opened SuffixRanks
  import opened SuffixSort
  import opened MatchSearch
  import opened PatchScan
  import opened PatchFormat
  import opened PatchRecord
  import opened PatchBuild
  import opened PatchRounds

  lemma AllAlong(file: seq<byte>, q: nat, n: nat)
    requires q + n <= |file|
    ensures Matches(file, q, file, q, n) == n
  {
    forall k | q <= k < q + n ensures Along(file, file, 0, k) {
    }
    MatchesAlong(file, file, 0, q, n);
  }

  /** Whatever match is found, going on in place is as good. */
  lemma GoesOn(file: seq<byte>, order: seq<int>, from: nat)
    requires IsSuffixArray(file, order) && from < |file|
    ensures Permutation(order, |file| + 1)
    ensures Score(file, order, file, from, from, 0) == LenAt(file, order, file, from) > 0
  {
    hide IsSuffixArray, Matches, Score, MatchLen;
    SuffixArrayPermutation(file, order);
    ScoreAtStart(file, order, file, from, 0);
    AllAlong(file, from, LenAt(file, order, file, from));
    if LenAt(file, order, file, from) == 0 {
      UnmatchedByte(file, order, file, from, from);
      assert false;
    }
  }

  /** No record so far. */
  ghost predicate Fresh(s: Scan, size: nat)
  {
    && s.p == Patch([], [], [], size) && s.lastScan == 0 && s.lastPos == 0 && s.lastOffset == 0
    && s.scan + s.len <= size
  }

  lemma RoundInside(file: seq<byte>, order: seq<int>, s: Scan, t: Scan, d: Division)
    requires IsSuffixArray(file, order) && Round(file, order, file, s, t, d) && Fresh(s, |file|)
    requires s.scan + s.len < |file|
    ensures Fresh(t, |file|) && t.scan == s.scan + s.len && t.len > 0
  {
    hide IsSuffixArray, Score, LenAt, CommonPrefix, Round;
    GoesOn(file, order, s.scan + s.len);
    StopsAtOnce(file, order, file, s, t, d);
    assert Stops(file, order, file, s.scan + s.len, s.scan + s.len, 0);
  }

  lemma {:induction false} StaysFresh(file: seq<byte>, order: seq<int>, run: seq<Scan>, cuts: seq<Division>, k: nat)
    requires IsSuffixArray(file, order) && Rounds(file, order, file, run, cuts)
    requires k < |run| && run[k].scan < |file|
    ensures Fresh(run[k], |file|) && (k > 0 ==> run[k].len > 0)
  {
    hide IsSuffixArray, Round;
    if k > 0 {
      StaysFresh(file, order, run, cuts, k - 1);
      LastRound(file, order, run[k - 1], run[k], cuts[k - 1]);
      RoundInside(file, order, run[k - 1], run[k], cuts[k - 1]);
    }
  }

  lemma LastRound(file: seq<byte>, order: seq<int>, s: Scan, t: Scan, d: Division)
    requires IsSuffixArray(file, order) && Round(file, order, file, s, t, d)
    ensures s.scan + s.len <= t.scan <= |file|
  {
  }

  /** The whole file is the best extension. */
  lemma WholeFile(file: seq<byte>, f: nat)
    requires FirstBest(Forward(file, 0, file, 0), f, |file|)
    ensures f == |file|
  {
    hide Matches;
    AllAlong(file, 0, f);
    AllAlong(file, 0, |file|);
    var gain := Forward(file, 0, file, 0);
    assert gain.At(|file|) <= gain.At(f);
  }

  lemma WholeDivision(file: seq<byte>, pos: nat, lenf: int, lenb: int, f0: nat, b0: nat, cut: nat)
    requires pos <= |file| && Divides(file, file, 0, 0, |file|, pos, lenf, lenb, f0, b0, cut)
    ensures lenf == |file| && lenb == 0
  {
    hide FirstBest;
    WholeFile(file, f0);
  }

  lemma Zeros(file: seq<byte>)
    ensures SubBytes(file, 0, file) == seq(|file|, _ => 0)
  {
  }

  /** Every run of the builder on a file and itself ends with that one record. */
  lemma SelfPatch(file: seq<byte>, order: seq<int>, run: seq<Scan>, cuts: seq<Division>)
    requires IsSuffixArray(file, order) && Rounds(file, order, file, run, cuts) && file != []
    requires run[|run| - 1].scan == |file|
    ensures var p := run[|run| - 1].p;
            && |p.control| == 3 && p.control[0] == |file| && p.control[1] == 0
            && p.diff == seq(|file|, _ => 0) && p.extra == [] && p.newSize == |file|
  {
    hide IsSuffixArray, Round, Divides, SubBytes;
    var m := |run| - 1;
    var s, t, d := run[m - 1], run[m], cuts[m - 1];
    StaysFresh(file, order, run, cuts, m - 1);
    LastRecord(file, order, s, t, d);
    WholeDivision(file, t.pos, d.lenf, d.lenb, d.f0, d.b0, d.cut);
    Zeros(file);
    assert file[0..|file|] == file;
  }

  lemma LastRecord(file: seq<byte>, order: seq<int>, s: Scan, t: Scan, d: Division)
    requires IsSuffixArray(file, order) && Round(file, order, file, s, t, d) && t.scan == |file|
    requires Fresh(s, |file|)
    ensures Divides(file, file, 0, 0, |file|, t.pos, d.lenf, d.lenb, d.f0, d.b0, d.cut)
    ensures d.lenf <= |file| && d.lenf <= |file| - d.lenb && t.pos <= |file|
    ensures t.p == WithRecord(file, file, s.p, 0, 0, |file|, t.pos, d.lenf, d.lenb)
  {
    hide IsSuffixArray, Score, LenAt, CommonPrefix, Divides, WithRecord;
  }

  /** And so does the builder. */
  method BuildSelf(file: seq<byte>) returns (patchFile: seq<byte>, ghost p: Patch)
    requires 0 < |file| < INT32_LIMIT
    ensures patchFile == PatchBytes(p) && |patchFile| == 28 + |file|
    ensures |p.control| == 3 && p.control[0] == |file| && p.control[1] == 0
    ensures p.diff == seq(|file|, _ => 0) && p.extra == [] && p.newSize == |file|
  {
    hide IsSuffixArray, Rounds, Int32sBytes, LengthsInRange, Patched, RunFits;
    var patch := new OutputStream();
    ghost var order, run, cuts;
    p, order, run, cuts := Build(file, file, patch);
    patchFile := patch.data;
    RunNotEmpty(file, order, file, run, cuts);
    SelfPatch(file, order, run, cuts);
  }
}
