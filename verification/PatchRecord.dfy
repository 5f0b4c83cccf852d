/**
 One record of a patch: how the stretch up to the next match is divided into bytes like the old
 ones and extra bytes, and what replaying the record does.
*/
module PatchRecord {
  import opened Basics
  import opened PatchScan
  import opened PatchFormat
  import opened PatchApply

  /** Every one of the first k triples is carried out in full, and the place in the old file that it
      leads to is a 32-bit number. */
  ghost predicate Smooth(base: seq<byte>, p: Patch, k: nat)
    requires LengthsInRange(p) && k <= |p.control| / 3
  {
    k == 0 ||
    (Smooth(base, p, k - 1) &&
     var s := Run(base, p, k - 1);
     && s.Replay? && |s.out| < p.newSize
     && |s.out| + p.control[3 * (k - 1)] + p.control[3 * (k - 1) + 1] <= p.newSize
     && s.diffPos + p.control[3 * (k - 1)] <= |p.diff|
     && s.extraPos + p.control[3 * (k - 1) + 1] <= |p.extra|
     && FitsInt32(s.oldPos + p.control[3 * (k - 1)])
     && FitsInt32(s.oldPos + p.control[3 * (k - 1)] + p.control[3 * (k - 1) + 2]))
  }

  ghost predicate Extends(p: Patch, p': Patch)
  {
    p.control <= p'.control && p.diff <= p'.diff && p.extra <= p'.extra && p.newSize == p'.newSize
  }

  lemma StepExtends(base: seq<byte>, p: Patch, p': Patch, s: Replay, d: nat, e: nat, seek: int)
    requires s.Replay? && Extends(p, p')
    requires |s.out| + d + e <= p.newSize && s.diffPos + d <= |p.diff| && s.extraPos + e <= |p.extra|
    ensures Step(base, p', s, d, e, seek) == Step(base, p, s, d, e, seek)
  {
    assert p'.diff[s.diffPos..s.diffPos + d] == p.diff[s.diffPos..s.diffPos + d];
    assert p'.extra[s.extraPos..s.extraPos + e] == p.extra[s.extraPos..s.extraPos + e];
  }

  lemma {:induction false} SmoothExtends(base: seq<byte>, p: Patch, p': Patch, k: nat)
    requires LengthsInRange(p) && LengthsInRange(p') && k <= |p.control| / 3
    requires Extends(p, p') && Smooth(base, p, k)
    ensures k <= |p'.control| / 3 && Smooth(base, p', k) && Run(base, p', k) == Run(base, p, k)
  {
    hide Step;
    if k > 0 {
      SmoothExtends(base, p, p', k - 1);
      var s := Run(base, p, k - 1);
      StepExtends(base, p, p', s, p.control[3 * (k - 1)], p.control[3 * (k - 1) + 1], p.control[3 * (k - 1) + 2]);
    }
  }

  lemma {:induction false} SmoothFront(base: seq<byte>, p: Patch, k: nat, m: nat)
    requires LengthsInRange(p) && k <= m <= |p.control| / 3 && Smooth(base, p, m)
    ensures Smooth(base, p, k)
    decreases m - k
  {
    if k < m { SmoothFront(base, p, k, m - 1); }
  }

  /** Replaying triples that are carried out in full never leaves the 32-bit numbers. */
  lemma SmoothFits(base: seq<byte>, p: Patch)
    requires LengthsInRange(p) && Smooth(base, p, |p.control| / 3)
    requires p.newSize < INT32_LIMIT && |p.diff| < INT32_LIMIT && |p.extra| < INT32_LIMIT
    ensures RunFits(base, p)
  {
    hide Run, LengthsInRange;
    forall k | 0 <= k < |p.control| / 3 && Run(base, p, k).Replay? && |Run(base, p, k).out| < p.newSize
      ensures p.control[3 * k] >= 0 && p.control[3 * k + 1] >= 0
      ensures StepFits(p, Run(base, p, k), p.control[3 * k], p.control[3 * k + 1], p.control[3 * k + 2])
    {
      RunNext(base, p, k);
      SmoothFront(base, p, k + 1, |p.control| / 3);
    }
  }

  /** The patch so far reproduces the new file up to lastScan and leaves the old position at
      lastPos, using up all diff and extra bytes. */
  ghost predicate Covers(base: seq<byte>, target: seq<byte>, p: Patch, lastScan: int, lastPos: int)
  {
    && p.newSize == |target| && 0 <= lastScan <= |target|
    && |p.control| % 3 == 0 && LengthsInRange(p)
    && (forall i :: 0 <= i < |p.control| ==> FitsInt32(p.control[i]))
    && Smooth(base, p, |p.control| / 3)
    && Run(base, p, |p.control| / 3) == Replay(target[..lastScan], lastPos, |p.diff|, |p.extra|)
    && |p.diff| + |p.extra| == lastScan
  }

  /** The differences of the new bytes to the old ones, modulo 256. */
  function SubBytes(base: seq<byte>, oldPos: nat, part: seq<byte>): (r: seq<byte>)
    requires oldPos + |part| <= |base|
    ensures |r| == |part|
  {
    seq(|part|, i requires 0 <= i < |part| => (part[i] as int - base[oldPos + i] as int) % 256)
  }

  /** Adding undoes subtracting, wrap-around included. */
  lemma AddUndoesSub(base: seq<byte>, oldPos: nat, part: seq<byte>)
    requires oldPos + |part| <= |base|
    ensures AddBytes(base, oldPos, SubBytes(base, oldPos, part)) == part
  {
    var sum := AddBytes(base, oldPos, SubBytes(base, oldPos, part));
    forall i | 0 <= i < |part| ensures sum[i] == part[i] {
      var x, y := part[i] as int, base[oldPos + i] as int;
      assert ((x - y) % 256 + y) % 256 == x;
    }
  }

  /** The stretch from lastScan to a match at scan is divided as the gains say: f0 and b0 are the
      best extensions, and where they overlap the best cut decides. */
  ghost predicate Divides(base: seq<byte>, target: seq<byte>, lastPos: nat, lastScan: nat, scan: nat, pos: nat,
                          lenf: int, lenb: int, f0: nat, b0: nat, cut: nat)
    requires lastPos <= |base| && lastScan <= scan <= |target| && pos <= |base|
  {
    var overlap := lastScan + f0 - (scan - b0);
    && FirstBest(Forward(base, lastPos, target, lastScan), f0, Min(scan - lastScan, |base| - lastPos))
    && (if scan < |target| then FirstBest(Backward(base, pos, target, scan), b0, Min(scan - lastScan, pos))
        else b0 == 0)
    && (if overlap > 0 then
          && FirstBest(Cut(base, lastPos + f0 - overlap, pos - b0, target, scan - b0), cut, overlap)
          && lenf == f0 + cut - overlap && lenb == b0 - cut
        else
          lenf == f0 && lenb == b0)
  }

  /** The two parts never overlap and stay inside both files. */
  lemma DividedFits(base: seq<byte>, target: seq<byte>, lastPos: nat, lastScan: nat, scan: nat, pos: nat,
                    lenf: int, lenb: int, f0: nat, b0: nat, cut: nat)
    requires lastPos <= |base| && lastScan <= scan <= |target| && pos <= |base|
    requires Divides(base, target, lastPos, lastScan, scan, pos, lenf, lenb, f0, b0, cut)
    ensures 0 <= lenf <= |base| - lastPos && 0 <= lenb <= pos
    ensures lastScan + lenf <= scan - lenb
    ensures lastScan + f0 > scan - b0 ==> lastScan + lenf == scan - lenb
  {
  }

  method Divide(base: seq<byte>, target: seq<byte>, lastPos: nat, lastScan: nat, scan: nat, pos: nat)
    returns (lenf: int, lenb: int, ghost f0: nat, ghost b0: nat, ghost cut: nat)
    requires lastPos <= |base| && lastScan <= scan <= |target| && pos <= |base|
    ensures Divides(base, target, lastPos, lastScan, scan, pos, lenf, lenb, f0, b0, cut)
    ensures 0 <= lenf <= |base| - lastPos && 0 <= lenb <= pos && lastScan + lenf <= scan - lenb
  {
    hide Matches, Gain.At;
    lenf := ExtendForward(base, target, lastPos, lastScan, scan);
    lenb := 0;
    if scan < |target| {
      lenb := ExtendBackward(base, target, pos, lastScan, scan);
    }
    f0, b0, cut := lenf, lenb, 0;
    if lastScan + lenf > scan - lenb {
      var overlap := lastScan + lenf - (scan - lenb);
      var lens := CutOverlap(base, target, lastPos + lenf - overlap, pos - lenb, scan - lenb, overlap);
      cut := lens;
      lenf := lenf + lens - overlap;
      lenb := lenb - lens;
    }
  }

  /** Appending the record of the stretch up to scan - lenb to a patch. */
  function WithRecord(base: seq<byte>, target: seq<byte>, p: Patch, lastPos: nat, lastScan: nat, scan: nat, pos: nat,
                      lenf: nat, lenb: nat): Patch
    requires lastPos + lenf <= |base| && lastScan + lenf <= scan - lenb && scan <= |target|
  {
    Patch(p.control + [lenf, scan - lenb - (lastScan + lenf), pos - lenb - (lastPos + lenf)],
          p.diff + SubBytes(base, lastPos, target[lastScan..lastScan + lenf]),
          p.extra + target[lastScan + lenf..scan - lenb], p.newSize)
  }

  lemma RecordStep(base: seq<byte>, target: seq<byte>, p: Patch, p': Patch, lastPos: nat, lastScan: nat, scan: nat,
                   pos: nat, lenf: nat, lenb: nat)
    requires lastPos + lenf <= |base| && lastScan + lenf <= scan - lenb && scan <= |target|
    requires p' == WithRecord(base, target, p, lastPos, lastScan, scan, pos, lenf, lenb) && p.newSize == |target|
    ensures var e, seek := scan - lenb - (lastScan + lenf), pos - lenb - (lastPos + lenf);
            Step(base, p', Replay(target[..lastScan], lastPos, |p.diff|, |p.extra|), lenf, e, seek)
            == Replay(target[..scan - lenb], pos - lenb, |p'.diff|, |p'.extra|)
  {
    hide AddBytes, SubBytes;
    var part := target[lastScan..lastScan + lenf];
    AddUndoesSub(base, lastPos, part);
    assert p'.diff[|p.diff|..|p.diff| + lenf] == SubBytes(base, lastPos, part);
    var e := scan - lenb - (lastScan + lenf);
    assert p'.extra[|p.extra|..|p.extra| + e] == target[lastScan + lenf..scan - lenb];
    assert target[..lastScan] + part == target[..lastScan + lenf];
    assert target[..lastScan + lenf] + target[lastScan + lenf..scan - lenb] == target[..scan - lenb];
  }

  lemma CoversMore(base: seq<byte>, target: seq<byte>, p: Patch, p': Patch, lastPos: nat, lastScan: nat, scan: nat,
                   pos: nat, lenf: nat, lenb: nat)
    requires |base| < INT32_LIMIT && |target| < INT32_LIMIT
    requires Covers(base, target, p, lastScan, lastPos) && lastScan < |target|
    requires lastPos + lenf <= |base| && lastScan + lenf <= scan - lenb && scan <= |target| && lenb <= pos <= |base|
    requires p' == WithRecord(base, target, p, lastPos, lastScan, scan, pos, lenf, lenb)
    ensures Covers(base, target, p', scan - lenb, pos - lenb)
  {
    hide Step, AddBytes, SubBytes, Run;
    var k := |p.control| / 3;
    assert |p'.control| == 3 * (k + 1);
    assert p'.control[3 * k] == lenf && p'.control[3 * k + 1] == scan - lenb - (lastScan + lenf)
        && p'.control[3 * k + 2] == pos - lenb - (lastPos + lenf);
    assert LengthsInRange(p') by {
      forall j | 0 <= j < |p'.control| / 3 ensures p'.control[3 * j] >= 0 && p'.control[3 * j + 1] >= 0 {
        if j < k { assert p'.control[3 * j] == p.control[3 * j] && p'.control[3 * j + 1] == p.control[3 * j + 1]; }
      }
    }
    SmoothExtends(base, p, p', k);
    RunNext(base, p', k);
    RecordStep(base, target, p, p', lastPos, lastScan, scan, pos, lenf, lenb);
  }

  method FillDiff(db: array<byte>, dblen: nat, base: seq<byte>, lastPos: nat, target: seq<byte>, lastScan: nat,
                  lenf: nat)
    requires dblen + lenf <= db.Length && lastPos + lenf <= |base| && lastScan + lenf <= |target|
    modifies db
    ensures db[..dblen + lenf] == old(db[..dblen]) + SubBytes(base, lastPos, target[lastScan..lastScan + lenf])
  {
    ghost var sub := SubBytes(base, lastPos, target[lastScan..lastScan + lenf]);
    var i := 0;
    while i < lenf
      invariant i <= lenf
      invariant db[..dblen + i] == old(db[..dblen]) + sub[..i]
    {
      db[dblen + i] := (target[lastScan + i] as int - base[lastPos + i] as int) % 256;
      assert db[dblen + i] == sub[i];
      assert db[..dblen + i + 1] == db[..dblen + i] + [sub[i]];
      i := i + 1;
    }
    assert sub[..lenf] == sub;
  }

  method FillExtra(eb: array<byte>, eblen: nat, target: seq<byte>, from: nat, count: nat)
    requires eblen + count <= eb.Length && from + count <= |target|
    modifies eb
    ensures eb[..eblen + count] == old(eb[..eblen]) + target[from..from + count]
  {
    var i := 0;
    while i < count
      invariant i <= count
      invariant eb[..eblen + i] == old(eb[..eblen]) + target[from..from + i]
    {
      eb[eblen + i] := target[from + i];
      assert eb[..eblen + i + 1] == eb[..eblen + i] + [target[from + i]];
      i := i + 1;
    }
  }
}
