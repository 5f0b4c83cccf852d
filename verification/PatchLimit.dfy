/**
 How large a new file may be: an old and a new file for which every nine bytes take a record. From
 some length on, the control block of their patch does not fit a signed 32-bit size.
*/
module PatchLimit {
  import opened Basics
  import opened SuffixRanks
  import opened SuffixSort
  import opened MatchSearch
  import opened PatchScan
  import opened PatchFormat
  import opened PatchApply
  import opened PatchBuild
  import opened PatchRoundTrip
  import opened PatchRounds

  /** The bytes 1 to 28. */
  function OldFile(): (base: seq<byte>)
    ensures |base| == 28 && forall p :: 0 <= p < 28 ==> base[p] as int == p + 1
  {
    seq(28, p requires 0 <= p < 28 => p + 1)
  }

  /** Where byte i of the new file is in the old one. */
  function Origin(i: nat): (p: nat)
    ensures p < 27
  {
    if i % 18 < 9 then i % 18 else i % 18 + 9
  }

  /** The first and the third nine bytes of the old file in turns. */
  function NewFile(n: nat): (target: seq<byte>)
    ensures |target| == 18 * n && forall i :: 0 <= i < 18 * n ==> target[i] as int == Origin(i) + 1
  {
    seq(18 * n, i requires 0 <= i < 18 * n => Origin(i) + 1)
  }

  lemma OriginWithin(j: nat, k: nat)
    requires k < 9
    ensures Origin(9 * j) == if j % 2 == 0 then 0 else 18
    ensures Origin(9 * j + k) == Origin(9 * j) + k
  {
    assert 9 * j == 18 * (j / 2) + 9 * (j % 2);
  }

  /** The stretch j of the new file matches nine bytes where it comes from, and nothing elsewhere. */
  lemma PrefixAt(n: nat, j: nat, p: nat)
    requires j < 2 * n && p <= 28
    ensures CommonPrefix(OldFile()[p..], NewFile(n)[9 * j..]) == if p == Origin(9 * j) then 9 else 0
  {
    hide OldFile, NewFile, Origin;
    var s, t := OldFile()[p..], NewFile(n)[9 * j..];
    var c := CommonPrefix(s, t);
    OriginWithin(j, 0);
    OriginWithin(j + 1, 0);
    if p == Origin(9 * j) {
      forall k | 0 <= k < 9 ensures s[k] == t[k] {
        OriginWithin(j, k);
        assert s[k] == OldFile()[p + k] && t[k] == NewFile(n)[9 * j + k];
      }
      if |t| > 9 {
        assert t[9] == NewFile(n)[9 * (j + 1)] && s[9] == OldFile()[p + 9];
        PrefixEnds(s, t, 9);
      }
    } else if p < 28 {
      assert s[0] == OldFile()[p] && t[0] == NewFile(n)[9 * j];
      PrefixEnds(s, t, 0);
    }
  }

  lemma PrefixEnds(s: seq<byte>, t: seq<byte>, k: nat)
    requires k < |s| && k < |t| && s[k] != t[k]
    ensures CommonPrefix(s, t) <= k
  {
    var c := CommonPrefix(s, t);
    if c > k { SameAtIndex(s, t, c, k); }
  }

  lemma NotPrefix(s: seq<byte>, t: seq<byte>, k: nat)
    requires k < |s| && k < |t| && s[k] != t[k]
    ensures !(s <= t)
  {
  }

  lemma NoSuffixInside(n: nat, j: nat, a: nat)
    requires j < 2 * n && a < 28
    ensures !(OldFile()[a..] <= NewFile(n)[9 * j..])
  {
    hide OldFile, NewFile, Origin;
    var s, t := OldFile()[a..], NewFile(n)[9 * j..];
    if |s| <= |t| {
      assert s[27 - a] == OldFile()[27] && t[27 - a] == NewFile(n)[9 * j + 27 - a];
      NotPrefix(s, t, 27 - a);
    }
  }

  /** So the search reports nine bytes at every stretch. */
  lemma NineFound(n: nat, order: seq<int>, j: nat)
    requires IsSuffixArray(OldFile(), order) && j < 2 * n
    ensures Permutation(order, |OldFile()| + 1)
    ensures LenAt(OldFile(), order, NewFile(n), 9 * j) == 9
  {
    hide OldFile, NewFile, Origin, CommonPrefix, IsSuffixArray, MatchLen;
    SuffixArrayPermutation(OldFile(), order);
    var t := NewFile(n)[9 * j..];
    forall p: nat | p <= 28 ensures CommonPrefix(OldFile()[p..], t) <= 9 {
      PrefixAt(n, j, p);
    }
    forall a: nat | a < 28 ensures !(OldFile()[a..] <= t) {
      NoSuffixInside(n, j, a);
    }
    OriginWithin(j, 0);
    PrefixAt(n, j, Origin(9 * j));
    SearchFindsLongest(OldFile(), order, t, Origin(9 * j));
    LengthOccurs(OldFile(), order, t, 9);
  }

  lemma LengthOccurs(text: seq<byte>, index: seq<int>, target: seq<byte>, limit: nat)
    requires Permutation(index, |text| + 1)
    requires forall p: nat :: p <= |text| ==> CommonPrefix(text[p..], target) <= limit
    ensures MatchLen(text, index, target) <= limit
  {
    hide CommonPrefix;
    Indices(text, index);
  }

  /** The offset of the match before is no good at the next stretch. */
  lemma NothingGoesOn(n: nat, j: nat)
    requires 0 < j < 2 * n
    ensures Matches(OldFile(), 9 * j + (Origin(9 * (j - 1)) - 9 * (j - 1)), NewFile(n), 9 * j, 9) == 0
  {
    hide OldFile, NewFile, Origin;
    OriginWithin(j - 1, 0);
    OriginWithin(j, 0);
    var offset := Origin(9 * (j - 1)) - 9 * (j - 1);
    forall q | 9 * j <= q < 9 * j + 9 ensures !Along(OldFile(), NewFile(n), offset, q) {
      OriginWithin(j, q - 9 * j);
    }
    MatchesAlong(OldFile(), NewFile(n), offset, 9 * j, 9);
  }

  lemma StartGoesOn(n: nat)
    requires 0 < n
    ensures Matches(OldFile(), 0, NewFile(n), 0, 9) == 9
  {
    hide OldFile, NewFile, Origin;
    forall q | 0 <= q < 9 ensures Along(OldFile(), NewFile(n), 0, q) {
      OriginWithin(0, q);
    }
    MatchesAlong(OldFile(), NewFile(n), 0, 0, 9);
  }

  /** The scan at stretch j, with a record for each stretch before. */
  ghost predicate AtStretch(s: Scan, j: nat)
  {
    && s.scan == 9 * j && s.len == 9 && s.pos == Origin(9 * j)
    && s.lastOffset == s.pos - s.scan && |s.p.control| == 3 * j
  }

  lemma FirstRound(n: nat, order: seq<int>, s: Scan, t: Scan, d: Division)
    requires IsSuffixArray(OldFile(), order) && 0 < n && Round(OldFile(), order, NewFile(n), s, t, d)
    requires s == Scan(0, 0, 0, 0, 0, 0, Patch([], [], [], 18 * n))
    ensures AtStretch(t, 0)
  {
    hide OldFile, NewFile, Origin, CommonPrefix, IsSuffixArray, LenAt, Score, Round;
    var base, target := OldFile(), NewFile(n);
    StopsAtOnce(base, order, target, s, t, d);
    NineFound(n, order, 0);
    ScoreAtStart(base, order, target, 0, 0);
    StartGoesOn(n);
    OriginWithin(0, 0);
    assert Stops(base, order, target, 0, 0, 0);
    PrefixAt(n, 0, t.pos);
  }

  lemma NextRound(n: nat, order: seq<int>, s: Scan, t: Scan, d: Division, j: nat)
    requires IsSuffixArray(OldFile(), order) && j + 1 < 2 * n && Round(OldFile(), order, NewFile(n), s, t, d)
    requires AtStretch(s, j)
    ensures AtStretch(t, j + 1)
  {
    hide OldFile, NewFile, Origin, CommonPrefix, IsSuffixArray, LenAt, Score, Round;
    var base, target, from := OldFile(), NewFile(n), 9 * (j + 1);
    StopsAtOnce(base, order, target, s, t, d);
    NineFound(n, order, j + 1);
    ScoreAtStart(base, order, target, from, s.lastOffset);
    NothingGoesOn(n, j + 1);
    assert Stops(base, order, target, from, from, s.lastOffset);
    PrefixAt(n, j + 1, t.pos);
  }

  lemma {:induction false} RoundAt(n: nat, order: seq<int>, run: seq<Scan>, cuts: seq<Division>, k: nat)
    requires IsSuffixArray(OldFile(), order) && Rounds(OldFile(), order, NewFile(n), run, cuts)
    requires 0 < k < |run| && k <= 2 * n
    ensures AtStretch(run[k], k - 1)
  {
    hide OldFile, NewFile, IsSuffixArray, Round, AtStretch;
    assert Round(OldFile(), order, NewFile(n), run[k - 1], run[k], cuts[k - 1]);
    if k == 1 {
      FirstRound(n, order, run[0], run[1], cuts[0]);
    } else {
      RoundAt(n, order, run, cuts, k - 1);
      NextRound(n, order, run[k - 1], run[k], cuts[k - 1], k - 2);
    }
  }

  /** A record for every nine bytes, so that the control block fits up to three quarters of the 32-bit
      limit. */
  lemma RecordEveryNine(n: nat, order: seq<int>, run: seq<Scan>, cuts: seq<Division>)
    requires IsSuffixArray(OldFile(), order) && Rounds(OldFile(), order, NewFile(n), run, cuts) && 0 < n
    requires run[|run| - 1].scan == |NewFile(n)|
    ensures 3 * |run[|run| - 1].p.control| == |NewFile(n)|
    ensures ControlFits(run[|run| - 1].p) <==> |NewFile(n)| < INT32_LIMIT / 4 * 3
  {
    hide OldFile, NewFile, IsSuffixArray, Round;
    var m := |run| - 1;
    if 0 < m <= 2 * n { RoundAt(n, order, run, cuts, m); }
    RoundAt(n, order, run, cuts, 2 * n);
    AtEnd(OldFile(), order, NewFile(n), run[2 * n], run[2 * n + 1], cuts[2 * n]);
  }

  /** And no further: the patch that is built is right, but the size of its control block is read as a
      negative number. */
  method BuildTooLarge(n: nat) returns (file: seq<byte>, ghost p: Patch)
    requires INT32_LIMIT / 4 * 3 <= |NewFile(n)| < INT32_LIMIT
    ensures file == PatchBytes(p) && LengthsInRange(p) && Patched(OldFile(), p) == Some(NewFile(n))
    ensures |file| >= 16 && BytesInt32(file[..4]) < 0 && !ControlFits(p) && !Readable(file)
  {
    hide OldFile, NewFile, IsSuffixArray, Rounds, BytesInt32, PatchBytes, LengthsInRange, Patched, RunFits;
    var base, target := OldFile(), NewFile(n);
    var patch := new OutputStream();
    ghost var order, run, cuts;
    p, order, run, cuts := Build(base, target, patch);
    file := patch.data;
    RunNotEmpty(base, order, target, run, cuts);
    RecordEveryNine(n, order, run, cuts);
    BuiltIsReadable(base, target, p);
    FirstField(file);
  }

  /** There are such files: one is 24 bytes longer than what is always read back. */
  lemma JustTooLarge()
    ensures |NewFile(89_478_486)| == LARGEST_NEW_FILE + 24
    ensures INT32_LIMIT / 4 * 3 <= |NewFile(89_478_486)| < INT32_LIMIT
  {
    hide NewFile;
  }
}
