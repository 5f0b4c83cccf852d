/**
 Two patch files whose sums leave the 32-bit numbers, although no size and no length in them is
 negative. The additions of the replay then have no defined result; on a host that wraps around,
 one file passes both bounds tests, and the other brings a byte of the old file in.
*/
module PatchOverflow {
  import opened Basics
  import opened PatchFormat
  import opened PatchApply

  lemma BytesOf(p: Patch)
    requires p.extra == [] && 4 * |p.control| < INT32_LIMIT && |p.diff| < INT32_LIMIT
    requires LengthsInRange(p) && 0 <= p.newSize < INT32_LIMIT
    requires forall i :: 0 <= i < |p.control| ==> FitsInt32(p.control[i])
    ensures |PatchBytes(p)| == 16 + 4 * |p.control| + |p.diff|
    ensures Readable(PatchBytes(p)) && ParsePatch(PatchBytes(p)) == Some(p)
  {
    ParseRoundTrip(p);
  }

  const LongDiff: Patch := Patch([1, 0, 0, 0x7FFF_FFFF, 0, 0], [7], [], 2)

  /** A file of 41 bytes. With one byte written, the length of the second triple is added to 1: the
      replay is stuck, but the wrapped sum passes both tests, and the copy runs far out of range. */
  lemma LengthOverflows(base: seq<byte>)
    ensures |PatchBytes(LongDiff)| == 41 && Readable(PatchBytes(LongDiff))
    ensures ParsePatch(PatchBytes(LongDiff)) == Some(LongDiff) && LengthsInRange(LongDiff)
    ensures !RunFits(base, LongDiff) && Patched(base, LongDiff) == None
    ensures var s := Run(base, LongDiff, 1);
            && s == Replay([(7 + OldByte(base, 0) as int) % 256], 1, 1, 0)
            && Wrapped(|s.out| + LongDiff.control[3]) <= LongDiff.newSize
            && Wrapped(s.diffPos + LongDiff.control[3]) <= |LongDiff.diff|
  {
    hide Run, Step, AddBytes, PatchBytes, ParsePatch, Readable, RunFits, Patched;
    BytesOf(LongDiff);
    RunStart(base, LongDiff);
    RunNext(base, LongDiff, 0);
    OneByte(base, LongDiff, Replay([], 0, 0, 0));
    RunNext(base, LongDiff, 1);
    TooLong(base, LongDiff, Run(base, LongDiff, 1), 0x7FFF_FFFF);
    StuckAfter(base, LongDiff, 2);
    LeavesRange(base, LongDiff, 1);
  }

  lemma OneByte(base: seq<byte>, p: Patch, s: Replay)
    requires s.Replay? && |s.out| < p.newSize && s.diffPos < |p.diff| && s.extraPos <= |p.extra|
    ensures Step(base, p, s, 1, 0, 0)
         == Replay(s.out + [(p.diff[s.diffPos] as int + OldByte(base, s.oldPos) as int) % 256],
                   s.oldPos + 1, s.diffPos + 1, s.extraPos)
  {
    var part := p.diff[s.diffPos..s.diffPos + 1];
    assert AddBytes(base, s.oldPos, part) == [(part[0] as int + OldByte(base, s.oldPos) as int) % 256];
  }

  lemma NoByte(base: seq<byte>, p: Patch, s: Replay, seek: int)
    requires s.Replay? && |s.out| <= p.newSize && s.diffPos <= |p.diff| && s.extraPos <= |p.extra|
    ensures Step(base, p, s, 0, 0, seek) == s.(oldPos := s.oldPos + seek)
  {
    assert AddBytes(base, s.oldPos, []) == [];
    assert p.diff[s.diffPos..s.diffPos + 0] == [];
    assert s.out + [] == s.out;
  }

  lemma TooLong(base: seq<byte>, p: Patch, s: Replay, d: nat)
    requires s.Replay? && |s.out| + d > p.newSize
    ensures Step(base, p, s, d, 0, 0).Stuck?
  {
  }

  lemma StuckAfter(base: seq<byte>, p: Patch, k: nat)
    requires LengthsInRange(p) && k == |p.control| / 3 && Run(base, p, k).Stuck?
    ensures Patched(base, p) == None
  {
  }

  lemma DoneAfter(base: seq<byte>, p: Patch, k: nat)
    requires LengthsInRange(p) && k == |p.control| / 3
    requires Run(base, p, k).Replay? && |Run(base, p, k).out| == p.newSize
    ensures Patched(base, p) == Some(Run(base, p, k).out)
  {
  }

  lemma LeavesRange(base: seq<byte>, p: Patch, k: nat)
    requires LengthsInRange(p) && k < |p.control| / 3
    requires Run(base, p, k).Replay? && |Run(base, p, k).out| < p.newSize
    requires p.control[3 * k] >= 0 && p.control[3 * k + 1] >= 0
    requires !StepFits(p, Run(base, p, k), p.control[3 * k], p.control[3 * k + 1], p.control[3 * k + 2])
    ensures !RunFits(base, p)
  {
  }

  const FarSeek: Patch :=
    Patch([0, 0, 0x7FFF_FFFF, 0, 0, 0x7FFF_FFFF, 0, 0, 2, 1, 0, 0], [0], [], 1)

  /** A file of 65 bytes. Three moves lead to place 2^32 of the old file, where there is no byte to be
      added; the wrapped place is 0. */
  lemma SeeksOverflow(base: seq<byte>)
    requires 0 < |base| < INT32_LIMIT
    ensures |PatchBytes(FarSeek)| == 65 && Readable(PatchBytes(FarSeek))
    ensures ParsePatch(PatchBytes(FarSeek)) == Some(FarSeek) && LengthsInRange(FarSeek)
    ensures !RunFits(base, FarSeek) && Patched(base, FarSeek) == Some([0])
    ensures var s := Run(base, FarSeek, 3);
            && s == Replay([], WORD, 0, 0) && Wrapped(s.oldPos) == 0
            && AddBytes(base, Wrapped(s.oldPos), FarSeek.diff) == [base[0]]
  {
    hide Run, Step, AddBytes, Wrapped, StepFits, PatchBytes, ParsePatch, Readable, RunFits,
      Patched, LengthsInRange;
    FarSeekBytes();
    ThreeSeeks(base);
    PlaceLeavesRange(base, FarSeek, 1);
    RunNext(base, FarSeek, 3);
    OneByte(base, FarSeek, Replay([], WORD, 0, 0));
    assert Run(base, FarSeek, 4).out == [0];
    DoneAfter(base, FarSeek, 4);
    AddsFirst(base);
  }

  lemma FarSeekBytes()
    ensures |PatchBytes(FarSeek)| == 65 && Readable(PatchBytes(FarSeek))
    ensures ParsePatch(PatchBytes(FarSeek)) == Some(FarSeek) && LengthsInRange(FarSeek)
  {
    hide PatchBytes, ParsePatch, Readable;
    BytesOf(FarSeek);
  }

  lemma ThreeSeeks(base: seq<byte>)
    ensures Run(base, FarSeek, 1) == Replay([], 0x7FFF_FFFF, 0, 0)
    ensures Run(base, FarSeek, 3) == Replay([], WORD, 0, 0)
  {
    hide Run, Step;
    RunStart(base, FarSeek);
    RunNext(base, FarSeek, 0);
    NoByte(base, FarSeek, Replay([], 0, 0, 0), 0x7FFF_FFFF);
    RunNext(base, FarSeek, 1);
    NoByte(base, FarSeek, Replay([], 0x7FFF_FFFF, 0, 0), 0x7FFF_FFFF);
    RunNext(base, FarSeek, 2);
    NoByte(base, FarSeek, Replay([], 0xFFFF_FFFE, 0, 0), 2);
  }

  lemma AddsFirst(base: seq<byte>)
    requires 0 < |base|
    ensures Wrapped(WORD) == 0 && AddBytes(base, 0, [0]) == [base[0]]
  {
    assert AddBytes(base, 0, [0])[0] == base[0];
  }

  lemma PlaceLeavesRange(base: seq<byte>, p: Patch, k: nat)
    requires LengthsInRange(p) && k < |p.control| / 3
    requires Run(base, p, k).Replay? && |Run(base, p, k).out| < p.newSize
    requires p.control[3 * k] == 0 && p.control[3 * k + 1] == 0
    requires Run(base, p, k).diffPos <= |p.diff| && Run(base, p, k).extraPos <= |p.extra|
    requires !FitsInt32(Run(base, p, k).oldPos + p.control[3 * k + 2])
    ensures !RunFits(base, p)
  {
    LeavesRange(base, p, k);
  }
}
