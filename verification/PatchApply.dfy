/**
 Applying a patch: the control triples are replayed into a buffer of the new size.
*/
module PatchApply {
  import opened Basics
  import opened PatchFormat

  lemma {:induction false} RunStays(base: seq<byte>, p: Patch, k: nat, m: nat)
    requires LengthsInRange(p) && k <= m <= |p.control| / 3
    ensures Run(base, p, k).Stuck? ==> Run(base, p, m).Stuck?
    ensures Run(base, p, k).Replay? && |Run(base, p, k).out| >= p.newSize ==> Run(base, p, m) == Run(base, p, k)
    decreases m - k
  {
    if k < m { RunStays(base, p, k, m - 1); }
  }

  method CopyInto(a: array<byte>, at: nat, bytes: seq<byte>)
    requires at + |bytes| <= a.Length
    modifies a
    ensures a[..] == old(a[..at]) + bytes + old(a[at + |bytes|..])
  {
    var i := 0;
    while i < |bytes|
      invariant i <= |bytes|
      invariant forall k :: 0 <= k < a.Length ==> a[k] == if at <= k < at + i then bytes[k - at] else old(a[k])
    {
      a[at + i] := bytes[i];
      i := i + 1;
    }
  }

  /** Adds the old bytes to a stretch of diff bytes, leaving what falls outside the old file. */
  method AddOld(a: array<byte>, at: nat, count: nat, base: seq<byte>, oldPos: int)
    requires at + count <= a.Length && FitsInt32(oldPos) && FitsInt32(oldPos + count)
    modifies a
    ensures a[..] == old(a[..at]) + AddBytes(base, oldPos, old(a[at..at + count])) + old(a[at + count..])
  {
    ghost var was := a[..];
    var i := 0;
    while i < count
      invariant i <= count
      invariant forall k :: 0 <= k < a.Length && !(at <= k < at + i) ==> a[k] == was[k]
      invariant forall k :: at <= k < at + i ==>
                  a[k] as int == (was[k] as int + OldByte(base, oldPos + (k - at)) as int) % 256
    {
      if Sum32(oldPos, i) >= 0 && Sum32(oldPos, i) < |base| {
        a[at + i] := (a[at + i] as int + base[Sum32(oldPos, i)] as int) % 256;
      }
      i := i + 1;
    }
    var sum := AddBytes(base, oldPos, was[at..at + count]);
    forall k | 0 <= k < a.Length
      ensures a[k] == (was[..at] + sum + was[at + count..])[k]
    {
    }
  }

  /** The patch file as the reader sees it. */
  predicate Readable(data: seq<byte>)
  {
    |data| >= 16 ==> HeaderInRange(data) && (ParsePatch(data).Some? ==> LengthsInRange(ParsePatch(data).value))
  }

  /** Reads the control numbers; each read decides success anew. */
  method ReadControl(stream: InputStream, n: nat) returns (ok: bool, control: seq<int>)
    requires stream.ptr <= |stream.data|
    modifies stream
    ensures stream.ptr <= |stream.data|
    ensures ok <==> old(stream.ptr) + 4 * n <= |stream.data|
    ensures ok ==> stream.ptr == old(stream.ptr) + 4 * n && control == BytesInt32s(stream.data[old(stream.ptr)..], n)
  {
    ok, control := true, [];
    ghost var rest := stream.data[stream.ptr..];
    var i := 0;
    while i < n
      invariant 0 <= i <= n && old(stream.ptr) <= stream.ptr <= |stream.data|
      invariant ok <==> old(stream.ptr) + 4 * i <= |stream.data|
      invariant ok ==> stream.ptr == old(stream.ptr) + 4 * i && control == BytesInt32s(rest, i)
      invariant !ok ==> |stream.data| - stream.ptr < 4
    {
      var value;
      ok, value := stream.ReadInt32();
      if ok {
        assert rest[4 * i..4 * (i + 1)] == stream.data[stream.ptr - 4..stream.ptr];
        control := control + [value];
      }
      i := i + 1;
    }
  }

  method ReadPatch(stream: InputStream) returns (ok: bool, p: Patch)
    requires stream.ptr == 0 && Readable(stream.data)
    modifies stream
    ensures ok <==> |stream.data| >= 16 && ParsePatch(stream.data).Some?
    ensures ok ==> ParsePatch(stream.data) == Some(p) && p.newSize >= 0 && LengthsInRange(p)
  {
    hide BytesInt32, BytesInt32s, LengthsInRange;
    p := Patch([], [], [], 0);
    var controlSize, diffSize, extraSize, newSize;
    ok, controlSize := stream.ReadInt32();
    if ok { ok, diffSize := stream.ReadInt32(); }
    if ok { ok, extraSize := stream.ReadInt32(); }
    if ok { ok, newSize := stream.ReadInt32(); }
    if !ok { return; }
    ghost var data := stream.data;
    HeaderFields(data);
    var control, diff, extra;
    ok, control := ReadControl(stream, controlSize / 4);
    if ok { ok, diff := stream.ReadBytes(diffSize); }
    if ok { ok, extra := stream.ReadBytes(extraSize); }
    if !ok { return; }
    p := Patch(control, diff, extra, newSize);
    ghost var rest, n := data[16..], controlSize / 4;
    assert rest[4 * n..4 * n + diffSize] == diff;
    assert rest[4 * n + diffSize..4 * n + diffSize + extraSize] == extra;
  }

  lemma HeaderFields(data: seq<byte>)
    requires |data| >= 16
    ensures BytesInt32s(data, 4)
         == [BytesInt32(data[0..4]), BytesInt32(data[4..8]), BytesInt32(data[8..12]), BytesInt32(data[12..16])]
  {
    assert BytesInt32s(data, 1) == BytesInt32s(data, 0) + [BytesInt32(data[0..4])];
    assert BytesInt32s(data, 2) == BytesInt32s(data, 1) + [BytesInt32(data[4..8])];
    assert BytesInt32s(data, 3) == BytesInt32s(data, 2) + [BytesInt32(data[8..12])];
  }

  /** Copies diff bytes into place and adds the old bytes to them. */
  method PlaceDiff(newData: array<byte>, newPos: nat, diff: seq<byte>, base: seq<byte>, oldPos: int)
    requires newPos + |diff| <= newData.Length && FitsInt32(oldPos) && FitsInt32(oldPos + |diff|)
    modifies newData
    ensures newData[..newPos + |diff|] == old(newData[..newPos]) + AddBytes(base, oldPos, diff)
  {
    CopyInto(newData, newPos, diff);
    assert newData[newPos..newPos + |diff|] == diff;
    AddOld(newData, newPos, |diff|, base, oldPos);
  }

  method PlaceExtra(newData: array<byte>, newPos: nat, extra: seq<byte>)
    requires newPos + |extra| <= newData.Length
    modifies newData
    ensures newData[..newPos + |extra|] == old(newData[..newPos]) + extra
  {
    CopyInto(newData, newPos, extra);
  }

  lemma RunStart(base: seq<byte>, p: Patch)
    requires LengthsInRange(p)
    ensures Run(base, p, 0) == Replay([], 0, 0, 0)
  {
  }

  lemma RunNext(base: seq<byte>, p: Patch, k: nat)
    requires LengthsInRange(p) && k < |p.control| / 3
    requires Run(base, p, k).Replay? && |Run(base, p, k).out| < p.newSize
    ensures p.control[3 * k] >= 0 && p.control[3 * k + 1] >= 0
    ensures Run(base, p, k + 1)
         == Step(base, p, Run(base, p, k), p.control[3 * k], p.control[3 * k + 1], p.control[3 * k + 2])
  {
  }

  lemma RunFitsAt(base: seq<byte>, p: Patch, k: nat)
    requires LengthsInRange(p) && RunFits(base, p) && k < |p.control| / 3
    requires Run(base, p, k).Replay? && |Run(base, p, k).out| < p.newSize
    ensures p.control[3 * k] >= 0 && p.control[3 * k + 1] >= 0
    ensures StepFits(p, Run(base, p, k), p.control[3 * k], p.control[3 * k + 1], p.control[3 * k + 2])
  {
  }

  /** One triple of the replay loop: d diff bytes added to old ones, e extra bytes copied, and a
      move in the old file. */
  method ReplayTriple(newData: array<byte>, base: seq<byte>, p: Patch, newPos: nat, oldPos: int, diffPos: nat,
                      extraPos: nat,
                      d: nat, e: nat, seek: int)
    returns (ok: bool, newPos': nat, oldPos': int, diffPos': nat, extraPos': nat)
    requires p.newSize == newData.Length && newPos <= newData.Length && FitsInt32(oldPos)
    requires StepFits(p, Replay(newData[..newPos], oldPos, diffPos, extraPos), d, e, seek)
    modifies newData
    ensures FitsInt32(oldPos')
    ensures var s := Step(base, p, Replay(old(newData[..newPos]), oldPos, diffPos, extraPos), d, e, seek);
            && newPos' <= newData.Length
            && ok == s.Replay?
            && (ok ==> s == Replay(newData[..newPos'], oldPos', diffPos', extraPos'))
  {
    hide AddBytes;
    newPos', oldPos', diffPos', extraPos' := newPos, oldPos, diffPos, extraPos;
    ok := Sum32(newPos, d) <= newData.Length && Sum32(diffPos, d) <= |p.diff|;
    if !ok {
      return;
    }
    PlaceDiff(newData, newPos, p.diff[diffPos..diffPos + d], base, oldPos);
    newPos', oldPos', diffPos' := Sum32(newPos, d), Sum32(oldPos, d), Sum32(diffPos, d);

    if Sum32(newPos', e) <= newData.Length && Sum32(extraPos, e) <= |p.extra| {
      PlaceExtra(newData, newPos', p.extra[extraPos..extraPos + e]);
      newPos', extraPos', oldPos' := Sum32(newPos', e), Sum32(extraPos, e), Sum32(oldPos', seek);
    }
  }

  /** The replay loop. */
  method ReplayInto(newData: array<byte>, base: seq<byte>, p: Patch) returns (ok: bool)
    requires p.newSize == newData.Length && LengthsInRange(p) && RunFits(base, p)
    modifies newData
    ensures ok <==> Patched(base, p).Some?
    ensures ok ==> Patched(base, p) == Some(newData[..])
  {
    hide Run, Step, LengthsInRange, RunFits, StepFits;
    var newSize := newData.Length;
    var newPos, oldPos, ctrlPos, diffPos, extraPos := 0, 0, 0, 0, 0;
    ok := true;
    ghost var k := 0;
    RunStart(base, p);
    while newPos < newSize && ok
      invariant 0 <= newPos <= newSize && k <= |p.control| / 3 && ctrlPos == 3 * k
      invariant 0 <= diffPos && 0 <= extraPos && FitsInt32(oldPos)
      invariant ok ==> Run(base, p, k) == Replay(newData[..newPos], oldPos, diffPos, extraPos)
      invariant !ok ==> Patched(base, p).None?
      decreases |p.control| - ctrlPos, ok
    {
      RunStays(base, p, k, |p.control| / 3);
      if ctrlPos + 3 <= |p.control| {
        RunNext(base, p, k);
        RunFitsAt(base, p, k);
        var d, e, seek := p.control[ctrlPos], p.control[ctrlPos + 1], p.control[ctrlPos + 2];
        ctrlPos := ctrlPos + 3;
        k := k + 1;
        RunStays(base, p, k, |p.control| / 3);
        ok, newPos, oldPos, diffPos, extraPos :=
          ReplayTriple(newData, base, p, newPos, oldPos, diffPos, extraPos, d, e, seek);
      } else {
        ok := false;
      }
    }
    if ok {
      assert newData[..newPos] == newData[..];
      RunStays(base, p, k, |p.control| / 3);
    }
  }

  /** bspatchmain. Sizes, lengths and sums must be ones that 32-bit arithmetic carries. */
  method Apply(patch: InputStream, input: InputStream, output: OutputStream) returns (ok: bool)
    requires patch != input && patch.ptr == 0 && input.ptr == 0 && Readable(patch.data)
    requires |patch.data| >= 16 && ParsePatch(patch.data).Some? ==>
               RunFits(input.data, ParsePatch(patch.data).value)
    requires output.ptr <= |output.data| && |input.data| < INT32_LIMIT
    modifies patch, input, output
    ensures ok <==>
              && |patch.data| >= 16 && ParsePatch(patch.data).Some?
              && Patched(input.data, ParsePatch(patch.data).value).Some?
    ensures ok ==>
              output.data == Overwrite(old(output.data), old(output.ptr),
                                       Patched(input.data, ParsePatch(patch.data).value).value)
    ensures !ok ==> output.data == old(output.data)
  {
    hide Overwrite, ParsePatch, Patched, RunFits;
    var p;
    ok, p := ReadPatch(patch);
    if !ok { return; }
    var oldSize := input.Measure();
    var base;
    ok, base := input.ReadBytes(oldSize);
    assert base == input.data;
    var newData := new byte[p.newSize](_ => 0);
    ok := ReplayInto(newData, base, p);
    if ok {
      output.WriteBytes(newData[..]);
    }
  }
}
