/**
 A patch file byte for byte, and what applying it gives.
*/
module PatchExample {
  import opened Basics
  import opened NetworkOrder
  import opened PatchFormat
  import opened PatchApply

  /** The sizes 27, which is that of six numbers, 3, 2 and 5; two triples: one diff byte, two extra
      bytes and one place back, then two diff bytes; the diff bytes; the extra bytes. */
  const Sizes: seq<byte> := [0, 0, 0, 27] + [0, 0, 0, 3] + [0, 0, 0, 2] + [0, 0, 0, 5]

  const Triples: seq<byte> :=
    [0, 0, 0, 1] + [0, 0, 0, 2] + [255, 255, 255, 255] + [0, 0, 0, 2] + [0, 0, 0, 0] + [0, 0, 0, 0]

  const File: seq<byte> := Sizes + (Triples + [1, 0, 255] + [120, 121])

  const Parsed: Patch := Patch([1, 2, -1, 2, 0, 0], [1, 0, 255], [120, 121], 5)

  lemma Number(a: byte, b: byte, c: byte, d: byte)
    ensures BytesInt32([a, b, c, d])
         == Signed(a as int * 0x100_0000 + b as int * 0x1_0000 + c as int * 0x100 + d as int)
  {
    hide Unsigned, Signed;
    FourBytes([a, b, c, d]);
  }

  lemma Numbers()
    ensures BytesInt32([0, 0, 0, 27]) == 27 && BytesInt32([0, 0, 0, 5]) == 5 && BytesInt32([0, 0, 0, 3]) == 3
    ensures BytesInt32([0, 0, 0, 2]) == 2 && BytesInt32([0, 0, 0, 1]) == 1 && BytesInt32([0, 0, 0, 0]) == 0
    ensures BytesInt32([255, 255, 255, 255]) == -1
  {
    hide BytesInt32;
    Number(0, 0, 0, 27);
    Number(0, 0, 0, 5);
    Number(0, 0, 0, 3);
    Number(0, 0, 0, 2);
    Number(0, 0, 0, 1);
    Number(0, 0, 0, 0);
    Number(255, 255, 255, 255);
  }

  lemma Control(data: seq<byte>)
    requires |data| >= 24
    ensures BytesInt32s(data, 6)
         == [BytesInt32(data[0..4]), BytesInt32(data[4..8]), BytesInt32(data[8..12]), BytesInt32(data[12..16]),
             BytesInt32(data[16..20]), BytesInt32(data[20..24])]
  {
    hide BytesInt32;
    HeaderFields(data);
    assert BytesInt32s(data, 5) == BytesInt32s(data, 4) + [BytesInt32(data[16..20])];
    assert BytesInt32s(data, 6) == BytesInt32s(data, 5) + [BytesInt32(data[20..24])];
  }

  lemma Slices()
    ensures |File| == 45
    ensures File[0..4] == [0, 0, 0, 27] && File[4..8] == [0, 0, 0, 3]
    ensures File[8..12] == [0, 0, 0, 2] && File[12..16] == [0, 0, 0, 5]
    ensures var rest := File[16..];
            && rest[0..4] == [0, 0, 0, 1] && rest[4..8] == [0, 0, 0, 2] && rest[8..12] == [255, 255, 255, 255]
            && rest[12..16] == [0, 0, 0, 2] && rest[16..20] == [0, 0, 0, 0] && rest[20..24] == [0, 0, 0, 0]
            && rest[24..27] == [1, 0, 255] && rest[27..29] == [120, 121]
  {
    FourParts([0, 0, 0, 27], [0, 0, 0, 3], [0, 0, 0, 2], [0, 0, 0, 5], Triples + [1, 0, 255] + [120, 121]);
    FourParts([0, 0, 0, 1], [0, 0, 0, 2], [255, 255, 255, 255], [0, 0, 0, 2],
              [0, 0, 0, 0] + [0, 0, 0, 0] + [1, 0, 255] + [120, 121]);
    var rest := File[16..];
    assert rest == [0, 0, 0, 1] + [0, 0, 0, 2] + [255, 255, 255, 255] + [0, 0, 0, 2]
                   + ([0, 0, 0, 0] + [0, 0, 0, 0] + [1, 0, 255] + [120, 121]);
    TwoParts(rest[16..], [0, 0, 0, 0], [0, 0, 0, 0], [1, 0, 255], [120, 121]);
    Shifted(rest);
  }

  lemma FourParts(a: seq<byte>, b: seq<byte>, c: seq<byte>, d: seq<byte>, e: seq<byte>)
    requires |a| == |b| == |c| == |d| == 4
    ensures var f := a + b + c + d + e; f[0..4] == a && f[4..8] == b && f[8..12] == c && f[12..16] == d && f[16..] == e
  {
  }

  lemma TwoParts(f: seq<byte>, a: seq<byte>, b: seq<byte>, c: seq<byte>, d: seq<byte>)
    requires |a| == |b| == 4 && |c| == 3 && |d| == 2 && f == a + b + c + d
    ensures f[0..4] == a && f[4..8] == b && f[8..11] == c && f[11..13] == d
  {
  }

  lemma Shifted(f: seq<byte>)
    requires |f| == 29
    ensures f[16..20] == f[16..][0..4] && f[20..24] == f[16..][4..8] && f[24..27] == f[16..][8..11]
    ensures f[27..29] == f[16..][11..13]
  {
  }

  lemma Parse()
    ensures |File| == 45 && HeaderInRange(File) && ParsePatch(File) == Some(Parsed)
  {
    Slices();
    ParseSlices(File);
  }

  lemma ParseSlices(file: seq<byte>)
    requires |file| == 45
    requires file[0..4] == [0, 0, 0, 27] && file[4..8] == [0, 0, 0, 3]
    requires file[8..12] == [0, 0, 0, 2] && file[12..16] == [0, 0, 0, 5]
    requires var rest := file[16..];
             && rest[0..4] == [0, 0, 0, 1] && rest[4..8] == [0, 0, 0, 2] && rest[8..12] == [255, 255, 255, 255]
             && rest[12..16] == [0, 0, 0, 2] && rest[16..20] == [0, 0, 0, 0] && rest[20..24] == [0, 0, 0, 0]
             && rest[24..27] == [1, 0, 255] && rest[27..29] == [120, 121]
    ensures HeaderInRange(file) && ParsePatch(file) == Some(Parsed)
  {
    hide BytesInt32, BytesInt32s;
    Numbers();
    HeaderFields(file);
    Control(file[16..]);
    assert BytesInt32s(file, 4) == [27, 3, 2, 5];
    assert BytesInt32s(file[16..], 6) == [1, 2, -1, 2, 0, 0];
  }

  /** The old file ABC becomes BxyAA: a byte and one, two new ones, a byte as it was, and a byte less
      one. */
  method ApplyFile() returns (ok: bool, result: seq<byte>)
    ensures ok && result == [66, 120, 121, 65, 65]
  {
    hide ParsePatch, Run, Patched, RunFits, LengthsInRange;
    var patch := new InputStream(File);
    var oldFile := new InputStream([65, 66, 67]);
    var newFile := new OutputStream();
    Parse();
    Replayed();
    ok := Apply(patch, oldFile, newFile);
    result := newFile.data;
  }

  lemma Replayed()
    ensures LengthsInRange(Parsed) && RunFits([65, 66, 67], Parsed)
    ensures Patched([65, 66, 67], Parsed) == Some([66, 120, 121, 65, 65])
  {
    hide Run, Step;
    var base: seq<byte> := [65, 66, 67];
    RunStart(base, Parsed);
    RunNext(base, Parsed, 0);
    FirstTriple(base);
    RunNext(base, Parsed, 1);
    SecondTriple(base);
  }

  lemma FirstTriple(base: seq<byte>)
    requires base == [65, 66, 67]
    ensures Step(base, Parsed, Replay([], 0, 0, 0), 1, 2, -1) == Replay([66, 120, 121], 0, 1, 2)
  {
    assert Parsed.diff[0..0 + 1] == [1] && Parsed.extra[0..0 + 2] == [120, 121];
    assert AddBytes(base, 0, [1]) == [66];
  }

  lemma SecondTriple(base: seq<byte>)
    requires base == [65, 66, 67]
    ensures Step(base, Parsed, Replay([66, 120, 121], 0, 1, 2), 2, 0, 0) == Replay([66, 120, 121, 65, 65], 2, 3, 2)
  {
    assert Parsed.diff[1..1 + 2] == [0, 255] && Parsed.extra[2..2 + 0] == [];
    assert AddBytes(base, 0, [0, 255]) == [65, 65];
  }

  const TooMuchExtra: Patch := Patch([1, 5, 7, 1, 0, 0], [0, 0], [9], 2)

  /** Extra bytes that do not fit are passed over, and the move with them. */
  lemma ExtraPassedOver()
    ensures LengthsInRange(TooMuchExtra) && Patched([65, 66], TooMuchExtra) == Some([65, 66])
  {
    hide Run, Step;
    var base: seq<byte> := [65, 66];
    RunStart(base, TooMuchExtra);
    RunNext(base, TooMuchExtra, 0);
    DiffOnly(base);
    RunNext(base, TooMuchExtra, 1);
    SecondByte(base);
  }

  lemma DiffOnly(base: seq<byte>)
    requires base == [65, 66]
    ensures Step(base, TooMuchExtra, Replay([], 0, 0, 0), 1, 5, 7) == Replay([65], 1, 1, 0)
  {
    assert TooMuchExtra.diff[0..0 + 1] == [0];
    assert AddBytes(base, 0, [0]) == [65];
  }

  lemma SecondByte(base: seq<byte>)
    requires base == [65, 66]
    ensures Step(base, TooMuchExtra, Replay([65], 1, 1, 0), 1, 0, 0) == Replay([65, 66], 2, 2, 0)
  {
    assert TooMuchExtra.diff[1..1 + 1] == [0] && TooMuchExtra.extra[0..0 + 0] == [];
    assert AddBytes(base, 1, [0]) == [66];
  }

  /** Without triples there is a new file only if it is empty. */
  lemma NoTriples(base: seq<byte>, diff: seq<byte>, extra: seq<byte>, newSize: nat)
    ensures var p := Patch([], diff, extra, newSize);
            LengthsInRange(p) && Patched(base, p) == if newSize == 0 then Some([]) else None
  {
  }
}
