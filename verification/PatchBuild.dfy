/**
 Building a patch: scan for matches, turn each stretch between two of them into a record, and lay
 the file out. The records tile the new file and replaying them gives it back.
*/
module PatchBuild {
  import opened Basics
  import opened SuffixSort
  import opened MatchSearch
  import opened PatchScan
  import opened PatchFormat
  import opened PatchRecord

  lemma Int32sOneMore(xs: seq<int>, a: int)
    ensures Int32sBytes(xs + [a]) == Int32sBytes(xs) + Int32Bytes(a)
  {
    assert (xs + [a])[..|xs|] == xs;
  }

  lemma Int32sAppend(xs: seq<int>, a: int, b: int, c: int)
    ensures Int32sBytes(xs + [a, b, c]) == Int32sBytes(xs) + Int32Bytes(a) + Int32Bytes(b) + Int32Bytes(c)
  {
    hide Int32sBytes, Int32Bytes;
    Int32sOneMore(xs, a);
    Int32sOneMore(xs + [a], b);
    Int32sOneMore(xs + [a] + [b], c);
    assert xs + [a, b, c] == xs + [a] + [b] + [c];
  }

  lemma Int32sFour(a: int, b: int, c: int, d: int)
    ensures Int32sBytes([a, b, c, d]) == Int32Bytes(a) + Int32Bytes(b) + Int32Bytes(c) + Int32Bytes(d)
  {
    Int32sAppend([a], b, c, d);
    assert [a] + [b, c, d] == [a, b, c, d];
    assert [a][..0] == [];
    assert Int32sBytes([a]) == [] + Int32Bytes(a) == Int32Bytes(a);
  }

  /** Writing three numbers at the end of a stream, or over its first twelve bytes. */
  method WriteThree(patch: OutputStream, a: int, b: int, c: int)
    requires patch.ptr <= |patch.data|
    modifies patch
    ensures patch.ptr == old(patch.ptr) + 12 <= |patch.data|
    ensures old(patch.ptr) == |old(patch.data)| ==>
              patch.data == old(patch.data) + Int32Bytes(a) + Int32Bytes(b) + Int32Bytes(c)
    ensures old(patch.ptr) == 0 && |old(patch.data)| >= 12 ==>
              patch.data == Int32Bytes(a) + Int32Bytes(b) + Int32Bytes(c) + old(patch.data[12..])
  {
    hide Int32Bytes;
    patch.WriteInt32(a);
    patch.WriteInt32(b);
    patch.WriteInt32(c);
  }

  /** The stream holds a provisional header and the control numbers so far. */
  ghost predicate ControlWritten(data: seq<byte>, ptr: nat, p: Patch)
  {
    data == Int32sBytes([0, 0, 0, p.newSize]) + Int32sBytes(p.control) && ptr == |data|
  }

  /** The end of the build: diff and extra bytes follow, and the sizes go over the header. */
  method Finish(patch: OutputStream, controlSize: int, db: seq<byte>, eb: seq<byte>, ghost p: Patch)
    requires ControlWritten(patch.data, patch.ptr, p)
    requires controlSize == 4 * |p.control| && db == p.diff && eb == p.extra
    modifies patch
    ensures patch.data == PatchBytes(p) && patch.ptr == 0
  {
    hide Int32Bytes, Int32sBytes;
    patch.WriteBytes(db);
    patch.WriteBytes(eb);
    ghost var header := Int32sBytes([0, 0, 0, p.newSize]);
    ghost var body := Int32sBytes(p.control) + db + eb;
    assert patch.data == header + body;
    patch.Rewind();
    WriteThree(patch, controlSize, |db|, |eb|);
    Int32sFour(0, 0, 0, p.newSize);
    Int32sFour(controlSize, |db|, |eb|, p.newSize);
    assert (header + body)[12..] == Int32Bytes(p.newSize) + body;
    assert patch.data == Int32sBytes([controlSize, |db|, |eb|, p.newSize]) + body;
    patch.Rewind();
  }

  /** What is true between two rounds of the main loop, the streams and buffers apart. */
  ghost predicate Building(base: seq<byte>, target: seq<byte>, p: Patch, scan: int, len: int, pos: int,
                           lastScan: int, lastPos: int, lastOffset: int)
  {
    && Covers(base, target, p, lastScan, lastPos)
    && 0 <= lastScan <= scan <= |target| && 0 <= lastPos <= |base| && 0 <= pos <= |base|
    && 0 <= scan + lastOffset
    && (if scan < |target| then
          0 <= len <= |target| - scan && lastScan < |target| && 3 * |p.control| <= scan + len
        else
          lastScan == |target| && 3 * |p.control| <= |target| + 9)
  }

  lemma BuildingStart(base: seq<byte>, target: seq<byte>)
    ensures Building(base, target, Patch([], [], [], |target|), 0, 0, 0, 0, 0, 0)
  {
  }

  /** One round that emits a record. */
  lemma BuildingRecord(base: seq<byte>, target: seq<byte>, p: Patch, p': Patch, scan0: int, len0: int, pos0: int,
                       lastScan: int, lastPos: int, lastOffset: int, scan: int, len: int, pos: int, lenf: int,
                           lenb: int)
    requires |base| < INT32_LIMIT && |target| < INT32_LIMIT
    requires Building(base, target, p, scan0, len0, pos0, lastScan, lastPos, lastOffset) && scan0 < |target|
    requires scan0 + len0 <= scan <= |target| && 0 <= pos <= |base|
    requires scan < |target| ==> 9 <= len <= |target| - scan
    requires scan == |target| ==> lenb == 0
    requires 0 <= lenf && 0 <= lenb <= pos && lastPos + lenf <= |base| && lastScan + lenf <= scan - lenb
    requires p' == WithRecord(base, target, p, lastPos, lastScan, scan, pos, lenf, lenb)
    ensures Building(base, target, p', scan, len, pos, scan - lenb, pos - lenb, pos - scan)
    ensures p'.newSize == p.newSize && |p'.control| == |p.control| + 3
  {
    hide Covers;
    CoversMore(base, target, p, p', lastPos, lastScan, scan, pos, lenf, lenb);
  }

  /** The buffers hold the diff and extra bytes of the records so far. */
  ghost predicate Buffered(db: seq<byte>, dblen: int, eb: seq<byte>, eblen: int, p: Patch)
  {
    0 <= dblen <= |db| && 0 <= eblen <= |eb| && db[..dblen] == p.diff && eb[..eblen] == p.extra
  }

  /** Diff bytes, extra bytes and control triple of one record. */
  method EmitRecord(patch: OutputStream, db: array<byte>, dblen: nat, eb: array<byte>, eblen: nat, base: seq<byte>,
                    target: seq<byte>,
                    lastPos: nat, lastScan: nat, scan: nat, pos: nat, lenf: nat, lenb: nat, ghost p: Patch)
    requires db != eb && db.Length == eb.Length == |target| + 1
    requires lastPos + lenf <= |base| && lastScan + lenf <= scan - lenb && scan <= |target|
    requires Buffered(db[..], dblen, eb[..], eblen, p) && dblen + eblen == lastScan
    requires ControlWritten(patch.data, patch.ptr, p)
    modifies patch, db, eb
    ensures var p' := WithRecord(base, target, p, lastPos, lastScan, scan, pos, lenf, lenb);
            && ControlWritten(patch.data, patch.ptr, p')
            && Buffered(db[..], dblen + lenf, eb[..], eblen + (scan - lenb - (lastScan + lenf)), p')
  {
    hide Int32sBytes, Int32Bytes, SubBytes;
    var e, seek := scan - lenb - (lastScan + lenf), pos - lenb - (lastPos + lenf);
    FillDiff(db, dblen, base, lastPos, target, lastScan, lenf);
    FillExtra(eb, eblen, target, lastScan + lenf, e);
    WriteThree(patch, lenf, e, seek);
    Int32sAppend(p.control, lenf, e, seek);
  }

  /** The variables of the main loop between two rounds, and the patch so far. */
  datatype Scan = Scan(scan: nat, len: nat, pos: nat, lastScan: nat, lastPos: nat, lastOffset: int, p: Patch)

  /** How a round cuts the stretch since the last record. */
  datatype Division = Division(lenf: nat, lenb: nat, f0: nat, b0: nat, cut: nat)

  /** One round of the main loop: on to the first place after the last match where the scan stops,
      or to the end; then, unless going on as before does just as well, a record. */
  ghost predicate Round(base: seq<byte>, order: seq<int>, target: seq<byte>, s: Scan, t: Scan, d: Division)
    requires IsSuffixArray(base, order)
  {
    SuffixArrayPermutation(base, order);
    var from := s.scan + s.len;
    && from <= t.scan <= |target| && t.pos <= |base| && s.lastPos <= |base| && s.lastScan <= t.scan
    && (forall k :: from <= k < t.scan ==> !Stops(base, order, target, from, k, s.lastOffset))
    && (t.scan < |target| ==>
          && Stops(base, order, target, from, t.scan, s.lastOffset)
          && t.len == LenAt(base, order, target, t.scan) == CommonPrefix(base[t.pos..], target[t.scan..]))
    && if t.scan == |target| || t.len != Score(base, order, target, from, t.scan, s.lastOffset) then
         && Divides(base, target, s.lastPos, s.lastScan, t.scan, t.pos, d.lenf, d.lenb, d.f0, d.b0, d.cut)
         && s.lastPos + d.lenf <= |base| && s.lastScan + d.lenf <= t.scan - d.lenb && d.lenb <= t.pos
         && t.p == WithRecord(base, target, s.p, s.lastPos, s.lastScan, t.scan, t.pos, d.lenf, d.lenb)
         && t.lastScan == t.scan - d.lenb && t.lastPos == t.pos - d.lenb && t.lastOffset == t.pos - t.scan
       else
         t.p == s.p && t.lastScan == s.lastScan && t.lastPos == s.lastPos && t.lastOffset == s.lastOffset
  }

  /** Rounds from the start of the new file, none from its end. */
  ghost predicate Rounds(base: seq<byte>, order: seq<int>, target: seq<byte>, run: seq<Scan>, cuts: seq<Division>)
    requires IsSuffixArray(base, order)
  {
    && |run| == |cuts| + 1 && run[0] == Scan(0, 0, 0, 0, 0, 0, Patch([], [], [], |target|))
    && forall i :: 0 <= i < |cuts| ==>
         run[i].scan < |target| && Round(base, order, target, run[i], run[i + 1], cuts[i])
  }

  lemma RoundsStart(base: seq<byte>, order: seq<int>, target: seq<byte>)
    requires IsSuffixArray(base, order)
    ensures Rounds(base, order, target, [Scan(0, 0, 0, 0, 0, 0, Patch([], [], [], |target|))], [])
  {
  }

  lemma RoundsMore(base: seq<byte>, order: seq<int>, target: seq<byte>, run: seq<Scan>, cuts: seq<Division>, t: Scan,
                   d: Division)
    requires IsSuffixArray(base, order) && Rounds(base, order, target, run, cuts)
    requires run[|run| - 1].scan < |target| && Round(base, order, target, run[|run| - 1], t, d)
    ensures Rounds(base, order, target, run + [t], cuts + [d])
  {
    hide Round;
    forall i | 0 <= i < |cuts + [d]|
      ensures (run + [t])[i].scan < |target|
      ensures Round(base, order, target, (run + [t])[i], (run + [t])[i + 1], (cuts + [d])[i])
    {
    }
  }

  lemma RoundWithRecord(base: seq<byte>, order: seq<int>, target: seq<byte>, s: Scan, t: Scan, d: Division, score: int)
    requires IsSuffixArray(base, order)
             && Next(base, order, target, s.scan + s.len, s.lastOffset, t.scan, t.len, t.pos, score)
    requires t.scan == |target| || t.len != score
    requires s.lastPos <= |base| && s.lastScan <= t.scan
    requires Divides(base, target, s.lastPos, s.lastScan, t.scan, t.pos, d.lenf, d.lenb, d.f0, d.b0, d.cut)
    requires s.lastPos + d.lenf <= |base| && s.lastScan + d.lenf <= t.scan - d.lenb && d.lenb <= t.pos
    requires t.p == WithRecord(base, target, s.p, s.lastPos, s.lastScan, t.scan, t.pos, d.lenf, d.lenb)
    requires t.lastScan == t.scan - d.lenb && t.lastPos == t.pos - d.lenb && t.lastOffset == t.pos - t.scan
    ensures Round(base, order, target, s, t, d)
  {
    hide IsSuffixArray, Stops, LenAt, Score, CommonPrefix, Divides, WithRecord;
  }

  lemma RoundWithout(base: seq<byte>, order: seq<int>, target: seq<byte>, s: Scan, t: Scan, d: Division, score: int)
    requires IsSuffixArray(base, order)
             && Next(base, order, target, s.scan + s.len, s.lastOffset, t.scan, t.len, t.pos, score)
    requires t.scan < |target| && t.len == score && s.lastPos <= |base| && s.lastScan <= t.scan
    requires t == s.(scan := t.scan, len := t.len, pos := t.pos)
    ensures Round(base, order, target, s, t, d)
  {
    hide IsSuffixArray, Stops, LenAt, Score, CommonPrefix, Divides, WithRecord;
  }

  /** The record of the stretch up to a match: divided, and emitted. */
  method NextRecord(patch: OutputStream, db: array<byte>, dblen: nat, eb: array<byte>, eblen: nat, base: seq<byte>,
                    target: seq<byte>, lastPos: nat, lastScan: nat, scan: nat, pos: nat, ghost p: Patch)
    returns (lenf: nat, lenb: nat, ghost d: Division)
    requires db != eb && db.Length == eb.Length == |target| + 1
    requires lastPos <= |base| && lastScan <= scan <= |target| && pos <= |base|
    requires Buffered(db[..], dblen, eb[..], eblen, p) && dblen + eblen == lastScan
    requires ControlWritten(patch.data, patch.ptr, p)
    modifies patch, db, eb
    ensures d.lenf == lenf <= |base| - lastPos && d.lenb == lenb <= pos && lastScan + lenf <= scan - lenb
    ensures Divides(base, target, lastPos, lastScan, scan, pos, lenf, lenb, d.f0, d.b0, d.cut)
    ensures scan == |target| ==> lenb == 0
    ensures var p' := WithRecord(base, target, p, lastPos, lastScan, scan, pos, lenf, lenb);
            && ControlWritten(patch.data, patch.ptr, p')
            && Buffered(db[..], dblen + lenf, eb[..], eblen + (scan - lenb - (lastScan + lenf)), p')
  {
    hide Divides, ControlWritten, Buffered, WithRecord;
    ghost var f0, b0, cut;
    lenf, lenb, f0, b0, cut := Divide(base, target, lastPos, lastScan, scan, pos);
    NoBackwardAtEnd(base, target, lastPos, lastScan, scan, pos, lenf, lenb, f0, b0, cut);
    EmitRecord(patch, db, dblen, eb, eblen, base, target, lastPos, lastScan, scan, pos, lenf, lenb, p);
    d := Division(lenf, lenb, f0, b0, cut);
  }

  /** bsdiffmain, from the two files in memory to the patch file. */
  method Build(base: seq<byte>, target: seq<byte>, patch: OutputStream)
    returns (ghost p: Patch, ghost order: seq<int>, ghost run: seq<Scan>, ghost cuts: seq<Division>)
    requires |base| < INT32_LIMIT && |target| < INT32_LIMIT
    requires patch.data == [] && patch.ptr == 0
    modifies patch
    ensures patch.data == PatchBytes(p)
    ensures LengthsInRange(p) && Patched(base, p) == Some(target) && RunFits(base, p)
    ensures p.newSize == |target| == |p.diff| + |p.extra| && 3 * |p.control| <= |target| + 9
    ensures forall i :: 0 <= i < |p.control| ==> FitsInt32(p.control[i])
    ensures IsSuffixArray(base, order) && Rounds(base, order, target, run, cuts)
    ensures run[|run| - 1].scan == |target| && run[|run| - 1].p == p
  {
    hide Building, Covers, Int32sBytes, Int32Bytes, IsSuffixArray, Divides, Stops, SubBytes, LengthsInRange, Score,
      ControlWritten, CommonPrefix, LenAt, Patched, Buffered, WithRecord, Rounds, Round, Next,
      RunFits;
    var index, rank := new int[|base| + 1](_ => 0), new int[|base| + 1](_ => 0);
    SortSuffixes(index, rank, base);

    var db, eb := new byte[|target| + 1](_ => 0), new byte[|target| + 1](_ => 0);
    var dblen, eblen, controlSize := 0, 0, 0;
    WriteThree(patch, 0, 0, 0);
    patch.WriteInt32(|target|);
    p := Patch([], [], [], |target|);
    EmptyControl(patch.data, |target|);
    EmptyBuffers(db[..], eb[..], p);
    BuildingStart(base, target);

    var scan, len, pos := 0, 0, 0;
    var lastScan, lastPos, lastOffset := 0, 0, 0;
    order := index[..];
    run, cuts := [Scan(0, 0, 0, 0, 0, 0, p)], [];
    RoundsStart(base, order, target);
    while scan < |target|
      invariant IsSuffixArray(base, order) && index[..] == order
      invariant Rounds(base, order, target, run, cuts) && 0 < |run|
      invariant 0 <= lastScan && 0 <= lastPos && 0 <= pos
                && run[|run| - 1] == Scan(scan, len, pos, lastScan, lastPos, lastOffset, p)
      invariant Building(base, target, p, scan, len, pos, lastScan, lastPos, lastOffset)
      invariant 0 <= scan <= |target| && 0 <= len && p.newSize == |target|
      invariant ControlWritten(patch.data, patch.ptr, p) && controlSize == 4 * |p.control|
      invariant Buffered(db[..], dblen, eb[..], eblen, p)
      decreases |target| - scan, if len == 0 then 1 else 0
    {
      BuildingBounds(base, target, p, scan, len, pos, lastScan, lastPos, lastOffset);
      BufferedSlices(db[..], dblen, eb[..], eblen, p);
      ghost var scan0, len0, pos0 := scan, len, pos;
      var score;
      scan, len, pos, score := NextMatch(index, base, target, scan + len, lastOffset, len, pos);
      if len != score || scan == |target| {
        var lenf, lenb;
        ghost var d;
        lenf, lenb, d := NextRecord(patch, db, dblen, eb, eblen, base, target, lastPos, lastScan, scan, pos, p);
        ghost var p' := WithRecord(base, target, p, lastPos, lastScan, scan, pos, lenf, lenb);
        BuildingRecord(base, target, p, p', scan0, len0, pos0, lastScan, lastPos, lastOffset, scan, len, pos, lenf,
                       lenb);
        dblen := dblen + lenf;
        eblen := eblen + (scan - lenb - (lastScan + lenf));
        controlSize := controlSize + 12;
        ghost var t := Scan(scan, len, pos, scan - lenb, pos - lenb, pos - scan, p');
        RoundWithRecord(base, order, target, run[|run| - 1], t, d, score);
        RoundsMore(base, order, target, run, cuts, t, d);
        run, cuts := run + [t], cuts + [d];
        lastScan := scan - lenb;
        lastPos := pos - lenb;
        lastOffset := pos - scan;
        p := p';
      } else {
        BuildingOn(base, target, p, scan0, len0, pos0, lastScan, lastPos, lastOffset, scan, len, pos);
        ghost var d := Division(0, 0, 0, 0, 0);
        ghost var t := Scan(scan, len, pos, lastScan, lastPos, lastOffset, p);
        RoundWithout(base, order, target, run[|run| - 1], t, d, score);
        RoundsMore(base, order, target, run, cuts, t, d);
        run, cuts := run + [t], cuts + [d];
      }
    }
    BufferedSlices(db[..], dblen, eb[..], eblen, p);
    Finish(patch, controlSize, db[..dblen], eb[..eblen], p);
    BuildingEnd(base, target, p, scan, len, pos, lastScan, lastPos, lastOffset);
  }

  lemma EmptyBuffers(db: seq<byte>, eb: seq<byte>, p: Patch)
    requires p.diff == [] && p.extra == []
    ensures Buffered(db, 0, eb, 0, p)
  {
  }

  lemma BufferedSlices(db: seq<byte>, dblen: int, eb: seq<byte>, eblen: int, p: Patch)
    requires Buffered(db, dblen, eb, eblen, p)
    ensures 0 <= dblen <= |db| && 0 <= eblen <= |eb| && db[..dblen] == p.diff && eb[..eblen] == p.extra
  {
  }

  lemma EmptyControl(data: seq<byte>, size: int)
    requires data == Int32Bytes(0) + Int32Bytes(0) + Int32Bytes(0) + Int32Bytes(size)
    ensures ControlWritten(data, |data|, Patch([], [], [], size))
  {
    hide Int32Bytes;
    Int32sFour(0, 0, 0, size);
  }

  lemma BuildingBounds(base: seq<byte>, target: seq<byte>, p: Patch, scan: int, len: int, pos: int,
                       lastScan: int, lastPos: int, lastOffset: int)
    requires Building(base, target, p, scan, len, pos, lastScan, lastPos, lastOffset)
    ensures 0 <= lastScan <= scan <= |target| && 0 <= lastPos <= |base| && 0 <= pos <= |base|
    ensures 0 <= scan + lastOffset && p.newSize == |target| && |p.diff| + |p.extra| == lastScan
    ensures scan < |target| ==> 0 <= len <= |target| - scan
  {
  }

  /** At the end of the new file nothing is extended backwards. */
  lemma NoBackwardAtEnd(base: seq<byte>, target: seq<byte>, lastPos: nat, lastScan: nat, scan: nat, pos: nat,
                        lenf: int, lenb: int, f0: nat, b0: nat, cut: nat)
    requires lastPos <= |base| && lastScan <= scan <= |target| && pos <= |base|
    requires Divides(base, target, lastPos, lastScan, scan, pos, lenf, lenb, f0, b0, cut)
    ensures scan == |target| ==> lenb == 0
  {
  }

  /** One round that goes on without a record. */
  lemma BuildingOn(base: seq<byte>, target: seq<byte>, p: Patch, scan0: int, len0: int, pos0: int,
                   lastScan: int, lastPos: int, lastOffset: int, scan: int, len: int, pos: int)
    requires Building(base, target, p, scan0, len0, pos0, lastScan, lastPos, lastOffset) && scan0 < |target|
    requires scan0 + len0 <= scan < |target| && 0 <= pos <= |base| && 0 < len <= |target| - scan
    ensures Building(base, target, p, scan, len, pos, lastScan, lastPos, lastOffset)
  {
    hide Covers;
  }

  lemma BuildingEnd(base: seq<byte>, target: seq<byte>, p: Patch, scan: int, len: int, pos: int,
                    lastScan: int, lastPos: int, lastOffset: int)
    requires Building(base, target, p, scan, len, pos, lastScan, lastPos, lastOffset) && scan >= |target|
    requires |target| < INT32_LIMIT
    ensures LengthsInRange(p) && Patched(base, p) == Some(target) && RunFits(base, p)
    ensures p.newSize == |target| == |p.diff| + |p.extra| && 3 * |p.control| <= |target| + 9
    ensures forall i :: 0 <= i < |p.control| ==> FitsInt32(p.control[i])
  {
    hide Run, Smooth, RunFits;
    SmoothFits(base, p);
    assert target[..|target|] == target;
  }
}
