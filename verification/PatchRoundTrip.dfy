/**
 Building a patch and applying it.
*/
module PatchRoundTrip {
  import opened Basics
  import opened PatchFormat
  import opened PatchApply
  import opened PatchBuild

  /** A control block whose size fits a signed 32-bit number. */
  predicate ControlFits(p: Patch)
  {
    4 * |p.control| < INT32_LIMIT
  }

  /** Up to this size of the new file the control block fits: a record takes twelve bytes, and there
      is at most one for every nine bytes of the file and one more. */
  const LARGEST_NEW_FILE: nat := INT32_LIMIT / 4 * 3 - 12

  /** A patch file that was built is read back as the patch it was built from if and only if its
      control block fits; otherwise its first size is read as a negative number. */
  lemma BuiltIsReadable(base: seq<byte>, target: seq<byte>, p: Patch)
    requires |target| < INT32_LIMIT
    requires LengthsInRange(p) && p.newSize == |target| == |p.diff| + |p.extra| && 3 * |p.control| <= |target| + 9
    requires forall i :: 0 <= i < |p.control| ==> FitsInt32(p.control[i])
    ensures var file := PatchBytes(p);
            && |file| >= 16
            && (ControlFits(p) <==> BytesInt32(file[..4]) >= 0)
            && (ControlFits(p) <==> Readable(file) && ParsePatch(file) == Some(p))
  {
    FirstSize(p);
    if ControlFits(p) {
      ParseRoundTrip(p);
    } else {
      FirstField(PatchBytes(p));
    }
  }

  lemma FirstField(file: seq<byte>)
    requires |file| >= 16 && BytesInt32(file[..4]) < 0
    ensures !HeaderInRange(file)
  {
    HeaderFields(file);
    assert file[0..4] == file[..4];
  }

  lemma FirstSize(p: Patch)
    requires 4 * |p.control| < WORD
    ensures |PatchBytes(p)| >= 16
    ensures ControlFits(p) <==> BytesInt32(PatchBytes(p)[..4]) >= 0
  {
    var size := 4 * |p.control|;
    var header := [size, |p.diff|, |p.extra|, p.newSize];
    Int32sFour(size, |p.diff|, |p.extra|, p.newSize);
    assert PatchBytes(p)[..4] == Int32Bytes(size);
    SignOfSize(size);
  }

  lemma SignOfSize(size: nat)
    requires size < WORD
    ensures BytesInt32(Int32Bytes(size)) >= 0 <==> size < INT32_LIMIT
  {
    if size < INT32_LIMIT {
      Int32RoundTrip(size);
    } else {
      Int32RoundTrip(size - WORD);
      assert size % WORD == (size - WORD) % WORD;
    }
  }

  /** For all old and new files whose sizes are 32-bit numbers: if the control block fits, as it does
      up to a certain size of the new file, applying the patch succeeds and writes exactly the new
      file. */
  method BuildAndApply(base: seq<byte>, target: seq<byte>)
    returns (fits: bool, ok: bool, result: seq<byte>, ghost p: Patch)
    requires |base| < INT32_LIMIT && |target| < INT32_LIMIT
    ensures p.newSize == |target| && LengthsInRange(p) && Patched(base, p) == Some(target)
    ensures fits <==> ControlFits(p)
    ensures fits ==> ok && result == target
    ensures |target| <= LARGEST_NEW_FILE ==> fits
  {
    var patch := new OutputStream();
    ghost var order, run, cuts;
    p, order, run, cuts := Build(base, target, patch);
    BuiltIsReadable(base, target, p);
    fits, ok, result := BytesInt32(patch.data[..4]) >= 0, false, [];
    if fits {
      var patchFile := new InputStream(patch.data);
      var oldFile := new InputStream(base);
      var newFile := new OutputStream();
      ok := Apply(patchFile, oldFile, newFile);
      result := newFile.data;
      assert Overwrite([], 0, target) == target;
    }
  }
}
