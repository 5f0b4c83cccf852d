/**
 The patch file: four 32-bit header fields, control triples, diff bytes, extra bytes; the streams
 it travels through; and what replaying the control triples means.
*/
module PatchFormat {
  import opened Basics
  import opened NetworkOrder

  /** A 32-bit integer in network byte order; other values wrap around. */
  function Int32Bytes(x: int): (b: seq<byte>)
    ensures |b| == 4
  {
    Bytes(x % WORD, 4)
  }

  function BytesInt32(b: seq<byte>): (x: int)
    requires |b| == 4
    ensures FitsInt32(x)
  {
    PlacesOf();
    Signed(Unsigned(b))
  }

  lemma Int32RoundTrip(x: int)
    ensures FitsInt32(x) <==> BytesInt32(Int32Bytes(x)) == x
  {
    hide Bytes, Unsigned;
    PlacesOf();
    UnsignedBytes(x % WORD, 4);
  }

  function Int32sBytes(xs: seq<int>): (b: seq<byte>)
    ensures |b| == 4 * |xs|
  {
    if xs == [] then [] else Int32sBytes(xs[..|xs| - 1]) + Int32Bytes(xs[|xs| - 1])
  }

  function BytesInt32s(b: seq<byte>, n: nat): (xs: seq<int>)
    requires 4 * n <= |b|
    ensures |xs| == n
  {
    if n == 0 then [] else BytesInt32s(b, n - 1) + [BytesInt32(b[4 * (n - 1)..4 * n])]
  }

  lemma {:induction false} Int32sRoundTrip(xs: seq<int>, rest: seq<byte>)
    requires forall i :: 0 <= i < |xs| ==> FitsInt32(xs[i])
    ensures BytesInt32s(Int32sBytes(xs) + rest, |xs|) == xs
    decreases |xs|
  {
    if xs != [] {
      var n := |xs|;
      var front, last := xs[..n - 1], Int32Bytes(xs[n - 1]);
      Int32sRoundTrip(front, last + rest);
      assert Int32sBytes(xs) + rest == Int32sBytes(front) + (last + rest);
      assert (Int32sBytes(xs) + rest)[4 * (n - 1)..4 * n] == last;
      Int32RoundTrip(xs[n - 1]);
    }
  }

  class InputStream {
    const data: seq<byte>
    var ptr: nat

    constructor (data: seq<byte>)
      ensures this.data == data && ptr == 0
    {
      this.data := data;
      ptr := 0;
    }

    method Measure() returns (size: nat)
      ensures size == |data|
    {
      size := |data|;
    }

    method ReadBytes(count: nat) returns (ok: bool, bytes: seq<byte>)
      requires ptr <= |data|
      modifies this
      ensures ok <==> old(ptr) + count <= |data|
      ensures ok ==> bytes == data[old(ptr)..old(ptr) + count] && ptr == old(ptr) + count
      ensures !ok ==> ptr == old(ptr)
      ensures ptr <= |data|
    {
      if |data| - ptr < count {
        return false, [];
      }
      ok, bytes := true, data[ptr..ptr + count];
      ptr := ptr + count;
    }

    method ReadInt32() returns (ok: bool, value: int)
      requires ptr <= |data|
      modifies this
      ensures ok <==> old(ptr) + 4 <= |data|
      ensures ok ==> value == BytesInt32(data[old(ptr)..old(ptr) + 4]) && ptr == old(ptr) + 4
      ensures !ok ==> ptr == old(ptr)
      ensures ptr <= |data|
    {
      if |data| - ptr < 4 {
        return false, 0;
      }
      ok, value := true, BytesInt32(data[ptr..ptr + 4]);
      ptr := ptr + 4;
    }
  }

  class OutputStream {
    var data: seq<byte>
    var ptr: nat

    constructor ()
      ensures data == [] && ptr == 0
    {
      data, ptr := [], 0;
    }

    method Rewind()
      modifies this
      ensures ptr == 0 && data == old(data)
    {
      ptr := 0;
    }

    method WriteBytes(bytes: seq<byte>)
      requires ptr <= |data|
      modifies this
      ensures data == Overwrite(old(data), old(ptr), bytes) && ptr == old(ptr) + |bytes| <= |data|
    {
      data := Overwrite(data, ptr, bytes);
      ptr := ptr + |bytes|;
    }

    method WriteInt32(value: int)
      requires ptr <= |data|
      modifies this
      ensures data == Overwrite(old(data), old(ptr), Int32Bytes(value)) && ptr == old(ptr) + 4 <= |data|
    {
      WriteBytes(Int32Bytes(value));
    }
  }

  /** A patch, taken apart. The control numbers come in triples: how many diff bytes, how many
      extra bytes, how far to move in the old file. */
  datatype Patch = Patch(control: seq<int>, diff: seq<byte>, extra: seq<byte>, newSize: int)

  function PatchBytes(p: Patch): seq<byte>
  {
    Int32sBytes([4 * |p.control|, |p.diff|, |p.extra|, p.newSize]) + Int32sBytes(p.control) + p.diff + p.extra
  }

  /** C's division by four, which rounds towards zero. */
  function Quarter(x: int): int
  {
    if x >= 0 then x / 4 else -(-x / 4)
  }

  /** The patch that a reader gets out of a file, if the file is long enough. */
  function ParsePatch(data: seq<byte>): Option<Patch>
    requires |data| >= 16 ==> HeaderInRange(data)
  {
    if |data| < 16 then None else
    var header := BytesInt32s(data, 4);
    var n := Quarter(header[0]);
    var rest := data[16..];
    if |rest| < 4 * n + header[1] + header[2] then None
    else Some(Patch(BytesInt32s(rest, n), rest[4 * n..4 * n + header[1]],
                    rest[4 * n + header[1]..4 * n + header[1] + header[2]], header[3]))
  }

  /** The sizes in the header are used as unsigned lengths without a check. */
  predicate HeaderInRange(data: seq<byte>)
    requires |data| >= 16
  {
    var header := BytesInt32s(data, 4);
    header[0] >= 0 && header[1] >= 0 && header[2] >= 0 && header[3] >= 0
  }

  lemma ParseRoundTrip(p: Patch)
    requires 4 * |p.control| < INT32_LIMIT && |p.diff| < INT32_LIMIT && |p.extra| < INT32_LIMIT
    requires 0 <= p.newSize < INT32_LIMIT
    requires forall i :: 0 <= i < |p.control| ==> FitsInt32(p.control[i])
    ensures |PatchBytes(p)| >= 16 && HeaderInRange(PatchBytes(p))
    ensures ParsePatch(PatchBytes(p)) == Some(p)
  {
    hide BytesInt32, Int32Bytes, BytesInt32s, Int32sBytes;
    var header := [4 * |p.control|, |p.diff|, |p.extra|, p.newSize];
    var control := Int32sBytes(p.control);
    var rest := control + p.diff + p.extra;
    var n := |p.control|;
    assert PatchBytes(p) == Int32sBytes(header) + rest;
    Int32sRoundTrip(header, rest);
    assert PatchBytes(p)[16..] == rest;
    assert rest == control + (p.diff + p.extra);
    Int32sRoundTrip(p.control, p.diff + p.extra);
    RestParts(control, p.diff, p.extra);
  }

  lemma RestParts(a: seq<byte>, b: seq<byte>, c: seq<byte>)
    ensures (a + b + c)[|a|..|a| + |b|] == b
    ensures (a + b + c)[|a| + |b|..|a| + |b| + |c|] == c
  {
  }

  /** How far a replay has got: the new bytes so far, the place in the old file, and how many
      diff and extra bytes are used up. */
  datatype Replay = Replay(out: seq<byte>, oldPos: int, diffPos: nat, extraPos: nat) | Stuck

  /** The byte of the old file that a diff byte is added to; 0 outside the file. */
  function OldByte(base: seq<byte>, p: int): byte
  {
    if 0 <= p < |base| then base[p] else 0
  }

  function AddBytes(base: seq<byte>, oldPos: int, diff: seq<byte>): (r: seq<byte>)
    ensures |r| == |diff|
  {
    seq(|diff|, i requires 0 <= i < |diff| => (diff[i] as int + OldByte(base, oldPos + i) as int) % 256)
  }

  /** One control triple. A triple with too many extra bytes is not an error: only its diff part
      is carried out. */
  function Step(base: seq<byte>, p: Patch, s: Replay, d: nat, e: nat, seek: int): Replay
    requires s.Replay?
  {
    if |s.out| + d > p.newSize || s.diffPos + d > |p.diff| then Stuck
    else
      var out := s.out + AddBytes(base, s.oldPos, p.diff[s.diffPos..s.diffPos + d]);
      if |out| + e <= p.newSize && s.extraPos + e <= |p.extra| then
        Replay(out + p.extra[s.extraPos..s.extraPos + e], s.oldPos + d + seek, s.diffPos + d, s.extraPos + e)
      else
        Replay(out, s.oldPos + d, s.diffPos + d, s.extraPos)
  }

  /** No control triple asks for a negative number of bytes. */
  predicate LengthsInRange(p: Patch)
  {
    forall k :: 0 <= k < |p.control| / 3 ==> p.control[3 * k] >= 0 && p.control[3 * k + 1] >= 0
  }

  /** The state after k triples; a replay that is stuck or complete stays as it is. */
  function Run(base: seq<byte>, p: Patch, k: nat): Replay
    requires LengthsInRange(p) && k <= |p.control| / 3
  {
    if k == 0 then Replay([], 0, 0, 0)
    else
      var s := Run(base, p, k - 1);
      if s.Stuck? || |s.out| >= p.newSize then s
      else Step(base, p, s, p.control[3 * (k - 1)], p.control[3 * (k - 1) + 1], p.control[3 * (k - 1) + 2])
  }

  /** The sums that one triple takes, in the order in which they are taken, are 32-bit numbers. */
  predicate StepFits(p: Patch, s: Replay, d: nat, e: nat, seek: int)
    requires s.Replay?
  {
    && FitsInt32(|s.out| + d)
    && (|s.out| + d <= p.newSize ==> FitsInt32(s.diffPos + d))
    && (|s.out| + d <= p.newSize && s.diffPos + d <= |p.diff| ==>
          && FitsInt32(s.oldPos + d) && FitsInt32(|s.out| + d + e)
          && (|s.out| + d + e <= p.newSize ==> FitsInt32(s.extraPos + e))
          && (|s.out| + d + e <= p.newSize && s.extraPos + e <= |p.extra| ==> FitsInt32(s.oldPos + d + seek)))
  }

  /** The sums of every triple that the replay comes to are 32-bit numbers. */
  predicate RunFits(base: seq<byte>, p: Patch)
    requires LengthsInRange(p)
  {
    forall k :: 0 <= k < |p.control| / 3 && Run(base, p, k).Replay? && |Run(base, p, k).out| < p.newSize ==>
                  StepFits(p, Run(base, p, k), p.control[3 * k], p.control[3 * k + 1], p.control[3 * k + 2])
  }

  /** What a patch makes of the old file: the new file, or a failure. */
  function Patched(base: seq<byte>, p: Patch): Option<seq<byte>>
    requires LengthsInRange(p)
  {
    var s := Run(base, p, |p.control| / 3);
    if s.Replay? && |s.out| >= p.newSize then Some(s.out) else None
  }
}
