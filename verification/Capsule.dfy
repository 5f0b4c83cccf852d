/**
 The queue of buckets that a capsule reads its input from: a fill appends a bucket, a read takes
 bytes from the front and drops the buckets that it empties.
*/
module Capsule {
  import opened Basics

  class Bucket {
    const data: seq<byte>
    var length: nat
    var offset: nat

    constructor (data: seq<byte>)
      ensures this.data == data && Valid() && Bytes() == data
    {
      this.data, length, offset := data, |data|, 0;
    }

    predicate Valid()
      reads this
    {
      offset + length <= |data|
    }

    /** What is left in the bucket. */
    ghost function Bytes(): (s: seq<byte>)
      requires Valid()
      reads this
      ensures |s| == length
    {
      data[offset..offset + length]
    }

    /** Moves bytes from the front of the bucket into a buffer. */
    method Take(buffer: array<byte>, pos: nat, amount: nat)
      requires Valid() && amount <= length && pos + amount <= buffer.Length
      modifies this, buffer
      ensures Valid() && length == old(length) - amount && Bytes() == old(Bytes())[amount..]
      ensures buffer[..] == Overwrite(old(buffer[..]), pos, old(Bytes())[..amount])
    {
      forall i | 0 <= i < amount {
        buffer[pos + i] := data[offset + i];
      }
      length := length - amount;
      offset := offset + amount;
    }
  }

  ghost predicate AllValid(buckets: seq<Bucket>)
    reads buckets
  {
    forall i :: 0 <= i < |buckets| ==> buckets[i].Valid()
  }

  /** What is left in a list of buckets. */
  ghost function Contents(buckets: seq<Bucket>): seq<byte>
    requires AllValid(buckets)
    reads buckets
  {
    if buckets == [] then []
    else
      assert AllValid(buckets[1..]);
      buckets[0].Bytes() + Contents(buckets[1..])
  }

  lemma {:induction false} ContentsAppend(buckets: seq<Bucket>, last: Bucket)
    requires AllValid(buckets) && last.Valid()
    ensures AllValid(buckets + [last]) && Contents(buckets + [last]) == Contents(buckets) + last.Bytes()
  {
    if buckets == [] {
      assert buckets + [last] == [last] && [last][1..] == [];
    } else {
      assert AllValid(buckets[1..]);
      ContentsAppend(buckets[1..], last);
      assert (buckets + [last])[1..] == buckets[1..] + [last];
    }
  }

  lemma ContentsFront(buckets: seq<Bucket>)
    requires AllValid(buckets) && buckets != []
    ensures buckets[0].Valid() && AllValid(buckets[1..])
    ensures Contents(buckets) == buckets[0].Bytes() + Contents(buckets[1..])
  {
  }

  predicate Distinct(buckets: seq<Bucket>)
  {
    forall i, j :: 0 <= i < j < |buckets| ==> buckets[i] != buckets[j]
  }

  /** How much a read of a size takes from what is left: all of it, or if there is less, as many
      whole words as there are. */
  function Taken(left: seq<byte>, size: nat): (n: nat)
    ensures n <= |left| && n <= size
    ensures size % 4 == 0 ==> n % 4 == 0
  {
    var available := |left| % WORD;
    if size > available then available / 4 * 4 else size
  }

  /** The last ones of a list of buckets. */
  ghost predicate Suffix(all: seq<Bucket>, end: seq<Bucket>)
  {
    |end| <= |all| && end == all[|all| - |end|..]
  }

  class Queue {
    var buckets: seq<Bucket>
    var complete: bool
    var available: nat

    ghost predicate Valid()
      reads this, buckets
    {
      && Distinct(buckets) && AllValid(buckets)
      && available == |Contents(buckets)| % WORD
    }

    constructor ()
      ensures Valid() && Contents(buckets) == [] && buckets == []
    {
      buckets, complete, available := [], false, 0;
    }

    /** MCCapsuleFillCommon, with data in memory */
    method Fill(data: seq<byte>, finished: bool)
      requires Valid() && |data| < WORD
      modifies this
      ensures Valid() && complete == finished
      ensures AllValid(old(buckets)) && Contents(buckets) == old(Contents(buckets)) + data
      ensures fresh(set b | b in buckets && b !in old(buckets))
    {
      hide Contents, AllValid, Distinct, Bucket.Valid, Bucket.Bytes;
      var bucket := new Bucket(data);
      ContentsAppend(buckets, bucket);
      DistinctAppend(buckets, bucket);
      buckets := buckets + [bucket];
      complete := finished;
      available := (available + |data|) % WORD;
    }

    /** One round of the reading loop: as much as is wanted from the front bucket, which is dropped
        if that empties it. */
    method TakeFront(buffer: array<byte>, pos: nat, total: nat) returns (amount: nat)
      requires Valid() && buckets != [] && 0 < total <= available && pos + total <= buffer.Length
      modifies this`buckets, this`available, buckets[0], buffer
      ensures Valid() && AllValid(buckets) && available == old(available) - amount
      ensures amount <= total && amount <= |old(Contents(buckets))|
      ensures Contents(buckets) == old(Contents(buckets))[amount..]
      ensures buffer[..] == Overwrite(old(buffer[..]), pos, old(Contents(buckets))[..amount])
      ensures buckets == old(buckets) || buckets == old(buckets)[1..]
      ensures amount > 0 || buckets == old(buckets)[1..]
    {
      hide Contents, AllValid, Distinct, Overwrite;
      ghost var was := Contents(buckets);
      ContentsFront(buckets);
      DistinctFront(buckets);
      var bucket := buckets[0];
      amount := if total < bucket.length then total else bucket.length;
      RemainderLess(|was|, amount);
      assert was[..amount] == bucket.Bytes()[..amount];
      bucket.Take(buffer, pos, amount);
      ContentsBack(buckets);
      available := available - amount;
      if bucket.length == 0 {
        buckets := buckets[1..];
      }
    }

    /** The reading loop. */
    method TakeAll(buffer: array<byte>, start: nat, size: nat)
      requires Valid() && AllValid(buckets) && size <= available && size <= |Contents(buckets)|
               && start + size <= buffer.Length
      modifies this`buckets, this`available, (set b | b in buckets), buffer
      ensures Valid() && AllValid(buckets) && Contents(buckets) == old(Contents(buckets))[size..]
      ensures buffer[..] == Overwrite(old(buffer[..]), start, old(Contents(buckets))[..size])
      ensures Suffix(old(buckets), buckets)
    {
      hide Contents, AllValid, Suffix, Valid, Overwrite;
      ghost var all, was, list := Contents(buckets), buffer[..], buckets;
      SuffixSelf(list);
      var total, pos := size, start;
      NothingWritten(was, start, all);
      while total > 0
        invariant 0 <= total <= available && start <= pos && pos + total == start + size
        invariant Valid() && AllValid(buckets) && Suffix(list, buckets)
        invariant Contents(buckets) == all[size - total..]
        invariant buffer[..] == Overwrite(was, start, all[..size - total])
        decreases |buckets| + total
      {
        NotEmpty(buckets);
        SuffixOnly(list, buckets);
        var amount := TakeFront(buffer, pos, total);
        Moved(was, start, all, size - total, amount);
        pos := pos + amount;
        total := total - amount;
      }
    }

    /** MCCapsuleReadBuckets, into part of a buffer */
    method Read(buffer: array<byte>, start: nat, size: nat) returns (filled: nat)
      requires Valid() && start + size <= buffer.Length
      modifies this`buckets, this`available, (set b | b in buckets), buffer
      ensures Valid()
      ensures filled == Taken(old(Contents(buckets)), size)
      ensures Contents(buckets) == old(Contents(buckets))[filled..]
      ensures buffer[..] == Overwrite(old(buffer[..]), start, old(Contents(buckets))[..filled])
      ensures Suffix(old(buckets), buckets)
    {
      hide Contents, AllValid, Distinct;
      if size == 0 || buckets == [] {
        NothingLeft(buckets);
        return 0;
      }
      filled := size;
      if filled > available {
        filled := available / 4 * 4;
      }
      TakeAll(buffer, start, filled);
    }
  }

  lemma SuffixSelf(all: seq<Bucket>)
    ensures Suffix(all, all)
  {
  }

  lemma SuffixOnly(all: seq<Bucket>, end: seq<Bucket>)
    requires Suffix(all, end)
    ensures forall b :: b in end ==> b in all
    ensures end != [] ==> Suffix(all, end[1..])
  {
  }

  lemma DistinctFront(buckets: seq<Bucket>)
    requires Distinct(buckets) && buckets != []
    ensures Distinct(buckets[1..]) && buckets[0] !in buckets[1..]
  {
  }

  lemma ContentsBack(buckets: seq<Bucket>)
    requires buckets != [] && buckets[0].Valid() && AllValid(buckets[1..])
    ensures AllValid(buckets) && Contents(buckets) == buckets[0].Bytes() + Contents(buckets[1..])
  {
    forall i | 0 <= i < |buckets| ensures buckets[i].Valid() {
      if i > 0 { assert buckets[i] == buckets[1..][i - 1]; }
    }
  }

  lemma RemainderLess(n: nat, k: nat)
    requires k <= n % WORD
    ensures (n - k) % WORD == n % WORD - k
  {
  }

  lemma NothingLeft(buckets: seq<Bucket>)
    requires AllValid(buckets)
    ensures buckets == [] ==> Contents(buckets) == []
  {
  }

  lemma NotEmpty(buckets: seq<Bucket>)
    requires AllValid(buckets) && |Contents(buckets)| > 0
    ensures buckets != []
  {
  }

  lemma DistinctAppend(buckets: seq<Bucket>, last: Bucket)
    requires Distinct(buckets) && last !in buckets
    ensures Distinct(buckets + [last])
  {
  }

  lemma NothingWritten(was: seq<byte>, start: nat, all: seq<byte>)
    requires start <= |was|
    ensures Overwrite(was, start, all[..0]) == was
  {
  }

  /** One more stretch of the contents moved into a buffer. */
  lemma Moved(was: seq<byte>, start: nat, all: seq<byte>, done: nat, amount: nat)
    requires done + amount <= |all| && start + done + amount <= |was|
    ensures Overwrite(Overwrite(was, start, all[..done]), start + done, all[done..][..amount])
         == Overwrite(was, start, all[..done + amount])
    ensures all[done..][amount..] == all[done + amount..]
  {
    hide Overwrite;
    assert all[..done + amount] == all[..done] + all[done..][..amount];
    WrittenOn(was, start, all[..done], all[done..][..amount]);
  }

  lemma WrittenOn(was: seq<byte>, start: nat, a: seq<byte>, b: seq<byte>)
    requires start + |a| + |b| <= |was|
    ensures Overwrite(Overwrite(was, start, a), start + |a|, b) == Overwrite(was, start, a + b)
  {
    var w, m := Overwrite(was, start, a), start + |a|;
    assert w[..m] == was[..start] + a;
    assert w[m + |b|..] == was[m + |b|..];
  }

  /** A fill, or a read. */
  datatype Step = Filled(data: seq<byte>) | Asked(size: nat)

  /** What is read, and what is left, after some fills and reads as Fill and Read say. */
  ghost function Output(steps: seq<Step>, left: seq<byte>): seq<byte>
  {
    if steps == [] then []
    else
      match steps[0]
      case Filled(data) => Output(steps[1..], left + data)
      case Asked(size) => left[..Taken(left, size)] + Output(steps[1..], left[Taken(left, size)..])
  }

  ghost function Remainder(steps: seq<Step>, left: seq<byte>): seq<byte>
  {
    if steps == [] then left
    else
      match steps[0]
      case Filled(data) => Remainder(steps[1..], left + data)
      case Asked(size) => Remainder(steps[1..], left[Taken(left, size)..])
  }

  ghost function Input(steps: seq<Step>): seq<byte>
  {
    if steps == [] then []
    else (match steps[0] case Filled(data) => data case Asked(_) => []) + Input(steps[1..])
  }

  lemma Regroup(a: seq<byte>, b: seq<byte>, c: seq<byte>)
    ensures (a + b) + c == a + (b + c)
  {
  }

  /** Over any run, what is read is the front of what was filled, in order, and nothing is lost. */
  lemma {:induction false} FirstInFirstOut(steps: seq<Step>, left: seq<byte>)
    ensures Output(steps, left) + Remainder(steps, left) == left + Input(steps)
  {
    hide Taken;
    if steps == [] {
      assert left + [] == left;
    } else {
      var rest := steps[1..];
      match steps[0]
      case Filled(data) =>
        FirstInFirstOut(rest, left + data);
        Regroup(left, data, Input(rest));
      case Asked(size) =>
        var n := Taken(left, size);
        FirstInFirstOut(rest, left[n..]);
        Regroup(left[..n], Output(rest, left[n..]), Remainder(rest, left[n..]));
        Regroup(left[..n], left[n..], Input(rest));
        assert left[..n] + left[n..] == left;
        assert Input(steps) == Input(rest);
    }
  }

  /** If only whole words are asked for, only whole words are read. */
  lemma {:induction false} WholeWords(steps: seq<Step>, left: seq<byte>)
    requires forall i :: 0 <= i < |steps| && steps[i].Asked? ==> steps[i].size % 4 == 0
    ensures |Output(steps, left)| % 4 == 0
  {
    hide Taken;
    if steps != [] {
      match steps[0]
      case Filled(data) =>
        WholeWords(steps[1..], left + data);
      case Asked(size) =>
        assert steps[0].size % 4 == 0;
        WholeWords(steps[1..], left[Taken(left, size)..]);
    }
  }

  /** Such a read takes nothing if and only if less than a word is left. */
  lemma ReadStarves(left: seq<byte>, size: nat)
    requires 0 < size && size % 4 == 0 && |left| < WORD
    ensures Taken(left, size) == 0 <==> |left| < 4
  {
  }

  /** A read that is not short takes what it was asked for. One that is takes whole words, and leaves
      less than a word. */
  lemma ShortRead(left: seq<byte>, size: nat)
    requires |left| < WORD
    ensures size <= |left| ==> Taken(left, size) == size
    ensures size > |left| ==> Taken(left, size) % 4 == 0 && |left| - Taken(left, size) < 4
  {
  }

  lemma FrontWritten(buffer: seq<byte>, x: seq<byte>)
    requires |x| <= |buffer|
    ensures Overwrite(buffer, 0, x)[..|x|] == x
  {
  }

  /** One read into a buffer of its own. */
  method ReadNext(queue: Queue, size: nat) returns (part: seq<byte>)
    requires queue.Valid()
    modifies queue`buckets, queue`available, (set b | b in queue.buckets)
    ensures queue.Valid() && part == old(Contents(queue.buckets))[..Taken(old(Contents(queue.buckets)), size)]
    ensures Contents(queue.buckets) == old(Contents(queue.buckets))[|part|..]
    ensures Suffix(old(queue.buckets), queue.buckets)
  {
    hide Contents, AllValid, Distinct, Overwrite, Taken;
    var buffer := new byte[size](_ => 0);
    ghost var was, left := buffer[..], Contents(queue.buckets);
    var filled := queue.Read(buffer, 0, size);
    FrontWritten(was, left[..filled]);
    part := buffer[..filled];
  }

  /** A run of fills and reads on a queue. What is read is the front of what was there and was
      filled, in order, and the rest is there. */
  method Serve(queue: Queue, steps: seq<Step>) returns (out: seq<byte>)
    requires queue.Valid() && forall i :: 0 <= i < |steps| && steps[i].Filled? ==> |steps[i].data| < WORD
    modifies queue, (set b | b in queue.buckets)
    ensures queue.Valid() && AllValid(queue.buckets)
    ensures out == Output(steps, old(Contents(queue.buckets)))
    ensures Contents(queue.buckets) == Remainder(steps, old(Contents(queue.buckets)))
    ensures out + Contents(queue.buckets) == old(Contents(queue.buckets)) + Input(steps)
    decreases |steps|
  {
    hide Contents, AllValid, Distinct, Taken, Suffix, Bucket.Valid, Bucket.Bytes, Input;
    FirstInFirstOut(steps, Contents(queue.buckets));
    out := [];
    if steps != [] {
      ghost var list := queue.buckets;
      match steps[0] {
        case Filled(data) =>
          queue.Fill(data, false);
        case Asked(size) =>
          out := ReadNext(queue, size);
          SuffixOnly(list, queue.buckets);
      }
      var rest := Serve(queue, steps[1..]);
      out := out + rest;
    }
  }
}
