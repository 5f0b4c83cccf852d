/**
 Walking over the characters of a text paragraph whose blocks hold either single bytes or UTF-16
 code units. The text may be ill-formed, and a block may end in half a code unit.
*/
module TextWalk {
  import opened Basics

  /** A run of the paragraph's bytes: those at index .. index + size - 1. */
  datatype Block = Block(index: nat, size: nat, unicode: bool)
  {
    function End(): nat { index + size }

    predicate Has(at: nat) { index <= at <= End() }
  }

  datatype Paragraph = Paragraph(text: seq<byte>, blocks: seq<Block>, bigEndian: bool)
  {
    /** The blocks follow each other, and together hold the text. */
    predicate Valid()
    {
      && |blocks| > 0 && blocks[0].index == 0 && blocks[|blocks| - 1].End() == |text|
      && (forall k :: 0 <= k < |blocks| ==> blocks[k].End() <= |text|)
      && (forall k :: 0 < k < |blocks| ==> Follows(k))
    }

    predicate Follows(k: nat)
      requires 0 < k < |blocks|
    {
      blocks[k].index == blocks[k - 1].End()
    }

    /** The code unit at a byte position, in the byte order of the host. */
    function Unit(at: nat): nat
      requires at + 2 <= |text|
    {
      if bigEndian then text[at] as int * 256 + text[at + 1] as int else text[at] as int + text[at + 1] as int * 256
    }

    predicate High(at: nat)
      requires at + 2 <= |text|
    {
      0xD800 <= Unit(at) <= 0xDBFF
    }

    predicate Low(at: nat)
      requires at + 2 <= |text|
    {
      0xDC00 <= Unit(at) <= 0xDFFF
    }

    /** indexincrement */
    function Increment(k: nat, at: nat): (n: nat)
      requires Valid() && k < |blocks| && blocks[k].Has(at)
      ensures 1 <= n <= 4
    {
      var b := blocks[k];
      if !b.unicode then 1
      else
        var this' := if (at - b.index) % 2 != 0 then at - 1 else at;
        if b.End() - this' < 2 then 1
        else if !High(this') || b.End() - this' < 4 || !Low(this' + 2) then this' + 2 - at
        else this' + 4 - at
    }

    /** indexdecrement */
    function Decrement(k: nat, at: nat): (n: nat)
      requires Valid() && k < |blocks| && blocks[k].Has(at)
      ensures 1 <= n <= 4
      decreases k
    {
      var b := blocks[k];
      if at <= b.index then
        if b.index == 0 then 1
        else
          assert k > 0 && Follows(k);
          Decrement(k - 1, at)
      else if !b.unicode then 1
      else
        var this' := if (at - b.index) % 2 != 0 then at - 1 else at - 2;
        if b.End() - this' < 2 then 1
        else if !Low(this') || this' - b.index < 2 || !High(this' - 2) then at - this'
        else at - (this' - 2)
    }

    /** Whether a position lies between the two halves of a surrogate pair of a block. */
    predicate SplitsPair(k: nat, at: nat)
      requires Valid() && k < |blocks|
    {
      blocks[k].index + 2 <= at && at + 2 <= blocks[k].End() && High(at - 2) && Low(at)
    }

    /** Where a character of a block begins or ends: its ends, and in between any position in a
        block of single bytes, but in UTF-16 only one between code units that are not a pair. */
    predicate Boundary(k: nat, at: nat)
      requires Valid() && k < |blocks|
    {
      var b := blocks[k];
      && b.Has(at)
      && (b.unicode && at != b.End() ==> (at - b.index) % 2 == 0 && !SplitsPair(k, at))
    }

    ghost predicate Stop(at: nat)
      requires Valid()
    {
      exists k :: 0 <= k < |blocks| && Boundary(k, at)
    }

    /** The block that holds the byte at a position. */
    function BlockAt(at: nat, k: nat): (r: nat)
      requires Valid() && at < |text| && k < |blocks| && blocks[k].index <= at
      ensures r < |blocks| && blocks[r].index <= at < blocks[r].End()
      decreases |blocks| - k
    {
      if at < blocks[k].End() then k
      else
        assert k + 1 < |blocks| && Follows(k + 1);
        BlockAt(at, k + 1)
    }

    /** The position after n steps from the start of the text. */
    function Walk(n: nat): (at: nat)
      requires Valid()
      ensures at <= |text|
    {
      if n == 0 then 0
      else
        var at := Walk(n - 1);
        if at == |text| then at
        else
          var k := BlockAt(at, 0);
          NextBoundary(this, k, at);
          at + Increment(k, at)
    }
  }

  /** One step on is the next boundary of the block, from any position. */
  lemma NextBoundary(p: Paragraph, k: nat, at: nat)
    requires p.Valid() && k < |p.blocks| && p.blocks[k].index <= at < p.blocks[k].End()
    ensures p.Boundary(k, at + p.Increment(k, at))
    ensures forall u :: at < u < at + p.Increment(k, at) ==> !p.Boundary(k, u)
  {
  }

  /** One step back is the previous boundary. */
  lemma PreviousBoundary(p: Paragraph, k: nat, at: nat)
    requires p.Valid() && k < |p.blocks| && p.blocks[k].index < at <= p.blocks[k].End()
    ensures at - p.Decrement(k, at) >= p.blocks[k].index && p.Boundary(k, at - p.Decrement(k, at))
    ensures forall u :: at - p.Decrement(k, at) < u < at ==> !p.Boundary(k, u)
  {
  }

  lemma {:induction false} InOrder(p: Paragraph, j: nat, k: nat)
    requires p.Valid() && j < k < |p.blocks|
    ensures p.blocks[j].End() <= p.blocks[k].index
  {
    assert p.Follows(k);
    if j < k - 1 { InOrder(p, j, k - 1); }
  }

  /** Inside a block only its own boundaries count. */
  lemma StopInside(p: Paragraph, k: nat, at: nat)
    requires p.Valid() && k < |p.blocks| && p.blocks[k].index < at < p.blocks[k].End()
    ensures p.Stop(at) <==> p.Boundary(k, at)
  {
    forall j | 0 <= j < |p.blocks| && p.Boundary(j, at) ensures j == k {
      if j < k { InOrder(p, j, k); } else if k < j { InOrder(p, k, j); }
    }
  }

  /** A step on from any position leads to the next stop. */
  lemma StepOn(p: Paragraph, k: nat, at: nat)
    requires p.Valid() && k < |p.blocks| && p.blocks[k].index <= at < p.blocks[k].End()
    ensures p.Stop(at + p.Increment(k, at))
    ensures forall u :: at < u < at + p.Increment(k, at) ==> !p.Stop(u)
  {
    NextBoundary(p, k, at);
    forall u | at < u < at + p.Increment(k, at) ensures !p.Stop(u) {
      StopInside(p, k, u);
    }
  }

  /** A step back from any position but the first leads to the stop before it, whichever of the
      blocks that have the position is asked. */
  lemma {:induction false} StepBack(p: Paragraph, k: nat, at: nat)
    requires p.Valid() && k < |p.blocks| && p.blocks[k].Has(at) && at > 0
    ensures at >= p.Decrement(k, at) && p.Stop(at - p.Decrement(k, at))
    ensures forall u :: at - p.Decrement(k, at) < u < at ==> !p.Stop(u)
    decreases k
  {
    if at == p.blocks[k].index {
      assert k > 0 && p.Follows(k);
      StepBack(p, k - 1, at);
    } else {
      PreviousBoundary(p, k, at);
      forall u | at - p.Decrement(k, at) < u < at ensures !p.Stop(u) {
        StopInside(p, k, u);
      }
    }
  }

  /** From a stop, a step on and a step back return to it. */
  lemma OnAndBack(p: Paragraph, k: nat, at: nat, j: nat)
    requires p.Valid() && p.Stop(at)
    requires k < |p.blocks| && p.blocks[k].index <= at < p.blocks[k].End()
    requires j < |p.blocks| && p.blocks[j].Has(at + p.Increment(k, at))
    ensures p.Decrement(j, at + p.Increment(k, at)) == p.Increment(k, at)
  {
    hide Paragraph.Increment, Paragraph.Decrement, Paragraph.Stop;
    StepOn(p, k, at);
    StepBack(p, j, at + p.Increment(k, at));
  }

  /** And a step back and a step on. */
  lemma BackAndOn(p: Paragraph, j: nat, at: nat, k: nat)
    requires p.Valid() && p.Stop(at) && at > 0
    requires j < |p.blocks| && p.blocks[j].Has(at) && p.Decrement(j, at) <= at
    requires var u := at - p.Decrement(j, at); k < |p.blocks| && p.blocks[k].index <= u < p.blocks[k].End()
    ensures p.Increment(k, at - p.Decrement(j, at)) == p.Decrement(j, at)
  {
    hide Paragraph.Increment, Paragraph.Decrement, Paragraph.Stop;
    StepBack(p, j, at);
    StepOn(p, k, at - p.Decrement(j, at));
  }

  lemma {:induction false} WalkStops(p: Paragraph, n: nat)
    requires p.Valid()
    ensures p.Stop(p.Walk(n))
  {
    hide Paragraph.Increment, Paragraph.Decrement;
    if n == 0 {
      assert p.Boundary(0, 0);
    } else {
      WalkStops(p, n - 1);
      var at := p.Walk(n - 1);
      if at < |p.text| { StepOn(p, p.BlockAt(at, 0), at); }
    }
  }

  /** The number of steps to a stop. */
  lemma {:induction false} WalkReaches(p: Paragraph, at: nat, from: nat) returns (n: nat)
    requires p.Valid() && p.Stop(at) && p.Walk(from) <= at
    ensures p.Walk(n) == at
    decreases at - p.Walk(from)
  {
    hide Paragraph.Increment, Paragraph.Decrement, Paragraph.Stop;
    var here := p.Walk(from);
    if here == at {
      n := from;
    } else {
      StopInText(p, at);
      StepOn(p, p.BlockAt(here, 0), here);
      assert p.Walk(from + 1) == here + p.Increment(p.BlockAt(here, 0), here);
      n := WalkReaches(p, at, from + 1);
    }
  }

  lemma StopInText(p: Paragraph, at: nat)
    requires p.Valid() && p.Stop(at)
    ensures at <= |p.text|
  {
  }

  /** The walk from the start visits the stops, and nothing else. */
  lemma WalkVisitsStops(p: Paragraph, at: nat)
    requires p.Valid()
    ensures p.Stop(at) <==> exists n :: p.Walk(n) == at
  {
    if p.Stop(at) {
      var n := WalkReaches(p, at, 0);
    }
    forall n | p.Walk(n) == at ensures p.Stop(at) { WalkStops(p, n); }
  }

  /** No stop is inside a surrogate pair, even one of an ill-formed text. */
  lemma StopsKeepPairs(p: Paragraph, k: nat, at: nat)
    requires p.Valid() && k < |p.blocks| && p.blocks[k].unicode && p.SplitsPair(k, at)
    ensures !p.Stop(at) && forall n :: p.Walk(n) != at
  {
    StopInside(p, k, at);
    WalkVisitsStops(p, at);
  }
}
