/**
 The UTF-16 encoding of code points, and what walking over it means: one step for each of them.
*/
module Utf16 {
  import opened Basics
  import opened TextWalk

  /** A Unicode scalar value: any code point but the surrogates. */
  type scalar = c: int | 0 <= c < 0x11_0000 && !(0xD800 <= c < 0xE000)

  /** A 16-bit code unit in memory. */
  function UnitBytes(u: nat, bigEndian: bool): (b: seq<byte>)
    requires u < 0x1_0000
    ensures |b| == 2
  {
    if bigEndian then [u / 256, u % 256] else [u % 256, u / 256]
  }

  /** The two halves of a code point beyond 16 bits. */
  function HighUnit(c: scalar): (u: nat)
    requires c >= 0x1_0000
  {
    0xD800 + (c - 0x1_0000) / 0x400
  }

  function LowUnit(c: scalar): (u: nat)
    requires c >= 0x1_0000
  {
    0xDC00 + (c - 0x1_0000) % 0x400
  }

  /** One unit, or a pair of surrogates. */
  function Encoded(c: scalar, bigEndian: bool): (b: seq<byte>)
    ensures |b| == if c < 0x1_0000 then 2 else 4
  {
    if c < 0x1_0000 then UnitBytes(c, bigEndian)
    else UnitBytes(HighUnit(c), bigEndian) + UnitBytes(LowUnit(c), bigEndian)
  }

  function Encoding(cs: seq<scalar>, bigEndian: bool): (b: seq<byte>)
  {
    if cs == [] then [] else Encoding(cs[..|cs| - 1], bigEndian) + Encoded(cs[|cs| - 1], bigEndian)
  }

  /** Where the first n code points end. */
  function EndOf(cs: seq<scalar>, bigEndian: bool, n: nat): (e: nat)
    requires n <= |cs|
  {
    |Encoding(cs[..n], bigEndian)|
  }

  lemma {:induction false} PieceAt(cs: seq<scalar>, bigEndian: bool, n: nat)
    requires n < |cs|
    ensures EndOf(cs, bigEndian, n + 1) == EndOf(cs, bigEndian, n) + |Encoded(cs[n], bigEndian)|
            <= |Encoding(cs, bigEndian)|
    ensures Encoding(cs, bigEndian)[EndOf(cs, bigEndian, n)..EndOf(cs, bigEndian, n + 1)] == Encoded(cs[n], bigEndian)
    decreases |cs|
  {
    hide Encoded;
    var m := |cs| - 1;
    assert cs[..n + 1][..n] == cs[..n];
    if n == m {
      assert cs[..n + 1] == cs;
    } else {
      var front := cs[..m];
      PieceAt(front, bigEndian, n);
      assert front[..n] == cs[..n] && front[..n + 1] == cs[..n + 1];
    }
  }

  lemma {:induction false} EndsEven(cs: seq<scalar>, bigEndian: bool, n: nat)
    requires n <= |cs|
    ensures EndOf(cs, bigEndian, n) % 2 == 0
  {
    hide Encoding;
    if n > 0 {
      EndsEven(cs, bigEndian, n - 1);
      PieceAt(cs, bigEndian, n - 1);
    } else {
      assert cs[..0] == [];
      NothingEncoded(bigEndian);
    }
  }

  lemma NothingEncoded(bigEndian: bool)
    ensures Encoding([], bigEndian) == []
  {
  }

  /** The block of a paragraph holds these code points. */
  ghost predicate Spells(p: Paragraph, k: nat, cs: seq<scalar>)
    requires p.Valid() && k < |p.blocks|
  {
    var b := p.blocks[k];
    b.unicode && p.text[b.index..b.End()] == Encoding(cs, p.bigEndian)
  }

  lemma UnitRead(p: Paragraph, at: nat, u: nat)
    requires at + 2 <= |p.text| && u < 0x1_0000 && p.text[at..at + 2] == UnitBytes(u, p.bigEndian)
    ensures p.Unit(at) == u
  {
    assert p.text[at] == p.text[at..at + 2][0] && p.text[at + 1] == p.text[at..at + 2][1];
  }

  /** The first unit of a code point is no low surrogate, and if there are two of them they are a
      high and a low one. */
  lemma UnitsAt(p: Paragraph, at: nat, c: scalar)
    requires at + |Encoded(c, p.bigEndian)| <= |p.text|
    requires p.text[at..at + |Encoded(c, p.bigEndian)|] == Encoded(c, p.bigEndian)
    ensures !p.Low(at)
    ensures c >= 0x1_0000 ==> p.High(at) && p.Low(at + 2)
  {
    hide UnitBytes, Paragraph.Unit;
    if c < 0x1_0000 {
      UnitRead(p, at, c);
    } else {
      var high, low := HighUnit(c), LowUnit(c);
      var part := p.text[at..at + 4];
      assert part[0..2] == p.text[at..at + 2] == UnitBytes(high, p.bigEndian);
      assert part[2..4] == p.text[at + 2..at + 4] == UnitBytes(low, p.bigEndian);
      UnitRead(p, at, high);
      UnitRead(p, at + 2, low);
    }
  }

  /** The surrogates that a walk looks for are all those that code points have, and no others. */
  lemma Surrogates(p: Paragraph, at: nat)
    requires at + 2 <= |p.text|
    ensures p.High(at) <==> exists c: scalar :: c >= 0x1_0000 && HighUnit(c) == p.Unit(at)
    ensures p.Low(at) <==> exists c: scalar :: c >= 0x1_0000 && LowUnit(c) == p.Unit(at)
  {
    hide Paragraph.Unit;
    var u := p.Unit(at);
    if p.High(at) {
      var c: scalar := 0x1_0000 + (u - 0xD800) * 0x400;
      assert HighUnit(c) == u;
    }
    if p.Low(at) {
      var c: scalar := 0x1_0000 + (u - 0xDC00);
      assert LowUnit(c) == u;
    }
  }

  /** Code point n, where it is in the paragraph. */
  lemma PieceInText(p: Paragraph, k: nat, cs: seq<scalar>, n: nat)
    requires p.Valid() && k < |p.blocks| && Spells(p, k, cs) && n < |cs|
    ensures var at, e := p.blocks[k].index + EndOf(cs, p.bigEndian, n), Encoded(cs[n], p.bigEndian);
            && at + |e| <= p.blocks[k].End() && p.text[at..at + |e|] == e
            && p.blocks[k].index + EndOf(cs, p.bigEndian, n + 1) == at + |e|
            && EndOf(cs, p.bigEndian, n) % 2 == 0
  {
    hide Encoding, Encoded, EndOf;
    var b, all := p.blocks[k], Encoding(cs, p.bigEndian);
    PieceAt(cs, p.bigEndian, n);
    EndsEven(cs, p.bigEndian, n);
    var i, j := EndOf(cs, p.bigEndian, n), EndOf(cs, p.bigEndian, n + 1);
    SliceOfSlice(p.text, b.index, b.End(), i, j);
  }

  lemma SliceOfSlice(t: seq<byte>, a: nat, b: nat, i: nat, j: nat)
    requires a <= b <= |t| && i <= j <= b - a
    ensures t[a..b][i..j] == t[a + i..a + j]
  {
    var x, y := t[a..b][i..j], t[a + i..a + j];
    assert |x| == |y| && forall k :: 0 <= k < |x| ==> x[k] == y[k];
  }

  /** Between the ends of code points n and n + 1, both included, only these are boundaries. */
  lemma BoundariesAround(p: Paragraph, k: nat, cs: seq<scalar>, n: nat, at: nat)
    requires p.Valid() && k < |p.blocks| && Spells(p, k, cs) && n < |cs|
    requires var i := p.blocks[k].index;
             i + EndOf(cs, p.bigEndian, n) <= at < i + EndOf(cs, p.bigEndian, n + 1)
    ensures p.Boundary(k, at) <==> at == p.blocks[k].index + EndOf(cs, p.bigEndian, n)
  {
    hide Encoded, EndOf, Paragraph.High, Paragraph.Low;
    PieceInText(p, k, cs, n);
    UnitsAt(p, p.blocks[k].index + EndOf(cs, p.bigEndian, n), cs[n]);
  }

  lemma {:induction false} Around(cs: seq<scalar>, bigEndian: bool, at: nat, m: nat) returns (n: nat)
    requires m <= |cs| && at < EndOf(cs, bigEndian, m)
    ensures n < m && EndOf(cs, bigEndian, n) <= at < EndOf(cs, bigEndian, n + 1)
  {
    hide Encoding;
    if m == 0 {
      assert cs[..0] == [];
      NothingEncoded(bigEndian);
      assert false;
    } else if at >= EndOf(cs, bigEndian, m - 1) {
      n := m - 1;
    } else {
      n := Around(cs, bigEndian, at, m - 1);
    }
  }

  /** The boundaries of a block that holds code points are just their ends, and its start. */
  lemma BoundariesAreEnds(p: Paragraph, k: nat, cs: seq<scalar>, at: nat)
    requires p.Valid() && k < |p.blocks| && Spells(p, k, cs)
    ensures p.Boundary(k, at) <==> exists n :: 0 <= n <= |cs| && at == p.blocks[k].index + EndOf(cs, p.bigEndian, n)
  {
    hide Encoding, Paragraph.SplitsPair;
    var b := p.blocks[k];
    WholeEnd(cs, p.bigEndian);
    if b.index <= at < b.End() {
      var n := Around(cs, p.bigEndian, at - b.index, |cs|);
      BoundariesAround(p, k, cs, n, at);
    }
    forall n | 0 <= n <= |cs| && at == b.index + EndOf(cs, p.bigEndian, n) ensures p.Boundary(k, at) {
      if n < |cs| {
        PieceInText(p, k, cs, n);
        BoundariesAround(p, k, cs, n, at);
      }
    }
  }

  lemma WholeEnd(cs: seq<scalar>, bigEndian: bool)
    ensures EndOf(cs, bigEndian, |cs|) == |Encoding(cs, bigEndian)| && EndOf(cs, bigEndian, 0) == 0
  {
    assert cs[..|cs|] == cs && cs[..0] == [];
    NothingEncoded(bigEndian);
  }

  /** So are the stops inside it. */
  lemma StopsAreEnds(p: Paragraph, k: nat, cs: seq<scalar>, at: nat)
    requires p.Valid() && k < |p.blocks| && Spells(p, k, cs) && p.blocks[k].index < at < p.blocks[k].End()
    ensures p.Stop(at) <==> exists n :: 0 <= n <= |cs| && at == p.blocks[k].index + EndOf(cs, p.bigEndian, n)
  {
    StopInside(p, k, at);
    BoundariesAreEnds(p, k, cs, at);
  }

  /** A step from the end of code point n on, or back to it, is a step over the next code point. */
  lemma StepsOverOne(p: Paragraph, k: nat, cs: seq<scalar>, n: nat)
    requires p.Valid() && k < |p.blocks| && Spells(p, k, cs) && n < |cs|
    ensures var i := p.blocks[k].index;
            var from, to := i + EndOf(cs, p.bigEndian, n), i + EndOf(cs, p.bigEndian, n + 1);
            && i <= from < to <= p.blocks[k].End()
            && p.Increment(k, from) == p.Decrement(k, to) == to - from
  {
    hide Encoded, EndOf, Paragraph.Increment, Paragraph.Decrement, Paragraph.Boundary;
    PieceInText(p, k, cs, n);
    var i := p.blocks[k].index;
    var from, to := i + EndOf(cs, p.bigEndian, n), i + EndOf(cs, p.bigEndian, n + 1);
    BoundariesAreEnds(p, k, cs, from);
    BoundariesAreEnds(p, k, cs, to);
    NextBoundary(p, k, from);
    PreviousBoundary(p, k, to);
    forall at | from < at < to ensures !p.Boundary(k, at) {
      BoundariesAround(p, k, cs, n, at);
    }
  }

  /** Over a text of code points, the walk takes one step for each of them. */
  lemma {:induction false} WalkSpells(p: Paragraph, cs: seq<scalar>, n: nat)
    requires p.Valid() && |p.blocks| == 1 && Spells(p, 0, cs) && n <= |cs|
    ensures p.Walk(n) == EndOf(cs, p.bigEndian, n)
  {
    hide Encoding, Paragraph.Increment;
    WholeEnd(cs, p.bigEndian);
    if n > 0 {
      WalkSpells(p, cs, n - 1);
      StepsOverOne(p, 0, cs, n - 1);
    }
  }
}
