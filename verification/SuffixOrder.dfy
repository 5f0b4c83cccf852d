/**
 The order of the suffixes of a byte string, in the two forms the patch builder needs.

 A suffix is named by its start. Positions at or past the end read as symbol 0, below every
 byte, so that a suffix which is a proper prefix of another comes first and no two suffixes
 are equal.
*/
module SuffixOrder {
  import opened Basics

  function Sym(text: seq<byte>, p: nat): nat
  {
    if p < |text| then 1 + text[p] as int else 0
  }

  /** Suffixes a and b have the same first h symbols. */
  ghost predicate Agree(text: seq<byte>, a: nat, b: nat, h: nat)
    decreases h
  {
    h == 0 || (Sym(text, a) == Sym(text, b) && Agree(text, a + 1, b + 1, h - 1))
  }

  /** Suffix a comes strictly before suffix b. */
  ghost predicate Less(text: seq<byte>, a: nat, b: nat)
    decreases |text| - a
  {
    Sym(text, a) < Sym(text, b)
    || (Sym(text, a) == Sym(text, b) && a < |text| && b < |text| && Less(text, a + 1, b + 1))
  }

  /** s and t share their first k bytes and s ends there or is smaller there. */
  ghost predicate SmallerAt(s: seq<byte>, t: seq<byte>, k: nat)
  {
    k <= |s| && k < |t| && s[..k] == t[..k] && (k == |s| || s[k] < t[k])
  }

  /** The usual lexicographic order on byte strings: a reference that knows nothing of Sym. */
  ghost predicate LexLess(s: seq<byte>, t: seq<byte>)
  {
    exists k: nat :: SmallerAt(s, t, k)
  }

  lemma {:induction false} AgreeReflexive(text: seq<byte>, a: nat, h: nat)
    ensures Agree(text, a, a, h)
    decreases h
  {
    if h > 0 { AgreeReflexive(text, a + 1, h - 1); }
  }

  lemma {:induction false} AgreeExtend(text: seq<byte>, a: nat, b: nat, h: nat, k: nat)
    requires Agree(text, a, b, h) && Agree(text, a + h, b + h, k)
    ensures Agree(text, a, b, h + k)
    decreases h
  {
    if h > 0 { AgreeExtend(text, a + 1, b + 1, h - 1, k); }
  }

  /** Two different suffixes can only agree on symbols that lie inside both. */
  lemma {:induction false} AgreeInRange(text: seq<byte>, a: nat, b: nat, h: nat)
    requires a <= |text| && b <= |text| && a != b
    requires Agree(text, a, b, h)
    ensures a + h <= |text| && b + h <= |text|
    decreases h
  {
    if h > 0 { AgreeInRange(text, a + 1, b + 1, h - 1); }
  }

  lemma {:induction false} LessAfterAgree(text: seq<byte>, a: nat, b: nat, h: nat)
    requires a + h <= |text| && b + h <= |text|
    requires Agree(text, a, b, h) && Less(text, a + h, b + h)
    ensures Less(text, a, b)
    decreases h
  {
    if h > 0 { LessAfterAgree(text, a + 1, b + 1, h - 1); }
  }

  lemma SmallerAtCons(c: byte, s: seq<byte>, t: seq<byte>, k: nat)
    ensures SmallerAt([c] + s, [c] + t, k + 1) <==> SmallerAt(s, t, k)
  {
    var cs, ct := [c] + s, [c] + t;
    if k <= |s| && k < |t| {
      assert cs[..k + 1] == [c] + s[..k] && ct[..k + 1] == [c] + t[..k];
      assert s[..k] == cs[..k + 1][1..] && t[..k] == ct[..k + 1][1..];
    }
  }

  lemma LexCons(c: byte, s: seq<byte>, t: seq<byte>)
    ensures LexLess([c] + s, [c] + t) <==> LexLess(s, t)
  {
    if LexLess(s, t) {
      var k: nat :| SmallerAt(s, t, k);
      SmallerAtCons(c, s, t, k);
    }
    if LexLess([c] + s, [c] + t) {
      var k: nat :| SmallerAt([c] + s, [c] + t, k);
      assert k > 0;
      SmallerAtCons(c, s, t, k - 1);
    }
  }

  lemma SamePrefixHead(s: seq<byte>, t: seq<byte>, k: nat)
    requires 0 < k <= |s| && k <= |t| && s[..k] == t[..k]
    ensures s[0] == t[0]
  {
    assert s[0] == s[..k][0] && t[0] == t[..k][0];
  }

  lemma LexHead(s: seq<byte>, t: seq<byte>)
    requires s == [] || t == [] || s[0] != t[0]
    ensures LexLess(s, t) <==> t != [] && (s == [] || s[0] < t[0])
  {
    if t != [] && (s == [] || s[0] < t[0]) {
      assert SmallerAt(s, t, 0);
    }
    if LexLess(s, t) {
      var k: nat :| SmallerAt(s, t, k);
      if k > 0 { SamePrefixHead(s, t, k); assert false; }
    }
  }

  /** Less is the lexicographic order of the suffixes as byte strings. */
  lemma {:induction false} LessIsLexicographic(text: seq<byte>, a: nat, b: nat)
    requires a <= |text| && b <= |text|
    ensures Less(text, a, b) <==> LexLess(text[a..], text[b..])
    decreases |text| - a
  {
    var s, t := text[a..], text[b..];
    if a < |text| && b < |text| && text[a] == text[b] {
      assert s == [text[a]] + text[a + 1..];
      assert t == [text[a]] + text[b + 1..];
      calc {
        Less(text, a, b);
        Less(text, a + 1, b + 1);
        { LessIsLexicographic(text, a + 1, b + 1); }
        LexLess(text[a + 1..], text[b + 1..]);
        { LexCons(text[a], text[a + 1..], text[b + 1..]); }
        LexLess(s, t);
      }
    } else {
      LexHead(s, t);
    }
  }
}
