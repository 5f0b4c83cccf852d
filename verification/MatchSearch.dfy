/**
 The binary search for a match of the target in the suffix array, with its exact limits: the
 comparison looks only at the shorter of suffix and target, so a suffix that is a proper prefix
 of the target counts as "not before" it although it sorts before every longer match.
*/
module MatchSearch {
  import opened Basics
  import opened SuffixOrder
  import opened SuffixRanks
  import opened SuffixSort

  /** The length of the longest common prefix. */
  function CommonPrefix(s: seq<byte>, t: seq<byte>): (k: nat)
    ensures k <= |s| && k <= |t| && s[..k] == t[..k]
    ensures k < |s| && k < |t| ==> s[k] != t[k]
  {
    if s == [] || t == [] || s[0] != t[0] then 0
    else
      var k := CommonPrefix(s[1..], t[1..]);
      assert s[..k + 1] == [s[0]] + s[1..][..k] && t[..k + 1] == [t[0]] + t[1..][..k];
      k + 1
  }

  lemma CommonPrefixAtLeast(s: seq<byte>, t: seq<byte>, k: nat)
    requires k <= |t|
    ensures CommonPrefix(s, t) >= k <==> t[..k] <= s
  {
    var c := CommonPrefix(s, t);
    if c >= k {
      assert t[..k] == t[..c][..k] == s[..c][..k] == s[..k];
    } else if t[..k] <= s {
      PrefixByte(t[..k], s, c);
      assert false;
    }
  }

  lemma PrefixByte(s: seq<byte>, t: seq<byte>, i: nat)
    requires s <= t && i < |s|
    ensures s[i] == t[i]
  {
  }

  /** The sign test on the byte comparison of the shorter of the two lengths. */
  predicate Before(s: seq<byte>, t: seq<byte>)
  {
    var k := CommonPrefix(s, t);
    k < |s| && k < |t| && s[k] < t[k]
  }

  /** Where the search ends up: the lower end of its last interval. */
  ghost function Landing(text: seq<byte>, index: seq<int>, target: seq<byte>, st: int, en: int): (r: int)
    requires Permutation(index, |text| + 1) && 0 <= st <= en <= |text|
    ensures st <= r && (en - st < 2 ==> r == st) && (st < en ==> r + 1 <= en)
    decreases en - st
  {
    if en - st < 2 then st
    else
      var x := st + (en - st) / 2;
      if Before(text[index[x]..], target) then Landing(text, index, target, x, en)
      else Landing(text, index, target, st, x)
  }

  /** The search compares the target with a non-empty suffix that is a prefix of its first k
      bytes and shorter than k, and so turns away from every match of length k. */
  ghost predicate Misled(text: seq<byte>, index: seq<int>, target: seq<byte>, k: nat, st: int, en: int)
    requires Permutation(index, |text| + 1) && 0 <= st <= en <= |text|
    decreases en - st
  {
    en - st >= 2 &&
    var x := st + (en - st) / 2;
    || (text[index[x]..] <= target && |text[index[x]..]| < k)
    || if Before(text[index[x]..], target) then Misled(text, index, target, k, x, en)
       else Misled(text, index, target, k, st, x)
  }

  /** The first k bytes of the target occur somewhere in text. */
  ghost predicate Occurs(text: seq<byte>, target: seq<byte>, k: nat)
  {
    k <= |target| && exists a: nat :: a <= |text| && target[..k] <= text[a..]
  }

  lemma LexDecided(s: seq<byte>, u: seq<byte>, c: nat)
    requires c < |s| && c < |u| && s[..c] == u[..c] && s[c] < u[c]
    ensures LexLess(s, u) && !LexLess(u, s)
  {
    assert SmallerAt(s, u, c);
    if LexLess(u, s) {
      var k: nat :| SmallerAt(u, s, k);
      if k < c {
        SameAtIndex(s, u, c, k);
        assert false;
      } else if k > c {
        SameAtIndex(u, s, k, c);
        assert false;
      }
    }
  }

  lemma SameAtIndex(s: seq<byte>, t: seq<byte>, n: nat, i: nat)
    requires i < n <= |s| && n <= |t| && s[..n] == t[..n]
    ensures s[i] == t[i]
  {
    assert s[i] == s[..n][i] && t[i] == t[..n][i];
  }

  lemma LexPrefixLess(s: seq<byte>, u: seq<byte>)
    requires s < u
    ensures LexLess(s, u) && !LexLess(u, s)
  {
    assert s[..|s|] == s && u[..|s|] == s;
    assert SmallerAt(s, u, |s|);
    if LexLess(u, s) {
      var k: nat :| SmallerAt(u, s, k);
      SameAtIndex(s, u, |s|, k);
    }
  }

  /** In a suffix array the empty suffix comes first. */
  lemma EmptyFirst(text: seq<byte>, index: seq<int>)
    requires IsSuffixArray(text, index)
    ensures index[0] == |text|
    ensures forall p :: 0 < p <= |text| ==> index[p] < |text|
  {
    forall p | 0 < p <= |text| ensures index[p] < |text| {
      assert LexLess(text[index[0]..], text[index[p]..]);
    }
    assert |text| in index;
  }

  /** Where a suffix that does not start with target[..k] lies towards one that does. */
  lemma SideOfMatch(text: seq<byte>, index: seq<int>, target: seq<byte>, k: nat, x: int, b: int)
    requires IsSuffixArray(text, index) && 0 < x <= |text| && 0 <= b <= |text|
    requires k <= |target| && target[..k] <= text[index[b]..] && !(target[..k] <= text[index[x]..])
    ensures text[index[x]..] <= target || Before(text[index[x]..], target) ==> x < b
    ensures !(text[index[x]..] <= target) && !Before(text[index[x]..], target) ==> b < x
    ensures text[index[x]..] <= target ==> |text[index[x]..]| < k && !Before(text[index[x]..], target)
  {
    var s, u := text[index[x]..], text[index[b]..];
    var c := CommonPrefix(s, target);
    CommonPrefixAtLeast(s, target, k);
    assert c < k && s[..c] == target[..c] == target[..k][..c] == u[..c];
    assert u[c] == target[..k][c] == target[c];
    if c < |s| {
      if s[c] < target[c] { LexDecided(s, u, c); } else { LexDecided(u, s, c); }
    } else {
      assert s == s[..c];
      assert s == u[..c];
      LexPrefixLess(s, u);
    }
  }

  /** While the search is not misled its interval holds a suffix that starts with target[..k];
      once it is misled, none is left at or before its upper end. */
  lemma {:induction false} LandsAtMatch(text: seq<byte>, index: seq<int>, target: seq<byte>, k: nat, st: int,
                                        en: int, b: int) returns (b': int)
    requires IsSuffixArray(text, index) && 0 <= st <= b <= en <= |text|
    requires k <= |target| && target[..k] <= text[index[b]..]
    requires !Misled(text, index, target, k, st, en)
    ensures var r := Landing(text, index, target, st, en);
            r <= b' <= r + 1 && b' <= en && target[..k] <= text[index[b']..]
    decreases en - st
  {
    hide CommonPrefix, LexLess, Before;
    if en - st < 2 { return b; }
    var x := st + (en - st) / 2;
    var at := if target[..k] <= text[index[x]..] then x else b;
    if at != x { SideOfMatch(text, index, target, k, x, b); }
    if Before(text[index[x]..], target) {
      b' := LandsAtMatch(text, index, target, k, x, en, at);
    } else {
      b' := LandsAtMatch(text, index, target, k, st, x, at);
    }
  }

  lemma NotBeforeOwnExtension(s: seq<byte>, t: seq<byte>)
    requires s <= t
    ensures !Before(s, t)
  {
    CommonPrefixAtLeast(s, t, |s|);
    assert t[..|s|] == s;
  }

  lemma {:induction false} MisledMisses(text: seq<byte>, index: seq<int>, target: seq<byte>, k: nat, st: int,
                                        en: int, p: int)
    requires IsSuffixArray(text, index) && 0 <= st <= en <= |text| && k <= |target|
    requires Misled(text, index, target, k, st, en)
    requires var r := Landing(text, index, target, st, en); r <= p <= r + 1
    ensures p <= en && !(target[..k] <= text[index[p]..])
    decreases en - st
  {
    hide CommonPrefix, LexLess, Before;
    var x := st + (en - st) / 2;
    var s := text[index[x]..];
    if s <= target && |s| < k {
      NotBeforeOwnExtension(s, target);
      LandingWithin(text, index, target, st, x, p);
      if target[..k] <= text[index[p]..] { SideOfMatch(text, index, target, k, x, p); }
    } else if Before(s, target) {
      MisledMisses(text, index, target, k, x, en, p);
    } else {
      MisledMisses(text, index, target, k, st, x, p);
    }
  }

  lemma LandingWithin(text: seq<byte>, index: seq<int>, target: seq<byte>, st: int, en: int, p: int)
    requires Permutation(index, |text| + 1) && 0 <= st < en <= |text|
    requires var r := Landing(text, index, target, st, en); r <= p <= r + 1
    ensures st <= p <= en
  {
  }

  /** Searched in the whole array, a target whose first k bytes occur in text is matched to
      length k at least unless the search is misled about k. */
  lemma LandingReaches(text: seq<byte>, index: seq<int>, target: seq<byte>, k: nat)
    requires IsSuffixArray(text, index) && k <= |target|
    ensures var r := Landing(text, index, target, 0, |text|);
            (Occurs(text, target, k) && !Misled(text, index, target, k, 0, |text|)) <==>
            (exists p :: r <= p <= r + 1 && p <= |text| && CommonPrefix(text[index[p]..], target) >= k)
  {
    var r := Landing(text, index, target, 0, |text|);
    forall p | 0 <= p <= |text|
      ensures CommonPrefix(text[index[p]..], target) >= k <==> target[..k] <= text[index[p]..]
    {
      CommonPrefixAtLeast(text[index[p]..], target, k);
    }
    if Occurs(text, target, k) && !Misled(text, index, target, k, 0, |text|) {
      var a: nat :| a <= |text| && target[..k] <= text[a..];
      assert a in index;
      var b :| 0 <= b < |index| && index[b] == a;
      var p := LandsAtMatch(text, index, target, k, 0, |text|, b);
      assert CommonPrefix(text[index[p]..], target) >= k;
    }
    if p :| r <= p <= r + 1 && p <= |text| && CommonPrefix(text[index[p]..], target) >= k {
      assert target[..k] <= text[index[p]..];
      if Misled(text, index, target, k, 0, |text|) {
        MisledMisses(text, index, target, k, 0, |text|, p);
      }
    }
  }

  /** Only a non-empty suffix of text that is a prefix of the target's first k bytes can mislead. */
  lemma {:induction false} MisledByShortSuffix(text: seq<byte>, index: seq<int>, target: seq<byte>, k: nat, st: int,
                                               en: int) returns (a: nat)
    requires IsSuffixArray(text, index) && 0 <= st <= en <= |text|
    requires Misled(text, index, target, k, st, en)
    ensures a < |text| && |text| - a < k && text[a..] <= target
    decreases en - st
  {
    hide CommonPrefix, LexLess, Before;
    EmptyFirst(text, index);
    var x := st + (en - st) / 2;
    if text[index[x]..] <= target && |text[index[x]..]| < k {
      a := index[x];
    } else if Before(text[index[x]..], target) {
      a := MisledByShortSuffix(text, index, target, k, x, en);
    } else {
      a := MisledByShortSuffix(text, index, target, k, st, x);
    }
  }

  /** matchlen */
  method MatchLength(text: seq<byte>, from: nat, target: seq<byte>) returns (i: nat)
    requires from <= |text|
    ensures i == CommonPrefix(text[from..], target)
  {
    i := 0;
    while i < |text| - from && i < |target|
      invariant i <= |text| - from && i <= |target|
      invariant CommonPrefix(text[from..], target) >= i
    {
      ghost var s := text[from..];
      if text[from + i] != target[i] {
        if CommonPrefix(s, target) > i { SameAtIndex(s, target, CommonPrefix(s, target), i); assert false; }
        return;
      }
      assert s[i] == target[i];
      i := i + 1;
    }
  }

  /** (len, pos) is the better match of the suffixes at r and, if inside the interval, r + 1. */
  ghost predicate Best(text: seq<byte>, index: seq<int>, target: seq<byte>, r: int, en: int, len: nat, pos: int)
    requires Permutation(index, |text| + 1) && 0 <= r <= en <= |text|
  {
    && pos == (if r < en && CommonPrefix(text[index[r]..], target) <= CommonPrefix(text[index[r + 1]..], target)
               then index[r + 1] else index[r])
    && len == CommonPrefix(text[pos..], target)
  }

  lemma BestWider(text: seq<byte>, index: seq<int>, target: seq<byte>, st: int, x: int, len: nat, pos: int, en: int)
    requires Permutation(index, |text| + 1) && 0 <= st < x <= en <= |text|
    requires Best(text, index, target, Landing(text, index, target, st, x), x, len, pos)
    ensures Best(text, index, target, Landing(text, index, target, st, x), en, len, pos)
  {
  }

  /** search: the better of the two suffixes at which the binary search ends. */
  method Search(index: array<int>, text: seq<byte>, target: seq<byte>, st: int, en: int) returns (len: nat, pos: int)
    requires Permutation(index[..], |text| + 1) && 0 <= st <= en <= |text|
    ensures Best(text, index[..], target, Landing(text, index[..], target, st, en), en, len, pos)
    decreases en - st
  {
    hide CommonPrefix, Permutation;
    ghost var order := index[..];
    Indices(text, order);
    if en - st < 2 {
      var x := MatchLength(text, index[st], target);
      var y := MatchLength(text, index[en], target);
      if x > y {
        return x, index[st];
      } else {
        return y, index[en];
      }
    }
    var x := st + (en - st) / 2;
    if Before(text[index[x]..], target) {
      len, pos := Search(index, text, target, x, en);
    } else {
      len, pos := Search(index, text, target, st, x);
      BestWider(text, order, target, st, x, len, pos, en);
    }
  }

  lemma Indices(text: seq<byte>, index: seq<int>)
    requires Permutation(index, |text| + 1)
    ensures |index| == |text| + 1
    ensures forall p :: 0 <= p <= |text| ==> 0 <= index[p] <= |text|
  {
  }

  /** The length that a search of the whole array reports. */
  ghost function MatchLen(text: seq<byte>, index: seq<int>, target: seq<byte>): (len: nat)
    requires Permutation(index, |text| + 1)
    ensures len <= |target|
  {
    var r := Landing(text, index, target, 0, |text|);
    var x := CommonPrefix(text[index[r]..], target);
    if r < |text| then
      var y := CommonPrefix(text[index[r + 1]..], target);
      if x > y then x else y
    else x
  }

  lemma BestIsMatchLen(text: seq<byte>, index: seq<int>, target: seq<byte>, len: nat, pos: int)
    requires Permutation(index, |text| + 1)
    requires Best(text, index, target, Landing(text, index, target, 0, |text|), |text|, len, pos)
    ensures len == MatchLen(text, index, target)
  {
  }

  /** Exactly how long a match the search finds: k bytes or more if and only if the first k bytes
      occur in text and the search is not misled about k. */
  lemma SearchFinds(text: seq<byte>, index: seq<int>, target: seq<byte>, k: nat)
    requires IsSuffixArray(text, index) && k <= |target|
    ensures MatchLen(text, index, target) >= k
            <==> Occurs(text, target, k) && !Misled(text, index, target, k, 0, |text|)
  {
    hide Misled, Occurs, Landing, CommonPrefix, LexLess;
    LandingReaches(text, index, target, k);
    var r := Landing(text, index, target, 0, |text|);
    assert MatchLen(text, index, target) >= k <==>
      CommonPrefix(text[index[r]..], target) >= k || (r < |text| && CommonPrefix(text[index[r + 1]..], target) >= k);
  }

  /** No match is reported only if the first byte does not occur at all. */
  lemma SearchFindsFirstByte(text: seq<byte>, index: seq<int>, target: seq<byte>)
    requires IsSuffixArray(text, index) && target != []
    ensures MatchLen(text, index, target) == 0 <==> target[0] !in text
  {
    SearchFinds(text, index, target, 1);
    if Misled(text, index, target, 1, 0, |text|) {
      var a := MisledByShortSuffix(text, index, target, 1, 0, |text|);
      assert false;
    }
    if target[0] in text {
      var a :| 0 <= a < |text| && text[a] == target[0];
      assert target[..1] <= text[a..];
    }
    if Occurs(text, target, 1) {
      var a: nat :| a <= |text| && target[..1] <= text[a..];
      PrefixByte(target[..1], text[a..], 0);
      assert text[a] == target[0];
    }
  }

  /** The match is the longest one in text unless some non-empty suffix of text is a prefix of the
      target and shorter than another match. */
  lemma SearchFindsLongest(text: seq<byte>, index: seq<int>, target: seq<byte>, b: nat)
    requires IsSuffixArray(text, index) && b <= |text|
    requires forall a :: 0 <= a < |text| && text[a..] <= target ==> CommonPrefix(text[b..], target) <= |text| - a
    ensures CommonPrefix(text[b..], target) <= MatchLen(text, index, target)
  {
    var k := CommonPrefix(text[b..], target);
    SearchFinds(text, index, target, k);
    CommonPrefixAtLeast(text[b..], target, k);
    assert Occurs(text, target, k);
    if Misled(text, index, target, k, 0, |text|) {
      var a := MisledByShortSuffix(text, index, target, k, 0, |text|);
      assert false;
    }
  }

  /** The limit is real: in the suffix array of "aba" the target "ab" is matched to one byte only,
      although all of it occurs. */
  lemma SearchMissesLongest()
    ensures var text: seq<byte>, target: seq<byte>, index := [97, 98, 97], [97, 98], [3, 2, 0, 1];
            IsSuffixArray(text, index) && Occurs(text, target, 2) && MatchLen(text, index, target) == 1
  {
    var text: seq<byte>, target: seq<byte>, index := [97, 98, 97], [97, 98], [3, 2, 0, 1];
    assert text[3..] == [] && text[2..] == [97] && text[1..] == [98, 97] && text[0..] == text;
    LexHead([], [97]); LexHead([], text); LexHead([], [98, 97]);
    LexHead([97], [98, 97]); LexHead(text, [98, 97]);
    LexPrefixLess([97], text);
    assert IsSuffixArray(text, index);
    assert target[..2] <= text[0..];
    SearchFinds(text, index, target, 1);
    SearchFinds(text, index, target, 2);
    assert text[index[1]..] <= target;
    SearchFindsFirstByte(text, index, target);
    assert text[0] == target[0];
  }
}
