/**
 Numbers as bytes in network order, most significant byte first.
*/
module NetworkOrder {
  import opened Basics

  const U16_LIMIT: nat := 0x1_0000

  /** An unsigned number in k bytes of network order, and the number that bytes stand for. */
  function Bytes(n: nat, k: nat): (b: seq<byte>)
    ensures |b| == k
  {
    if k == 0 then [] else Bytes(n / 256, k - 1) + [n % 256]
  }

  function Unsigned(b: seq<byte>): (n: nat)
    ensures n < Places(|b|)
  {
    if b == [] then 0 else Unsigned(b[..|b| - 1]) * 256 + b[|b| - 1] as int
  }

  function Places(k: nat): (n: nat)
    ensures n > 0
  {
    if k == 0 then 1 else Places(k - 1) * 256
  }

  lemma {:induction false} UnsignedBytes(n: nat, k: nat)
    requires n < Places(k)
    ensures Unsigned(Bytes(n, k)) == n
  {
    if k > 0 {
      var b := Bytes(n, k);
      assert b[..k - 1] == Bytes(n / 256, k - 1);
      UnsignedBytes(n / 256, k - 1);
    }
  }

  lemma PlacesOf()
    ensures Places(1) == 256 && Places(2) == U16_LIMIT && Places(4) == WORD
  {
    assert Places(2) == 256 * 256;
    assert Places(3) == 256 * 256 * 256;
  }

  /** Byte i counts 256 to the number of bytes after it. */
  lemma {:induction false} BytesAt(n: nat, k: nat, i: nat)
    requires i < k
    ensures Bytes(n, k)[i] as int == n / Places(k - 1 - i) % 256
  {
    if i < k - 1 {
      BytesAt(n / 256, k - 1, i);
      Nested(n, Places(k - 2 - i));
    }
  }

  lemma Nested(n: nat, p: nat)
    requires p > 0
    ensures p * 256 > 0 && n / 256 / p == n / (p * 256)
  {
    var q := n / 256 / p;
    var r := n / 256 - q * p;
    assert n == (q * p + r) * 256 + n % 256;
    assert (q * p + r) * 256 == q * (p * 256) + r * 256;
    QuotientOf(n, p * 256, q, r * 256 + n % 256);
  }

  lemma QuotientOf(n: nat, d: nat, q: nat, r: nat)
    requires r < d && n == q * d + r
    ensures n / d == q
  {
    var e := n / d - q;
    assert e * d == n / d * d - q * d;
    Apart(e, d);
  }

  lemma Apart(e: int, d: int)
    requires d > 0
    ensures e > 0 ==> e * d >= d
    ensures e < 0 ==> e * d <= -d
  {
  }

  /** The bytes in front count as many times more as there are values of those behind. */
  lemma {:induction false} UnsignedAppend(a: seq<byte>, b: seq<byte>)
    ensures Unsigned(a + b) == Unsigned(a) * Places(|b|) + Unsigned(b)
    decreases |b|
  {
    if b == [] {
      assert a + b == a;
    } else {
      var front, last := b[..|b| - 1], b[|b| - 1] as int;
      assert (a + b)[..|a + b| - 1] == a + front;
      UnsignedAppend(a, front);
      Distribute(Unsigned(a), Places(|front|), Unsigned(front));
    }
  }

  lemma Distribute(a: nat, p: nat, u: nat)
    ensures (a * p + u) * 256 == a * (p * 256) + u * 256
  {
  }

  lemma BytesMore(n: nat, d: byte, k: nat)
    ensures Bytes(n * 256 + d as int, k + 1) == Bytes(n, k) + [d]
  {
    var m := n * 256 + d as int;
    assert m / 256 == n && m % 256 == d as int;
  }

  lemma NumberBytes(a: byte, b: byte, c: byte, d: byte)
    ensures Bytes(a as int, 1) == [a] && Bytes(a as int * 0x100 + b as int, 2) == [a, b]
    ensures Bytes(a as int * 0x100_0000 + b as int * 0x1_0000 + c as int * 0x100 + d as int, 4) == [a, b, c, d]
  {
    hide Bytes;
    var n2 := a as int * 0x100 + b as int;
    var n3 := n2 * 0x100 + c as int;
    NoBytes(0);
    NoBytes(a as int);
    BytesMore(0, a, 0);
    BytesMore(a as int, b, 1);
    BytesMore(n2, c, 2);
    BytesMore(n3, d, 3);
  }

  lemma NoBytes(n: nat)
    ensures Bytes(n, 0) == []
  {
  }

  lemma FourBytes(b: seq<byte>)
    requires |b| == 4
    ensures Unsigned(b) == b[0] as int * 0x100_0000 + b[1] as int * 0x1_0000 + b[2] as int * 0x100 + b[3] as int
  {
    var c := b[..3];
    var d := c[..2];
    assert d[..1] == [b[0]] && [b[0]][..0] == [];
    assert Unsigned([b[0]]) == b[0] as int;
    assert Unsigned(d) == b[0] as int * 0x100 + b[1] as int;
    assert Unsigned(c) == b[0] as int * 0x1_0000 + b[1] as int * 0x100 + b[2] as int;
  }
}
