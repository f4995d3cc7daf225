/** Byte strings, big-endian integers, and lists of fixed-width records. */
module Bytes {

  /** A byte string: `struct` and slicing never produce anything else. */
  ghost predicate IsBytes(s: seq<int>) {
    forall i :: 0 <= i < |s| ==> 0 <= s[i] < 256
  }

  /** The bytes of an ASCII text. */
  function Ascii(s: string): seq<int> {
    seq(|s|, i requires 0 <= i < |s| => s[i] as int)
  }

  function Pow256(n: nat): (p: nat)
    ensures p >= 1
  {
    if n == 0 then 1 else 256 * Pow256(n - 1)
  }

  /** `struct.pack(">...", v)` on `n` bytes. */
  function BE(v: nat, n: nat): (s: seq<int>)
    ensures |s| == n
  {
    if n == 0 then [] else BE(v / 256, n - 1) + [v % 256]
  }

  /** `struct.unpack(">...", s)`. */
  function UnBE(s: seq<int>): int {
    if s == [] then 0 else 256 * UnBE(s[..|s| - 1]) + s[|s| - 1]
  }

  const LIMIT32: nat := 0x1_0000_0000
  const LIMIT64: nat := 0x1_0000_0000_0000_0000

  function U32(v: nat): seq<int> { BE(v, 4) }

  function U64(v: nat): seq<int> { BE(v, 8) }

  lemma {:induction false} BEBytes(v: nat, n: nat)
    ensures IsBytes(BE(v, n))
    decreases n
  {
    if n > 0 { BEBytes(v / 256, n - 1); }
  }

  lemma DivideTwice(v: nat, p: nat)
    requires p > 0
    ensures v / 256 / p == v / (256 * p)
  {
    var q, r := v / 256 / p, v / 256 % p;
    assert v / 256 == p * q + r;
    assert v == 256 * (v / 256) + v % 256;
    assert v == (256 * p) * q + (256 * r + v % 256);
    Quotient(v, 256 * p, q, 256 * r + v % 256);
  }

  lemma Quotient(v: nat, d: nat, q: nat, r: nat)
    requires v == d * q + r && r < d
    ensures v / d == q
  {
    var k, s := v / d, v % d;
    assert v == d * k + s;
    if k < q { Grows(d, q - k); }
    if k > q { Grows(d, k - q); }
    assert d * q - d * k == d * (q - k) && d * k - d * q == d * (k - q);
  }

  lemma Grows(d: nat, n: nat)
    requires n > 0
    ensures d * n >= d
  {
  }

  /** Big-endian: byte `i` of `n` is the `n - 1 - i`-th digit of the value in base 256. */
  lemma {:induction false} ByteAt(v: nat, n: nat, i: nat)
    requires i < n
    ensures BE(v, n)[i] == v / Pow256(n - 1 - i) % 256
    decreases n
  {
    if i < n - 1 {
      ByteAt(v / 256, n - 1, i);
      DivideTwice(v, Pow256(n - 2 - i));
    }
  }

  lemma {:induction false} UnBERange(s: seq<int>)
    requires IsBytes(s)
    ensures 0 <= UnBE(s) < Pow256(|s|)
    decreases |s|
  {
    if s != [] { UnBERange(s[..|s| - 1]); }
  }

  /** Unpacking undoes packing, for values that fit. */
  lemma {:induction false} UnBEOfBE(v: nat, n: nat)
    requires v < Pow256(n)
    ensures UnBE(BE(v, n)) == v
    decreases n
  {
    if n > 0 {
      UnBEOfBE(v / 256, n - 1);
      assert BE(v, n)[..n - 1] == BE(v / 256, n - 1);
    }
  }

  /** Packing undoes unpacking. */
  lemma {:induction false} BEOfUnBE(s: seq<int>)
    requires IsBytes(s)
    ensures UnBE(s) >= 0 && BE(UnBE(s), |s|) == s
    decreases |s|
  {
    UnBERange(s);
    if s != [] {
      BEOfUnBE(s[..|s| - 1]);
      assert s == s[..|s| - 1] + [s[|s| - 1]];
    }
  }

  lemma Widths()
    ensures Pow256(4) == LIMIT32 && Pow256(8) == LIMIT64
  {
    assert Pow256(0) == 1 && Pow256(1) == 0x100 && Pow256(2) == 0x1_0000 && Pow256(3) == 0x100_0000;
    assert Pow256(4) == 0x1_0000_0000 && Pow256(5) == 0x100_0000_0000 && Pow256(6) == 0x1_0000_0000_0000;
    assert Pow256(7) == 0x100_0000_0000_0000;
  }

  lemma U32RoundTrip(v: nat)
    requires v < LIMIT32
    ensures UnBE(U32(v)) == v
  {
    Widths();
    UnBEOfBE(v, 4);
  }

  /** `s` lies in `d` at offset `pos`. */
  ghost predicate At(d: seq<int>, pos: nat, s: seq<int>) {
    pos + |s| <= |d| && d[pos..pos + |s|] == s
  }

  lemma AtSplit(d: seq<int>, pos: nat, a: seq<int>, b: seq<int>)
    ensures At(d, pos, a + b) <==> At(d, pos, a) && At(d, pos + |a|, b)
  {
    if At(d, pos, a + b) {
      assert d[pos..pos + |a|] == d[pos..pos + |a + b|][..|a|] == a;
      assert d[pos + |a|..pos + |a| + |b|] == d[pos..pos + |a + b|][|a|..] == b;
    }
    if At(d, pos, a) && At(d, pos + |a|, b) {
      assert d[pos..pos + |a + b|] == d[pos..pos + |a|] + d[pos + |a|..pos + |a| + |b|];
    }
  }

  /** Three parts in a row. */
  lemma Three(d: seq<int>, pos: nat, a: seq<int>, b: seq<int>, c: seq<int>)
    ensures At(d, pos, a + (b + c)) <==> At(d, pos, a) && At(d, pos + |a|, b) && At(d, pos + |a| + |b|, c)
  {
    AtSplit(d, pos, a, b + c);
    AtSplit(d, pos + |a|, b, c);
  }

  lemma AtWhole(d: seq<int>)
    ensures At(d, 0, d)
  {
  }

  /** The integer that `n` bytes at `pos` hold, packed again, are those bytes. */
  lemma PackedAt(d: seq<int>, pos: nat, n: nat)
    requires IsBytes(d) && pos + n <= |d|
    ensures 0 <= UnBE(d[pos..pos + n]) < Pow256(n)
    ensures At(d, pos, BE(UnBE(d[pos..pos + n]), n))
  {
    var s := d[pos..pos + n];
    assert IsBytes(s);
    UnBERange(s);
    BEOfUnBE(s);
  }

  /** A packed integer at `pos` reads back. */
  lemma ReadPacked(d: seq<int>, pos: nat, v: nat, n: nat)
    requires v < Pow256(n) && At(d, pos, BE(v, n))
    ensures UnBE(d[pos..pos + n]) == v
  {
    UnBEOfBE(v, n);
  }
}
