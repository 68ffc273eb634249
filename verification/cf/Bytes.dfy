/** Bytes, and integers stored in bytes. */
module Bytes {
  type byte = x: int | 0 <= x < 256

  lemma SliceOfSlice(a: seq<byte>, p: nat, n: nat, i: nat, j: nat)
    requires p + n <= |a| && i <= j <= n
    ensures a[p..p + n][i..j] == a[p + i..p + j]
  {
    var x, y := a[p..p + n][i..j], a[p + i..p + j];
    assert |x| == |y| && forall k :: 0 <= k < |x| ==> x[k] == y[k];
  }

  /** 256 to the power n. */
  function Pow256(n: nat): (p: nat)
    ensures p > 0
  {
    if n == 0 then 1 else 256 * Pow256(n - 1)
  }

  /** The value of bytes, most significant first. */
  function BigEndian(s: seq<byte>): (v: nat)
    ensures v < Pow256(|s|)
  {
    if s == [] then 0 else 256 * BigEndian(s[..|s| - 1]) + s[|s| - 1]
  }

  /** The lowest n bytes of v, most significant first. */
  function ToBigEndian(v: nat, n: nat): (s: seq<byte>)
    ensures |s| == n
  {
    if n == 0 then [] else ToBigEndian(v / 256, n - 1) + [v % 256]
  }

  function Reversed(s: seq<byte>): (r: seq<byte>)
    ensures |r| == |s|
  {
    seq(|s|, i requires 0 <= i < |s| => s[|s| - 1 - i])
  }

  /** The value of bytes, least significant first. */
  function LittleEndian(s: seq<byte>): (v: nat)
    ensures v < Pow256(|s|)
  {
    BigEndian(Reversed(s))
  }

  function ToLittleEndian(v: nat, n: nat): (s: seq<byte>)
    ensures |s| == n
  {
    Reversed(ToBigEndian(v, n))
  }

  lemma ReversedTwice(s: seq<byte>)
    ensures Reversed(Reversed(s)) == s
  {
  }

  /** Writing a value in n bytes and reading it back loses exactly the part that does not fit. */
  lemma {:induction false} BigEndianRoundTrip(v: nat, n: nat)
    ensures BigEndian(ToBigEndian(v, n)) == v % Pow256(n)
  {
    if n > 0 {
      BigEndianRoundTrip(v / 256, n - 1);
      assert ToBigEndian(v, n)[..n - 1] == ToBigEndian(v / 256, n - 1);
      ModSplit(v, Pow256(n - 1));
    }
  }

  lemma ModSplit(v: nat, p: nat)
    requires p > 0
    ensures 256 * ((v / 256) % p) + v % 256 == v % (256 * p)
  {
    var q, r := v / 256, v % 256;
    var a, b := q / p, q % p;
    assert v == 256 * (a * p + b) + r == a * (256 * p) + (256 * b + r);
    assert b <= p - 1;
    ModUnique(v, 256 * p, a, 256 * b + r);
  }

  lemma ModUnique(v: int, m: int, a: int, b: int)
    requires 0 < m && 0 <= b < m && v == a * m + b
    ensures v % m == b && v / m == a
  {
    var d := v / m - a;
    assert v == (v / m) * m + v % m;
    assert d * m == b - v % m;
    TimesAtLeast(d, m);
  }

  lemma TimesAtLeast(d: int, m: int)
    requires 0 < m
    ensures (d >= 1 ==> d * m >= m) && (d <= -1 ==> d * m <= -m)
  {
    if d >= 1 {
      assert (d - 1) * m >= 0;
    } else if d <= -1 {
      assert (-d - 1) * m >= 0;
    }
  }

  lemma BigEndianExact(v: nat, n: nat)
    requires v < Pow256(n)
    ensures BigEndian(ToBigEndian(v, n)) == v
  {
    BigEndianRoundTrip(v, n);
  }

  lemma {:induction false} ToBigEndianOfBigEndian(s: seq<byte>)
    ensures ToBigEndian(BigEndian(s), |s|) == s
  {
    if s != [] {
      ToBigEndianOfBigEndian(s[..|s| - 1]);
      assert s == s[..|s| - 1] + [s[|s| - 1]];
    }
  }

  lemma PowValues()
    ensures Pow256(1) == 0x100 && Pow256(2) == 0x1_0000 && Pow256(4) == 0x1_0000_0000
    ensures Pow256(8) == 0x1_0000_0000_0000_0000
  {
    assert Pow256(3) == 0x100_0000;
    assert Pow256(6) == 0x1_0000_0000_0000;
  }

  /** Two bytes, by their weights. */
  lemma BigEndianOfTwo(b: seq<byte>)
    requires |b| == 2
    ensures BigEndian(b) == 256 * b[0] as int + b[1]
  {
    assert b[..1][..0] == [];
    assert BigEndian(b[..1]) == b[0];
  }

  /** Four bytes, by their weights. */
  lemma BigEndianOfFour(w: seq<byte>)
    requires |w| == 4
    ensures BigEndian(w) == 0x100_0000 * w[0] as int + 0x1_0000 * w[1] as int + 0x100 * w[2] as int + w[3]
  {
    assert w[..3][..2] == w[..2] && w[..2][..1] == w[..1] && w[..1][..0] == [];
    assert BigEndian(w[..1]) == w[0];
    assert BigEndian(w[..2]) == 256 * BigEndian(w[..1]) + w[1];
    assert BigEndian(w[..3]) == 256 * BigEndian(w[..2]) + w[2];
  }

  /** Any number of bytes: the first one weighs most. */
  lemma {:induction false} BigEndianOfFirst(x: byte, b: seq<byte>)
    ensures BigEndian([x] + b) == x * Pow256(|b|) + BigEndian(b)
  {
    if b == [] {
      assert [x] + b == [x] && [x][..0] == [];
    } else {
      var n := |b| - 1;
      assert ([x] + b)[..n + 1] == [x] + b[..n];
      BigEndianOfFirst(x, b[..n]);
      Distribute(x, Pow256(n), BigEndian(b[..n]));
    }
  }

  lemma Distribute(x: nat, p: nat, y: nat)
    ensures 256 * (x * p + y) == x * (256 * p) + 256 * y
  {
  }

  /** The number that two bytes at pos make, most significant byte first. */
  function U16(s: seq<byte>, pos: nat): nat
    requires pos + 2 <= |s|
  {
    256 * s[pos] as int + s[pos + 1]
  }

  /** The number that four bytes make. */
  function U32(s: seq<byte>, pos: nat): nat
    requires pos + 4 <= |s|
  {
    0x100_0000 * s[pos] as int + 0x1_0000 * s[pos + 1] as int + 0x100 * s[pos + 2] as int + s[pos + 3]
  }

  lemma TwoAt(s: seq<byte>, pos: nat)
    requires pos + 2 <= |s|
    ensures BigEndian(s[pos..pos + 2]) == U16(s, pos)
  {
    hide BigEndian;
    BigEndianOfTwo(s[pos..pos + 2]);
  }

  lemma FourAt(s: seq<byte>, pos: nat)
    requires pos + 4 <= |s|
    ensures BigEndian(s[pos..pos + 4]) == U32(s, pos)
  {
    hide BigEndian;
    BigEndianOfFour(s[pos..pos + 4]);
  }
}
