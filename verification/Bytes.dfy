/** Bytes, byte strings and big-endian integers. */
module Bytes {

  type byte = n: nat | n < 256

  type bytes = seq<byte>

  function Pow256(k: nat): (r: nat)
    ensures r >= 1
  {
    if k == 0 then 1 else 256 * Pow256(k - 1)
  }

  /** The number a byte string denotes, most significant byte first. */
  function BeValue(s: bytes): (n: nat)
    ensures n < Pow256(|s|)
  {
    if s == [] then 0 else 256 * BeValue(s[..|s| - 1]) + s[|s| - 1]
  }

  /** The width-byte big-endian form of a number. */
  function BeBytes(n: nat, width: nat): (s: bytes)
    requires n < Pow256(width)
    ensures |s| == width
  {
    if width == 0 then [] else BeBytes(n / 256, width - 1) + [n % 256]
  }

  lemma {:induction false} BeValueOfBeBytes(n: nat, width: nat)
    requires n < Pow256(width)
    ensures BeValue(BeBytes(n, width)) == n
  {
    if width > 0 {
      BeValueOfBeBytes(n / 256, width - 1);
      assert BeBytes(n, width)[..width - 1] == BeBytes(n / 256, width - 1);
    }
  }

  lemma {:induction false} BeBytesOfBeValue(s: bytes)
    ensures BeBytes(BeValue(s), |s|) == s
  {
    if s != [] {
      BeBytesOfBeValue(s[..|s| - 1]);
      assert BeValue(s) / 256 == BeValue(s[..|s| - 1]) && BeValue(s) % 256 == s[|s| - 1];
      assert s[..|s| - 1] + [s[|s| - 1]] == s;
    }
  }

  function Pow2(k: nat): (p: nat)
    ensures p > 0
  {
    if k == 0 then 1 else 2 * Pow2(k - 1)
  }

  lemma {:induction false} BytesInBits(k: nat)
    ensures Pow256(k) == Pow2(8 * k)
  {
    if k > 0 {
      BytesInBits(k - 1);
      var n := 8 * k;
      assert Pow2(n) == 2 * Pow2(n - 1) && Pow2(n - 1) == 2 * Pow2(n - 2) && Pow2(n - 2) == 2 * Pow2(n - 3);
      assert Pow2(n - 3) == 2 * Pow2(n - 4) && Pow2(n - 4) == 2 * Pow2(n - 5) && Pow2(n - 5) == 2 * Pow2(n - 6);
      assert Pow2(n - 6) == 2 * Pow2(n - 7) && Pow2(n - 7) == 2 * Pow2(n - 8);
    }
  }

  lemma Twice(x: int, y: int)
    ensures 2 * (x * y) == (2 * x) * y
  {
  }

  lemma {:induction false} Pow2Sum(a: nat, b: nat)
    ensures Pow2(a + b) == Pow2(a) * Pow2(b)
  {
    if a == 0 {
      assert Pow2(a) == 1;
    } else {
      Pow2Sum(a - 1, b);
      assert Pow2(a) == 2 * Pow2(a - 1) && Pow2(a + b) == 2 * Pow2(a - 1 + b);
      hide Pow2;
      Twice(Pow2(a - 1), Pow2(b));
    }
  }

  lemma Shift(x: nat, unit: nat, rest: nat)
    ensures 256 * (x * unit + rest) == x * (256 * unit) + 256 * rest
  {
    assert 256 * (x * unit) == x * (256 * unit);
  }

  /** The first byte counts most. */
  lemma {:induction false} BeValueOfHead(s: bytes)
    requires s != []
    ensures BeValue(s) == s[0] * Pow256(|s| - 1) + BeValue(s[1..])
  {
    var n := |s| - 1;
    assert BeValue(s) == 256 * BeValue(s[..n]) + s[n];
    if n == 0 {
      assert s[..0] == [] && s[1..] == [];
    } else {
      BeValueOfHead(s[..n]);
      assert BeValue(s[1..]) == 256 * BeValue(s[..n][1..]) + s[n] by {
        assert s[1..][..n - 1] == s[..n][1..];
      }
      assert Pow256(n) == 256 * Pow256(n - 1);
      hide BeValue, Pow256;
      Shift(s[0], Pow256(n - 1), BeValue(s[..n][1..]));
    }
  }

  const I64_MIN: int := -0x8000_0000_0000_0000
  const I64_MAX: int := 0x7fff_ffff_ffff_ffff

  type i64 = n: int | I64_MIN <= n <= I64_MAX

  /** `i64::to_be_bytes`: two's complement, eight bytes. */
  function I64ToBe(n: i64): (s: bytes)
    ensures |s| == 8
  {
    assert Pow256(8) == 0x1_0000_0000_0000_0000;
    BeBytes(if n < 0 then n + 0x1_0000_0000_0000_0000 else n, 8)
  }

  /** `i64::from_be_bytes`. */
  function I64FromBe(s: bytes): i64
    requires |s| == 8
  {
    assert Pow256(8) == 0x1_0000_0000_0000_0000;
    var u := BeValue(s);
    if u > I64_MAX then u - 0x1_0000_0000_0000_0000 else u
  }

  /** The fixed-width codec is a bijection between i64 and eight-byte strings. */
  lemma I64CodecIsBijective(n: i64, s: bytes)
    requires |s| == 8
    ensures I64FromBe(I64ToBe(n)) == n
    ensures I64ToBe(I64FromBe(s)) == s
  {
    assert Pow256(8) == 0x1_0000_0000_0000_0000;
    BeValueOfBeBytes(if n < 0 then n + 0x1_0000_0000_0000_0000 else n, 8);
    BeBytesOfBeValue(s);
  }

  /** The bytes of an i64 spell its residue modulo 2^64. */
  lemma I64IsTwosComplement(n: i64)
    ensures BeValue(I64ToBe(n)) == n % 0x1_0000_0000_0000_0000
  {
    assert Pow256(8) == 0x1_0000_0000_0000_0000;
    BeValueOfBeBytes(if n < 0 then n + 0x1_0000_0000_0000_0000 else n, 8);
  }

  /** Strict lexicographic order. */
  predicate LexLess(a: seq<int>, b: seq<int>) {
    if b == [] then false
    else if a == [] then true
    else a[0] < b[0] || (a[0] == b[0] && LexLess(a[1..], b[1..]))
  }

  /** Lexicographic order looks at a common-length front first, then at the rest. */
  lemma {:induction false} LexLessSplit(a: seq<int>, x: seq<int>, b: seq<int>, y: seq<int>)
    requires |a| == |b|
    ensures LexLess(a + x, b + y) <==> LexLess(a, b) || (a == b && LexLess(x, y))
  {
    if a == [] {
      assert a + x == x && b + y == y;
    } else {
      assert (a + x)[1..] == a[1..] + x && (b + y)[1..] == b[1..] + y;
      assert a == b <==> a[0] == b[0] && a[1..] == b[1..] by {
        assert a == [a[0]] + a[1..] && b == [b[0]] + b[1..];
      }
      LexLessSplit(a[1..], x, b[1..], y);
    }
  }

  /** On strings of one length, big-endian numeric order is lexicographic order. */
  lemma {:induction false} BeOrderIsLexOrder(a: bytes, b: bytes)
    requires |a| == |b|
    ensures BeValue(a) < BeValue(b) <==> LexLess(a, b)
    ensures BeValue(a) == BeValue(b) <==> a == b
  {
    if a != [] {
      var n := |a| - 1;
      BeOrderIsLexOrder(a[..n], b[..n]);
      assert a == a[..n] + [a[n]] && b == b[..n] + [b[n]];
      LexLessSplit(a[..n], [a[n]], b[..n], [b[n]]);
      assert LexLess([a[n]], [b[n]]) <==> a[n] < b[n];
    }
  }
}
