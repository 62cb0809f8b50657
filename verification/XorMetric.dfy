/** The XOR metric of the peer lookup: leading agreement, leading zeros and byte reversal (tools.rs). */
module XorMetric {
  import opened Bytes
  import opened Sequences
  import opened Arith

  type key = seq<bv8>

  /** The mask of bit k of a byte, bit 0 being the most significant. */
  function BitMask(k: nat): bv8
    requires k < 8
  {
    match k
    case 0 => 0x80 case 1 => 0x40 case 2 => 0x20 case 3 => 0x10
    case 4 => 0x08 case 5 => 0x04 case 6 => 0x02 case 7 => 0x01
  }

  /** Bit i of a key, counted from its most significant end. */
  predicate Bit(k: key, i: nat)
    requires i < 8 * |k|
  {
    k[i / 8] & BitMask(i % 8) != 0
  }

  /** `u8::leading_zeros`. */
  function LeadingZeros8(b: bv8): (n: nat)
    ensures n <= 8
    ensures n == 8 <==> b == 0
    ensures n < 8 ==> b & BitMask(n) != 0
    ensures forall k: nat :: k < n ==> b & BitMask(k) == 0
  {
    if b & 0x80 != 0 then 0 else if b & 0x40 != 0 then 1 else if b & 0x20 != 0 then 2
    else if b & 0x10 != 0 then 3 else if b & 0x08 != 0 then 4 else if b & 0x04 != 0 then 5
    else if b & 0x02 != 0 then 6 else if b & 0x01 != 0 then 7 else 8
  }

  function XorByte(x: bv8, y: bv8): bv8 {
    x ^ y
  }

  /** The number of leading bits in which the common-length fronts of two keys agree. */
  function Agreement(a: key, b: key): (n: nat)
    ensures n <= 8 * |a| && n <= 8 * |b|
  {
    if a == [] || b == [] then 0
    else if XorByte(a[0], b[0]) != 0 then LeadingZeros8(XorByte(a[0], b[0]))
    else 8 + Agreement(a[1..], b[1..])
  }

  /** Bytewise exclusive or. */
  function Xor(a: key, b: key): (x: key)
    requires |a| == |b|
    ensures |x| == |a|
  {
    seq(|a|, i requires 0 <= i < |a| => XorByte(a[i], b[i]))
  }

  function LeadingZeros(k: key): (n: nat)
    ensures n <= 8 * |k|
  {
    if k == [] then 0 else if k[0] != 0 then LeadingZeros8(k[0]) else 8 + LeadingZeros(k[1..])
  }

  function AsBytes(k: key): bytes {
    Map((b: bv8) => b as byte, k)
  }

  /** Kademlia's distance: the exclusive or of two keys read as one big-endian number. */
  function Distance(a: key, b: key): nat
    requires |a| == |b|
  {
    BeValue(AsBytes(Xor(a, b)))
  }

  // ---------------------------------------------------------------------------------------------
  // The loops of the source.

  method CountLeadingZeroBits(k: key) returns (r: byte)
    ensures r == if LeadingZeros(k) < 256 then LeadingZeros(k) else 255
  {
    hide LeadingZeros8;
    var count := 0;
    var i := 0;
    while i < |k|
      invariant i <= |k|
      invariant count + LeadingZeros(k[i..]) == LeadingZeros(k)
    {
      var b := k[i];
      if b == 0 {
        count := count + 8;
        i := i + 1;
        continue;
      }
      var mask: bv8 := 0x80;
      ghost var z := 0;
      while b & mask == 0
        invariant z < 8 && mask == BitMask(z)
        invariant z <= LeadingZeros8(b)
        invariant count + LeadingZeros8(b) - z == LeadingZeros(k)
        decreases 8 - z
      {
        count := count + 1;
        mask := mask >> 1;
        z := z + 1;
        NextMask(b, z);
      }
      break;
    }
    r := if count < 256 then count else 255;
  }

  lemma NextMask(b: bv8, z: nat)
    requires 0 < z <= 8
    requires forall j: nat :: j < z - 1 ==> b & BitMask(j) == 0
    requires b & BitMask(z - 1) == 0 && b != 0
    ensures z < 8 && BitMask(z - 1) >> 1 == BitMask(z) && z <= LeadingZeros8(b)
  {
    assert z - 1 != LeadingZeros8(b);
    assert LeadingZeros8(b) >= z - 1;
  }

  method LeadingAgreementBitsXor(a: key, b: key) returns (n: nat)
    ensures n == Agreement(a, b)
  {
    n := 0;
    var minLen := if |a| < |b| then |a| else |b|;
    for i := 0 to minLen
      invariant n + Agreement(a[i..], b[i..]) == Agreement(a, b)
    {
      var x := a[i] ^ b[i];
      if x != 0 {
        n := n + LeadingZeros8(x);
        return;
      } else {
        n := n + 8;
      }
    }
  }

  method ReverseBytes(k: array<byte>) returns (r: array<byte>)
    ensures fresh(r) && r[..] == Reversed(k[..])
  {
    r := new byte[k.Length](_ => 0);
    for i := 0 to k.Length
      invariant forall j :: 0 <= j < i ==> r[j] == k[k.Length - 1 - j]
    {
      r[i] := k[k.Length - 1 - i];
    }
  }

  function Reversed(s: bytes): (r: bytes)
    ensures |r| == |s|
    ensures forall i :: 0 <= i < |s| ==> r[i] == s[|s| - 1 - i]
  {
    seq(|s|, i requires 0 <= i < |s| => s[|s| - 1 - i])
  }

  // ---------------------------------------------------------------------------------------------
  // What agreement means, and the metric laws.

  lemma XorBit(x: bv8, y: bv8, k: nat)
    requires k < 8
    ensures XorByte(x, y) & BitMask(k) == 0 <==> (x & BitMask(k) != 0 <==> y & BitMask(k) != 0)
  {
  }

  /** Agreement is the length of the longest common bit prefix. */
  lemma {:induction false} AgreementIsCommonPrefix(a: key, b: key)
    requires |a| == |b|
    ensures forall i: nat :: i < Agreement(a, b) ==> Bit(a, i) == Bit(b, i)
    ensures Agreement(a, b) < 8 * |a| ==> Bit(a, Agreement(a, b)) != Bit(b, Agreement(a, b))
  {
    if a != [] {
      hide Bit, BitMask, LeadingZeros8, XorByte;
      if XorByte(a[0], b[0]) != 0 {
        HeadBits(a, b);
      } else {
        AgreementIsCommonPrefix(a[1..], b[1..]);
        SameByte(a[0], b[0]);
        TailBits(a);
        TailBits(b);
        forall i: nat | i < Agreement(a, b) ensures Bit(a, i) == Bit(b, i) {
          if i < 8 {
            FirstByteBit(a, i);
            FirstByteBit(b, i);
          }
        }
      }
    }
  }

  lemma FirstByteBit(a: key, i: nat)
    requires a != [] && i < 8
    ensures Bit(a, i) <==> a[0] & BitMask(i) != 0
  {
    hide BitMask;
    assert i / 8 == 0 && i % 8 == i;
  }

  lemma HeadBits(a: key, b: key)
    requires a != [] && b != [] && XorByte(a[0], b[0]) != 0
    ensures var n := LeadingZeros8(XorByte(a[0], b[0]));
            Bit(a, n) != Bit(b, n) && forall i: nat :: i < n ==> Bit(a, i) == Bit(b, i)
  {
    hide Bit, XorByte;
    var n := LeadingZeros8(XorByte(a[0], b[0]));
    forall i: nat | i <= n ensures Bit(a, i) == Bit(b, i) <==> i < n {
      XorBit(a[0], b[0], i);
      FirstByteBit(a, i);
      FirstByteBit(b, i);
    }
  }

  lemma TailBits(a: key)
    requires a != []
    ensures forall i: nat :: 8 <= i < 8 * |a| ==> Bit(a, i) == Bit(a[1..], i - 8)
  {
    forall i: nat | 8 <= i < 8 * |a| ensures Bit(a, i) == Bit(a[1..], i - 8) {
      assert (i - 8) / 8 == i / 8 - 1 && (i - 8) % 8 == i % 8;
    }
  }

  lemma SameByte(x: bv8, y: bv8)
    ensures XorByte(x, y) == 0 <==> x == y
  {
  }

  /** The prefix property determines agreement, so it is its full specification. */
  lemma CommonPrefixIsAgreement(a: key, b: key, n: nat)
    requires |a| == |b| && n <= 8 * |a|
    requires forall i: nat :: i < n ==> Bit(a, i) == Bit(b, i)
    requires n < 8 * |a| ==> Bit(a, n) != Bit(b, n)
    ensures n == Agreement(a, b)
  {
    AgreementIsCommonPrefix(a, b);
  }

  /** Symmetry, the ultrametric law, and maximality only for equal keys. */
  lemma {:induction false} AgreementIsUltrametric(a: key, b: key, c: key)
    requires |a| == |b| == |c|
    ensures Agreement(a, b) == Agreement(b, a)
    ensures Agreement(a, c) >= Agreement(a, b) || Agreement(a, c) >= Agreement(b, c)
    ensures Agreement(a, b) == 8 * |a| <==> a == b
  {
    AgreementIsCommonPrefix(a, b);
    AgreementIsCommonPrefix(b, c);
    AgreementIsCommonPrefix(a, c);
    CommonPrefixIsAgreement(b, a, Agreement(a, b));
    FullAgreement(a, b);
  }

  lemma {:induction false} FullAgreement(a: key, b: key)
    requires |a| == |b|
    ensures Agreement(a, b) == 8 * |a| <==> a == b
  {
    if a != [] {
      hide LeadingZeros8, XorByte;
      SameByte(a[0], b[0]);
      FullAgreement(a[1..], b[1..]);
      assert a == [a[0]] + a[1..] && b == [b[0]] + b[1..];
    }
  }

  /** Two sides to an isosceles triangle: when the agreements differ, the third is the smaller one. */
  lemma {:induction false} AgreementIsIsosceles(a: key, b: key, c: key)
    requires |a| == |b| == |c| && Agreement(a, b) < Agreement(b, c)
    ensures Agreement(a, c) == Agreement(a, b)
  {
    AgreementIsCommonPrefix(a, b);
    AgreementIsCommonPrefix(b, c);
    CommonPrefixIsAgreement(a, c, Agreement(a, b));
  }

  lemma OrderBv(x: bv8, y: bv8)
    ensures x < y <==> (x as int) < (y as int)
    ensures LeadingZeros8(x) > LeadingZeros8(y) ==> x < y
  {
  }

  /** A key that agrees further with the target is strictly nearer to it. */
  lemma {:induction false} HigherAgreementIsNearer(a: key, b: key, target: key)
    requires |a| == |b| == |target|
    requires Agreement(a, target) > Agreement(b, target)
    ensures Distance(a, target) < Distance(b, target)
  {
    LeadingByteDecides(a, b, target);
    BeOrderIsLexOrder(AsBytes(Xor(a, target)), AsBytes(Xor(b, target)));
  }

  lemma {:induction false} LeadingByteDecides(a: key, b: key, t: key)
    requires |a| == |b| == |t| && Agreement(a, t) > Agreement(b, t)
    ensures LexLess(AsBytes(Xor(a, t)), AsBytes(Xor(b, t)))
  {
    hide LeadingZeros8, XorByte;
    var x, y := AsBytes(Xor(a, t)), AsBytes(Xor(b, t));
    OrderBv(XorByte(a[0], t[0]), XorByte(b[0], t[0]));
    if XorByte(a[0], t[0]) == 0 && XorByte(b[0], t[0]) == 0 {
      LeadingByteDecides(a[1..], b[1..], t[1..]);
      assert x[1..] == AsBytes(Xor(a[1..], t[1..])) && y[1..] == AsBytes(Xor(b[1..], t[1..]));
    } else if XorByte(a[0], t[0]) == 0 {
      OrderBv(0, XorByte(b[0], t[0]));
    }
  }

  /** Counting the zeros of the exclusive or is measuring agreement. */
  lemma {:induction false} LeadingZerosOfXor(a: key, b: key)
    requires |a| == |b|
    ensures LeadingZeros(Xor(a, b)) == Agreement(a, b)
  {
    if a != [] {
      LeadingZerosOfXor(a[1..], b[1..]);
      assert Xor(a, b)[1..] == Xor(a[1..], b[1..]);
    }
  }

  lemma ByteIsMagnitude(b: bv8)
    requires b != 0
    ensures LeadingZeros8(b) < 8 && Pow2(7 - LeadingZeros8(b)) <= b as int < Pow2(8 - LeadingZeros8(b))
  {
    assert Pow2(0) == 1 && Pow2(1) == 2 && Pow2(2) == 4 && Pow2(3) == 8 && Pow2(4) == 16;
    assert Pow2(5) == 32 && Pow2(6) == 64 && Pow2(7) == 128 && Pow2(8) == 256;
  }

  lemma Scale(x: nat, lo: nat, hi: nat, unit: nat, rest: nat)
    requires lo <= x < hi && rest < unit
    ensures unit * lo <= unit * x + rest < unit * hi
  {
    MulMono(unit, lo, x);
    MulMono(unit, x + 1, hi);
    assert unit * (x + 1) == unit * x + unit;
  }

  lemma HeadIsMagnitude(x: nat, z: nat, m: nat, rest: nat)
    requires z < 8 && Pow2(7 - z) <= x < Pow2(8 - z) && rest < Pow2(m)
    ensures Pow2(m + 7 - z) <= x * Pow2(m) + rest < Pow2(m + 8 - z)
  {
    hide Pow2;
    Pow2Sum(m, 8 - z);
    Pow2Sum(m, 7 - z);
    Scale(x, Pow2(7 - z), Pow2(8 - z), Pow2(m), rest);
  }

  lemma HeadByte(k: key)
    requires k != []
    ensures BeValue(AsBytes(k)) == (k[0] as int) * Pow2(8 * (|k| - 1)) + BeValue(AsBytes(k[1..]))
    ensures BeValue(AsBytes(k[1..])) < Pow2(8 * (|k| - 1))
  {
    hide BeValue;
    BeValueOfHead(AsBytes(k));
    BytesInBits(|k| - 1);
    assert AsBytes(k)[1..] == AsBytes(k[1..]);
  }

  lemma NonzeroHead(k: key)
    requires k != [] && k[0] != 0
    ensures var z := 8 * |k| - LeadingZeros8(k[0]); 0 < z && Pow2(z - 1) <= BeValue(AsBytes(k)) < Pow2(z)
  {
    hide Pow2, BeValue, LeadingZeros8, AsBytes;
    HeadByte(k);
    ByteIsMagnitude(k[0]);
    HeadIsMagnitude(k[0] as int, LeadingZeros8(k[0]), 8 * (|k| - 1), BeValue(AsBytes(k[1..])));
  }

  lemma ZeroHead(k: key)
    requires k != [] && k[0] == 0
    ensures BeValue(AsBytes(k)) == BeValue(AsBytes(k[1..]))
  {
    HeadByte(k);
  }

  /** The leading zeros place a key, read as one number, between two powers of two. */
  lemma {:induction false} LeadingZerosAreMagnitude(k: key)
    ensures BeValue(AsBytes(k)) < Pow2(8 * |k| - LeadingZeros(k))
    ensures LeadingZeros(k) < 8 * |k| ==> Pow2(8 * |k| - LeadingZeros(k) - 1) <= BeValue(AsBytes(k))
  {
    if k == [] {
      assert AsBytes(k) == [] && BeValue(AsBytes(k)) == 0;
    } else if k[0] == 0 {
      hide Pow2, BeValue, LeadingZeros8, AsBytes;
      ZeroHead(k);
      LeadingZerosAreMagnitude(k[1..]);
    } else {
      hide Pow2, BeValue, LeadingZeros8, AsBytes;
      NonzeroHead(k);
    }
  }

  /** Whole leading bytes counted as zero are zero, and become trailing zeros once reversed. */
  lemma {:induction false} LeadingZeroBytes(k: key)
    ensures forall i: nat :: i < LeadingZeros(k) / 8 ==> k[i] == 0
    ensures forall j: nat :: |k| - LeadingZeros(k) / 8 <= j < |k| ==> Reversed(AsBytes(k))[j] == 0
  {
    if k != [] && k[0] == 0 {
      LeadingZeroBytes(k[1..]);
      forall i: nat | i < LeadingZeros(k) / 8 ensures k[i] == 0 {
        if i > 0 {
          assert k[i] == k[1..][i - 1];
        }
      }
    }
  }
}
