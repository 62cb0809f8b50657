/** Decimal numbers as Rust prints and parses them, splitting at a character, and string order. */
module Text {
  import opened Results
  import opened Bytes
  import opened Sequences

  predicate IsDigit(c: char) {
    '0' <= c <= '9'
  }

  function DigitChar(d: nat): (c: char)
    requires d < 10
    ensures IsDigit(c)
  {
    '0' + d as char
  }

  function DigitValue(c: char): (d: nat)
    requires IsDigit(c)
    ensures d < 10 && DigitChar(d) == c
  {
    c as int - '0' as int
  }

  predicate AllDigits(s: string) {
    forall i :: 0 <= i < |s| ==> IsDigit(s[i])
  }

  function DigitsValue(s: string): nat
    requires AllDigits(s)
  {
    if s == "" then 0 else 10 * DigitsValue(s[..|s| - 1]) + DigitValue(s[|s| - 1])
  }

  function Pow10(k: nat): (p: nat)
    ensures p > 0
  {
    if k == 0 then 1 else 10 * Pow10(k - 1)
  }

  /** `{}` of a non-negative integer. */
  function Dec(n: nat): (s: string)
    ensures s != "" && AllDigits(s)
  {
    if n < 10 then [DigitChar(n)] else Dec(n / 10) + [DigitChar(n % 10)]
  }

  /** `{}` of a signed integer. */
  function DecInt(n: int): (s: string)
    ensures s != ""
  {
    if n < 0 then "-" + Dec(-n) else Dec(n)
  }

  /** Zero-padded to a width the number fits in: `{:02}`, `{:03}`. */
  function Pad(n: nat, width: nat): (s: string)
    requires n < Pow10(width)
    ensures |s| == width && AllDigits(s)
  {
    if width == 0 then "" else Pad(n / 10, width - 1) + [DigitChar(n % 10)]
  }

  lemma {:induction false} DecValue(n: nat)
    ensures DigitsValue(Dec(n)) == n
  {
    if n >= 10 {
      DecValue(n / 10);
      assert Dec(n)[..|Dec(n)| - 1] == Dec(n / 10);
    }
  }

  lemma {:induction false} PadValue(n: nat, width: nat)
    requires n < Pow10(width)
    ensures DigitsValue(Pad(n, width)) == n
  {
    if width > 0 {
      PadValue(n / 10, width - 1);
      assert Pad(n, width)[..width - 1] == Pad(n / 10, width - 1);
    }
  }

  /** The number of digits, as powers of ten. */
  lemma {:induction false} DecLength(n: nat, k: nat)
    ensures k > 0 ==> (|Dec(n)| <= k <==> n < Pow10(k))
  {
    if n >= 10 && k > 1 {
      DecLength(n / 10, k - 1);
    }
  }

  /** `str::parse` of an unsigned integer: an optional '+', then digits, no greater than max. */
  function ParseUnsigned(s: string, max: nat): (r: Result<nat>)
    ensures r.Ok? ==> r.value <= max
  {
    var digits := if s != "" && s[0] == '+' then s[1..] else s;
    if digits == "" || !AllDigits(digits) || DigitsValue(digits) > max then Err else Ok(DigitsValue(digits))
  }

  /** `str::parse` of a signed integer between min and max. */
  function ParseSigned(s: string, min: int, max: int): (r: Result<int>)
    ensures r.Ok? ==> min <= r.value <= max
  {
    var negative := s != "" && s[0] == '-';
    var digits := if s != "" && (s[0] == '+' || s[0] == '-') then s[1..] else s;
    if digits == "" || !AllDigits(digits) then Err
    else
      var v := if negative then 0 - DigitsValue(digits) else DigitsValue(digits);
      if min <= v <= max then Ok(v) else Err
  }

  /** A numeral of ASCII digits, leading zeros allowed, and its value. */
  predicate IsNumeral(d: string, v: nat) {
    d != "" && AllDigits(d) && DigitsValue(d) == v
  }

  /** Exactly numerals of values in range are parsed, with at most one sign before them. */
  lemma UnsignedIsExact(s: string, max: nat, v: nat)
    ensures ParseUnsigned(s, max) == Ok(v) <==> v <= max && exists d :: IsNumeral(d, v) && (s == d || s == "+" + d)
  {
    if ParseUnsigned(s, max) == Ok(v) {
      var d := if s[0] == '+' then s[1..] else s;
      assert IsNumeral(d, v) && s == [s[0]] + s[1..];
    }
    if v <= max {
      forall d | IsNumeral(d, v) && (s == d || s == "+" + d) ensures ParseUnsigned(s, max) == Ok(v) {
        assert IsDigit(d[0]) && ("+" + d)[1..] == d;
      }
    }
  }

  lemma SignedIsExact(s: string, min: int, max: int, v: int)
    ensures ParseSigned(s, min, max) == Ok(v) <==>
              min <= v <= max && exists d, n: nat ::
                IsNumeral(d, n) && (((s == d || s == "+" + d) && v == n) || (s == "-" + d && v == 0 - n))
  {
    if ParseSigned(s, min, max) == Ok(v) {
      var d := if s[0] == '+' || s[0] == '-' then s[1..] else s;
      assert IsNumeral(d, if v < 0 then -v else v) && s == [s[0]] + s[1..];
    }
    if min <= v <= max {
      forall d, n: nat | IsNumeral(d, n) && (((s == d || s == "+" + d) && v == n) || (s == "-" + d && v == 0 - n))
        ensures ParseSigned(s, min, max) == Ok(v)
      {
        assert IsDigit(d[0]) && ("+" + d)[1..] == d && ("-" + d)[1..] == d;
      }
    }
  }

  lemma ParseDec(n: int, min: int, max: int)
    requires min <= n <= max
    ensures ParseSigned(DecInt(n), min, max) == Ok(n)
  {
    DecValue(if n < 0 then -n else n);
    if n < 0 {
      assert ("-" + Dec(-n))[1..] == Dec(-n);
    } else {
      assert IsDigit(Dec(n)[0]);
    }
  }

  lemma ParsePad(n: nat, width: nat, max: nat)
    requires width > 0 && n < Pow10(width) && n <= max
    ensures ParseUnsigned(Pad(n, width), max) == Ok(n)
    ensures ParseSigned(Pad(n, width), 0 - max, max) == Ok(n)
  {
    PadValue(n, width);
    assert IsDigit(Pad(n, width)[0]);
  }

  // ---------------------------------------------------------------------------------------------

  /** `str::split`. */
  function Split(s: string, c: char): (parts: seq<string>)
    ensures |parts| > 0
  {
    if s == "" then [""]
    else
      var rest := Split(s[1..], c);
      if s[0] == c then [""] + rest else [[s[0]] + rest[0]] + rest[1..]
  }

  lemma {:induction false} SplitNone(s: string, c: char)
    requires c !in s
    ensures Split(s, c) == [s]
  {
    if s != "" {
      SplitNone(s[1..], c);
      assert [s[0]] + s[1..] == s;
    }
  }

  lemma {:induction false} SplitFront(a: string, c: char, b: string)
    requires c !in a
    ensures Split(a + [c] + b, c) == [a] + Split(b, c)
  {
    var s := a + [c] + b;
    if a == "" {
      assert s[1..] == b;
    } else {
      assert s[1..] == a[1..] + [c] + b;
      SplitFront(a[1..], c, b);
      assert [s[0]] + a[1..] == a;
    }
  }

  lemma {:induction false} SplitCharacters(s: string, c: char, k: nat)
    requires k < |Split(s, c)|
    ensures forall x :: x in Split(s, c)[k] ==> x in s
  {
    if s != "" {
      var rest := Split(s[1..], c);
      if s[0] != c {
        SplitCharacters(s[1..], c, k);
      } else if k > 0 {
        SplitCharacters(s[1..], c, k - 1);
      }
    }
  }

  /** `str::splitn`: at most n parts, the last one unsplit. */
  function SplitN(s: string, c: char, n: nat): (parts: seq<string>)
    requires n > 0
    ensures 0 < |parts| <= n
  {
    if n == 1 || s == "" then [s]
    else if s[0] == c then [""] + SplitN(s[1..], c, n - 1)
    else
      var rest := SplitN(s[1..], c, n);
      [[s[0]] + rest[0]] + rest[1..]
  }

  lemma {:induction false} SplitNCharacters(s: string, c: char, n: nat, k: nat)
    requires n > 0 && k < |SplitN(s, c, n)|
    ensures forall x :: x in SplitN(s, c, n)[k] ==> x in s
  {
    if n > 1 && s != "" {
      if s[0] != c {
        SplitNCharacters(s[1..], c, n, k);
      } else if k > 0 {
        SplitNCharacters(s[1..], c, n - 1, k - 1);
      }
    }
  }

  lemma {:induction false} SplitNFront(a: string, c: char, b: string, n: nat)
    requires c !in a && n > 1
    ensures SplitN(a + [c] + b, c, n) == [a] + SplitN(b, c, n - 1)
  {
    var s := a + [c] + b;
    if a == "" {
      assert s[1..] == b;
    } else {
      assert s[1..] == a[1..] + [c] + b;
      SplitNFront(a[1..], c, b, n);
      assert [s[0]] + a[1..] == a;
    }
  }

  lemma {:induction false} SplitNNone(s: string, c: char, n: nat)
    requires c !in s && n > 0
    ensures SplitN(s, c, n) == [s]
  {
    if s != "" && n > 1 {
      SplitNNone(s[1..], c, n);
      assert [s[0]] + s[1..] == s;
    }
  }

  // ---------------------------------------------------------------------------------------------

  function Codes(s: string): seq<int> {
    Map((c: char) => c as int, s)
  }

  /** Rust's order on strings of ASCII characters. */
  predicate StringLess(a: string, b: string) {
    LexLess(Codes(a), Codes(b))
  }

  lemma CodesInjective(a: string, b: string)
    ensures Codes(a) == Codes(b) <==> a == b
  {
    if Codes(a) == Codes(b) {
      forall i | 0 <= i < |a| ensures a[i] == b[i] {
        assert Codes(a)[i] == Codes(b)[i];
      }
    }
  }

  lemma StringLessSplit(a: string, x: string, b: string, y: string)
    requires |a| == |b|
    ensures StringLess(a + x, b + y) <==> StringLess(a, b) || (a == b && StringLess(x, y))
  {
    assert Codes(a + x) == Codes(a) + Codes(x) && Codes(b + y) == Codes(b) + Codes(y);
    LexLessSplit(Codes(a), Codes(x), Codes(b), Codes(y));
    CodesInjective(a, b);
  }

  lemma DigitOrder(d: nat, e: nat)
    requires d < 10 && e < 10
    ensures StringLess([DigitChar(d)], [DigitChar(e)]) <==> d < e
  {
    var x, y := Codes([DigitChar(d)]), Codes([DigitChar(e)]);
    assert x[0] == '0' as int + d && y[0] == '0' as int + e;
    assert x[1..] == [] && y[1..] == [];
    assert LexLess(x, y) <==> x[0] < y[0];
  }

  /** Zero-padded numbers of one width are ordered as numbers. */
  lemma {:induction false} PadOrder(m: nat, n: nat, width: nat)
    requires m < Pow10(width) && n < Pow10(width)
    ensures StringLess(Pad(m, width), Pad(n, width)) <==> m < n
    ensures Pad(m, width) == Pad(n, width) <==> m == n
  {
    if width > 0 {
      PadOrder(m / 10, n / 10, width - 1);
      var x, y := [DigitChar(m % 10)], [DigitChar(n % 10)];
      StringLessSplit(Pad(m / 10, width - 1), x, Pad(n / 10, width - 1), y);
      DigitOrder(m % 10, n % 10);
      PadValue(m, width);
      PadValue(n, width);
    }
  }

  /** Without padding, a number with exactly width digits prints the same. */
  lemma {:induction false} DecIsPad(n: nat, width: nat)
    requires width > 0 && n < Pow10(width) && (width > 1 ==> n >= Pow10(width - 1))
    ensures Dec(n) == Pad(n, width)
  {
    if width == 1 {
      assert Pad(n / 10, 0) == "";
    } else {
      DecIsPad(n / 10, width - 1);
    }
  }
}
