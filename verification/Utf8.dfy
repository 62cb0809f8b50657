/** Byte offsets into strings: the lengths of UTF-8 sequences (RFC 3629, section 3) and slicing at a byte offset. */
module Utf8 {
  import opened Results
  import opened Panics
  import Bytes

  function Width(c: char): (w: nat)
    ensures 1 <= w <= 4
  {
    var n := c as int;
    if n < 0x80 then 1 else if n < 0x800 then 2 else if n < 0x10000 then 3 else 4
  }

  /** One byte carries seven bits, and w of them, from two on, carry 5w + 1; each character takes the fewest that do. */
  lemma WidthIsLeast(c: char)
    ensures Width(c) == 1 <==> c as int < Bytes.Pow2(7)
    ensures Width(c) > 1 ==> c as int < Bytes.Pow2(5 * Width(c) + 1)
    ensures Width(c) > 2 ==> Bytes.Pow2(5 * (Width(c) - 1) + 1) <= c as int
  {
    PowersOfTwo();
  }

  lemma PowersOfTwo()
    ensures Bytes.Pow2(7) == 0x80 && Bytes.Pow2(11) == 0x800 && Bytes.Pow2(16) == 0x1_0000 && Bytes.Pow2(21) == 0x20_0000
  {
    assert Bytes.Pow2(3) == 8;
    assert Bytes.Pow2(7) == 0x80;
    assert Bytes.Pow2(11) == 0x800;
    assert Bytes.Pow2(16) == 0x1_0000;
  }

  /** `str::len`. */
  function Length(s: string): (n: nat)
    ensures n >= |s|
  {
    if s == "" then 0 else Width(s[0]) + Length(s[1..])
  }

  predicate IsAscii(s: string) {
    forall c :: c in s ==> c as int < 0x80
  }

  /** The byte offset lies between two characters: `str::is_char_boundary`. */
  ghost predicate IsBoundary(s: string, k: nat) {
    exists i :: 0 <= i <= |s| && Length(s[..i]) == k
  }

  /** How many characters lie before a byte offset, if it is a boundary. */
  function CharsBefore(s: string, k: nat): (i: Option<nat>)
    ensures i.Some? ==> i.value <= |s|
  {
    if k == 0 then Some(0)
    else if s == "" || k < Width(s[0]) then None
    else
      var rest := CharsBefore(s[1..], k - Width(s[0]));
      if rest == None then None else Some(rest.value + 1)
  }

  lemma {:induction false} LengthOfPrefix(s: string, i: nat)
    requires 0 < i <= |s|
    ensures Length(s[..i]) == Width(s[0]) + Length(s[1..][..i - 1])
  {
    assert s[..i][1..] == s[1..][..i - 1];
  }

  lemma {:induction false} CharsBeforeIs(s: string, k: nat, i: nat)
    requires i <= |s|
    ensures CharsBefore(s, k) == Some(i) <==> Length(s[..i]) == k
  {
    if i > 0 {
      LengthOfPrefix(s, i);
      if k >= Width(s[0]) {
        CharsBeforeIs(s[1..], k - Width(s[0]), i - 1);
      }
    }
  }

  /** The search finds a boundary exactly where there is one. */
  lemma BoundaryIsFound(s: string, k: nat)
    ensures CharsBefore(s, k).Some? <==> IsBoundary(s, k)
  {
    if CharsBefore(s, k).Some? {
      CharsBeforeIs(s, k, CharsBefore(s, k).value);
    }
    if i :| 0 <= i <= |s| && Length(s[..i]) == k {
      CharsBeforeIs(s, k, i);
    }
  }

  lemma {:induction false} CharsBeforeIncreases(s: string, j: nat, k: nat)
    requires j <= k && CharsBefore(s, j).Some? && CharsBefore(s, k).Some?
    ensures CharsBefore(s, j).value <= CharsBefore(s, k).value
  {
    if j > 0 {
      CharsBeforeIncreases(s[1..], j - Width(s[0]), k - Width(s[0]));
    }
  }

  /** `&s[from..to]`: a panic unless both offsets are boundaries. */
  function Slice(s: string, from: nat, to: nat): Outcome<string>
    requires from <= to
  {
    var i, j := CharsBefore(s, from), CharsBefore(s, to);
    if i == None || j == None then Panicked
    else
      CharsBeforeIncreases(s, from, to);
      Done(s[i.value..j.value])
  }

  lemma FrontSlice(s: string, k: nat, i: nat)
    requires i <= |s| && Length(s[..i]) == k
    ensures Slice(s, 0, k) == Done(s[..i])
  {
    CharsBeforeIs(s, k, i);
  }

  lemma FrontOfSlice(s: string, k: nat)
    requires Slice(s, 0, k).Done?
    ensures exists i :: 0 <= i <= |s| && Length(s[..i]) == k && Slice(s, 0, k) == Done(s[..i])
  {
    var i := CharsBefore(s, k).value;
    CharsBeforeIs(s, k, i);
    FrontSlice(s, k, i);
  }

  /** Slicing panics exactly when an end of the range is inside a character; the end of the string never is. */
  lemma SlicePanicsExactly(s: string, from: nat, to: nat)
    requires from <= to
    ensures Slice(s, from, to) == Panicked <==> !IsBoundary(s, from) || !IsBoundary(s, to)
    ensures Slice(s, from, to) != Failed && IsBoundary(s, 0) && IsBoundary(s, Length(s))
  {
    BoundaryIsFound(s, from);
    BoundaryIsFound(s, to);
    assert Length(s[..0]) == 0 && s[..|s|] == s;
  }

  lemma {:induction false} AsciiOffsets(s: string, k: nat)
    requires IsAscii(s) && k <= |s|
    ensures Length(s) == |s| && CharsBefore(s, k) == Some(k)
  {
    if s != "" {
      assert s[0] in s && forall c :: c in s[1..] ==> c in s;
      AsciiOffsets(s[1..], if k == 0 then 0 else k - 1);
    }
  }

  /** On ASCII text bytes are characters. */
  lemma AsciiSlice(s: string, from: nat, to: nat)
    requires IsAscii(s) && from <= to <= |s|
    ensures Length(s) == |s| && Slice(s, from, to) == Done(s[from..to])
  {
    AsciiOffsets(s, from);
    AsciiOffsets(s, to);
  }

  lemma AsciiBoundary(s: string, k: nat)
    requires IsAscii(s) && k <= Length(s)
    ensures IsBoundary(s, k)
  {
    AsciiOffsets(s, 0);
    AsciiOffsets(s, k);
    BoundaryIsFound(s, k);
  }
}
