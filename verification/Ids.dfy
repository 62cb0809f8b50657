/** 32-byte identifiers with their hexadecimal form, and salts (types.rs, tools.rs). */
module Ids {
  import opened Results
  import opened Bytes

  const ID_BYTES := 32

  /** Ids, hashes and Ed25519 key bytes are all 32 bytes long. */
  type Id = s: bytes | |s| == ID_BYTES witness seq(ID_BYTES, _ => 0)

  const SALT_BYTES := 8

  type Salt = s: bytes | |s| == SALT_BYTES witness seq(SALT_BYTES, _ => 0)

  function HexDigit(d: nat): (c: char)
    requires d < 16
  {
    if d < 10 then '0' + d as char else 'a' + (d - 10) as char
  }

  /** The hex crate's decoder takes either case. */
  function HexValue(c: char): (v: Option<nat>)
    ensures v.Some? ==> v.value < 16
  {
    if '0' <= c <= '9' then Some(c as int - '0' as int)
    else if 'a' <= c <= 'f' then Some(c as int - 'a' as int + 10)
    else if 'A' <= c <= 'F' then Some(c as int - 'A' as int + 10)
    else None
  }

  function Hex(s: bytes): (h: string)
    ensures |h| == 2 * |s|
  {
    if s == [] then "" else [HexDigit(s[0] / 16), HexDigit(s[0] % 16)] + Hex(s[1..])
  }

  function UnHex(h: string): (r: Result<bytes>)
    ensures r.Ok? ==> |h| == 2 * |r.value|
  {
    if h == "" then Ok([])
    else if |h| == 1 || HexValue(h[0]) == None || HexValue(h[1]) == None then Err
    else
      var rest := UnHex(h[2..]);
      if rest == Err then Err else Ok([16 * HexValue(h[0]).value + HexValue(h[1]).value] + rest.value)
  }

  /** `Id::from_hex_str`. */
  function IdFromHex(h: string): Result<Id> {
    if |h| != 2 * ID_BYTES then Err
    else
      var r := UnHex(h);
      if r == Err then Err else Ok(r.value)
  }

  lemma HexDigitValue(d: nat)
    requires d < 16
    ensures HexValue(HexDigit(d)) == Some(d) && HexDigit(d) != '~'
  {
  }

  /** Printed digits are lower case; read ones may be of either case. */
  lemma HexDigits(d: nat, c: char)
    requires d < 16
    ensures HexDigit(d) == "0123456789abcdef"[d]
    ensures HexValue(c) == Some(d) <==> c == "0123456789abcdef"[d] || c == "0123456789ABCDEF"[d]
  {
  }

  /** Byte i prints as characters 2i and 2i + 1, the upper half first. */
  lemma {:induction false} HexLayout(s: bytes, i: nat)
    requires i < |s|
    ensures Hex(s)[2 * i] == HexDigit(s[i] / 16) && Hex(s)[2 * i + 1] == HexDigit(s[i] % 16)
  {
    var pair := [HexDigit(s[0] / 16), HexDigit(s[0] % 16)];
    assert Hex(s) == pair + Hex(s[1..]);
    if i > 0 {
      HexLayout(s[1..], i - 1);
      assert Hex(s)[2 * i] == Hex(s[1..])[2 * (i - 1)] && Hex(s)[2 * i + 1] == Hex(s[1..])[2 * (i - 1) + 1];
    }
  }

  predicate IsHexText(h: string) {
    |h| % 2 == 0 && forall i :: 0 <= i < |h| ==> HexValue(h[i]).Some?
  }

  lemma HexTextTail(h: string)
    requires |h| >= 2
    ensures IsHexText(h) <==> HexValue(h[0]).Some? && HexValue(h[1]).Some? && IsHexText(h[2..])
  {
    hide HexValue;
    forall i | 0 <= i < |h| && HexValue(h[0]).Some? && HexValue(h[1]).Some? && IsHexText(h[2..])
      ensures HexValue(h[i]).Some?
    {
      assert i >= 2 ==> h[2..][i - 2] == h[i];
    }
  }

  /** Exactly the texts of an even number of hexadecimal digits are read. */
  lemma {:induction false} UnHexReads(h: string)
    ensures UnHex(h).Ok? <==> IsHexText(h)
  {
    hide HexValue;
    if |h| >= 2 {
      UnHexReads(h[2..]);
      HexTextTail(h);
      hide IsHexText;
    }
  }

  /** Two digits make a byte, the upper half first. */
  lemma {:induction false} UnHexValues(h: string, i: nat)
    requires UnHex(h).Ok? && i < |UnHex(h).value|
    ensures HexValue(h[2 * i]).Some? && HexValue(h[2 * i + 1]).Some?
    ensures UnHex(h).value[i] == 16 * HexValue(h[2 * i]).value + HexValue(h[2 * i + 1]).value
  {
    hide HexValue;
    if i > 0 {
      UnHexValues(h[2..], i - 1);
      assert h[2 * i] == h[2..][2 * (i - 1)] && h[2 * i + 1] == h[2..][2 * (i - 1) + 1];
      assert UnHex(h).value[i] == UnHex(h[2..]).value[i - 1];
    }
  }

  lemma {:induction false} UnHexOfHex(s: bytes)
    ensures UnHex(Hex(s)) == Ok(s)
    ensures '~' !in Hex(s)
  {
    if s != [] {
      var pair := [HexDigit(s[0] / 16), HexDigit(s[0] % 16)];
      HexDigitValue(s[0] / 16);
      HexDigitValue(s[0] % 16);
      UnHexOfHex(s[1..]);
      assert Hex(s) == pair + Hex(s[1..]) && (pair + Hex(s[1..]))[2..] == Hex(s[1..]);
      assert Hex(s)[0] == pair[0] && Hex(s)[1] == pair[1];
      assert s == [s[0]] + s[1..];
    }
  }
}
