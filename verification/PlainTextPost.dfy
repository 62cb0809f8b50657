/** Plain text to post HTML (plain_text_post.rs), and a reader that recovers the text. */
module PlainTextPost {
  import opened Sequences

  /** The two Unicode tables the source takes from the Rust standard library. */
  datatype Unicode = Unicode(alnum: char -> bool, lower: string -> string)

  /** Characters that mean something in the markup or to the scanner. */
  predicate IsSpecial(c: char) {
    c == '&' || c == '<' || c == '>' || c == '"' || c == '#' || c == '@' || c == '\n' || c == '\r' || c == ';'
  }

  predicate NoSpecial(s: string) {
    forall c :: c in s ==> !IsSpecial(c)
  }

  predicate AllAlnum(u: Unicode, s: string) {
    forall c :: c in s ==> u.alnum(c)
  }

  /** All that is assumed of the tables: no special is alphanumeric, and lowercasing yields none. */
  ghost predicate Sane(u: Unicode) {
    && (forall c :: u.alnum(c) ==> !IsSpecial(c))
    && (forall s :: AllAlnum(u, s) ==> NoSpecial(u.lower(s)))
  }

  predicate IsHex(c: char) {
    '0' <= c <= '9' || 'a' <= c <= 'f' || 'A' <= c <= 'F'
  }

  // ---------------------------------------------------------------------------------------------
  // Rendering

  const TAG_OPEN := "<hashtag hashtag=\""
  const QUOTE_END := "\">"
  const SPAN_OPEN := "<span class=\""
  const LEFT_CLASS := "plugin-hashtag-left"
  const RIGHT_CLASS := "plugin-hashtag-right"
  const TAG_LEFT := QUOTE_END + SPAN_OPEN + LEFT_CLASS + QUOTE_END
  const TAG_HASH := "#</span>"
  const TAG_RIGHT := SPAN_OPEN + RIGHT_CLASS + QUOTE_END
  const TAG_MID := TAG_LEFT + TAG_HASH + TAG_RIGHT
  const SPAN_CLOSE := "</span>"
  const ELEMENT_CLOSE := "</hashtag>"
  const TAG_CLOSE := SPAN_CLOSE + ELEMENT_CLOSE
  const MENTION_OPEN := "<mention client_id=\""
  const MENTION_CLOSE := "\"></mention>"
  const BREAK := "<br>"

  function EscapeChar(c: char): string {
    match c
    case '&' => "&amp;"
    case '<' => "&lt;"
    case '>' => "&gt;"
    case '"' => "&quot;"
    case _ => [c]
  }

  function Escape(t: string): string {
    if t == "" then "" else EscapeChar(t[0]) + Escape(t[1..])
  }

  function HashtagHtml(u: Unicode, hashtag: string): string {
    var stripped := if hashtag != "" && hashtag[0] == '#' then hashtag[1..] else hashtag;
    if stripped == "" || !AllAlnum(u, stripped) then hashtag
    else TAG_OPEN + u.lower(stripped) + TAG_MID + stripped + TAG_CLOSE
  }

  function MentionHtml(id: string): string {
    MENTION_OPEN + id + MENTION_CLOSE
  }

  /** The length of the longest front of s whose characters satisfy p. */
  function Run(p: char -> bool, s: string): (n: nat)
    ensures n <= |s|
    ensures forall i :: 0 <= i < n ==> p(s[i])
    ensures n < |s| ==> !p(s[n])
  {
    if s == "" || !p(s[0]) then 0 else 1 + Run(p, s[1..])
  }

  lemma RunIs(p: char -> bool, s: string, n: nat)
    requires n <= |s| && (forall i :: 0 <= i < n ==> p(s[i])) && (n < |s| ==> !p(s[n]))
    ensures Run(p, s) == n
  {
  }

  /** What the scanning loop produces from (escaped) characters. */
  function Scan(u: Unicode, cs: string): string {
    if cs == "" then ""
    else match cs[0]
      case '#' =>
        var n := Run(u.alnum, cs[1..]);
        if n > 0 then HashtagHtml(u, cs[1..][..n]) + Scan(u, cs[1..][n..]) else "#" + Scan(u, cs[1..])
      case '@' =>
        if Run(IsHex, cs[1..]) == 64 then MentionHtml(cs[1..][..64]) + Scan(u, cs[1..][64..])
        else "@" + Scan(u, cs[1..])
      case '\n' => BREAK + Scan(u, cs[1..])
      case '\r' => Scan(u, cs[1..])
      case c => [c] + Scan(u, cs[1..])
  }

  method HtmlEscape(text: string) returns (escaped: string)
    ensures escaped == Escape(text)
  {
    escaped := "";
    for i := 0 to |text|
      invariant escaped + Escape(text[i..]) == Escape(text)
    {
      assert text[i..][1..] == text[i + 1..];
      var c := text[i];
      Associate(escaped, EscapeChar(c), Escape(text[i + 1..]));
      match c {
        case '&' => escaped := escaped + "&amp;";
        case '<' => escaped := escaped + "&lt;";
        case '>' => escaped := escaped + "&gt;";
        case '"' => escaped := escaped + "&quot;";
        case _ => escaped := escaped + [c];
      }
    }
  }

  method ConvertTextToHtml(u: Unicode, text: string) returns (output: string)
    ensures output == Scan(u, Escape(text))
  {
    var chars := HtmlEscape(text);
    output := "";
    var i := 0;
    while i < |chars|
      invariant i <= |chars|
      invariant output + Scan(u, chars[i..]) == Scan(u, chars)
    {
      ghost var rest := chars[i + 1..];
      assert chars[i..][0] == chars[i] && chars[i..][1..] == rest;
      var piece, next := ScanOne(u, chars, i);
      Associate(output, piece, Scan(u, chars[next..]));
      output := output + piece;
      i := next;
    }
  }

  /** One turn of the scanning loop: what it appends and where it continues. */
  method ScanOne(u: Unicode, chars: string, i: nat) returns (piece: string, next: nat)
    requires i < |chars|
    ensures i < next <= |chars|
    ensures Scan(u, chars[i..]) == piece + Scan(u, chars[next..])
  {
    assert chars[i..][0] == chars[i] && chars[i..][1..] == chars[i + 1..];
    match chars[i] {
      case '#' =>
        var end := SkipAlnum(u, chars, i + 1);
        if end > i + 1 {
          return HashtagHtml(u, chars[i + 1..end]), end;
        } else {
          return "#", i + 1;
        }
      case '@' =>
        var end := SkipHex(chars, i + 1);
        if end - (i + 1) == 64 && (end >= |chars| || !IsHex(chars[end])) {
          return MentionHtml(chars[i + 1..end]), end;
        } else {
          return "@", i + 1;
        }
      case '\n' => return BREAK, i + 1;
      case '\r' => return "", i + 1;
      case c => return [c], i + 1;
    }
  }

  method SkipAlnum(u: Unicode, chars: string, start: nat) returns (end: nat)
    requires start <= |chars|
    ensures end == start + Run(u.alnum, chars[start..])
    ensures chars[start..end] == chars[start..][..end - start] && chars[end..] == chars[start..][end - start..]
  {
    end := start;
    while end < |chars| && u.alnum(chars[end])
      invariant start <= end <= |chars|
      invariant forall k :: 0 <= k < end - start ==> u.alnum(chars[start..][k])
    {
      end := end + 1;
    }
    RunIs(u.alnum, chars[start..], end - start);
  }

  /** Skips at most 64 hex characters. */
  method SkipHex(chars: string, start: nat) returns (end: nat)
    requires start <= |chars|
    ensures start <= end <= |chars|
    ensures end - start == 64 && (end >= |chars| || !IsHex(chars[end])) <==> Run(IsHex, chars[start..]) == 64
    ensures chars[start..end] == chars[start..][..end - start] && chars[end..] == chars[start..][end - start..]
  {
    end := start;
    while end < |chars| && end - start < 64 && IsHex(chars[end])
      invariant start <= end <= |chars| && end - start <= 64
      invariant forall k :: 0 <= k < end - start ==> IsHex(chars[start..][k])
    {
      end := end + 1;
    }
    if end - start < 64 || end >= |chars| || !IsHex(chars[end]) {
      RunIs(IsHex, chars[start..], end - start);
    } else {
      assert IsHex(chars[start..][64]);
    }
  }

  // ---------------------------------------------------------------------------------------------
  // The text as tokens, independent of escaping

  datatype Token = Plain(c: char) | Newline | Return | Hashtag(tag: string) | Mention(id: string)

  /** The first token of a text and what follows it. */
  function FirstToken(u: Unicode, t: string): (r: (Token, string))
    requires t != ""
    ensures |r.1| < |t|
  {
    var rest := t[1..];
    match t[0]
    case '#' => if Run(u.alnum, rest) > 0 then (Hashtag(rest[..Run(u.alnum, rest)]), rest[Run(u.alnum, rest)..])
                else (Plain('#'), rest)
    case '@' => if Run(IsHex, rest) == 64 then (Mention(rest[..64]), rest[64..]) else (Plain('@'), rest)
    case '\n' => (Newline, rest)
    case '\r' => (Return, rest)
    case c => (Plain(c), rest)
  }

  function Tokens(u: Unicode, t: string): (ts: seq<Token>)
    decreases |t|
  {
    if t == "" then [] else var (k, rest) := FirstToken(u, t); [k] + Tokens(u, rest)
  }

  function Source(k: Token): string {
    match k
    case Plain(c) => [c]
    case Newline => "\n"
    case Return => "\r"
    case Hashtag(tag) => "#" + tag
    case Mention(id) => "@" + id
  }

  function SourceOf(ts: seq<Token>): string {
    if ts == [] then "" else Source(ts[0]) + SourceOf(ts[1..])
  }

  function Render(u: Unicode, k: Token): string {
    match k
    case Plain(c) => EscapeChar(c)
    case Newline => BREAK
    case Return => ""
    case Hashtag(tag) => TAG_OPEN + u.lower(tag) + TAG_MID + tag + TAG_CLOSE
    case Mention(id) => MENTION_OPEN + id + MENTION_CLOSE
  }

  function RenderAll(u: Unicode, ts: seq<Token>): string {
    if ts == [] then "" else Render(u, ts[0]) + RenderAll(u, ts[1..])
  }

  ghost predicate WellFormed(u: Unicode, k: Token) {
    match k
    case Plain(c) => c != '\n' && c != '\r'
    case Hashtag(tag) => tag != "" && AllAlnum(u, tag)
    case Mention(id) => |id| == 64 && forall c :: c in id ==> IsHex(c)
    case _ => true
  }

  /** The tokens spell the text. */
  lemma {:induction false} TokensSpellText(u: Unicode, t: string)
    ensures SourceOf(Tokens(u, t)) == t
    ensures forall k :: k in Tokens(u, t) ==> WellFormed(u, k)
    decreases |t|
  {
    if t != "" {
      hide FirstToken, Source, WellFormed;
      var (k, rest) := FirstToken(u, t);
      FirstTokenSpells(u, t);
      TokensSpellText(u, rest);
      assert Tokens(u, t)[1..] == Tokens(u, rest);
    }
  }

  lemma FirstTokenSpells(u: Unicode, t: string)
    requires t != ""
    ensures var (k, rest) := FirstToken(u, t); Source(k) + rest == t && WellFormed(u, k)
  {
    var rest := t[1..];
    assert t == [t[0]] + rest;
    var n := Run(u.alnum, rest);
    if t[0] == '#' && n > 0 {
      assert rest == rest[..n] + rest[n..];
      Associate(['#'], rest[..n], rest[n..]);
    } else if t[0] == '@' && Run(IsHex, rest) == 64 {
      assert rest == rest[..64] + rest[64..];
      Associate(['@'], rest[..64], rest[64..]);
    }
  }

  // ---------------------------------------------------------------------------------------------
  // Scanning commutes with escaping

  lemma RunCons(p: char -> bool, c: char, s: string)
    requires p(c)
    ensures Run(p, [c] + s) == 1 + Run(p, s)
    ensures ([c] + s)[..1 + Run(p, s)] == [c] + s[..Run(p, s)]
    ensures ([c] + s)[1 + Run(p, s)..] == s[Run(p, s)..]
  {
    assert ([c] + s)[1..] == s;
  }

  lemma NotInRun(p: char -> bool, c: char)
    requires !p(c) && !p('&')
    ensures |EscapeChar(c)| > 0 && !p(EscapeChar(c)[0])
  {
  }

  /** A run of ordinary characters is neither shortened nor lengthened by escaping what follows. */
  lemma {:induction false} RunOfEscaped(p: char -> bool, t: string)
    requires forall c :: p(c) ==> EscapeChar(c) == [c]
    requires !p('&')
    ensures Run(p, Escape(t)) == Run(p, t)
    ensures Escape(t)[..Run(p, t)] == t[..Run(p, t)]
    ensures Escape(t)[Run(p, t)..] == Escape(t[Run(p, t)..])
  {
    if t != "" && p(t[0]) {
      var rest, e := t[1..], Escape(t[1..]);
      assert t == [t[0]] + rest && Escape(t) == [t[0]] + e;
      hide Run, Escape, EscapeChar;
      RunOfEscaped(p, rest);
      RunCons(p, t[0], rest);
      RunCons(p, t[0], e);
    } else if t != "" {
      NotInRun(p, t[0]);
      assert Escape(t)[0] == EscapeChar(t[0])[0];
      hide Escape, EscapeChar;
      assert Escape(t)[0..] == Escape(t) && t[0..] == t;
    }
  }

  /** A character the scanner copies. */
  predicate IsInert(c: char) {
    c != '#' && c != '@' && c != '\n' && c != '\r'
  }

  lemma ScanPlain(u: Unicode, c: char, rest: string)
    requires IsInert(c)
    ensures Scan(u, [c] + rest) == [c] + Scan(u, rest)
  {
    assert ([c] + rest)[1..] == rest;
  }

  lemma {:induction false} ScanPlainRun(u: Unicode, s: string, rest: string)
    requires forall c :: c in s ==> IsInert(c)
    ensures Scan(u, s + rest) == s + Scan(u, rest)
  {
    if s == "" {
      assert s + rest == rest;
    } else {
      var tail := s[1..];
      ScanPlainRun(u, tail, rest);
      ScanPlain(u, s[0], tail + rest);
      assert s == [s[0]] + tail;
      Associate([s[0]], tail, rest);
      Associate([s[0]], tail, Scan(u, rest));
    }
  }

  lemma ScanFirstHash(u: Unicode, rest: string)
    requires Sane(u)
    ensures var (k, next) := FirstToken(u, "#" + rest);
            Scan(u, "#" + Escape(rest)) == Render(u, k) + Scan(u, Escape(next))
  {
    var e := Escape(rest);
    assert ("#" + e)[1..] == e && ("#" + rest)[1..] == rest;
    forall c | u.alnum(c) ensures EscapeChar(c) == [c] { }
    RunOfEscaped(u.alnum, rest);
    if Run(u.alnum, rest) > 0 {
      var tag := rest[..Run(u.alnum, rest)];
      assert u.alnum(tag[0]);
      assert AllAlnum(u, tag);
    }
  }

  lemma ScanAt(u: Unicode, cs: string)
    ensures Scan(u, "@" + cs) ==
            if Run(IsHex, cs) == 64 then MentionHtml(cs[..64]) + Scan(u, cs[64..]) else "@" + Scan(u, cs)
  {
    hide Run, MentionHtml;
    assert ("@" + cs)[1..] == cs;
  }

  lemma ScanFirstAt(u: Unicode, rest: string)
    requires Sane(u)
    ensures var (k, next) := FirstToken(u, "@" + rest);
            Scan(u, "@" + Escape(rest)) == Render(u, k) + Scan(u, Escape(next))
  {
    hide Scan, Escape, Run, Sane;
    ScanAt(u, Escape(rest));
    assert ("@" + rest)[1..] == rest;
    RunOfEscaped(IsHex, rest);
  }

  lemma ScanBreak(u: Unicode, rest: string)
    ensures Scan(u, "\n" + rest) == BREAK + Scan(u, rest)
    ensures Scan(u, "\r" + rest) == Scan(u, rest)
  {
    hide Run;
    assert ("\n" + rest)[1..] == rest && ("\r" + rest)[1..] == rest;
  }

  lemma ScanCopied(u: Unicode, c: char, rest: string)
    requires IsInert(c)
    ensures Scan(u, EscapeChar(c) + rest) == EscapeChar(c) + Scan(u, rest)
  {
    hide Scan;
    ScanPlainRun(u, EscapeChar(c), rest);
  }

  lemma ScanFirst(u: Unicode, t: string)
    requires Sane(u) && t != ""
    ensures var (k, rest) := FirstToken(u, t);
            Scan(u, Escape(t)) == Render(u, k) + Scan(u, Escape(rest))
  {
    var rest := t[1..];
    assert t == [t[0]] + rest;
    assert Escape(t) == EscapeChar(t[0]) + Escape(rest);
    hide Scan, Run, Escape, HashtagHtml, MentionHtml, Sane;
    if t[0] == '#' {
      hide FirstToken, Render;
      assert EscapeChar('#') == "#" && t == "#" + rest;
      ScanFirstHash(u, rest);
    } else if t[0] == '@' {
      hide FirstToken, Render;
      assert EscapeChar('@') == "@" && t == "@" + rest;
      ScanFirstAt(u, rest);
    } else if t[0] == '\n' || t[0] == '\r' {
      ScanBreak(u, Escape(rest));
    } else {
      hide EscapeChar;
      ScanCopied(u, t[0], Escape(rest));
    }
  }

  /** Converting renders the tokens of the raw text, although it escapes before it looks for them. */
  lemma {:induction false} ConvertRendersTokens(u: Unicode, t: string)
    requires Sane(u)
    ensures Scan(u, Escape(t)) == RenderAll(u, Tokens(u, t))
    decreases |t|
  {
    if t != "" {
      var (k, rest) := FirstToken(u, t);
      ScanFirst(u, t);
      ConvertRendersTokens(u, rest);
      assert Tokens(u, t)[1..] == Tokens(u, rest);
    }
  }

  // ---------------------------------------------------------------------------------------------
  // Reading the HTML back

  predicate Starts(p: string, h: string) {
    |p| <= |h| && h[..|p|] == p
  }

  function Drop(h: string, n: nat): (r: string)
    ensures |r| <= |h|
    ensures n > 0 && h != "" ==> |r| < |h|
  {
    if n <= |h| then h[n..] else ""
  }

  function Before(c: char, h: string): string {
    h[..Run(x => x != c, h)]
  }

  /** One token read from the front of the HTML, with what is left. */
  function ReadToken(h: string): (r: (Token, string))
    requires h != ""
    ensures |r.1| < |h|
  {
    if Starts(BREAK, h) then (Newline, Drop(h, |BREAK|))
    else if Starts(MENTION_OPEN, h) then
      var id := Before('"', Drop(h, |MENTION_OPEN|));
      (Mention(id), Drop(h, |MENTION_OPEN| + |id| + |MENTION_CLOSE|))
    else if Starts(TAG_OPEN, h) then
      var attribute := Before('"', Drop(h, |TAG_OPEN|));
      var visible := Drop(h, |TAG_OPEN| + |attribute| + |TAG_MID|);
      var tag := Before('<', visible);
      (Hashtag(tag), Drop(visible, |tag| + |TAG_CLOSE|))
    else if Starts("&amp;", h) then (Plain('&'), Drop(h, 5))
    else if Starts("&lt;", h) then (Plain('<'), Drop(h, 4))
    else if Starts("&gt;", h) then (Plain('>'), Drop(h, 4))
    else if Starts("&quot;", h) then (Plain('"'), Drop(h, 6))
    else (Plain(h[0]), h[1..])
  }

  function ReadHtml(h: string): seq<Token>
    decreases |h|
  {
    if h == "" then [] else var (k, rest) := ReadToken(h); [k] + ReadHtml(rest)
  }

  lemma BeforeOf(c: char, s: string, rest: string)
    requires forall x :: x in s ==> x != c
    requires rest != "" && rest[0] == c
    ensures Before(c, s + rest) == s
  {
    var p := x => x != c;
    forall i | 0 <= i < |s| ensures p((s + rest)[i]) {
      assert s[i] in s;
    }
    RunIs(p, s + rest, |s|);
    RunSame(p, x => x != c, s + rest);
  }

  lemma {:induction false} RunSame(p: char -> bool, q: char -> bool, s: string)
    requires forall c :: p(c) == q(c)
    ensures Run(p, s) == Run(q, s)
  {
    if s != "" {
      RunSame(p, q, s[1..]);
    }
  }

  lemma DropFront(s: string, rest: string)
    ensures Drop(s + rest, |s|) == rest
  {
  }

  lemma ReadMention(id: string, rest: string)
    requires forall c :: c in id ==> IsHex(c)
    ensures ReadToken(MENTION_OPEN + id + MENTION_CLOSE + rest) == (Mention(id), rest)
  {
    var tail := MENTION_CLOSE + rest;
    var h := MENTION_OPEN + id + MENTION_CLOSE + rest;
    assert h == MENTION_OPEN + (id + tail);
    assert h[1] == 'm';
    assert !Starts(BREAK, h) by {
      assert BREAK[1] == 'b';
    }
    DropFront(MENTION_OPEN, id + tail);
    BeforeOf('"', id, tail);
    DropFront(MENTION_OPEN + id + MENTION_CLOSE, rest);
  }

  /** Reading a value that is delimited by the markup around it. */
  lemma ReadDelimited(c: char, open: string, value: string, close: string, rest: string)
    requires c !in value && close != "" && close[0] == c
    ensures Before(c, Drop(open + (value + (close + rest)), |open|)) == value
    ensures Drop(open + (value + (close + rest)), |open| + |value| + |close|) == rest
  {
    DropFront(open, value + (close + rest));
    BeforeOf(c, value, close + rest);
    Associate(value, close, rest);
    Associate(open, value + close, rest);
    DropFront(open + (value + close), rest);
  }

  lemma MarkupStarts()
    ensures TAG_MID != "" && TAG_MID[0] == '"'
    ensures TAG_CLOSE != "" && TAG_CLOSE[0] == '<'
  {
    assert QUOTE_END[0] == '"' && SPAN_CLOSE[0] == '<';
    assert TAG_LEFT[0] == QUOTE_END[0];
  }

  lemma ReadHashtag(u: Unicode, tag: string, rest: string)
    requires Sane(u) && AllAlnum(u, tag)
    ensures ReadToken(TAG_OPEN + u.lower(tag) + TAG_MID + tag + TAG_CLOSE + rest) == (Hashtag(tag), rest)
  {
    var attribute := u.lower(tag);
    assert '"' !in attribute && '<' !in tag by {
      assert IsSpecial('"') && IsSpecial('<');
    }
    MarkupStarts();
    Regroup(TAG_OPEN, attribute, TAG_MID, tag, TAG_CLOSE, rest);
    ReadDelimited('"', TAG_OPEN, attribute, TAG_MID, tag + (TAG_CLOSE + rest));
    ReadDelimited('<', "", tag, TAG_CLOSE, rest);
    ReadTag(TAG_OPEN + (attribute + (TAG_MID + (tag + (TAG_CLOSE + rest)))), attribute, tag, rest);
  }

  lemma ReadTag(h: string, attribute: string, tag: string, rest: string)
    requires Starts(TAG_OPEN, h)
    requires Before('"', Drop(h, |TAG_OPEN|)) == attribute
    requires Drop(h, |TAG_OPEN| + |attribute| + |TAG_MID|) == tag + (TAG_CLOSE + rest)
    requires Before('<', Drop("" + (tag + (TAG_CLOSE + rest)), 0)) == tag
    requires Drop("" + (tag + (TAG_CLOSE + rest)), |tag| + |TAG_CLOSE|) == rest
    ensures h != "" && ReadToken(h) == (Hashtag(tag), rest)
  {
    StartsHashtag(h);
    var visible := tag + (TAG_CLOSE + rest);
    assert "" + visible == visible && Drop(visible, 0) == visible;
  }

  lemma Regroup(a: string, b: string, c: string, d: string, e: string, f: string)
    ensures a + b + c + d + e + f == a + (b + (c + (d + (e + f))))
  {
  }

  lemma StartsHashtag(h: string)
    requires Starts(TAG_OPEN, h)
    ensures !Starts(BREAK, h) && !Starts(MENTION_OPEN, h)
  {
    assert h[1] == TAG_OPEN[1] == 'h';
    assert BREAK[1] == 'b' && MENTION_OPEN[1] == 'm';
  }

  lemma ReadPlain(c: char, rest: string)
    ensures ReadToken(EscapeChar(c) + rest) == (Plain(c), rest)
  {
    var h := EscapeChar(c) + rest;
    DropFront(EscapeChar(c), rest);
    assert h[0] == EscapeChar(c)[0];
    assert BREAK[0] == '<' && MENTION_OPEN[0] == '<' && TAG_OPEN[0] == '<';
    if c == '<' || c == '>' || c == '&' || c == '"' {
      assert h[1] == EscapeChar(c)[1];
    }
  }

  lemma ReadRendered(u: Unicode, k: Token, rest: string)
    requires Sane(u) && WellFormed(u, k) && k != Return
    ensures Render(u, k) + rest != "" && ReadToken(Render(u, k) + rest) == (k, rest)
  {
    match k {
      case Plain(c) => ReadPlain(c, rest);
      case Newline => DropFront(BREAK, rest);
      case Mention(id) => ReadMention(id, rest);
      case Hashtag(tag) => ReadHashtag(u, tag, rest);
    }
  }

  function WithoutReturns(ts: seq<Token>): seq<Token> {
    if ts == [] then [] else (if ts[0] == Return then [] else [ts[0]]) + WithoutReturns(ts[1..])
  }

  lemma {:induction false} ReadAllRendered(u: Unicode, ts: seq<Token>)
    requires Sane(u) && forall k :: k in ts ==> WellFormed(u, k)
    ensures ReadHtml(RenderAll(u, ts)) == WithoutReturns(ts)
  {
    if ts != [] {
      ReadAllRendered(u, ts[1..]);
      if ts[0] == Return {
        assert RenderAll(u, ts) == RenderAll(u, ts[1..]);
      } else {
        ReadRendered(u, ts[0], RenderAll(u, ts[1..]));
      }
    }
  }

  function StripReturns(t: string): string {
    if t == "" then "" else (if t[0] == '\r' then "" else [t[0]]) + StripReturns(t[1..])
  }

  lemma {:induction false} StripConcat(a: string, b: string)
    ensures StripReturns(a + b) == StripReturns(a) + StripReturns(b)
  {
    if a == "" {
      assert a + b == b;
    } else {
      var c := if a[0] == '\r' then "" else [a[0]];
      StripConcat(a[1..], b);
      assert (a + b)[0] == a[0] && (a + b)[1..] == a[1..] + b;
      Associate(c, StripReturns(a[1..]), StripReturns(b));
    }
  }

  lemma {:induction false} StripNothing(a: string)
    requires '\r' !in a
    ensures StripReturns(a) == a
  {
    if a != "" {
      StripNothing(a[1..]);
      assert a == [a[0]] + a[1..];
    }
  }

  lemma SourceHasNoReturn(u: Unicode, k: Token)
    requires Sane(u) && WellFormed(u, k) && k != Return
    ensures '\r' !in Source(k)
  {
    match k {
      case Mention(id) => assert IsHex('\r') ==> false;
      case Hashtag(tag) => assert u.alnum('\r') ==> IsSpecial('\r') ==> false;
      case _ =>
    }
  }

  lemma {:induction false} SourceWithoutReturns(u: Unicode, ts: seq<Token>)
    requires Sane(u) && forall k :: k in ts ==> WellFormed(u, k)
    ensures SourceOf(WithoutReturns(ts)) == StripReturns(SourceOf(ts))
  {
    if ts != [] {
      var k, rest := ts[0], ts[1..];
      SourceWithoutReturns(u, rest);
      StripConcat(Source(k), SourceOf(rest));
      if k == Return {
        assert StripReturns("\r") == "" + StripReturns("");
        assert WithoutReturns(ts) == WithoutReturns(rest);
      } else {
        SourceHasNoReturn(u, k);
        StripNothing(Source(k));
        assert WithoutReturns(ts) == [k] + WithoutReturns(rest);
        assert ([k] + WithoutReturns(rest))[1..] == WithoutReturns(rest);
      }
    }
  }

  /** Nothing is lost: the reader applied to the output spells the text without its carriage returns. */
  lemma {:induction false} ConversionIsLossless(u: Unicode, t: string)
    requires Sane(u)
    ensures ReadHtml(Scan(u, Escape(t))) == WithoutReturns(Tokens(u, t))
    ensures SourceOf(ReadHtml(Scan(u, Escape(t)))) == StripReturns(t)
  {
    TokensSpellText(u, t);
    ConvertRendersTokens(u, t);
    ReadAllRendered(u, Tokens(u, t));
    SourceWithoutReturns(u, Tokens(u, t));
  }

  // ---------------------------------------------------------------------------------------------
  // Which hashtags appear

  function HashtagsRead(ts: seq<Token>): seq<string> {
    if ts == [] then [] else (if ts[0].Hashtag? then [ts[0].tag] else []) + HashtagsRead(ts[1..])
  }

  /** The non-empty maximal alphanumeric runs after a '#', looked for at every position of the text. */
  function HashtagsIn(u: Unicode, t: string): seq<string> {
    if t == "" then []
    else
      var n := Run(u.alnum, t[1..]);
      (if t[0] == '#' && n > 0 then [t[1..][..n]] else []) + HashtagsIn(u, t[1..])
  }

  lemma {:induction false} NoHashtagInside(u: Unicode, s: string, rest: string)
    requires '#' !in s
    ensures HashtagsIn(u, s + rest) == HashtagsIn(u, rest)
  {
    if s == "" {
      assert s + rest == rest;
    } else {
      NoHashtagInside(u, s[1..], rest);
      assert (s + rest)[1..] == s[1..] + rest;
    }
  }

  lemma FirstHashtag(u: Unicode, t: string)
    requires t != ""
    ensures var (k, rest) := FirstToken(u, t);
            HashtagsRead(Tokens(u, t)) == (if k.Hashtag? then [k.tag] else []) + HashtagsRead(Tokens(u, rest))
  {
    hide FirstToken;
    var (k, rest) := FirstToken(u, t);
    assert Tokens(u, t) == [k] + Tokens(u, rest) && ([k] + Tokens(u, rest))[1..] == Tokens(u, rest);
  }

  lemma HashtagsAfterRun(u: Unicode, p: char -> bool, s: string)
    requires !p('#')
    ensures HashtagsIn(u, s) == HashtagsIn(u, s[Run(p, s)..])
  {
    hide HashtagsIn;
    var n := Run(p, s);
    assert s == s[..n] + s[n..];
    NoHashtagInside(u, s[..n], s[n..]);
  }

  lemma {:induction false} HashtagTokens(u: Unicode, t: string)
    requires Sane(u)
    ensures HashtagsRead(Tokens(u, t)) == HashtagsIn(u, t)
    decreases |t|
  {
    if t != "" {
      hide Tokens, HashtagsRead, Run;
      var rest := t[1..];
      var n := Run(u.alnum, rest);
      if t[0] == '#' && n > 0 {
        HashtagTokens(u, rest[n..]);
        HashtagsAfterRun(u, u.alnum, rest);
      } else if t[0] == '@' && Run(IsHex, rest) == 64 {
        HashtagTokens(u, rest[64..]);
        HashtagsAfterRun(u, IsHex, rest);
      } else {
        HashtagTokens(u, rest);
      }
      FirstHashtag(u, t);
    }
  }

  lemma {:induction false} HashtagsSurviveReturns(ts: seq<Token>)
    ensures HashtagsRead(WithoutReturns(ts)) == HashtagsRead(ts)
  {
    if ts != [] {
      var rest := WithoutReturns(ts[1..]);
      HashtagsSurviveReturns(ts[1..]);
      if ts[0] == Return {
        assert WithoutReturns(ts) == rest;
      } else {
        assert WithoutReturns(ts) == [ts[0]] + rest && ([ts[0]] + rest)[1..] == rest;
      }
    }
  }

  /** The hashtag elements in the output are exactly the runs after '#' in the raw text, in order. */
  lemma {:induction false} HashtagsAreExact(u: Unicode, t: string)
    requires Sane(u)
    ensures HashtagsRead(ReadHtml(Scan(u, Escape(t)))) == HashtagsIn(u, t)
  {
    ConversionIsLossless(u, t);
    HashtagsSurviveReturns(Tokens(u, t));
    HashtagTokens(u, t);
  }

  /** The attribute of a hashtag element at the front of the HTML. */
  function AttributeAt(h: string): string {
    if Starts("<hashtag hashtag=\"", h) then Before('"', Drop(h, 18)) else ""
  }

  /** The attributes of the hashtag elements, in order. */
  function AttributesRead(h: string): seq<string>
    decreases |h|
  {
    if h == "" then []
    else
      var (k, rest) := ReadToken(h);
      (if k.Hashtag? then [AttributeAt(h)] else []) + AttributesRead(rest)
  }

  lemma AttributeOfRendered(u: Unicode, tag: string, rest: string)
    requires Sane(u) && AllAlnum(u, tag)
    ensures AttributeAt(Render(u, Hashtag(tag)) + rest) == u.lower(tag)
  {
    var attribute := u.lower(tag);
    assert '"' !in attribute by {
      assert IsSpecial('"');
    }
    MarkupStarts();
    Regroup(TAG_OPEN, attribute, TAG_MID, tag, TAG_CLOSE, rest);
    ReadDelimited('"', TAG_OPEN, attribute, TAG_MID, tag + (TAG_CLOSE + rest));
    assert |TAG_OPEN| == 18 && TAG_OPEN == "<hashtag hashtag=\"";
  }

  function Lowered(u: Unicode, tags: seq<string>): seq<string> {
    if tags == [] then [] else [u.lower(tags[0])] + Lowered(u, tags[1..])
  }

  lemma {:induction false} AttributesOfRendered(u: Unicode, ts: seq<Token>)
    requires Sane(u) && forall k :: k in ts ==> WellFormed(u, k)
    ensures AttributesRead(RenderAll(u, ts)) == Lowered(u, HashtagsRead(ts))
  {
    hide ReadToken, Render, AttributeAt, Sane;
    if ts != [] {
      var (k, rest, tags) := (ts[0], RenderAll(u, ts[1..]), HashtagsRead(ts[1..]));
      AttributesOfRendered(u, ts[1..]);
      if k == Return {
        ReturnIsSilent(u);
        assert RenderAll(u, ts) == rest && HashtagsRead(ts) == tags;
      } else {
        ReadRendered(u, k, rest);
        var attributes := if k.Hashtag? then [AttributeAt(Render(u, k) + rest)] else [];
        assert AttributesRead(Render(u, k) + rest) == attributes + AttributesRead(rest);
        if k.Hashtag? {
          AttributeOfRendered(u, k.tag, rest);
          assert HashtagsRead(ts) == [k.tag] + tags && ([k.tag] + tags)[1..] == tags;
        } else {
          assert HashtagsRead(ts) == tags;
        }
      }
    }
  }

  lemma ReturnIsSilent(u: Unicode)
    ensures Render(u, Return) == ""
  {
  }

  /** The attributes, which are what is indexed, are the hashtags of the raw text in lower case and in order. */
  lemma {:induction false} AttributesAreLowered(u: Unicode, t: string)
    requires Sane(u)
    ensures AttributesRead(Scan(u, Escape(t))) == Lowered(u, HashtagsIn(u, t))
  {
    TokensSpellText(u, t);
    ConvertRendersTokens(u, t);
    AttributesOfRendered(u, Tokens(u, t));
    HashtagTokens(u, t);
  }

  // ---------------------------------------------------------------------------------------------
  // Which mentions appear

  function MentionsRead(ts: seq<Token>): seq<string> {
    if ts == [] then [] else (if ts[0].Mention? then [ts[0].id] else []) + MentionsRead(ts[1..])
  }

  /** The maximal runs of hexadecimal digits after an '@' that have length 64, looked for at every position. */
  function MentionsIn(t: string): seq<string> {
    if t == "" then []
    else (if t[0] == '@' && Run(IsHex, t[1..]) == 64 then [t[1..][..64]] else []) + MentionsIn(t[1..])
  }

  lemma HexDigits(c: char)
    ensures IsHex(c) <==> c in "0123456789abcdefABCDEF"
  {
  }

  lemma {:induction false} NoMentionInside(s: string, rest: string)
    requires '@' !in s
    ensures MentionsIn(s + rest) == MentionsIn(rest)
  {
    if s == "" {
      assert s + rest == rest;
    } else {
      NoMentionInside(s[1..], rest);
      assert (s + rest)[1..] == s[1..] + rest;
    }
  }

  lemma FirstMention(u: Unicode, t: string)
    requires t != ""
    ensures var (k, rest) := FirstToken(u, t);
            MentionsRead(Tokens(u, t)) == (if k.Mention? then [k.id] else []) + MentionsRead(Tokens(u, rest))
  {
    hide FirstToken;
    var (k, rest) := FirstToken(u, t);
    assert Tokens(u, t) == [k] + Tokens(u, rest) && ([k] + Tokens(u, rest))[1..] == Tokens(u, rest);
  }

  lemma MentionsAfterRun(p: char -> bool, s: string)
    requires !p('@')
    ensures MentionsIn(s) == MentionsIn(s[Run(p, s)..])
  {
    hide MentionsIn;
    var n := Run(p, s);
    assert s == s[..n] + s[n..];
    NoMentionInside(s[..n], s[n..]);
  }

  lemma {:induction false} MentionTokens(u: Unicode, t: string)
    requires Sane(u)
    ensures MentionsRead(Tokens(u, t)) == MentionsIn(t)
    decreases |t|
  {
    if t != "" {
      hide Tokens, MentionsRead, Run;
      var rest := t[1..];
      var n := Run(u.alnum, rest);
      if t[0] == '#' && n > 0 {
        MentionTokens(u, rest[n..]);
        MentionsAfterRun(u.alnum, rest);
      } else if t[0] == '@' && Run(IsHex, rest) == 64 {
        MentionTokens(u, rest[64..]);
        MentionsAfterRun(IsHex, rest);
      } else {
        MentionTokens(u, rest);
      }
      FirstMention(u, t);
    }
  }

  lemma {:induction false} MentionsSurviveReturns(ts: seq<Token>)
    ensures MentionsRead(WithoutReturns(ts)) == MentionsRead(ts)
  {
    if ts != [] {
      var rest := WithoutReturns(ts[1..]);
      MentionsSurviveReturns(ts[1..]);
      if ts[0] == Return {
        assert WithoutReturns(ts) == rest;
      } else {
        assert WithoutReturns(ts) == [ts[0]] + rest && ([ts[0]] + rest)[1..] == rest;
      }
    }
  }

  /** The mention elements in the output are exactly the maximal runs of 64 hexadecimal digits after '@' in the raw text. */
  lemma {:induction false} MentionsAreExact(u: Unicode, t: string)
    requires Sane(u)
    ensures MentionsRead(ReadHtml(Scan(u, Escape(t)))) == MentionsIn(t)
  {
    ConversionIsLossless(u, t);
    MentionsSurviveReturns(Tokens(u, t));
    MentionTokens(u, t);
  }

  // ---------------------------------------------------------------------------------------------
  // The markup, letter by letter

  lemma SingleToken(u: Unicode, t: string, k: Token)
    requires Sane(u) && t != "" && FirstToken(u, t) == (k, "")
    ensures Scan(u, Escape(t)) == Render(u, k)
  {
    hide FirstToken, Render, Scan, Escape, Sane;
    ConvertRendersTokens(u, t);
    assert Tokens(u, "") == [] && Tokens(u, t) == [k];
    assert RenderAll(u, []) == "" && RenderAll(u, [k]) == Render(u, k) + "";
  }

  lemma FlattenTag(a: string, lower: string, b: string, c: string, d: string, e: string, f: string, tag: string, y: string, z: string)
    ensures a + lower + ((b + c + d + b) + e + (c + f + b)) + tag + (y + z)
         == a + lower + b + c + d + b + e + c + f + b + tag + y + z
  {
  }

  /** A hashtag becomes this element, its attribute in lower case and its text as written. */
  lemma HashtagText(u: Unicode, tag: string)
    requires Sane(u) && tag != "" && AllAlnum(u, tag)
    ensures Scan(u, Escape("#" + tag))
         == "<hashtag hashtag=\"" + u.lower(tag) + "\">" + "<span class=\"" + "plugin-hashtag-left" + "\">" + "#</span>"
            + "<span class=\"" + "plugin-hashtag-right" + "\">" + tag + "</span>" + "</hashtag>"
  {
    assert ("#" + tag)[1..] == tag && tag[..|tag|] == tag && tag[|tag|..] == "";
    RunIs(u.alnum, tag, |tag|);
    SingleToken(u, "#" + tag, Hashtag(tag));
    hide Scan, Escape, Sane, AllAlnum;
    FlattenTag(TAG_OPEN, u.lower(tag), QUOTE_END, SPAN_OPEN, LEFT_CLASS, TAG_HASH, RIGHT_CLASS, tag, SPAN_CLOSE, ELEMENT_CLOSE);
  }

  /** An '@' with 64 hexadecimal digits becomes this element. */
  lemma MentionText(u: Unicode, id: string)
    requires Sane(u) && |id| == 64 && forall c :: c in id ==> IsHex(c)
    ensures Scan(u, Escape("@" + id)) == "<mention client_id=\"" + id + "\"></mention>"
  {
    assert ("@" + id)[1..] == id && id[..64] == id && id[64..] == "";
    RunIs(IsHex, id, 64);
    SingleToken(u, "@" + id, Mention(id));
  }

  /** A newline becomes a break, a carriage return vanishes, and these four characters are escaped. */
  lemma CharacterTexts(u: Unicode)
    requires Sane(u)
    ensures Scan(u, Escape("\n")) == "<br>" && Scan(u, Escape("\r")) == ""
    ensures Scan(u, Escape("&")) == "&amp;" && Scan(u, Escape("<")) == "&lt;"
    ensures Scan(u, Escape(">")) == "&gt;" && Scan(u, Escape("\"")) == "&quot;"
  {
    hide Scan, Escape, Sane;
    SingleToken(u, "\n", Newline);
    SingleToken(u, "\r", Return);
    SingleToken(u, "&", Plain('&'));
    SingleToken(u, "<", Plain('<'));
    SingleToken(u, ">", Plain('>'));
    SingleToken(u, "\"", Plain('"'));
  }

  /** Every other character is copied. */
  lemma OthersAreCopied(u: Unicode, c: char)
    requires Sane(u) && c !in "&<>\"\n\r"
    ensures Scan(u, Escape([c])) == [c]
  {
    hide Scan, Escape, Sane;
    assert [c][1..] == "";
    SingleToken(u, [c], Plain(c));
  }

  // ---------------------------------------------------------------------------------------------
  // Every angle bracket comes from a template

  /** Angle brackets in the templates of one token. */
  function Brackets(k: Token): nat {
    match k
    case Newline => 1
    case Hashtag(_) => 6
    case Mention(_) => 2
    case _ => 0
  }

  function TemplateBrackets(ts: seq<Token>): nat {
    if ts == [] then 0 else Brackets(ts[0]) + TemplateBrackets(ts[1..])
  }

  /** The number of '<' in a string. */
  function Lt(s: string): nat {
    if s == "" then 0 else (if s[0] == '<' then 1 else 0) + Lt(s[1..])
  }

  lemma {:induction false} LtConcat(a: string, b: string)
    ensures Lt(a + b) == Lt(a) + Lt(b)
  {
    if a == "" {
      assert a + b == b;
    } else {
      LtConcat(a[1..], b);
      assert (a + b)[0] == a[0] && (a + b)[1..] == a[1..] + b;
    }
  }

  lemma {:induction false} Absent(s: string)
    requires '<' !in s
    ensures Lt(s) == 0
  {
    if s != "" {
      Absent(s[1..]);
    }
  }

  lemma One(s: string, i: nat)
    requires i < |s| && s[i] == '<' && '<' !in s[..i] && '<' !in s[i + 1..]
    ensures Lt(s) == 1
  {
    assert s == s[..i] + s[i..] && s[i..][1..] == s[i + 1..];
    LtConcat(s[..i], s[i..]);
    Absent(s[..i]);
    Absent(s[i + 1..]);
  }

  lemma LtThree(a: string, b: string, c: string)
    ensures Lt(a + b + c) == Lt(a) + Lt(b) + Lt(c)
  {
    LtConcat(a + b, c);
    LtConcat(a, b);
  }

  /** The pieces the hashtag template is made of. */
  lemma PieceBrackets()
    ensures Lt(TAG_OPEN) == 1 && Lt(SPAN_OPEN) == 1 && Lt(QUOTE_END) == 0 && Lt(LEFT_CLASS) == 0 && Lt(RIGHT_CLASS) == 0
    ensures Lt(TAG_HASH) == 1 && Lt(SPAN_CLOSE) == 1 && Lt(ELEMENT_CLOSE) == 1
  {
    hide Lt;
    One(TAG_OPEN, 0);
    One(SPAN_OPEN, 0);
    Absent(QUOTE_END);
    Absent(LEFT_CLASS);
    Absent(RIGHT_CLASS);
    One(TAG_HASH, 1);
    One(SPAN_CLOSE, 0);
    One(ELEMENT_CLOSE, 0);
  }

  lemma TagBrackets()
    ensures Lt(TAG_OPEN) == 1 && Lt(TAG_MID) == 3 && Lt(TAG_CLOSE) == 2
  {
    hide Lt;
    PieceBrackets();
    LtThree(QUOTE_END + SPAN_OPEN, LEFT_CLASS, QUOTE_END);
    LtConcat(QUOTE_END, SPAN_OPEN);
    LtThree(SPAN_OPEN, RIGHT_CLASS, QUOTE_END);
    LtThree(TAG_LEFT, TAG_HASH, TAG_RIGHT);
    LtConcat(SPAN_CLOSE, ELEMENT_CLOSE);
  }

  lemma MentionBrackets(id: string)
    requires '<' !in id
    ensures Lt(MENTION_OPEN + id + MENTION_CLOSE) == 2
  {
    hide Lt;
    One(MENTION_OPEN, 0);
    One(MENTION_CLOSE, 2);
    Absent(id);
    LtThree(MENTION_OPEN, id, MENTION_CLOSE);
  }

  lemma RenderedBrackets(u: Unicode, k: Token)
    requires Sane(u) && WellFormed(u, k)
    ensures Lt(Render(u, k)) == Brackets(k)
  {
    match k {
      case Plain(c) => Absent(EscapeChar(c));
      case Newline => One(BREAK, 0);
      case Return =>
      case Mention(id) =>
        assert IsHex('<') ==> false;
        MentionBrackets(id);
      case Hashtag(tag) =>
        assert '<' !in tag && '<' !in u.lower(tag) by {
          assert IsSpecial('<');
        }
        HashtagBrackets(u.lower(tag), tag);
    }
  }

  lemma HashtagBrackets(attribute: string, tag: string)
    requires '<' !in attribute && '<' !in tag
    ensures Lt(TAG_OPEN + attribute + TAG_MID + tag + TAG_CLOSE) == 6
  {
    TagBrackets();
    Absent(attribute);
    Absent(tag);
    LtConcat(TAG_OPEN + attribute + TAG_MID + tag, TAG_CLOSE);
    LtConcat(TAG_OPEN + attribute + TAG_MID, tag);
    LtConcat(TAG_OPEN + attribute, TAG_MID);
    LtConcat(TAG_OPEN, attribute);
  }

  lemma {:induction false} AllRenderedBrackets(u: Unicode, ts: seq<Token>)
    requires Sane(u) && forall k :: k in ts ==> WellFormed(u, k)
    ensures Lt(RenderAll(u, ts)) == TemplateBrackets(ts)
  {
    if ts != [] {
      AllRenderedBrackets(u, ts[1..]);
      RenderedBrackets(u, ts[0]);
      LtConcat(Render(u, ts[0]), RenderAll(u, ts[1..]));
    }
  }

  /** No '<' of the user's text reaches the output: all of them belong to the rendered elements. */
  lemma NoForeignMarkup(u: Unicode, t: string)
    requires Sane(u)
    ensures Lt(Scan(u, Escape(t))) == TemplateBrackets(Tokens(u, t))
  {
    TokensSpellText(u, t);
    ConvertRendersTokens(u, t);
    AllRenderedBrackets(u, Tokens(u, t));
  }
}
