/** The body of a JSON string literal (section 7 of RFC 8259): the text between
    the quotes, decoded as `JSON.parse` decodes `"` + body + `"`. */
module JsonString {
  import opened Wrappers

  predicate IsHexDigit(c: char) {
    ('0' <= c <= '9') || ('a' <= c <= 'f') || ('A' <= c <= 'F')
  }

  function HexValue(c: char): (v: nat)
    requires IsHexDigit(c)
    ensures v < 16
  {
    if '0' <= c <= '9' then c as int - '0' as int
    else if 'a' <= c <= 'f' then c as int - 'a' as int + 10
    else c as int - 'A' as int + 10
  }

  /** Lower-case hexadecimal digit for a value below 16. */
  function HexDigit(v: nat): (c: char)
    requires v < 16
    ensures IsHexDigit(c) && HexValue(c) == v
  {
    if v < 10 then ('0' as int + v) as char else ('a' as int + v - 10) as char
  }

  /** Four hexadecimal digits start at position `i`. */
  predicate HexAt(s: string, i: nat) {
    i + 4 <= |s| && IsHexDigit(s[i]) && IsHexDigit(s[i + 1]) && IsHexDigit(s[i + 2]) && IsHexDigit(s[i + 3])
  }

  /** The UTF-16 code unit written by the four digits at position `i`. */
  function UnitAt(s: string, i: nat): (u: nat)
    requires HexAt(s, i)
    ensures u < 0x1_0000
  {
    HexValue(s[i]) * 0x1000 + HexValue(s[i + 1]) * 0x100 + HexValue(s[i + 2]) * 0x10 + HexValue(s[i + 3])
  }

  predicate IsHighSurrogate(u: nat) { 0xD800 <= u < 0xDC00 }
  predicate IsLowSurrogate(u: nat) { 0xDC00 <= u < 0xE000 }

  /** A `\u` escape for a low surrogate begins at position `i`. */
  predicate LowEscapeAt(s: string, i: nat) {
    i + 6 <= |s| && s[i] == '\\' && s[i + 1] == 'u' && HexAt(s, i + 2) && IsLowSurrogate(UnitAt(s, i + 2))
  }

  /** The two-character escapes `\" \\ \/ \b \f \n \r \t`, by their second character. */
  predicate IsShortEscape(e: char) {
    e == '"' || e == '\\' || e == '/' || e == 'b' || e == 'f' || e == 'n' || e == 'r' || e == 't'
  }

  function ShortEscapeValue(e: char): char
    requires IsShortEscape(e)
  {
    match e
    case '"' => '"'
    case '\\' => '\\'
    case '/' => '/'
    case 'b' => '\U{8}'
    case 'f' => '\U{C}'
    case 'n' => '\n'
    case 'r' => '\r'
    case 't' => '\t'
  }

  /** A character that may stand unescaped inside a JSON string. */
  predicate IsPlain(c: char) {
    c != '"' && c != '\\' && c >= ' '
  }

  /** `c` in front of a decoded rest; a failure stays a failure. */
  function Cons(c: char, rest: Option<string>): (r: Option<string>)
    ensures r.Some? <==> rest.Some?
  {
    match rest
    case Some(t) => Some([c] + t)
    case None => None
  }

  /** The first unit of a string body: the end of the body, one decoded
      character with the number of characters it takes up, or a syntax error. */
  datatype Step = End | Emit(c: char, width: nat) | Fail

  /** Decodes the unit at the start of `s`. A `\u` escape naming a surrogate
      pair yields the paired code point; one naming an unpaired surrogate
      yields U+FFFD. */
  function StepAt(s: string): (r: Step)
    ensures r.End? <==> s == []
    ensures r.Emit? ==> 1 <= r.width <= |s|
  {
    if s == [] then End
    else if s[0] == '\\' then
      if |s| < 2 then Fail
      else if s[1] == 'u' then
        if !HexAt(s, 2) then Fail
        else
          var u := UnitAt(s, 2);
          if IsHighSurrogate(u) && LowEscapeAt(s, 6) then
            Emit((0x1_0000 + (u - 0xD800) * 0x400 + (UnitAt(s, 8) - 0xDC00)) as char, 12)
          else if IsHighSurrogate(u) || IsLowSurrogate(u) then Emit('\U{FFFD}', 6)
          else Emit(u as char, 6)
      else if IsShortEscape(s[1]) then Emit(ShortEscapeValue(s[1]), 2)
      else Fail
    else if IsPlain(s[0]) then Emit(s[0], 1)
    else Fail
  }

  /** Decodes a string body unit by unit; `None` is the `SyntaxError` that
      `JSON.parse` throws. */
  function DecodeBody(s: string): (r: Option<string>)
    decreases |s|
  {
    match StepAt(s)
    case End => Some([])
    case Fail => None
    case Emit(c, n) => Cons(c, DecodeBody(s[n..]))
  }

  // ----- The grammar of a string body -----

  /** The length of the token at the start of `s` under the grammar of
      section 7 of RFC 8259, or 0 when no token starts there: an unescaped
      character (at least U+0020, neither `"` nor `\`), a two-character escape,
      or `\u` with four hexadecimal digits. */
  function TokenWidth(s: string): (n: nat)
    ensures n <= |s| && n <= 6
  {
    if s == [] then 0
    else if s[0] != '\\' then (if s[0] >= ' ' && s[0] != '"' then 1 else 0)
    else if |s| >= 2 && IsShortEscape(s[1]) then 2
    else if |s| >= 6 && s[1] == 'u' && HexAt(s, 2) then 6
    else 0
  }

  /** The body is a sequence of tokens. */
  predicate ValidBody(s: string)
    decreases |s|
  {
    s == [] || (TokenWidth(s) > 0 && ValidBody(s[TokenWidth(s)..]))
  }

  /** The escaping `JSON.stringify` applies to one character. */
  function EscapeChar(c: char): string {
    match c
    case '"' => "\\\""
    case '\\' => "\\\\"
    case '\U{8}' => "\\b"
    case '\U{C}' => "\\f"
    case '\n' => "\\n"
    case '\r' => "\\r"
    case '\t' => "\\t"
    case _ =>
      if c < ' ' then "\\u00" + [HexDigit(c as int / 16), HexDigit(c as int % 16)]
      else [c]
  }

  /** The body `JSON.stringify` writes between the quotes of a string. */
  function Escape(t: string): string {
    if t == [] then [] else EscapeChar(t[0]) + Escape(t[1..])
  }

  lemma DecodeEscapeChar(c: char, rest: string)
    ensures DecodeBody(EscapeChar(c) + rest) == Cons(c, DecodeBody(rest))
  {
    var s := EscapeChar(c) + rest;
    if c < ' ' && c != '\U{8}' && c != '\U{C}' && c != '\n' && c != '\r' && c != '\t' {
      var hi, lo := c as int / 16, c as int % 16;
      assert s[..6] == "\\u00" + [HexDigit(hi), HexDigit(lo)];
      assert HexAt(s, 2);
      assert UnitAt(s, 2) == c as int;
      assert StepAt(s) == Emit(c, 6);
      assert s[6..] == rest;
    } else if c in "\"\\\U{8}\U{C}\n\r\t" {
      assert StepAt(s) == Emit(c, 2);
      assert s[2..] == rest;
    } else {
      assert StepAt(s) == Emit(c, 1);
      assert s[1..] == rest;
    }
  }

  /** Decoding undoes escaping: every string survives a `JSON.stringify` /
      `JSON.parse` round trip of its body. */
  lemma {:induction false} DecodeEscape(t: string)
    ensures DecodeBody(Escape(t)) == Some(t)
  {
    if t != [] {
      DecodeEscape(t[1..]);
      DecodeEscapeChar(t[0], Escape(t[1..]));
      assert [t[0]] + t[1..] == t;
    }
  }

  /** A body without backslashes decodes to itself exactly when each of its
      characters may stand unescaped, and fails otherwise. */
  lemma {:induction false} DecodeWithoutEscapes(s: string)
    requires forall i :: 0 <= i < |s| ==> s[i] != '\\'
    ensures DecodeBody(s) == (if forall i :: 0 <= i < |s| ==> IsPlain(s[i]) then Some(s) else None)
  {
    if s != [] {
      DecodeWithoutEscapes(s[1..]);
      assert forall i :: 0 <= i < |s| - 1 ==> s[1..][i] == s[i + 1];
      assert [s[0]] + s[1..] == s;
    }
  }

  /** Every character a decoded unit takes up is printable. */
  lemma StepPrintable(s: string)
    ensures StepAt(s).Emit? ==> forall k :: 0 <= k < StepAt(s).width ==> s[k] >= ' '
  {
    if StepAt(s).Emit? && StepAt(s).width == 12 {
      assert LowEscapeAt(s, 6);
      assert HexAt(s, 2) && HexAt(s, 8);
    }
  }

  /** A control character (below U+0020) anywhere in the body makes the decode
      fail: no escape sequence can absorb it. */
  lemma {:induction false} DecodeRejectsControl(s: string, i: nat)
    requires i < |s| && s[i] < ' '
    ensures DecodeBody(s) == None
    decreases |s|
  {
    StepPrintable(s);
    var st := StepAt(s);
    if st.Emit? && i >= st.width {
      DecodeRejectsControl(s[st.width..], i - st.width);
    }
  }

  /** A plain character in front decodes to itself. */
  lemma DecodePlainCons(c: char, t: string)
    requires IsPlain(c)
    ensures DecodeBody([c] + t) == Cons(c, DecodeBody(t))
  {
    assert StepAt([c] + t) == Emit(c, 1);
    assert ([c] + t)[1..] == t;
  }

  /** Plain characters in front decode to themselves, ahead of whatever the rest decodes to. */
  lemma {:induction false} DecodePlainPrefix(a: string, b: string)
    requires forall k :: 0 <= k < |a| ==> IsPlain(a[k])
    ensures DecodeBody(a + b) == (if DecodeBody(b).Some? then Some(a + DecodeBody(b).value) else None)
    decreases |a|
  {
    var d := DecodeBody(b);
    if a == [] {
      assert a + b == b;
      if d.Some? {
        assert a + d.value == d.value;
      }
    } else {
      var t := a[1..] + b;
      assert a + b == [a[0]] + t;
      DecodePlainCons(a[0], t);
      DecodePlainPrefix(a[1..], b);
      if d.Some? {
        assert [a[0]] + (a[1..] + d.value) == a + d.value;
      }
    }
  }

  /** A `\n` escape between plain text decodes to a newline. */
  lemma DecodeNewlineBetween(a: string, b: string)
    requires forall k :: 0 <= k < |a| ==> IsPlain(a[k])
    requires forall k :: 0 <= k < |b| ==> IsPlain(b[k])
    ensures DecodeBody(a + "\\n" + b) == Some(a + "\n" + b)
  {
    var e := "\\n" + b;
    DecodeWithoutEscapes(b);
    DecodeEscapeChar('\n', b);
    assert EscapeChar('\n') == "\\n";
    assert DecodeBody(e) == Some("\n" + b);
    DecodePlainPrefix(a, e);
    assert a + "\\n" + b == a + e;
    assert a + ("\n" + b) == a + "\n" + b;
  }

  /** `JSON.parse` accepts a body exactly when it follows the grammar; a
      surrogate pair is two `\u` tokens. */
  lemma {:induction false} DecodeIffValid(s: string)
    ensures DecodeBody(s).Some? <==> ValidBody(s)
    decreases |s|
  {
    var st := StepAt(s);
    if st.Emit? && st.width == 12 {
      var t := s[6..];
      assert LowEscapeAt(s, 6);
      assert t[0] == '\\' && t[1] == 'u' && HexAt(t, 2);
      assert TokenWidth(s) == 6 && TokenWidth(t) == 6;
      assert t[6..] == s[12..];
      DecodeIffValid(s[12..]);
    } else if st.Emit? {
      assert TokenWidth(s) == st.width;
      DecodeIffValid(s[st.width..]);
    }
  }

  /** After a complete body, the rest decides validity on its own. */
  lemma {:induction false} ValidBodyAppend(s: string, t: string)
    requires ValidBody(s)
    ensures ValidBody(s + t) == ValidBody(t)
    decreases |s|
  {
    if s == [] {
      assert s + t == t;
    } else {
      var n := TokenWidth(s);
      assert (s + t)[..n] == s[..n];
      assert TokenWidth(s + t) == n;
      assert (s + t)[n..] == s[n..] + t;
      ValidBodyAppend(s[n..], t);
    }
  }

  /** An escape cut off by the end of the stream: a lone backslash, or `\u`
      with fewer than four characters after it. */
  predicate UnfinishedEscape(t: string) {
    1 <= |t| < 6 && t[0] == '\\' && (|t| >= 2 ==> t[1] == 'u')
  }

  /** A fragment that ends in an unfinished escape never decodes, whatever
      came before it. */
  lemma DecodeRejectsUnfinishedEscape(s: string, t: string)
    requires DecodeBody(s).Some? && UnfinishedEscape(t)
    ensures DecodeBody(s + t) == None
  {
    assert TokenWidth(t) == 0;
    DecodeIffValid(s);
    ValidBodyAppend(s, t);
    DecodeIffValid(s + t);
  }

  /** A `\u` escape of a code point below U+D800, in either case of hex digit. */
  lemma DecodeUnitEscape(d: string, rest: string)
    requires |d| == 4 && forall k :: 0 <= k < 4 ==> IsHexDigit(d[k])
    requires UnitAt(d, 0) < 0xD800
    ensures DecodeBody("\\u" + d + rest) == Cons(UnitAt(d, 0) as char, DecodeBody(rest))
  {
    var x := "\\u" + d + rest;
    assert x[2..6] == d;
    assert HexAt(x, 2) && UnitAt(x, 2) == UnitAt(d, 0);
    assert StepAt(x) == Emit(UnitAt(d, 0) as char, 6);
    assert x[6..] == rest;
  }

  /** Lower-case and upper-case hexadecimal digits are read alike: `\u00e9`
      and `\u00E9` both decode to U+00E9. */
  lemma DecodeHexCase(rest: string)
    ensures DecodeBody("\\u00e9" + rest) == DecodeBody("\\u00E9" + rest) == Cons('\U{E9}', DecodeBody(rest))
  {
    var lo, up := "00e9", "00E9";
    assert lo[0] == up[0] == '0' && lo[1] == up[1] == '0' && lo[3] == up[3] == '9';
    assert lo[2] == 'e' && up[2] == 'E';
    assert HexValue('e') == 14 && HexValue('E') == 14 && HexValue('9') == 9;
    assert UnitAt(lo, 0) == 0xE9 && UnitAt(up, 0) == 0xE9;
    DecodeUnitEscape(lo, rest);
    DecodeUnitEscape(up, rest);
    assert "\\u00e9" + rest == "\\u" + "00e9" + rest;
    assert "\\u00E9" + rest == "\\u" + "00E9" + rest;
  }

  /** `\/` decodes to a solidus. */
  lemma DecodeSolidus(rest: string)
    ensures DecodeBody("\\/" + rest) == Cons('/', DecodeBody(rest))
  {
    var x := "\\/" + rest;
    assert StepAt(x) == Emit('/', 2);
    assert x[2..] == rest;
  }

  /** A high-surrogate escape followed by a low-surrogate escape decodes to one
      code point above U+FFFF. */
  lemma DecodeSurrogatePair(h: string, l: string, rest: string)
    requires |h| == 4 && forall k :: 0 <= k < 4 ==> IsHexDigit(h[k])
    requires |l| == 4 && forall k :: 0 <= k < 4 ==> IsHexDigit(l[k])
    requires IsHighSurrogate(UnitAt(h, 0)) && IsLowSurrogate(UnitAt(l, 0))
    ensures var r := DecodeBody("\\u" + h + "\\u" + l + rest);
      r.Some? <==> DecodeBody(rest).Some?
    ensures var r := DecodeBody("\\u" + h + "\\u" + l + rest);
      r.Some? ==> 0x1_0000 <= r.value[0] as int <= 0x10_FFFF && r.value[1..] == DecodeBody(rest).value
    ensures var r := DecodeBody("\\u" + h + "\\u" + l + rest);
      r.Some? ==> var c := r.value[0] as int;
        (c - 0x1_0000) / 0x400 + 0xD800 == UnitAt(h, 0) && (c - 0x1_0000) % 0x400 + 0xDC00 == UnitAt(l, 0)
  {
    var x := "\\u" + h + "\\u" + l + rest;
    assert x[2..6] == h && x[8..12] == l;
    assert HexAt(x, 2) && UnitAt(x, 2) == UnitAt(h, 0);
    assert HexAt(x, 8) && UnitAt(x, 8) == UnitAt(l, 0);
    assert LowEscapeAt(x, 6);
    assert x[12..] == rest;
  }
}
