/** `JSON.stringify` on the values the transformer quotes into generated
    code: strings, `null` and `undefined`.  A string literal is produced by
    escaping each character as the JSON grammar requires; the decoder below
    is its partner and shows that no quoted value can leave its literal. */
module Json {
  import opened Wrappers
  import opened JsValues
  import Radix

  predicate IsHexDigit(c: char)
  {
    ('0' <= c <= '9') || ('a' <= c <= 'f') || ('A' <= c <= 'F')
  }

  function HexValue(c: char): nat
  {
    if '0' <= c <= '9' then c as nat - '0' as nat
    else if 'a' <= c <= 'f' then c as nat - 'a' as nat + 10
    else if 'A' <= c <= 'F' then c as nat - 'A' as nat + 10
    else 0
  }

  /** The JSON form of one character inside a string literal. */
  function EscapeChar(c: char): (r: string)
    ensures |r| >= 1
  {
    if c == '"' then "\\\""
    else if c == '\\' then "\\\\"
    else if c == '\U{8}' then "\\b"
    else if c == '\U{C}' then "\\f"
    else if c == '\n' then "\\n"
    else if c == '\r' then "\\r"
    else if c == '\t' then "\\t"
    else if c < ' ' then "\\u00" + [Radix.Digit(c as nat / 16), Radix.Digit(c as nat % 16)]
    else [c]
  }

  function Escape(s: string): string
  {
    if s == [] then [] else EscapeChar(s[0]) + Escape(s[1..])
  }

  /** `JSON.stringify(s)` for a string `s`. */
  function Quote(s: string): string
  {
    "\"" + Escape(s) + "\""
  }

  /** `${quote(v)}` in a template: `JSON.stringify` gives `undefined` for
      `undefined`, which the template then prints as the text `undefined`. */
  function QuoteValue(v: JsValue): (r: string)
    requires v.Undefined? || v.Null? || v.Str?
    ensures '\n' !in r
  {
    match v
    case Undefined => "undefined"
    case Null => "null"
    case Str(s) =>
      QuoteHasNoControl(s);
      Quote(s)
  }

  /** A quoted string decodes back to the string. */
  lemma QuoteValueDecodes(v: JsValue)
    requires v.Str?
    ensures Unquote(QuoteValue(v)) == Some(v.s)
  {
    UnquoteQuote(v.s);
  }

  /** Decodes the inside of a JSON string literal: escapes are resolved, a bare
      quote or control character is rejected. */
  function Unescape(t: string): Option<string>
    decreases |t|
  {
    if t == [] then Some([])
    else if t[0] == '\\' then
      if |t| < 2 then None
      else
        var e := t[1];
        var simple :=
          if e == '"' then Some('"') else if e == '\\' then Some('\\')
          else if e == '/' then Some('/') else if e == 'b' then Some('\U{8}')
          else if e == 'f' then Some('\U{C}') else if e == 'n' then Some('\n')
          else if e == 'r' then Some('\r') else if e == 't' then Some('\t')
          else None;
        if simple.Some? then Prepend(simple.value, Unescape(t[2..]))
        else if e == 'u' && |t| >= 6 && IsHexDigit(t[2]) && IsHexDigit(t[3]) && IsHexDigit(t[4]) && IsHexDigit(t[5]) then
          var code := ((HexValue(t[2]) * 16 + HexValue(t[3])) * 16 + HexValue(t[4])) * 16 + HexValue(t[5]);
          if 0xD800 <= code < 0xE000 then None
          else Prepend(code as char, Unescape(t[6..]))
        else None
    else if t[0] == '"' || t[0] < ' ' then None
    else Prepend(t[0], Unescape(t[1..]))
  }

  function Prepend(c: char, r: Option<string>): Option<string>
  {
    if r.Some? then Some([c] + r.value) else None
  }

  /** Reads a JSON string literal back. */
  function Unquote(q: string): Option<string>
  {
    if |q| >= 2 && q[0] == '"' && q[|q| - 1] == '"' then Unescape(q[1..|q| - 1]) else None
  }

  lemma UnescapeChar(c: char, rest: string)
    ensures Unescape(EscapeChar(c) + rest) == Prepend(c, Unescape(rest))
  {
    var t := EscapeChar(c) + rest;
    if c == '"' || c == '\\' || c == '\U{8}' || c == '\U{C}' || c == '\n' || c == '\r' || c == '\t' {
      assert t[2..] == rest;
    } else if c < ' ' {
      var hi, lo := c as nat / 16, c as nat % 16;
      assert hi == 0 || hi == 1;
      assert t[..6] == "\\u00" + [Radix.Digit(hi), Radix.Digit(lo)];
      assert HexValue(t[4]) == hi && HexValue(t[5]) == lo;
      assert t[6..] == rest;
    } else {
      assert t[1..] == rest;
    }
  }

  lemma {:induction false} UnescapeEscape(s: string)
    ensures Unescape(Escape(s)) == Some(s)
  {
    if s != [] {
      UnescapeChar(s[0], Escape(s[1..]));
      UnescapeEscape(s[1..]);
      assert [s[0]] + s[1..] == s;
    }
  }

  /** Decoding a quoted string gives the string back: whatever `s` holds,
      `Quote(s)` is one complete literal denoting exactly `s`. */
  lemma UnquoteQuote(s: string)
    ensures Unquote(Quote(s)) == Some(s)
  {
    var q := Quote(s);
    assert q[1..|q| - 1] == Escape(s);
    UnescapeEscape(s);
  }

  lemma {:induction false} EscapeHasNoControl(s: string)
    ensures forall i :: 0 <= i < |Escape(s)| ==> Escape(s)[i] >= ' '
  {
    if s != [] {
      EscapeHasNoControl(s[1..]);
      var e := EscapeChar(s[0]);
      forall i | 0 <= i < |e| ensures e[i] >= ' ' {
      }
    }
  }

  /** A quoted string holds no control character, so no line break. */
  lemma QuoteHasNoControl(s: string)
    ensures forall i :: 0 <= i < |Quote(s)| ==> Quote(s)[i] >= ' '
  {
    EscapeHasNoControl(s);
  }

  /** Escaping brings in no dollar sign. */
  lemma {:induction false} EscapeNoDollar(s: string)
    requires '$' !in s
    ensures '$' !in Escape(s)
  {
    if s != [] {
      EscapeNoDollar(s[1..]);
      var e := EscapeChar(s[0]);
      assert s[0] != '$';
      forall i | 0 <= i < |e| ensures e[i] != '$' {
      }
    }
  }

  /** A quoted value holds a dollar sign only when the string does. */
  lemma QuoteValueNoDollar(v: JsValue)
    requires v.Undefined? || v.Null? || v.Str?
    requires v.Str? ==> '$' !in v.s
    ensures '$' !in QuoteValue(v)
  {
    if v.Str? {
      EscapeNoDollar(v.s);
    }
  }
}
