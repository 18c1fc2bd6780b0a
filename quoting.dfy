/** Quoting of string bindings: the driver's native quoting, and the
    MySQL-style backslash escaper used when the driver has none. */
module Quoting {
  import opened Results

  /** What the driver's native quoting call does with one string: it returns
      the quoted text, or raises an exception carrying an error code. */
  datatype NativeQuote = Quoted(text: string) | Raised(code: string)

  /** The error code with which the driver reports that it has no native quoting. */
  const Unsupported: string := "IM001"

  /** SUB (chr 26) and backspace (chr 8), the two control characters the fallback escapes. */
  const Sub: char := 26 as char
  const Backspace: char := 8 as char

  /** The five characters of the fallback's substitution table. */
  predicate IsSpecial(c: char) {
    c == Sub || c == Backspace || c == '"' || c == '\'' || c == '\\'
  }

  /** The character written after the backslash for a special character. */
  function EscapeCode(c: char): char
    requires IsSpecial(c)
  {
    if c == Sub then 'Z' else if c == Backspace then 'b' else c
  }

  function EscapeChar(c: char): string {
    if IsSpecial(c) then ['\\', EscapeCode(c)] else [c]
  }

  function SpecialCount(s: string): nat {
    if s == [] then 0 else (if IsSpecial(s[0]) then 1 else 0) + SpecialCount(s[1..])
  }

  /** The table substitution: every input character is translated exactly once,
      left to right, and the output is never rescanned, so each special
      character adds exactly one character. */
  function Escape(s: string): (e: string)
    ensures |e| == |s| + SpecialCount(s)
  {
    if s == [] then [] else EscapeChar(s[0]) + Escape(s[1..])
  }

  /** Characters outside the table pass through unchanged. */
  lemma {:induction false} EscapeKeepsOrdinaryText(s: string)
    requires forall k | 0 <= k < |s| :: !IsSpecial(s[k])
    ensures Escape(s) == s
  {
    if s != [] {
      EscapeKeepsOrdinaryText(s[1..]);
      assert [s[0]] + s[1..] == s;
    }
  }

  /** The fallback quoting: the escaped text between single quotes. */
  function Fallback(s: string): string {
    "'" + Escape(s) + "'"
  }

  /** The character a backslash escape written by the fallback stands for. */
  function Unescaped(code: char): Option<char> {
    if code == 'Z' then Some(Sub)
    else if code == 'b' then Some(Backspace)
    else if code == '"' || code == '\'' || code == '\\' then Some(code)
    else None
  }

  /** Decoder of the escaped text: the inverse of Escape on its image, and None
      on text Escape never writes (a lone backslash or an unescaped special). */
  function Unescape(e: string): Option<string>
    decreases |e|
  {
    if e == [] then Some([])
    else if e[0] == '\\' then
      if |e| >= 2 && Unescaped(e[1]).Some? then
        match Unescape(e[2..])
        case None => None
        case Some(rest) => Some([Unescaped(e[1]).value] + rest)
      else None
    else if IsSpecial(e[0]) then None
    else
      match Unescape(e[1..])
      case None => None
      case Some(rest) => Some([e[0]] + rest)
  }

  /** Strips the single-quote wrapper and decodes what is inside. */
  function Unquote(q: string): Option<string> {
    if |q| >= 2 && q[0] == '\'' && q[|q| - 1] == '\'' then Unescape(q[1..|q| - 1]) else None
  }

  lemma {:induction false} UnescapeEscape(s: string)
    ensures Unescape(Escape(s)) == Some(s)
  {
    if s != [] {
      UnescapeEscape(s[1..]);
      var e := Escape(s);
      assert e == EscapeChar(s[0]) + Escape(s[1..]);
      if IsSpecial(s[0]) {
        assert e[2..] == Escape(s[1..]);
        assert Unescaped(EscapeCode(s[0])) == Some(s[0]);
        assert Unescape(e) == Some([s[0]] + s[1..]);
        assert [s[0]] + s[1..] == s;
      } else {
        assert e[0] == s[0] && e[1..] == Escape(s[1..]);
        assert Unescape(e) == Some([s[0]] + s[1..]);
        assert [s[0]] + s[1..] == s;
      }
    }
  }

  /** The fallback's output reads back as the original string. */
  lemma FallbackRoundTrip(s: string)
    ensures Unquote(Fallback(s)) == Some(s)
  {
    var q := Fallback(s);
    assert q[1..|q| - 1] == Escape(s);
    UnescapeEscape(s);
  }

  /** Two different strings never get the same fallback quoting. */
  lemma FallbackInjective(a: string, b: string)
    requires Fallback(a) == Fallback(b)
    ensures a == b
  {
    FallbackRoundTrip(a);
    FallbackRoundTrip(b);
  }

  /** Shape of the fallback output: the wrapper quotes and one extra character per special character. */
  lemma FallbackShape(s: string)
    ensures |Fallback(s)| == |s| + 2 + SpecialCount(s)
    ensures Fallback(s)[0] == '\'' && Fallback(s)[|Fallback(s)| - 1] == '\''
    ensures Fallback(s)[1..|Fallback(s)| - 1] == Escape(s)
  {
  }

  /** Inside the wrapper, every single quote is preceded by a backslash, so no
      quote of the input can close the literal. */
  lemma {:induction false} EscapedQuotesArePreceded(s: string)
    ensures forall k | 0 <= k < |Escape(s)| && Escape(s)[k] == '\'' :: 0 < k && Escape(s)[k - 1] == '\\'
  {
    if s != [] {
      EscapedQuotesArePreceded(s[1..]);
      var h, t := EscapeChar(s[0]), Escape(s[1..]);
      assert Escape(s) == h + t;
      forall k | 0 <= k < |h + t| && (h + t)[k] == '\''
        ensures 0 < k && (h + t)[k - 1] == '\\'
      {
        if k >= |h| {
          assert t[k - |h|] == '\'';
        }
      }
    }
  }

  /** quoteStringBinding: native quoting when it works, the fallback only when the
      driver reports it unsupported, and any other driver error propagated. */
  function QuoteStringBinding(s: string, native: string -> NativeQuote): (r: Result<string>)
    ensures native(s).Quoted? ==> r == Ok(native(s).text)
    ensures native(s) == Raised(Unsupported) ==> r.Ok? && Unquote(r.value) == Some(s)
    ensures native(s).Raised? && native(s).code != Unsupported ==> r == Err(native(s).code)
  {
    match native(s)
    case Quoted(text) => Ok(text)
    case Raised(code) =>
      if code != Unsupported then Err(code)
      else
        FallbackRoundTrip(s);
        Ok(Fallback(s))
  }
}
