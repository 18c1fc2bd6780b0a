/** Rendering of one normalized binding value as SQL text. */
module Rendering {
  import opened Results
  import Quoting

  /** A binding value after the connection's normalization. A float is kept as
      the text PHP's float-to-string conversion gives it; that conversion is not
      part of this model. */
  datatype Value = Null | Int(i: int) | Float(text: string) | Str(s: string)

  predicate IsDigit(c: char) {
    '0' <= c <= '9'
  }

  function DigitValue(c: char): nat {
    if IsDigit(c) then c as int - '0' as int else 0
  }

  function DigitChar(d: nat): (c: char)
    requires d < 10
    ensures IsDigit(c) && DigitValue(c) == d
  {
    ('0' as int + d) as char
  }

  /** Decimal digits of a natural number, most significant first, no leading zero. */
  function NatText(n: nat): (t: string)
    ensures t != [] && forall k | 0 <= k < |t| :: IsDigit(t[k])
    ensures CanonicalDigits(t) && (t == "0" <==> n == 0)
    decreases n
  {
    if n < 10 then [DigitChar(n)] else NatText(n / 10) + [DigitChar(n % 10)]
  }

  /** PHP's integer-to-string conversion: a minus sign for negatives, then the digits. */
  function IntText(i: int): string {
    if i < 0 then "-" + NatText(-i) else NatText(i)
  }

  /** A decimal numeral: an optional minus sign followed by at least one digit. */
  predicate IsNumeral(t: string) {
    var digits := if t != [] && t[0] == '-' then t[1..] else t;
    digits != [] && forall k | 0 <= k < |digits| :: IsDigit(digits[k])
  }

  /** Digits as PHP writes them: at least one, and no leading zero unless the
      digits are exactly `0`. */
  predicate CanonicalDigits(t: string) {
    t != [] && (forall k | 0 <= k < |t| :: IsDigit(t[k])) && (t[0] == '0' ==> t == "0")
  }

  /** A numeral as PHP writes an integer: canonical digits, preceded by a minus
      sign exactly when the value is negative (so never `-0`). */
  predicate IsCanonicalNumeral(t: string) {
    if t != [] && t[0] == '-' then CanonicalDigits(t[1..]) && t[1..] != "0" else CanonicalDigits(t)
  }

  /** Value of a string of decimal digits. */
  function ParseNat(t: string): nat {
    if t == [] then 0 else ParseNat(t[..|t| - 1]) * 10 + DigitValue(t[|t| - 1])
  }

  /** Value of a numeral. */
  function ParseInt(t: string): int {
    if t != [] && t[0] == '-' then -(ParseNat(t[1..]) as int) else ParseNat(t)
  }

  lemma {:induction false} ParseNatText(n: nat)
    ensures ParseNat(NatText(n)) == n
    decreases n
  {
    if n >= 10 {
      ParseNatText(n / 10);
      var t := NatText(n);
      assert t[..|t| - 1] == NatText(n / 10);
    }
  }

  /** A non-empty digit string without a leading zero and longer than one
      digit is worth at least ten. */
  lemma {:induction false} LongDigitsAtLeastTen(t: string)
    requires CanonicalDigits(t) && |t| >= 2
    ensures ParseNat(t) >= 10
    decreases |t|
  {
    var front := t[..|t| - 1];
    assert front[0] == t[0];
    assert CanonicalDigits(front) by {
      forall k | 0 <= k < |front| ensures IsDigit(front[k]) { assert front[k] == t[k]; }
    }
    if |front| >= 2 {
      LongDigitsAtLeastTen(front);
    } else {
      assert front == [t[0]] && ParseNat(front) == DigitValue(t[0]);
      assert ParseNat(front) >= 1;
    }
  }

  /** Two canonical digit strings with the same value are the same string. */
  lemma {:induction false} CanonicalDigitsUnique(a: string, b: string)
    requires CanonicalDigits(a) && CanonicalDigits(b) && ParseNat(a) == ParseNat(b)
    ensures a == b
    decreases |a|
  {
    if |a| >= 2 { LongDigitsAtLeastTen(a); }
    if |b| >= 2 { LongDigitsAtLeastTen(b); }
    assert |a| == 1 ==> ParseNat(a) == DigitValue(a[0]) && ParseNat(a) < 10 by {
      if |a| == 1 { assert a[..0] == []; }
    }
    assert |b| == 1 ==> ParseNat(b) == DigitValue(b[0]) && ParseNat(b) < 10 by {
      if |b| == 1 { assert b[..0] == []; }
    }
    if |a| == 1 {
      assert a == [a[0]] && b == [b[0]];
    } else {
      var fa, fb := a[..|a| - 1], b[..|b| - 1];
      assert fa[0] == a[0] && fb[0] == b[0];
      assert CanonicalDigits(fa) by {
        forall k | 0 <= k < |fa| ensures IsDigit(fa[k]) { assert fa[k] == a[k]; }
      }
      assert CanonicalDigits(fb) by {
        forall k | 0 <= k < |fb| ensures IsDigit(fb[k]) { assert fb[k] == b[k]; }
      }
      assert ParseNat(a) == ParseNat(fa) * 10 + DigitValue(a[|a| - 1]);
      assert ParseNat(b) == ParseNat(fb) * 10 + DigitValue(b[|b| - 1]);
      assert DigitValue(a[|a| - 1]) == DigitValue(b[|b| - 1]);
      CanonicalDigitsUnique(fa, fb);
      assert a == fa + [a[|a| - 1]] && b == fb + [b[|b| - 1]];
    }
  }

  /** PHP writes each integer in exactly one way: two canonical numerals with
      the same value are the same text. */
  lemma CanonicalNumeralUnique(a: string, b: string)
    requires IsCanonicalNumeral(a) && IsCanonicalNumeral(b) && ParseInt(a) == ParseInt(b)
    ensures a == b
  {
    var da := if a != [] && a[0] == '-' then a[1..] else a;
    var db := if b != [] && b[0] == '-' then b[1..] else b;
    if da != "0" { assert da[0] != '0'; LongOrNonZero(da); }
    if db != "0" { assert db[0] != '0'; LongOrNonZero(db); }
    assert ParseNat(da) == ParseNat(db);
    CanonicalDigitsUnique(da, db);
    assert a == (if a[0] == '-' then "-" + da else da);
    assert b == (if b[0] == '-' then "-" + db else db);
  }

  /** Canonical digits other than `0` are worth at least one. */
  lemma LongOrNonZero(t: string)
    requires CanonicalDigits(t) && t != "0"
    ensures ParseNat(t) >= 1
  {
    if |t| >= 2 {
      LongDigitsAtLeastTen(t);
    } else {
      assert t[..0] == [] && ParseNat(t) == DigitValue(t[0]);
    }
  }

  /** An integer binding is written as PHP's canonical numeral, which reads back
      as the same integer. */
  lemma IntTextRoundTrip(i: int)
    ensures IsNumeral(IntText(i)) && IsCanonicalNumeral(IntText(i)) && ParseInt(IntText(i)) == i
  {
    if i < 0 {
      ParseNatText(-i);
      assert IntText(i)[1..] == NatText(-i);
    } else {
      ParseNatText(i);
    }
  }

  /** The text inserted for one binding (lines 65-69 of the watcher): null as the
      bare word, numbers unquoted, everything else through string quoting, whose
      driver error (other than IM001) is the result's error. */
  function Render(v: Value, native: string -> Quoting.NativeQuote): (r: Result<string>)
    ensures v.Null? ==> r == Ok("null")
    ensures v.Int? ==> r.Ok? && IsCanonicalNumeral(r.value) && ParseInt(r.value) == v.i
    ensures v.Float? ==> r == Ok(v.text)
    ensures r.Err? ==> v.Str? && native(v.s).Raised? && r.code == native(v.s).code != Quoting.Unsupported
    ensures v.Str? ==> r == Quoting.QuoteStringBinding(v.s, native)
  {
    match v
    case Null => Ok("null")
    case Int(i) => IntTextRoundTrip(i); Ok(IntText(i))
    case Float(text) => Ok(text)
    case Str(s) => Quoting.QuoteStringBinding(s, native)
  }

  /** The text of a null or integer binding never contains a single quote, a
      backslash, a dollar sign or a question mark. */
  lemma PlainRendering(v: Value, native: string -> Quoting.NativeQuote)
    requires v.Null? || v.Int?
    ensures Render(v, native).Ok?
    ensures var t := Render(v, native).value;
      t != [] && forall k | 0 <= k < |t| :: t[k] == '-' || IsDigit(t[k]) || t[k] in "nul"
  {
    if v.Int? {
      var t := Render(v, native).value;
      forall k | 0 <= k < |t| ensures t[k] == '-' || IsDigit(t[k]) {
        if v.i < 0 && k > 0 { assert t[k] == NatText(-v.i)[k - 1]; }
      }
    }
  }
}
