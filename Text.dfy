/**
 * The handful of JavaScript string operations the attendance and salary rules rely on:
 * `split` on one character, `padStart(2, "0")`, `Number(...)` on digit strings,
 * the `<` / `>=` comparison of strings, `trim() === ""`, `toLowerCase()` and `includes`.
 */
module Text {
  import opened Wrappers

  // ---------------------------------------------------------------------------
  // split / join
  // ---------------------------------------------------------------------------

  /** `s.split(sep)` for a single-character separator. */
  function Split(s: string, sep: char): (parts: seq<string>)
    ensures |parts| >= 1
    ensures |parts| == 1 <==> sep !in s
    ensures forall i :: 0 <= i < |parts| ==> sep !in parts[i]
  {
    if s == [] then [""]
    else
      var rest := Split(s[1..], sep);
      if s[0] == sep then [""] + rest
      else [[s[0]] + rest[0]] + rest[1..]
  }

  /** `parts.join(sep)`: the inverse of `Split`. */
  function Join(parts: seq<string>, sep: char): string
    requires |parts| >= 1
  {
    if |parts| == 1 then parts[0] else parts[0] + [sep] + Join(parts[1..], sep)
  }

  /** Prepending a separator-free prefix only extends the first part. */
  lemma {:induction false} SplitPrefix(a: string, t: string, sep: char)
    requires sep !in a
    ensures Split(a + t, sep) == [a + Split(t, sep)[0]] + Split(t, sep)[1..]
  {
    if a != [] {
      assert (a + t)[1..] == a[1..] + t;
      SplitPrefix(a[1..], t, sep);
      assert [a[0]] + (a[1..] + Split(t, sep)[0]) == a + Split(t, sep)[0];
    } else {
      assert a + t == t;
      var p := Split(t, sep);
      assert a + p[0] == p[0];
      assert p == [p[0]] + p[1..];
    }
  }

  /** Splitting a joined list gives the list back when no part contains the separator. */
  lemma {:induction false} SplitJoin(parts: seq<string>, sep: char)
    requires |parts| >= 1
    requires forall i :: 0 <= i < |parts| ==> sep !in parts[i]
    ensures Split(Join(parts, sep), sep) == parts
  {
    if |parts| == 1 {
      SplitPrefix(parts[0], "", sep);
      assert parts[0] + "" == parts[0];
    } else {
      var tail := Join(parts[1..], sep);
      SplitJoin(parts[1..], sep);
      assert Split([sep] + tail, sep) == [""] + Split(tail, sep);
      SplitPrefix(parts[0], [sep] + tail, sep);
      assert parts[0] + ([sep] + tail) == Join(parts, sep);
      assert parts[0] + "" == parts[0];
      assert [parts[0]] + parts[1..] == parts;
    }
  }

  // ---------------------------------------------------------------------------
  // Decimal digits and Number(...)
  // ---------------------------------------------------------------------------

  predicate IsDigit(c: char) { '0' <= c <= '9' }

  predicate AllDigits(s: string) { forall i :: 0 <= i < |s| ==> IsDigit(s[i]) }

  function DigitValue(c: char): nat
    requires IsDigit(c)
  {
    c as int - '0' as int
  }

  function DigitChar(n: nat): (c: char)
    requires n < 10
    ensures IsDigit(c) && DigitValue(c) == n
  {
    (n + '0' as int) as char
  }

  /** The value of a string of decimal digits; the empty string is 0, as `Number("")` is. */
  function DecimalValue(s: string): nat
    requires AllDigits(s)
  {
    if s == [] then 0 else DecimalValue(s[..|s| - 1]) * 10 + DigitValue(s[|s| - 1])
  }

  /** `String(n)` for a natural number: its shortest decimal representation. */
  function NatToDecimal(n: nat): string
  {
    if n < 10 then [DigitChar(n)] else NatToDecimal(n / 10) + [DigitChar(n % 10)]
  }

  /** `String(n)` is a digit string denoting `n`: one digit below 10, two from 10 to 99. */
  lemma {:induction false} NatToDecimalDigits(n: nat)
    ensures var s := NatToDecimal(n);
      1 <= |s| && AllDigits(s) && DecimalValue(s) == n
      && (n < 10 <==> |s| == 1) && (10 <= n < 100 <==> |s| == 2)
  {
    if n >= 10 {
      NatToDecimalDigits(n / 10);
      var s := NatToDecimal(n);
      assert s[..|s| - 1] == NatToDecimal(n / 10);
    }
  }

  /** `s` with its leading JS whitespace removed. */
  function TrimStart(s: string): string
  {
    if s != [] && IsJsWhitespace(s[0]) then TrimStart(s[1..]) else s
  }

  /** `s` with its trailing JS whitespace removed. */
  function TrimEnd(s: string): string
  {
    if s != [] && IsJsWhitespace(s[|s| - 1]) then TrimEnd(s[..|s| - 1]) else s
  }

  /**
   * `Number(s)` on integer numerals: surrounding whitespace is ignored, a blank string is 0,
   * and digits with an optional leading '+' or '-' denote their value; every other string
   * is `NaN` (`None`). Fractions, exponents and radix prefixes are not modelled (see README).
   */
  function JsNumber(s: string): Option<int>
  {
    var t := TrimEnd(TrimStart(s));
    if AllDigits(t) then Some(DecimalValue(t))
    else if |t| >= 2 && t[0] == '+' && AllDigits(t[1..]) then Some(DecimalValue(t[1..]))
    else if |t| >= 2 && t[0] == '-' && AllDigits(t[1..]) then Some(-(DecimalValue(t[1..]) as int))
    else None
  }

  /** A digit string reads as its decimal value, and a blank string as 0. */
  lemma JsNumberDigits(s: string)
    ensures AllDigits(s) ==> JsNumber(s) == Some(DecimalValue(s))
    ensures IsBlank(s) ==> JsNumber(s) == Some(0)
  {
    BlankTrims(s);
  }

  /** Trimming leaves a digit string alone and empties a blank one. */
  lemma BlankTrims(s: string)
    ensures AllDigits(s) ==> TrimEnd(TrimStart(s)) == s
    ensures IsBlank(s) ==> TrimEnd(TrimStart(s)) == []
  {
    if IsBlank(s) {
      BlankTrimStart(s);
    }
  }

  lemma {:induction false} BlankTrimStart(s: string)
    requires IsBlank(s)
    ensures TrimStart(s) == []
  {
    if s != [] {
      BlankTrimStart(s[1..]);
    }
  }

  /** Whitespace around a numeral does not change what `Number` reads. */
  lemma {:induction false} JsNumberPadded(before: string, s: string, after: string)
    requires IsBlank(before) && IsBlank(after)
    requires s != [] && !IsJsWhitespace(s[0]) && !IsJsWhitespace(s[|s| - 1])
    ensures JsNumber(before + s + after) == JsNumber(s)
  {
    TrimStartBlank(before, s + after);
    assert before + s + after == before + (s + after);
    TrimEndBlank(s, after);
  }

  lemma {:induction false} TrimStartBlank(w: string, s: string)
    requires IsBlank(w) && s != [] && !IsJsWhitespace(s[0])
    ensures TrimStart(w + s) == s
  {
    if w != [] {
      assert (w + s)[1..] == w[1..] + s;
      TrimStartBlank(w[1..], s);
    }
  }

  lemma {:induction false} TrimEndBlank(s: string, w: string)
    requires IsBlank(w) && s != [] && !IsJsWhitespace(s[0]) && !IsJsWhitespace(s[|s| - 1])
    ensures TrimStart(s + w) == s + w && TrimEnd(s + w) == s
  {
    assert (s + w)[0] == s[0];
    if w != [] {
      assert (s + w)[..|s + w| - 1] == s + w[..|w| - 1];
      TrimEndBlank(s, w[..|w| - 1]);
    } else {
      assert s + w == s;
    }
  }

  /** A signed digit string is read with its sign; a lone sign is `NaN`. */
  lemma JsNumberSigned(d: string)
    requires d != [] && AllDigits(d)
    ensures JsNumber("+" + d) == Some(DecimalValue(d))
    ensures JsNumber("-" + d) == Some(-(DecimalValue(d) as int))
    ensures JsNumber("+") == None && JsNumber("-") == None
  {
    SignedNumeral('+', d);
    SignedNumeral('-', d);
    LoneSign('+');
    LoneSign('-');
  }

  lemma SignedNumeral(sign: char, d: string)
    requires sign == '+' || sign == '-'
    requires d != [] && AllDigits(d)
    ensures JsNumber([sign] + d) == Some(if sign == '+' then DecimalValue(d) else -(DecimalValue(d) as int))
  {
    var t := [sign] + d;
    assert t[0] == sign && t[|t| - 1] == d[|d| - 1];
    assert TrimStart(t) == t && TrimEnd(t) == t;
    assert !IsDigit(t[0]);
    assert t[1..] == d;
  }

  lemma LoneSign(sign: char)
    requires sign == '+' || sign == '-'
    ensures JsNumber([sign]) == None
  {
    assert TrimStart([sign]) == [sign] && TrimEnd([sign]) == [sign];
    assert !IsDigit([sign][0]);
  }


  /** A leading zero does not change a decimal value. */
  lemma {:induction false} LeadingZero(s: string)
    requires AllDigits(s)
    ensures AllDigits("0" + s) && DecimalValue("0" + s) == DecimalValue(s)
  {
    var z := "0" + s;
    if s != [] {
      assert z[..|z| - 1] == "0" + s[..|s| - 1];
      LeadingZero(s[..|s| - 1]);
    }
  }

  // ---------------------------------------------------------------------------
  // padStart(2, "0")
  // ---------------------------------------------------------------------------

  /** `s.padStart(2, "0")`. */
  function PadStart2(s: string): string
  {
    if |s| >= 2 then s else if |s| == 1 then "0" + s else "00"
  }

  /** Padding keeps the string as its suffix and fills with '0' up to length 2. */
  lemma PadStart2Shape(s: string)
    ensures var r := PadStart2(s);
      |r| == (if |s| >= 2 then |s| else 2) && r[|r| - |s|..] == s
      && forall i :: 0 <= i < |r| - |s| ==> r[i] == '0'
  {
    if |s| == 1 {
      assert PadStart2(s)[1..] == s;
    }
  }

  /** Padding a digit string keeps its value. */
  lemma PadStart2Value(s: string)
    requires AllDigits(s)
    ensures AllDigits(PadStart2(s)) && DecimalValue(PadStart2(s)) == DecimalValue(s)
  {
    if |s| == 1 {
      LeadingZero(s);
    } else if |s| == 0 {
      LeadingZero("0");
    }
  }

  // ---------------------------------------------------------------------------
  // String comparison, trim, case and substring search
  // ---------------------------------------------------------------------------

  /** JavaScript's `a < b` on strings: lexicographic by UTF-16 code unit. */
  predicate Less(a: string, b: string)
  {
    if a == [] then b != []
    else if b == [] then false
    else if a[0] != b[0] then a[0] < b[0]
    else Less(a[1..], b[1..])
  }

  /** A common prefix does not change how two strings compare. */
  lemma {:induction false} LessPrefix(p: string, a: string, b: string)
    ensures Less(p + a, p + b) <==> Less(a, b)
  {
    if p == [] {
      assert p + a == a && p + b == b;
    } else {
      assert (p + a)[0] == p[0] == (p + b)[0];
      assert (p + a)[1..] == p[1..] + a && (p + b)[1..] == p[1..] + b;
      LessPrefix(p[1..], a, b);
    }
  }

  lemma TwoDigitValue(a: string)
    requires |a| == 2 && AllDigits(a)
    ensures DecimalValue(a) == DigitValue(a[0]) * 10 + DigitValue(a[1])
  {
    assert a[..1][..0] == [];
    assert a[..1] == [a[0]];
    assert DecimalValue(a[..1]) == DigitValue(a[0]);
  }

  /** Two-digit strings compare as the numbers they denote. */
  lemma TwoDigitOrder(a: string, b: string)
    requires |a| == 2 && |b| == 2 && AllDigits(a) && AllDigits(b)
    ensures Less(a, b) <==> DecimalValue(a) < DecimalValue(b)
  {
    TwoDigitValue(a);
    TwoDigitValue(b);
    if a[0] == b[0] {
      assert Less(a, b) == Less(a[1..], b[1..]);
      assert a[1..][0] == a[1] && b[1..][0] == b[1];
      assert a[1..][1..] == [] && b[1..][1..] == [];
      assert Less(a[1..], b[1..]) == (a[1] < b[1]);
    }
  }

  /** The characters `trim()` removes (the common ones; see the README). */
  predicate IsJsWhitespace(c: char)
  {
    c == ' ' || c == '\t' || c == '\n' || c == '\r' || c == '\U{000B}' || c == '\U{000C}'
    || c == '\U{00A0}' || c == '\U{2028}' || c == '\U{2029}' || c == '\U{FEFF}'
  }

  /** `s.trim() === ""`. */
  predicate IsBlank(s: string)
  {
    forall i :: 0 <= i < |s| ==> IsJsWhitespace(s[i])
  }

  function LowerChar(c: char): char
  {
    if 'A' <= c <= 'Z' then (c as int + 32) as char else c
  }

  /** `s.toLowerCase()` on the ASCII letters. */
  function ToLower(s: string): (r: string)
    ensures |r| == |s|
    ensures forall i :: 0 <= i < |s| ==> r[i] == LowerChar(s[i])
  {
    if s == [] then [] else [LowerChar(s[0])] + ToLower(s[1..])
  }

  /** `s.includes(sub)`. */
  predicate Contains(s: string, sub: string)
  {
    if sub <= s then true else if s == [] then false else Contains(s[1..], sub)
  }

  /** `sub` occurs in `s` starting at offset `k`. */
  predicate OccursAt(s: string, sub: string, k: int)
  {
    0 <= k && k + |sub| <= |s| && s[k..k + |sub|] == sub
  }

  /** `Contains` finds exactly the substrings that occur at some offset of `s`. */
  lemma {:induction false} ContainsAt(s: string, sub: string)
    ensures Contains(s, sub) <==> exists k :: OccursAt(s, sub, k)
  {
    if sub <= s {
      assert OccursAt(s, sub, 0);
    } else if s != [] {
      ContainsAt(s[1..], sub);
      if Contains(s[1..], sub) {
        var k :| OccursAt(s[1..], sub, k);
        assert s[k + 1..k + 1 + |sub|] == s[1..][k..k + |sub|];
        assert OccursAt(s, sub, k + 1);
      }
      if exists k :: OccursAt(s, sub, k) {
        var k :| OccursAt(s, sub, k);
        assert k != 0;
        assert s[1..][k - 1..k - 1 + |sub|] == s[k..k + |sub|];
        assert OccursAt(s[1..], sub, k - 1);
      }
    }
  }
}
