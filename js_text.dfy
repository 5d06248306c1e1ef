/**
  The JavaScript string built-ins the validators and the aggregators rely on:
  `trim`, `length` and `slice` (which count UTF-16 code units), the global
  `replace(/[<>&"']/g, '')`, `toLowerCase`, `parseInt` and `parseFloat`.
  Strings are sequences of Unicode scalar values.
 */
module JsText {
  import opened Wrappers

  /** A value as a handler receives it from an untyped payload: `null`, a string, or anything else. */
  datatype JsValue = JsNull | JsString(text: string) | JsOther

  // ---------------------------------------------------------------- trim

  /** ECMAScript WhiteSpace and LineTerminator code points, which `trim` removes. */
  predicate IsWhiteSpace(c: char) {
    || c == '\t' || c == '\n' || c == '\U{B}' || c == '\U{C}' || c == '\r'
    || c == ' ' || c == '\U{A0}' || c == '\U{1680}' || ('\U{2000}' <= c <= '\U{200A}')
    || c == '\U{2028}' || c == '\U{2029}' || c == '\U{202F}' || c == '\U{205F}'
    || c == '\U{3000}' || c == '\U{FEFF}'
  }

  /** Drops leading white space. */
  function TrimStart(s: string): (r: string)
    ensures |r| <= |s| && r == s[|s| - |r|..]
    ensures r != [] ==> !IsWhiteSpace(r[0])
    ensures forall i :: 0 <= i < |s| - |r| ==> IsWhiteSpace(s[i])
  {
    if s != [] && IsWhiteSpace(s[0]) then
      var r := TrimStart(s[1..]);
      DropFirstSuffix(s, s[1..], r);
      r
    else s
  }

  /** A suffix of `s[1..]` is a suffix of `s`, preceded there by `s[0]`. */
  lemma DropFirstSuffix(s: string, tail: string, r: string)
    requires s != [] && tail == s[1..] && IsWhiteSpace(s[0])
    requires |r| <= |tail| && r == tail[|tail| - |r|..]
    requires forall i :: 0 <= i < |tail| - |r| ==> IsWhiteSpace(tail[i])
    ensures r == s[|s| - |r|..]
    ensures forall i :: 0 <= i < |s| - |r| ==> IsWhiteSpace(s[i])
  {
    forall i | 0 < i < |s| - |r| ensures IsWhiteSpace(s[i]) {
      assert s[i] == tail[i - 1];
    }
  }

  /** Drops trailing white space. */
  function TrimEnd(s: string): (r: string)
    ensures |r| <= |s| && r == s[..|r|]
    ensures r != [] ==> !IsWhiteSpace(r[|r| - 1])
    ensures forall i :: |r| <= i < |s| ==> IsWhiteSpace(s[i])
  {
    if s != [] && IsWhiteSpace(s[|s| - 1]) then
      var r := TrimEnd(s[..|s| - 1]);
      DropLastPrefix(s, s[..|s| - 1], r);
      r
    else s
  }

  /** A prefix of `s[..|s| - 1]` is a prefix of `s`, followed there by the rest of `s`. */
  lemma DropLastPrefix(s: string, init: string, r: string)
    requires s != [] && init == s[..|s| - 1] && IsWhiteSpace(s[|s| - 1])
    requires |r| <= |init| && r == init[..|r|]
    requires forall i :: |r| <= i < |init| ==> IsWhiteSpace(init[i])
    ensures r == s[..|r|]
    ensures forall i :: |r| <= i < |s| ==> IsWhiteSpace(s[i])
  {
    forall i | |r| <= i < |init| ensures IsWhiteSpace(s[i]) {
      assert s[i] == init[i];
    }
  }

  /** `String.prototype.trim`: the infix of `s` left after removing white space at both ends. */
  function Trim(s: string): (r: string)
    ensures r == [] || (!IsWhiteSpace(r[0]) && !IsWhiteSpace(r[|r| - 1]))
    ensures |r| <= |TrimStart(s)| <= |s|
    ensures r == s[|s| - |TrimStart(s)|..][..|r|]
    ensures forall i :: 0 <= i < |s| - |TrimStart(s)| ==> IsWhiteSpace(s[i])
    ensures forall i :: |s| - |TrimStart(s)| + |r| <= i < |s| ==> IsWhiteSpace(s[i])
  {
    var t := TrimStart(s);
    var r := TrimEnd(t);
    TrimBothEnds(s, t, r);
    r
  }

  /** Trimming the end after the start leaves white space only outside the kept infix. */
  lemma TrimBothEnds(s: string, t: string, r: string)
    requires |t| <= |s| && t == s[|s| - |t|..]
    requires t != [] ==> !IsWhiteSpace(t[0])
    requires |r| <= |t| && r == t[..|r|]
    requires r != [] ==> !IsWhiteSpace(r[|r| - 1])
    requires forall i :: |r| <= i < |t| ==> IsWhiteSpace(t[i])
    ensures r == [] || (!IsWhiteSpace(r[0]) && !IsWhiteSpace(r[|r| - 1]))
    ensures forall i :: |s| - |t| + |r| <= i < |s| ==> IsWhiteSpace(s[i])
  {
    var k := |s| - |t|;
    if r != [] {
      assert r[0] == t[0];
    }
    forall i | k + |r| <= i < |s| ensures IsWhiteSpace(s[i]) {
      assert s[i] == t[i - k];
    }
  }

  /** A string made only of white space trims to the empty string, and only such a string does. */
  lemma TrimEmptyIffBlank(s: string)
    ensures Trim(s) == [] <==> forall i :: 0 <= i < |s| ==> IsWhiteSpace(s[i])
  {
    var k := |s| - |TrimStart(s)|;
    if Trim(s) == [] {
      forall i | 0 <= i < |s| ensures IsWhiteSpace(s[i]) {
      }
    }
  }

  // ---------------------------------------------------------------- length and slice

  /** The number of UTF-16 code units that encode `c`. */
  function Units(c: char): nat {
    if c as int >= 0x1_0000 then 2 else 1
  }

  /** `String.prototype.length`: the number of UTF-16 code units of `s`. */
  function Utf16Length(s: string): (n: nat)
    ensures |s| <= n <= 2 * |s|
    ensures n == 0 <==> s == []
  {
    if s == [] then 0 else Utf16Length(s[..|s| - 1]) + Units(s[|s| - 1])
  }

  /** A prefix never has more code units than the whole string. */
  lemma {:induction false} Utf16LengthPrefix(s: string, k: nat)
    requires k <= |s|
    ensures Utf16Length(s[..k]) <= Utf16Length(s)
    decreases |s|
  {
    if k < |s| {
      assert s[..|s| - 1][..k] == s[..k];
      Utf16LengthPrefix(s[..|s| - 1], k);
    } else {
      assert s[..k] == s;
    }
  }

  /** `s.slice(0, n)`: the longest prefix of `s` with at most `n` code units. */
  function SliceUnits(s: string, n: nat): (r: string)
    ensures |r| <= |s| && r == s[..|r|]
    ensures Utf16Length(r) <= n
    ensures |r| < |s| ==> Utf16Length(s[..|r| + 1]) > n
    ensures Utf16Length(s) <= n ==> r == s
  {
    if Utf16Length(s) <= n then s
    else
      var r := SliceUnits(s[..|s| - 1], n);
      SliceStep(s, r, n);
      r
  }

  /** The slice of all but the last character is also the slice of `s` once `s` is too long. */
  lemma SliceStep(s: string, r: string, n: nat)
    requires s != [] && Utf16Length(s) > n
    requires |r| <= |s| - 1 && r == s[..|s| - 1][..|r|]
    requires |r| < |s| - 1 ==> Utf16Length(s[..|s| - 1][..|r| + 1]) > n
    ensures r == s[..|r|]
    ensures |r| < |s| ==> Utf16Length(s[..|r| + 1]) > n
  {
    if |r| < |s| - 1 {
      assert s[..|s| - 1][..|r| + 1] == s[..|r| + 1];
    } else {
      assert s[..|r| + 1] == s;
    }
  }

  // ---------------------------------------------------------------- replace(/[<>&"']/g, '')

  /** The characters the sanitisers strip. */
  predicate IsMarkup(c: char) {
    c == '<' || c == '>' || c == '&' || c == '"' || c == '\''
  }

  /** `s.replace(/[<>&"']/g, '')`: `s` with every markup character removed. */
  function StripMarkup(s: string): (r: string)
    ensures forall i :: 0 <= i < |r| ==> !IsMarkup(r[i])
    ensures |r| <= |s|
  {
    if s == [] then [] else StripMarkup(s[..|s| - 1]) + StripOne(s[|s| - 1])
  }

  /** One character, or nothing if it is a markup character. */
  function StripOne(c: char): string {
    if IsMarkup(c) then [] else [c]
  }

  /** Every other character is kept as often as it occurs. */
  lemma {:induction false} StripMarkupKeeps(s: string, c: char)
    requires !IsMarkup(c)
    ensures multiset(StripMarkup(s))[c] == multiset(s)[c]
  {
    if s != [] {
      var init, last := s[..|s| - 1], s[|s| - 1];
      StripMarkupKeeps(init, c);
      assert s == init + [last];
      assert multiset(StripMarkup(s)) == multiset(StripMarkup(init)) + multiset(StripOne(last));
    }
  }

  /** Stripping never lengthens the text, counted in code units. */
  lemma {:induction false} StripMarkupUnits(s: string)
    ensures Utf16Length(StripMarkup(s)) <= Utf16Length(s)
  {
    if s != [] {
      var init := s[..|s| - 1];
      StripMarkupUnits(init);
      var r := StripMarkup(init);
      var c := s[|s| - 1];
      assert Utf16Length(s) == Utf16Length(init) + Units(c);
      if !IsMarkup(c) {
        assert StripMarkup(s) == r + [c];
        assert (r + [c])[..|r|] == r;
        assert Utf16Length(r + [c]) == Utf16Length(r) + Units(c);
      } else {
        assert StripMarkup(s) == r;
      }
    }
  }

  /** Stripping works character by character: it distributes over concatenation. */
  lemma {:induction false} StripMarkupConcat(a: string, b: string)
    ensures StripMarkup(a + b) == StripMarkup(a) + StripMarkup(b)
    decreases |b|
  {
    if b == [] {
      assert a + b == a;
    } else {
      var b' := b[..|b| - 1];
      assert (a + b)[..|a + b| - 1] == a + b';
      StripMarkupConcat(a, b');
    }
  }

  /** Text without markup characters is left as it is; in particular stripping is idempotent. */
  lemma {:induction false} StripMarkupClean(s: string)
    requires forall i :: 0 <= i < |s| ==> !IsMarkup(s[i])
    ensures StripMarkup(s) == s
  {
    if s != [] {
      StripMarkupClean(s[..|s| - 1]);
      assert s == s[..|s| - 1] + [s[|s| - 1]];
    }
  }

  // ---------------------------------------------------------------- toLowerCase

  /** Lower-case mapping of one character (ASCII and Latin-1 capitals). */
  function LowerChar(c: char): char {
    if 'A' <= c <= 'Z' || ('\U{C0}' <= c <= '\U{DE}' && c != '\U{D7}') then (c as int + 32) as char else c
  }

  /** `String.prototype.toLowerCase`, character by character. */
  function ToLower(s: string): (r: string)
    ensures |r| == |s|
    ensures forall i :: 0 <= i < |s| ==> r[i] == LowerChar(s[i])
  {
    seq(|s|, i requires 0 <= i < |s| => LowerChar(s[i]))
  }

  /** Lower-casing twice is lower-casing once. */
  lemma ToLowerIdempotent(s: string)
    ensures ToLower(ToLower(s)) == ToLower(s)
  {
    assert forall i :: 0 <= i < |s| ==> LowerChar(LowerChar(s[i])) == LowerChar(s[i]);
  }

  // ---------------------------------------------------------------- parseInt and parseFloat

  predicate IsDigit(c: char) {
    '0' <= c <= '9'
  }

  /** The longest prefix of `s` made of decimal digits. */
  function DigitPrefix(s: string): (r: string)
    ensures |r| <= |s| && r == s[..|r|]
    ensures forall i :: 0 <= i < |r| ==> IsDigit(r[i])
    ensures |r| < |s| ==> !IsDigit(s[|r|])
  {
    if s != [] && IsDigit(s[0]) then [s[0]] + DigitPrefix(s[1..]) else []
  }

  /** The value of a string of decimal digits. */
  function DigitsValue(d: string): nat
    requires forall i :: 0 <= i < |d| ==> IsDigit(d[i])
  {
    if d == [] then 0
    else
      var last := d[|d| - 1];
      assert IsDigit(last);
      10 * DigitsValue(d[..|d| - 1]) + (last as int - '0' as int)
  }

  /** The value of the digits after a decimal point: `0.d1d2…` is `(d1 + 0.d2…) / 10`. */
  function FractionValue(d: string): (f: real)
    requires forall i :: 0 <= i < |d| ==> IsDigit(d[i])
    ensures 0.0 <= f <= 1.0
  {
    if d == [] then 0.0
    else
      assert IsDigit(d[0]);
      ((d[0] as int - '0' as int) as real + FractionValue(d[1..])) / 10.0
  }

  /** After optional leading white space, the text without its sign character. */
  function Unsigned(t: string): string {
    if t != [] && (t[0] == '-' || t[0] == '+') then t[1..] else t
  }

  /** Whether that text starts with a minus sign. */
  predicate IsNegative(t: string) {
    t != [] && t[0] == '-'
  }

  /** `parseInt(s, 10)`: optional white space and sign, then the leading decimal digits; `None` for NaN. */
  function ParseInt(s: string): (r: Option<int>)
    ensures r.None? <==> DigitPrefix(Unsigned(TrimStart(s))) == []
  {
    var t := TrimStart(s);
    var d := DigitPrefix(Unsigned(t));
    if d == [] then None
    else Some(if IsNegative(t) then -(DigitsValue(d) as int) else DigitsValue(d) as int)
  }

  /** The digits after a leading decimal point, or none. */
  function FractionDigits(rest: string): (d: string)
    ensures forall i :: 0 <= i < |d| ==> IsDigit(d[i])
  {
    if rest != [] && rest[0] == '.' then DigitPrefix(rest[1..]) else []
  }

  /** The unsigned number at the start of `body`: digits with an optional fractional part. */
  function UnsignedFloat(body: string): Option<real> {
    var ip := DigitPrefix(body);
    var frac := FractionDigits(body[|ip|..]);
    if ip == [] && frac == [] then None
    else Some(DigitsValue(ip) as real + FractionValue(frac))
  }

  /**
    `parseFloat(s)`: optional white space and sign, then digits with an optional
    fractional part (`12`, `12.`, `12.5`, `.5`); `None` for NaN.
   */
  function ParseFloat(s: string): (r: Option<real>) {
    var t := TrimStart(s);
    match UnsignedFloat(Unsigned(t))
    case None => None
    case Some(magnitude) => Some(if IsNegative(t) then -magnitude else magnitude)
  }

  /** The decimal rendering of a natural number (what `String(n)` gives). */
  function DecimalString(n: nat): (s: string)
    ensures s != [] && forall i :: 0 <= i < |s| ==> IsDigit(s[i])
  {
    if n < 10 then ['0' + (n as char)]
    else DecimalString(n / 10) + ['0' + ((n % 10) as char)]
  }

  lemma {:induction false} DigitsValueOfDecimal(n: nat)
    ensures DigitsValue(DecimalString(n)) == n
  {
    var s := DecimalString(n);
    if n >= 10 {
      DigitsValueOfDecimal(n / 10);
      assert s[..|s| - 1] == DecimalString(n / 10);
    }
  }

  lemma {:induction false} DigitPrefixOfDigits(s: string)
    requires forall i :: 0 <= i < |s| ==> IsDigit(s[i])
    ensures DigitPrefix(s) == s
  {
    if s != [] {
      DigitPrefixOfDigits(s[1..]);
    }
  }

  /** A string of digits is not touched by the white-space and sign steps. */
  lemma DigitsNotTrimmed(s: string)
    requires s != [] && forall i :: 0 <= i < |s| ==> IsDigit(s[i])
    ensures TrimStart(s) == s
  {
    assert IsDigit(s[0]) && !IsWhiteSpace(s[0]);
  }

  lemma DigitsUnsigned(s: string)
    requires s != [] && forall i :: 0 <= i < |s| ==> IsDigit(s[i])
    ensures Unsigned(s) == s && !IsNegative(s)
  {
    assert IsDigit(s[0]);
  }

  /** The facts about a digit string that both parsers need. */
  predicate CleanDigits(s: string) {
    && s != [] && (forall i :: 0 <= i < |s| ==> IsDigit(s[i]))
    && TrimStart(s) == s && Unsigned(s) == s && !IsNegative(s) && DigitPrefix(s) == s
  }

  lemma CleanDigitsOf(s: string)
    requires s != [] && forall i :: 0 <= i < |s| ==> IsDigit(s[i])
    ensures CleanDigits(s)
  {
    DigitsNotTrimmed(s);
    DigitsUnsigned(s);
    DigitPrefixOfDigits(s);
  }

  lemma ParseIntClean(s: string)
    requires CleanDigits(s)
    ensures ParseInt(s) == Some(DigitsValue(s) as int)
  {
  }

  lemma ParseFloatClean(s: string)
    requires CleanDigits(s)
    ensures ParseFloat(s) == Some(DigitsValue(s) as real)
  {
    assert s[|s|..] == [];
    assert UnsignedFloat(s) == Some(DigitsValue(s) as real);
  }

  /** `parseInt` reads back the decimal rendering of any natural number. */
  lemma ParseIntDecimal(n: nat)
    ensures ParseInt(DecimalString(n)) == Some(n)
  {
    CleanDigitsOf(DecimalString(n));
    ParseIntClean(DecimalString(n));
    DigitsValueOfDecimal(n);
  }

  /** `parseFloat` reads back the decimal rendering of any natural number. */
  lemma ParseFloatDecimal(n: nat)
    ensures ParseFloat(DecimalString(n)) == Some(n as real)
  {
    CleanDigitsOf(DecimalString(n));
    ParseFloatClean(DecimalString(n));
    DigitsValueOfDecimal(n);
  }
}
