/**
 * The numeric conversions the parser applies to text fields: Python's `int()`
 * and `float()` restricted to plain decimal notation. Both first drop the
 * surrounding whitespace, which for them is `str.isspace()` without the four
 * separators U+001C..U+001F, then accept an optional sign followed by ASCII
 * digits; `float()` also accepts one decimal point. Anything else is a
 * conversion failure (`None`), never a default value.
 */
module Numbers {
  import opened Wrappers
  import Text

  predicate IsDigit(c: char)
  {
    '0' <= c <= '9'
  }

  predicate AllDigits(s: string)
  {
    forall i :: 0 <= i < |s| ==> IsDigit(s[i])
  }

  predicate IsSign(c: char)
  {
    c == '+' || c == '-'
  }

  function DigitValue(c: char): nat
    requires IsDigit(c)
  {
    (c as int) - ('0' as int)
  }

  function DigitChar(d: nat): (c: char)
    requires d < 10
    ensures IsDigit(c) && DigitValue(c) == d
  {
    ('0' as int + d) as char
  }

  /** The value of a string of decimal digits, most significant first. */
  function DigitsValue(ds: string): nat
    requires AllDigits(ds)
  {
    if ds == [] then 0 else DigitsValue(ds[..|ds| - 1]) * 10 + DigitValue(ds[|ds| - 1])
  }

  function Pow10(n: nat): (p: nat)
    ensures p >= 1
  {
    if n == 0 then 1 else 10 * Pow10(n - 1)
  }

  /** The decimal rendering of `n` without leading zeros, whose digits denote `n` again. */
  function ShowNat(n: nat): (s: string)
    ensures |s| >= 1 && AllDigits(s)
    ensures DigitsValue(s) == n
    ensures n > 0 ==> s[0] != '0'
  {
    if n < 10 then [DigitChar(n)]
    else
      var s := ShowNat(n / 10) + [DigitChar(n % 10)];
      assert s[..|s| - 1] == ShowNat(n / 10);
      assert s[0] == ShowNat(n / 10)[0];
      s
  }

  /** Python's `str(n)` for an integer. */
  function ShowInt(n: int): string
  {
    if n < 0 then "-" + ShowNat(-n) else ShowNat(n)
  }

  /** Whether a literal starts with a minus sign, and the text after its sign, if any. */
  function SplitSign(t: string): (bool, string)
  {
    if |t| >= 1 && IsSign(t[0]) then (t[0] == '-', t[1..]) else (false, t)
  }

  /** `n`, negated when the literal carried a minus sign. */
  function Signed(negative: bool, n: int): int
  {
    if negative then -n else n
  }

  /** `x`, negated when the literal carried a minus sign. */
  function SignedReal(negative: bool, x: real): real
  {
    if negative then -x else x
  }

  /** An integer literal with no surrounding whitespace: an optional sign and one or more digits. */
  function ParseIntLiteral(t: string): (r: Option<int>)
    ensures r.Some? <==> (|t| >= 1 && (IsDigit(t[0]) || IsSign(t[0])) && |SplitSign(t).1| >= 1
                          && forall i :: 1 <= i < |t| ==> IsDigit(t[i]))
  {
    var (negative, ds) := SplitSign(t);
    assert |t| >= 1 && !IsSign(t[0]) ==> ds == t;
    assert |t| >= 1 && IsSign(t[0]) ==> forall i :: 1 <= i < |t| ==> t[i] == ds[i - 1];
    if ds != [] && AllDigits(ds) then Some(Signed(negative, DigitsValue(ds))) else None
  }

  /** Python's `int(s)`: surrounding whitespace is dropped, then the rest must be an integer literal. */
  function ParseInt(s: string): Option<int>
  {
    ParseIntLiteral(NumberStrip(s))
  }

  /**
   * The whitespace `int()` and `float()` drop around a literal: what
   * `str.isspace()` accepts, except the file, group, record and unit
   * separators U+001C..U+001F, which `str.strip()` drops but the numeric
   * conversions keep (and then reject).
   */
  predicate NumberSpace(c: char)
  {
    Text.IsSpace(c) && !IsSeparator(c)
  }

  /** The four information separators U+001C..U+001F. */
  predicate IsSeparator(c: char)
  {
    '\U{001C}' <= c <= '\U{001F}'
  }

  /** The number of `NumberSpace` characters `s` starts with. */
  function LeadingNumberSpaces(s: string): (n: nat)
    ensures n <= |s|
    ensures forall i :: 0 <= i < n ==> NumberSpace(s[i])
    ensures n < |s| ==> !NumberSpace(s[n])
  {
    if |s| > 0 && NumberSpace(s[0]) then 1 + LeadingNumberSpaces(s[1..]) else 0
  }

  /** The number of `NumberSpace` characters `s` ends with. */
  function TrailingNumberSpaces(s: string): (n: nat)
    ensures n <= |s|
    ensures forall i :: |s| - n <= i < |s| ==> NumberSpace(s[i])
    ensures n < |s| ==> !NumberSpace(s[|s| - n - 1])
  {
    if |s| > 0 && NumberSpace(s[|s| - 1]) then 1 + TrailingNumberSpaces(s[..|s| - 1]) else 0
  }

  /** Where the text `int()` and `float()` go on to read starts and ends within `s`. */
  function NumberBounds(s: string): (b: (nat, nat))
    ensures b.0 <= b.1 <= |s|
    ensures forall i :: 0 <= i < b.0 ==> NumberSpace(s[i])
    ensures forall i :: b.1 <= i < |s| ==> NumberSpace(s[i])
    ensures b.0 < b.1 ==> !NumberSpace(s[b.0]) && !NumberSpace(s[b.1 - 1])
  {
    var lo := LeadingNumberSpaces(s);
    if lo == |s| then (lo, lo) else (lo, |s| - TrailingNumberSpaces(s))
  }

  /** The text `int()` and `float()` go on to read: `s` without surrounding `NumberSpace` characters. */
  function NumberStrip(s: string): string
  {
    s[NumberBounds(s).0..NumberBounds(s).1]
  }

  /** Where no separator occurs, `int()` and `float()` drop exactly the whitespace `strip()` drops. */
  lemma NumberStripIsStrip(s: string)
    requires forall i :: 0 <= i < |s| ==> !IsSeparator(s[i])
    ensures NumberStrip(s) == Text.Strip(s)
  {
    var b := NumberBounds(s);
    BoundsStripAt(s, b.0, b.1);
    Text.StripUnique(s, NumberStrip(s), Text.Strip(s));
  }

  /** Without separators, cutting at number-whitespace bounds cuts as `strip()` does. */
  lemma BoundsStripAt(s: string, lo: nat, hi: nat)
    requires forall i :: 0 <= i < |s| ==> !IsSeparator(s[i])
    requires lo <= hi <= |s|
    requires forall i :: 0 <= i < lo ==> NumberSpace(s[i])
    requires forall i :: hi <= i < |s| ==> NumberSpace(s[i])
    requires lo < hi ==> !NumberSpace(s[lo]) && !NumberSpace(s[hi - 1])
    ensures Text.StripsAt(s, s[lo..hi], lo, hi)
  {
    var r := s[lo..hi];
    if r != [] {
      assert r[0] == s[lo] && r[|r| - 1] == s[hi - 1];
    }
  }

  /**
   * A separator anywhere in the text makes `int()` and `float()` fail, even
   * at either end, where `strip()` would have dropped it.
   */
  lemma SeparatorRejected(s: string, k: nat)
    requires k < |s| && IsSeparator(s[k])
    ensures Text.IsSpace(s[k])
    ensures ParseInt(s) == None && ParseReal(s) == None
  {
    var t := NumberStrip(s);
    var (lo, hi) := NumberBounds(s);
    assert lo <= k < hi;
    assert t[k - lo] == s[k];
    assert !IsDigit(t[k - lo]) && !IsSign(t[k - lo]) && t[k - lo] != '.';
  }

  /** The value of a decimal numeral with whole part `w` and fractional digits `f`. */
  function DecimalValue(w: string, f: string): real
    requires AllDigits(w) && AllDigits(f)
  {
    DigitsValue(w) as real + DigitsValue(f) as real / Pow10(|f|) as real
  }

  /**
   * A decimal literal with no surrounding whitespace: an optional sign, then
   * digits with at most one decimal point and at least one digit. `"5."` and
   * `".5"` are accepted, as in Python.
   */
  function ParseRealLiteral(t: string): (r: Option<real>)
    ensures r.Some? ==> |t| >= 1 && Text.Count(t, '.') <= 1
                        && forall i :: 0 <= i < |t| ==> IsDigit(t[i]) || t[i] == '.' || (i == 0 && IsSign(t[i]))
    ensures r.Some? ==> exists i :: 0 <= i < |t| && IsDigit(t[i])
  {
    var (negative, body) := SplitSign(t);
    var pieces := Text.SplitOn(body, '.');
    if |pieces| == 1 && pieces[0] != [] && AllDigits(pieces[0]) then
      NumeralShape(t, negative, body, pieces);
      Some(SignedReal(negative, DigitsValue(pieces[0]) as real))
    else if |pieces| == 2 && |pieces[0]| + |pieces[1]| >= 1 && AllDigits(pieces[0]) && AllDigits(pieces[1]) then
      NumeralShape(t, negative, body, pieces);
      Some(SignedReal(negative, DecimalValue(pieces[0], pieces[1])))
    else
      None
  }

  /** Python's `float(s)` on plain decimal notation: surrounding whitespace is dropped, then the rest must be a decimal literal. */
  function ParseReal(s: string): Option<real>
  {
    ParseRealLiteral(NumberStrip(s))
  }

  /** A body made of digit pieces joined by '.' has only digits and points, after at most one leading sign. */
  lemma {:induction false} NumeralShape(t: string, negative: bool, body: string, pieces: seq<string>)
    requires (negative, body) == SplitSign(t)
    requires pieces == Text.SplitOn(body, '.')
    requires 1 <= |pieces| <= 2 && |pieces[0]| + |pieces[|pieces| - 1]| >= 1
    requires forall k :: 0 <= k < |pieces| ==> AllDigits(pieces[k])
    ensures |t| >= 1 && Text.Count(t, '.') <= 1
    ensures forall i :: 0 <= i < |t| ==> IsDigit(t[i]) || t[i] == '.' || (i == 0 && IsSign(t[i]))
  {
    assert |pieces| == 2 ==> body == pieces[0] + ['.'] + pieces[1] by {
      if |pieces| == 2 {
        assert pieces[1..] == [pieces[1]];
        assert Text.Join(pieces, '.') == pieces[0] + ['.'] + Text.Join(pieces[1..], '.');
      }
    }
    assert forall i :: 0 <= i < |body| ==> IsDigit(body[i]) || body[i] == '.' by {
      if |pieces| == 1 {
        assert body == pieces[0];
      } else {
        forall i | 0 <= i < |body| ensures IsDigit(body[i]) || body[i] == '.' {
          if i < |pieces[0]| {
            assert body[i] == pieces[0][i];
          } else if i > |pieces[0]| {
            assert body[i] == pieces[1][i - |pieces[0]| - 1];
          }
        }
      }
    }
    assert |body| >= 1 by {
      if |pieces| == 1 { assert body == pieces[0]; } else { assert body == pieces[0] + ['.'] + pieces[1]; }
    }
    if |t| >= 1 && IsSign(t[0]) {
      assert t == [t[0]] + body;
      assert t[0] != '.';
      assert Text.Count(t, '.') == Text.Count(body, '.');
      forall i | 0 < i < |t| ensures IsDigit(t[i]) || t[i] == '.' {
        assert t[i] == body[i - 1];
      }
    } else {
      assert t == body;
    }
  }

  /** `int()` reads back what `str()` writes, for every integer. */
  lemma {:induction false} ParseIntShowInt(n: int)
    ensures ParseInt(ShowInt(n)) == Some(n)
  {
    var s := ShowInt(n);
    var digits := ShowNat(if n < 0 then -n else n);
    assert NumberStrip(s) == s by {
      NumeralIsStripped(s);
    }
    if n < 0 {
      assert s == "-" + digits;
      assert SplitSign(s) == (true, digits);
    } else {
      assert s == digits;
      assert !IsSign(s[0]);
    }
  }

  /** A rendered integer is a single `split()` token. */
  lemma ShowIntIsWord(n: int)
    ensures Text.IsWord(ShowInt(n))
  {
    var s := ShowInt(n);
    var digits := ShowNat(if n < 0 then -n else n);
    forall i | 0 <= i < |s| ensures !Text.IsSpace(s[i]) {
      if n < 0 && i >= 1 {
        assert s[i] == digits[i - 1];
      }
    }
  }

  /** A numeral with no surrounding whitespace is left unchanged by `strip()`. */
  lemma {:induction false} NumeralIsStripped(s: string)
    requires |s| >= 1
    requires forall i :: 0 <= i < |s| ==> IsDigit(s[i]) || s[i] == '.' || IsSign(s[i])
    ensures NumberStrip(s) == s
  {
    assert !NumberSpace(s[0]) && !NumberSpace(s[|s| - 1]);
  }

  /** `float()` accepts every literal `int()` accepts, with the same value. */
  lemma {:induction false} ParseRealOfInt(s: string, n: int)
    requires ParseInt(s) == Some(n)
    ensures ParseReal(s) == Some(n as real)
  {
    var t := NumberStrip(s);
    IntLiteralIsRealLiteral(t, n);
  }

  /** On stripped text: a literal `int()` accepts is one `float()` accepts, with the same value. */
  lemma {:induction false} IntLiteralIsRealLiteral(t: string, n: int)
    requires ParseIntLiteral(t) == Some(n)
    ensures ParseRealLiteral(t) == Some(n as real)
  {
    var negative, ds := SplitSign(t).0, SplitSign(t).1;
    assert ds != [] && AllDigits(ds) && n == Signed(negative, DigitsValue(ds));
    assert Text.SplitOn(ds, '.') == [ds] by {
      assert '.' !in ds;
      Text.SplitNoSeparator(ds, '.');
    }
    assert n as real == SignedReal(negative, DigitsValue(ds) as real);
  }

  /** A decimal literal without sign, `whole.f`, denotes the value of its digits. */
  lemma {:induction false} DecimalLiteral(whole: string, f: string)
    requires |whole| >= 1 && AllDigits(whole) && AllDigits(f)
    ensures ParseRealLiteral(whole + "." + f) == Some(DecimalValue(whole, f))
  {
    var s := whole + "." + f;
    assert SplitSign(s) == (false, s) by {
      assert s[0] == whole[0];
    }
    assert Text.SplitOn(s, '.') == [whole, f] by {
      assert '.' !in whole && '.' !in f;
      Text.SplitJoin([whole, f], '.');
      assert Text.Join([whole, f], '.') == s;
    }
  }

  /**
   * `float()` on an optional sign, whole digits, a decimal point and
   * fractional digits, either digit run possibly empty but not both (`-0.05`,
   * `+.5`, `5.`): the value those digits denote, negated after a minus sign.
   */
  lemma {:induction false} ParseRealSignedDecimal(sign: string, whole: string, f: string)
    requires |sign| <= 1 && (forall i :: 0 <= i < |sign| ==> IsSign(sign[i]))
    requires AllDigits(whole) && AllDigits(f) && |whole| + |f| >= 1
    ensures ParseReal(sign + whole + "." + f) == Some(SignedReal(sign != [] && sign[0] == '-', DecimalValue(whole, f)))
  {
    var s := sign + whole + "." + f;
    assert NumberStrip(s) == s by {
      SignedDecimalStripped(sign, whole, f);
    }
    SignedDecimalLiteral(sign, whole, f);
  }

  /** A signed decimal literal neither starts nor ends with whitespace. */
  lemma SignedDecimalStripped(sign: string, whole: string, f: string)
    requires |sign| <= 1 && (forall i :: 0 <= i < |sign| ==> IsSign(sign[i]))
    requires AllDigits(whole) && AllDigits(f)
    ensures NumberStrip(sign + whole + "." + f) == sign + whole + "." + f
  {
    var s := sign + whole + "." + f;
    var first, last := s[0], s[|s| - 1];
    assert last == if f != [] then f[|f| - 1] else '.';
    assert first == if sign != [] then sign[0] else if whole != [] then whole[0] else '.';
    NumeralCharKept(first);
    NumeralCharKept(last);
    EndsStripped(s);
  }

  /** On stripped text, a signed decimal literal reads as its digits' value, negated after a minus sign. */
  lemma SignedDecimalLiteral(sign: string, whole: string, f: string)
    requires |sign| <= 1 && (forall i :: 0 <= i < |sign| ==> IsSign(sign[i]))
    requires AllDigits(whole) && AllDigits(f) && |whole| + |f| >= 1
    ensures ParseRealLiteral(sign + whole + "." + f) == Some(SignedReal(sign != [] && sign[0] == '-', DecimalValue(whole, f)))
  {
    var negative := sign != [] && sign[0] == '-';
    var body := whole + "." + f;
    var s := sign + body;
    assert s == sign + whole + "." + f;
    assert SplitSign(s) == (negative, body) by {
      if sign != [] {
        assert s[0] == sign[0] && s[1..] == body;
      } else {
        assert s == body;
        assert body[0] == if whole != [] then whole[0] else '.';
      }
    }
    assert Text.SplitOn(body, '.') == [whole, f] by {
      assert '.' !in whole && '.' !in f;
      Text.SplitJoin([whole, f], '.');
      assert Text.Join([whole, f], '.') == body;
    }
  }

  /** Digits, signs and the decimal point are never whitespace. */
  lemma NumeralCharKept(c: char)
    requires IsDigit(c) || c == '.' || IsSign(c)
    ensures !NumberSpace(c)
  {
  }

  /** Text that neither starts nor ends with `NumberSpace` is read as it stands. */
  lemma EndsStripped(s: string)
    requires s != [] && !NumberSpace(s[0]) && !NumberSpace(s[|s| - 1])
    ensures NumberStrip(s) == s
  {
  }

  /**
   * `int()` on an optional sign followed by digits (`+5`, `-05`, `007`): the
   * number the digits denote, negated after a minus sign.
   */
  lemma {:induction false} ParseIntSigned(sign: string, ds: string)
    requires |sign| <= 1 && (forall i :: 0 <= i < |sign| ==> IsSign(sign[i]))
    requires |ds| >= 1 && AllDigits(ds)
    ensures ParseInt(sign + ds) == Some(Signed(sign != [] && sign[0] == '-', DigitsValue(ds)))
  {
    SignedIntStripped(sign, ds);
    SignedIntLiteral(sign, ds);
  }

  /** A signed integer literal neither starts nor ends with whitespace. */
  lemma SignedIntStripped(sign: string, ds: string)
    requires |sign| <= 1 && (forall i :: 0 <= i < |sign| ==> IsSign(sign[i]))
    requires |ds| >= 1 && AllDigits(ds)
    ensures NumberStrip(sign + ds) == sign + ds
  {
    var s := sign + ds;
    var first, last := s[0], s[|s| - 1];
    assert first == if sign != [] then sign[0] else ds[0];
    assert last == ds[|ds| - 1];
    NumeralCharKept(first);
    NumeralCharKept(last);
    EndsStripped(s);
  }

  /** On stripped text, a signed integer literal reads as its digits' value, negated after a minus sign. */
  lemma SignedIntLiteral(sign: string, ds: string)
    requires |sign| <= 1 && (forall i :: 0 <= i < |sign| ==> IsSign(sign[i]))
    requires |ds| >= 1 && AllDigits(ds)
    ensures ParseIntLiteral(sign + ds) == Some(Signed(sign != [] && sign[0] == '-', DigitsValue(ds)))
  {
    var s := sign + ds;
    assert SplitSign(s) == (sign != [] && sign[0] == '-', ds) by {
      if sign != [] {
        assert s[0] == sign[0] && s[1..] == ds;
      } else {
        assert s == ds;
        assert !IsSign(ds[0]);
      }
    }
  }

  /** Two digits after "0." as a fraction, the way the data file writes a result. */
  predicate IsHundredths(s: string)
  {
    |s| == 4 && s[0] == '0' && s[1] == '.' && IsDigit(s[2]) && IsDigit(s[3])
  }

  /** The value of a two-decimal fraction "0.de": `d/10 + e/100`. */
  function HundredthsValue(s: string): real
    requires IsHundredths(s)
  {
    DigitValue(s[2]) as real / 10.0 + DigitValue(s[3]) as real / 100.0
  }

  /** `float()` reads a two-decimal fraction "0.de" as `d/10 + e/100`. */
  lemma ParseRealTwoDecimals(s: string)
    requires IsHundredths(s)
    ensures ParseReal(s) == Some(HundredthsValue(s))
  {
    var whole, f := s[..1], s[2..];
    assert f == [s[2], s[3]] && AllDigits(f);
    assert AllDigits(whole) && DigitsValue(whole) == 0 by {
      assert whole[..0] == [];
    }
    DecimalLiteral(whole, f);
    assert DecimalValue(whole, f) == HundredthsValue(s) by {
      TwoDigitsValue(s[2], s[3]);
      assert Pow10(|f|) == 100;
      HundredthsSplit(DigitValue(s[2]), DigitValue(s[3]));
    }
    assert s == whole + "." + f;
    assert ParseReal(s) == ParseRealLiteral(s) by {
      NumeralIsStripped(s);
    }
  }

  /** Two digits denote ten times the first plus the second. */
  lemma TwoDigitsValue(d: char, e: char)
    requires IsDigit(d) && IsDigit(e)
    ensures DigitsValue([d, e]) == 10 * DigitValue(d) + DigitValue(e)
  {
    var f := [d, e];
    var g := [d];
    assert f[..1] == g;
    assert g[..0] == [];
    assert DigitsValue(g) == DigitValue(d);
    assert DigitsValue(f) == DigitsValue(g) * 10 + DigitValue(f[1]);
  }

  /** Hundredths split into tenths and hundredths. */
  lemma HundredthsSplit(d: nat, e: nat)
    ensures (10 * d + e) as real / 100.0 == d as real / 10.0 + e as real / 100.0
  {
  }
}
