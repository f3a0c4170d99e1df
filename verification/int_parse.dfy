/** A model of `int.TryParse(string, out int)` under its default number
    style (leading and trailing white space, an optional leading sign,
    decimal digits) with the invariant culture's `-` and `+` signs, and of
    `int.ToString()` for the 32-bit values it produces. */
module IntParse {
  import opened Wrappers

  const Int32Min: int := -0x8000_0000
  const Int32Max: int := 0x7FFF_FFFF

  predicate InInt32Range(n: int)
  {
    Int32Min <= n <= Int32Max
  }

  /** The white space .NET number parsing skips: U+0009 to U+000D and U+0020. */
  predicate IsWhite(ch: char)
  {
    ch == ' ' || '\t' <= ch <= '\r'
  }

  predicate IsDigit(ch: char)
  {
    '0' <= ch <= '9'
  }

  function DigitValue(ch: char): nat
    requires IsDigit(ch)
  {
    (ch - '0') as nat
  }

  function DigitChar(d: nat): (ch: char)
    requires d < 10
    ensures IsDigit(ch) && DigitValue(ch) == d
  {
    ('0' as int + d) as char
  }

  predicate AllDigits(s: string)
  {
    forall i :: 0 <= i < |s| ==> IsDigit(s[i])
  }

  /** Value of a decimal numeral, most significant digit first. */
  function DigitsValue(s: string): nat
    requires AllDigits(s)
  {
    if |s| == 0 then 0 else DigitsValue(s[..|s| - 1]) * 10 + DigitValue(s[|s| - 1])
  }

  function TrimStart(s: string): (t: string)
    ensures |t| <= |s| && t == s[|s| - |t|..]
    ensures |t| > 0 ==> !IsWhite(t[0])
    ensures forall i :: 0 <= i < |s| - |t| ==> IsWhite(s[i])
  {
    if |s| > 0 && IsWhite(s[0]) then TrimStart(s[1..]) else s
  }

  function TrimEnd(s: string): (t: string)
    ensures |t| <= |s| && t == s[..|t|]
    ensures |t| > 0 ==> !IsWhite(t[|t| - 1])
    ensures forall i :: |t| <= i < |s| ==> IsWhite(s[i])
  {
    if |s| > 0 && IsWhite(s[|s| - 1]) then TrimEnd(s[..|s| - 1]) else s
  }

  /** `s` without its leading and trailing white space. */
  function Trim(s: string): string
  {
    TrimEnd(TrimStart(s))
  }

  /** Parses an optionally signed numeral without surrounding white space. */
  function ParseSigned(t: string): Option<int>
  {
    if |t| == 0 then None
    else
      var digits := if t[0] == '-' || t[0] == '+' then t[1..] else t;
      if |digits| == 0 || !AllDigits(digits) then None
      else Signed(t[0] == '-', DigitsValue(digits))
  }

  /** The numeral's value with its sign, when it fits in 32 bits. */
  function Signed(negative: bool, magnitude: nat): Option<int>
  {
    var n: int := if negative then 0 - magnitude else magnitude;
    if InInt32Range(n) then Some(n) else None
  }

  /** `int.TryParse`: `None` when the text is not a numeral or overflows 32 bits. */
  function ParseInt(s: string): (r: Option<int>)
    ensures r.Some? ==> InInt32Range(r.value)
  {
    ParseSigned(Trim(s))
  }

  /** Decimal numeral of a natural number, no leading zeros. */
  function NatToString(n: nat): (s: string)
    ensures |s| > 0 && AllDigits(s)
    ensures s[0] == '0' ==> n == 0
  {
    if n < 10 then [DigitChar(n)] else NatToString(n / 10) + [DigitChar(n % 10)]
  }

  /** `int.ToString()`: a `-` sign for negative values, then the digits. */
  function IntToString(n: int): (s: string)
    ensures |s| > 0 && !IsWhite(s[0]) && !IsWhite(s[|s| - 1])
    ensures n >= 0 ==> AllDigits(s)
    ensures n < 0 ==> s[0] == '-' && AllDigits(s[1..])
    ensures n >= 0 ==> (s[0] == '0' ==> n == 0)
    ensures n < 0 ==> |s| >= 2 && s[1] != '0'
  {
    if n < 0 then "-" + NatToString(-n) else NatToString(n)
  }

  lemma {:induction false} NatToStringValue(n: nat)
    ensures DigitsValue(NatToString(n)) == n
  {
    if n >= 10 {
      var s := NatToString(n);
      NatToStringValue(n / 10);
      assert s[..|s| - 1] == NatToString(n / 10);
    }
  }

  lemma TrimOfUnpadded(s: string)
    requires |s| > 0 && !IsWhite(s[0]) && !IsWhite(s[|s| - 1])
    ensures Trim(s) == s
  {
  }

  /** Every 32-bit integer's text parses back to the same integer. */
  lemma {:induction false} ParseIntToString(n: int)
    requires InInt32Range(n)
    ensures ParseInt(IntToString(n)) == Some(n)
  {
    var s := IntToString(n);
    TrimOfUnpadded(s);
    if n < 0 {
      NatToStringValue(-n);
      assert s[1..] == NatToString(-n);
    } else {
      NatToStringValue(n);
    }
  }

  /** Text of the shape `int.TryParse` accepts once the white space around
      it is gone: an optional sign followed by at least one digit. */
  predicate IsNumeral(t: string)
  {
    && |t| > 0
    && var digits := if t[0] == '-' || t[0] == '+' then t[1..] else t;
       |digits| > 0 && AllDigits(digits)
  }

  /** Only white-space-padded numerals parse: anything else, the empty
      token included, is a parse failure. */
  lemma ParseIntOnlyNumerals(s: string)
    requires ParseInt(s).Some?
    ensures IsNumeral(Trim(s))
  {
  }

  /** Blank text, the empty string included, does not parse. */
  lemma BlankDoesNotParse(s: string)
    requires AllWhite(s)
    ensures ParseInt(s) == None
  {
    assert s + "" == s;
    TrimStartSkipsWhite(s, "");
  }

  /** A character other than white space, a sign or a digit makes the parse
      fail: in particular `.`, `,` and an exponent `e` are rejected. (.NET
      also skips trailing NUL characters, which this model does not.) */
  lemma ParseIntRejectsForeign(s: string, i: nat)
    requires i < |s|
    requires !IsWhite(s[i]) && !IsDigit(s[i]) && s[i] != '-' && s[i] != '+'
    ensures ParseInt(s) == None
  {
    var a := TrimStart(s);
    var t := TrimEnd(a);
    // s[i] is not white, so it survives both trims.
    var j := i - (|s| - |a|);
    assert 0 <= j < |t|;
    assert t[j] == s[i];
    var digits := if t[0] == '-' || t[0] == '+' then t[1..] else t;
    if j == 0 {
      assert digits[0] == s[i];
    } else {
      assert digits[j - (|t| - |digits|)] == s[i];
    }
  }

  predicate AllWhite(w: string)
  {
    forall i :: 0 <= i < |w| ==> IsWhite(w[i])
  }

  /** Surrounding white space of any length does not change the parse. */
  lemma ParseIntIgnoresPadding(before: string, s: string, after: string)
    requires AllWhite(before) && AllWhite(after)
    ensures ParseInt(before + s + after) == ParseInt(s)
  {
    assert before + s + after == before + (s + after);
    TrimStartSkipsWhite(before, s + after);
    assert TrimStart(before + s + after) == TrimStart(s + after);
    assert Trim(before + s + after) == Trim(s + after);
    TrimAfterWhiteSuffix(s, after);
    assert Trim(before + s + after) == Trim(s);
  }

  /** A numeral of decimal digits, bare or after `+` or `-`, parses to its
      signed value exactly when that value fits in 32 bits; leading zeros
      are allowed, and a value out of range is a parse failure. */
  lemma ParseNumeral(d: string)
    requires |d| > 0 && AllDigits(d)
    ensures var v: int := DigitsValue(d);
      && ParseInt(d) == (if InInt32Range(v) then Some(v) else None)
      && ParseInt("+" + d) == (if InInt32Range(v) then Some(v) else None)
      && ParseInt("-" + d) == (if InInt32Range(-v) then Some(-v) else None)
  {
    ParseUnpadded(d);
    assert !(d[0] == '-' || d[0] == '+');
    ParseSignedNumeral('+', d);
    ParseSignedNumeral('-', d);
  }

  /** A `+` sign is accepted. */
  lemma PlusZeroParses()
    ensures ParseInt("+0") == Some(0)
  {
    var d := "0";
    assert AllDigits(d);
    assert DigitsValue(d) == 0;
    ParseSignedNumeral('+', d);
    assert ['+'] + d == "+0";
  }

  /** A leading zero does not change a numeral's value. */
  lemma {:induction false} LeadingZeroValue(d: string)
    requires AllDigits(d)
    ensures AllDigits("0" + d) && DigitsValue("0" + d) == DigitsValue(d)
    decreases |d|
  {
    var z := "0" + d;
    if |d| > 0 {
      assert z[..|z| - 1] == "0" + d[..|d| - 1];
      LeadingZeroValue(d[..|d| - 1]);
    }
  }

  /** Leading zeros are accepted and do not change the parse. */
  lemma ParseIntLeadingZero(d: string)
    requires |d| > 0 && AllDigits(d)
    ensures ParseInt("0" + d) == ParseInt(d)
  {
    LeadingZeroValue(d);
    ParseNumeral("0" + d);
    ParseNumeral(d);
  }

  /** The text of an integer outside the 32-bit range does not parse:
      with `ParseIntToString`, an integer's text parses exactly when the
      integer fits in 32 bits. */
  lemma ParseIntToStringOutOfRange(n: int)
    requires !InInt32Range(n)
    ensures ParseInt(IntToString(n)) == None
  {
    var s := IntToString(n);
    ParseUnpadded(s);
    if n < 0 {
      var d := NatToString(-n);
      assert s == ['-'] + d;
      ParseSignedDigits('-', d);
      NatToStringValue(-n);
    } else {
      var d := NatToString(n);
      ParseBareDigits(d);
      NatToStringValue(n);
    }
  }

  lemma ParseSignedNumeral(sign: char, d: string)
    requires sign == '+' || sign == '-'
    requires |d| > 0 && AllDigits(d)
    ensures var v: int := if sign == '-' then 0 - DigitsValue(d) as int else DigitsValue(d);
      ParseInt([sign] + d) == (if InInt32Range(v) then Some(v) else None)
  {
    var t := [sign] + d;
    assert t[|t| - 1] == d[|d| - 1];
    ParseUnpadded(t);
    ParseSignedDigits(sign, d);
  }

  lemma ParseBareDigits(d: string)
    requires |d| > 0 && AllDigits(d)
    ensures ParseSigned(d) == Signed(false, DigitsValue(d))
  {
    assert !(d[0] == '-' || d[0] == '+');
  }

  lemma ParseSignedDigits(sign: char, d: string)
    requires sign == '+' || sign == '-'
    requires |d| > 0 && AllDigits(d)
    ensures ParseSigned([sign] + d) == Signed(sign == '-', DigitsValue(d))
  {
    var t := [sign] + d;
    assert t[0] == sign && t[1..] == d;
  }

  lemma ParseUnpadded(t: string)
    requires |t| > 0 && !IsWhite(t[0]) && !IsWhite(t[|t| - 1])
    ensures ParseInt(t) == ParseSigned(t)
  {
    TrimOfUnpadded(t);
  }

  lemma {:induction false} TrimStartSkipsWhite(w: string, s: string)
    requires AllWhite(w)
    ensures TrimStart(w + s) == TrimStart(s)
    decreases |w|
  {
    if |w| > 0 {
      assert (w + s)[1..] == w[1..] + s;
      TrimStartSkipsWhite(w[1..], s);
    } else {
      assert w + s == s;
    }
  }

  lemma {:induction false} TrimEndSkipsWhite(s: string, w: string)
    requires AllWhite(w)
    ensures TrimEnd(s + w) == TrimEnd(s)
    decreases |w|
  {
    if |w| > 0 {
      var u := s + w;
      assert u[..|u| - 1] == s + w[..|w| - 1];
      TrimEndSkipsWhite(s, w[..|w| - 1]);
    } else {
      assert s + w == s;
    }
  }

  lemma {:induction false} TrimAfterWhiteSuffix(s: string, w: string)
    requires AllWhite(w)
    ensures Trim(s + w) == Trim(s)
    decreases |s|
  {
    if |s| == 0 {
      assert s + w == w + "";
      TrimStartSkipsWhite(w, "");
    } else if IsWhite(s[0]) {
      assert (s + w)[1..] == s[1..] + w;
      TrimAfterWhiteSuffix(s[1..], w);
    } else {
      TrimEndSkipsWhite(s, w);
    }
  }
}
