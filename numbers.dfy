/** The cell-to-number conversions of the sheet normaliser
    (scripts/fetch_sheet.js): `parseNum`, which strips currency symbols,
    whitespace, thousands separators and any other character outside
    `[0-9.-]` and then reads the longest decimal prefix the way `parseFloat`
    does, and the `parseInt(monthDay) || 0` coercion of the day number. */
module Numbers {
  import opened Collections
  import opened Records

  // ---------------------------------------------------------------------------
  // Character classes of the four `replace` calls
  // ---------------------------------------------------------------------------

  /** `[$R]` */
  predicate IsCurrencySymbol(c: char) { c == '$' || c == 'R' }

  /** `\s`: JavaScript's white space and line terminators. */
  predicate IsSpace(c: char)
  {
    c == ' ' || c == '\t' || c == '\n' || c == '\r' || c == '\U{000B}' || c == '\U{000C}' ||
    c == '\U{00A0}' || c == '\U{1680}' || ('\U{2000}' <= c <= '\U{200A}') ||
    c == '\U{2028}' || c == '\U{2029}' || c == '\U{202F}' || c == '\U{205F}' ||
    c == '\U{3000}' || c == '\U{FEFF}'
  }

  /** `[\d.-]`: the characters the last `replace` keeps. */
  predicate IsNumericChar(c: char) { IsDigit(c) || c == '.' || c == '-' }

  function NotCurrencySymbol(): char -> bool { (c: char) => !IsCurrencySymbol(c) }
  function NotSpace(): char -> bool { (c: char) => !IsSpace(c) }
  function NotComma(): char -> bool { (c: char) => c != ',' }
  function Numeric(): char -> bool { (c: char) => IsNumericChar(c) }

  /** The chain of `replace(/…/g, '')` calls in `parseNum`, in source order. */
  function Clean(s: string): (r: string)
    ensures forall i :: 0 <= i < |r| ==> IsNumericChar(r[i])
  {
    var r := Where(Where(Where(Where(s, NotCurrencySymbol()), NotSpace()), NotComma()), Numeric());
    assert forall i :: 0 <= i < |r| ==> r[i] in r;
    r
  }

  /** The first three replacements are subsumed by the last: the cleaned text
      is exactly the input's characters from `[0-9.-]`, in order. */
  lemma CleanKeepsNumeric(s: string)
    ensures Clean(s) == Where(s, Numeric())
  {
    var s1 := Where(s, NotCurrencySymbol());
    var s2 := Where(s1, NotSpace());
    forall c: char ensures IsNumericChar(c) ==> !IsCurrencySymbol(c) && !IsSpace(c) && c != ',' {
      NumericIsPlain(c);
    }
    WhereWhere(s2, NotComma(), Numeric(), Numeric());
    WhereWhere(s1, NotSpace(), Numeric(), Numeric());
    WhereWhere(s, NotCurrencySymbol(), Numeric(), Numeric());
  }

  /** A digit, dot or minus sign is neither a currency symbol, white space nor
      a comma. */
  lemma NumericIsPlain(c: char)
    ensures IsNumericChar(c) ==> !IsCurrencySymbol(c) && !IsSpace(c) && c != ','
  {
  }

  // ---------------------------------------------------------------------------
  // Decimal digits
  // ---------------------------------------------------------------------------

  predicate AllDigits(s: string)
  {
    forall i :: 0 <= i < |s| ==> IsDigit(s[i])
  }

  /** Length of the longest run of digits at the start of `s`. */
  function DigitRun(s: string): (n: nat)
    ensures n <= |s|
    ensures AllDigits(s[..n])
    ensures n < |s| ==> !IsDigit(s[n])
    decreases |s|
  {
    if s != [] && IsDigit(s[0]) then
      var n := 1 + DigitRun(s[1..]);
      assert forall i :: 1 <= i < n ==> s[..n][i] == s[1..][..n - 1][i - 1];
      n
    else 0
  }

  /** The value of the digits after the decimal point: `0.d1d2…` is
      `(d1 + 0.d2…) / 10`; it is always below one. */
  function FractionValue(digits: string): (r: real)
    requires AllDigits(digits)
    ensures 0.0 <= r < 1.0
    decreases |digits|
  {
    if digits == [] then 0.0
    else (DigitValue(digits[0]) as real + FractionValue(digits[1..])) / 10.0
  }

  function DigitChar(d: nat): (c: char)
    requires d < 10
    ensures IsDigit(c) && DigitValue(c) == d
  {
    ('0' as int + d) as char
  }

  /** The shortest decimal numeral of `n`, as `String(n)` writes it. */
  function NatString(n: nat): (s: string)
    ensures s != [] && AllDigits(s)
    ensures DigitsValue(s) == n
    decreases n
  {
    if n < 10 then [DigitChar(n)]
    else
      var s := NatString(n / 10) + [DigitChar(n % 10)];
      assert s[..|s| - 1] == NatString(n / 10);
      s
  }

  /** A string of digits is one run of digits. */
  lemma {:induction false} DigitRunAll(s: string, t: string)
    requires AllDigits(s)
    requires t == [] || !IsDigit(t[0])
    ensures DigitRun(s + t) == |s|
    decreases |s|
  {
    if s != [] {
      assert (s + t)[1..] == s[1..] + t;
      DigitRunAll(s[1..], t);
    }
  }

  // ---------------------------------------------------------------------------
  // parseFloat and parseNum
  // ---------------------------------------------------------------------------

  /** Digits with an optional fractional part: `123`, `123.`, `123.45`, `.45`;
      what follows the longest such prefix is ignored. `None` when the text
      does not start with a digit or with a dot and a digit. */
  function UnsignedPrefix(s: string): (r: Option<real>)
    ensures r.Some? ==> r.value >= 0.0
  {
    var a := DigitRun(s);
    UnsignedSplit(s[..a], s[a..])
  }

  /** The unsigned prefix once its integer digits `whole` are split off from
      the text `tail` after them. */
  function UnsignedSplit(whole: string, tail: string): (r: Option<real>)
    requires AllDigits(whole)
    ensures r.Some? ==> r.value >= 0.0
  {
    if tail != [] && tail[0] == '.' then
      var after := tail[1..];
      WithFraction(whole, after[..DigitRun(after)])
    else if whole == [] then None
    else Some(DigitsValue(whole) as real)
  }

  function WithFraction(whole: string, frac: string): (r: Option<real>)
    requires AllDigits(whole) && AllDigits(frac)
    ensures r.Some? ==> r.value >= 0.0
  {
    if whole == [] && frac == [] then None
    else Some(DigitsValue(whole) as real + FractionValue(frac))
  }

  /** `parseFloat` on the cleaned text, which holds only digits, `.` and `-`:
      an optional minus sign and an unsigned decimal prefix, `NaN` (None)
      when there is none. */
  function DecimalPrefix(s: string): (r: Option<real>)
    requires forall i :: 0 <= i < |s| ==> IsNumericChar(s[i])
  {
    if s != [] && s[0] == '-' then
      match UnsignedPrefix(s[1..])
      case Some(v) => Some(-v)
      case None => None
    else UnsignedPrefix(s)
  }

  /** `parseNum`: 0 for an empty cell, otherwise the decimal prefix of the
      cleaned text, and 0 when that is `NaN`. */
  function ParseNum(val: string): (r: real)
    ensures val == "" ==> r == 0.0
  {
    if val == "" then 0.0
    else
      var cleaned := Clean(val);
      match DecimalPrefix(cleaned)
      case Some(v) => v
      case None => 0.0
  }

  /** Only the characters `[0-9.-]` of a cell decide its value. */
  lemma ParseNumIgnoresOtherChars(val: string)
    ensures ParseNum(val) == ParseNum(Where(val, Numeric()))
  {
    var kept := Where(val, Numeric());
    CleanKeepsNumeric(val);
    CleanKeepsNumeric(kept);
    WhereWhere(val, Numeric(), Numeric(), Numeric());
  }

  /** On text already made of `[0-9.-]`, `parseNum` is `parseFloat` with
      `NaN` read as 0. */
  lemma ParseNumOfNumeric(s: string)
    requires s != []
    requires forall i :: 0 <= i < |s| ==> IsNumericChar(s[i])
    ensures ParseNum(s) == OrZero(DecimalPrefix(s))
  {
    CleanOfNumeric(s);
  }

  function OrZero(v: Option<real>): real
  {
    match v
    case Some(x) => x
    case None => 0.0
  }

  /** The unsigned prefix of a run of digits followed by text that does not
      go on with a digit or a dot. */
  lemma UnsignedOfDigits(whole: string, rest: string)
    requires whole != [] && AllDigits(whole)
    requires rest == [] || (!IsDigit(rest[0]) && rest[0] != '.')
    ensures UnsignedPrefix(whole + rest) == Some(DigitsValue(whole) as real)
  {
    UnsignedOfRun(whole, rest);
  }

  lemma UnsignedOfNumeral(n: nat, rest: string)
    requires rest == [] || (!IsDigit(rest[0]) && rest[0] != '.')
    ensures UnsignedPrefix(NatString(n) + rest) == Some(n as real)
  {
    UnsignedOfDigits(NatString(n), rest);
  }

  /** The unsigned prefix of `whole.frac` followed by text that does not go on
      with a digit. */
  lemma UnsignedOfParts(whole: string, frac: string, rest: string)
    requires whole != [] && AllDigits(whole) && AllDigits(frac)
    requires rest == [] || !IsDigit(rest[0])
    ensures UnsignedPrefix(whole + "." + frac + rest) ==
              Some(DigitsValue(whole) as real + FractionValue(frac))
  {
    AppendFour(whole, ".", frac, rest);
    UnsignedOfDotted(whole, frac, rest);
  }

  lemma AppendFour(a: string, b: string, c: string, d: string)
    ensures a + b + c + d == a + (b + c + d)
  {
  }

  lemma UnsignedOfDotted(whole: string, frac: string, rest: string)
    requires whole != [] && AllDigits(whole) && AllDigits(frac)
    requires rest == [] || !IsDigit(rest[0])
    ensures UnsignedPrefix(whole + ("." + frac + rest)) ==
              Some(DigitsValue(whole) as real + FractionValue(frac))
  {
    var tail := "." + frac + rest;
    assert tail[0] == '.';
    UnsignedOfRun(whole, tail);
    FractionOfRun(whole, tail, frac, rest);
  }

  lemma FractionOfRun(whole: string, tail: string, frac: string, rest: string)
    requires whole != [] && AllDigits(whole) && AllDigits(frac)
    requires rest == [] || !IsDigit(rest[0])
    requires tail == "." + frac + rest
    ensures UnsignedSplit(whole, tail) == Some(DigitsValue(whole) as real + FractionValue(frac))
  {
    assert tail[1..] == frac + rest;
    DigitRunAll(frac, rest);
    assert (frac + rest)[..|frac|] == frac;
    assert WithFraction(whole, frac) == Some(DigitsValue(whole) as real + FractionValue(frac));
  }

  /** The integer digits of the unsigned prefix are the leading run. */
  lemma UnsignedOfRun(whole: string, tail: string)
    requires AllDigits(whole)
    requires tail == [] || !IsDigit(tail[0])
    ensures UnsignedPrefix(whole + tail) == UnsignedSplit(whole, tail)
  {
    DigitRunAll(whole, tail);
    assert (whole + tail)[..|whole|] == whole && (whole + tail)[|whole|..] == tail;
  }

  /** A cell holding just a natural number's numeral reads as that number. */
  lemma ParseNumNat(n: nat)
    ensures ParseNum(NatString(n)) == n as real
  {
    var s := NatString(n);
    ParseNumOfNumeric(s);
    UnsignedOfNumeral(n, []);
    assert s + [] == s;
  }

  /** A minus sign in front negates the value. */
  lemma ParseNumNegative(n: nat)
    ensures ParseNum("-" + NatString(n)) == -(n as real)
  {
    var d := NatString(n);
    var s := "-" + d;
    ParseNumOfNumeric(s);
    assert s[1..] == d + [];
    UnsignedOfNumeral(n, []);
  }

  /** `whole.frac` reads as whole + frac / 10^|frac|, and whatever follows a
      second dot or a minus sign is ignored. */
  lemma ParseNumDecimal(whole: string, frac: string, rest: string)
    requires whole != [] && AllDigits(whole) && AllDigits(frac)
    requires rest == [] || rest[0] == '.' || rest[0] == '-'
    requires forall i :: 0 <= i < |rest| ==> IsNumericChar(rest[i])
    ensures ParseNum(whole + "." + frac + rest) == DigitsValue(whole) as real + FractionValue(frac)
  {
    var s := whole + "." + frac + rest;
    assert forall i :: 0 <= i < |s| ==> IsNumericChar(s[i]);
    ParseNumOfNumeric(s);
    UnsignedOfParts(whole, frac, rest);
  }

  /** Cleaning leaves text made of `[0-9.-]` alone. */
  lemma CleanOfNumeric(s: string)
    requires forall i :: 0 <= i < |s| ==> IsNumericChar(s[i])
    ensures Clean(s) == s
  {
    CleanKeepsNumeric(s);
    WhereAll(s, Numeric());
  }

  // ---------------------------------------------------------------------------
  // parseInt(monthDay) || 0
  // ---------------------------------------------------------------------------

  predicate IsHexDigit(c: char)
  {
    IsDigit(c) || 'a' <= c <= 'f' || 'A' <= c <= 'F'
  }

  function HexDigitValue(c: char): (v: nat)
    requires IsHexDigit(c)
    ensures v < 16
  {
    if IsDigit(c) then DigitValue(c)
    else if 'a' <= c <= 'f' then c as nat - 'a' as nat + 10
    else c as nat - 'A' as nat + 10
  }

  /** Length of the longest run of hexadecimal digits at the start of `s`. */
  function HexRun(s: string): (n: nat)
    ensures n <= |s|
    ensures forall i :: 0 <= i < n ==> IsHexDigit(s[i])
    ensures n < |s| ==> !IsHexDigit(s[n])
    decreases |s|
  {
    if s != [] && IsHexDigit(s[0]) then 1 + HexRun(s[1..]) else 0
  }

  /** The value of a string of hexadecimal digits, most significant first. */
  function HexValue(s: string): nat
    requires forall i :: 0 <= i < |s| ==> IsHexDigit(s[i])
  {
    if s == [] then 0 else 16 * HexValue(s[..|s| - 1]) + HexDigitValue(s[|s| - 1])
  }

  /** `parseInt` without a radix: an optional sign, then either `0x`/`0X`
      and the longest run of hexadecimal digits, or the longest run of decimal
      digits; `NaN` (None) when that run is empty. */
  function IntPrefix(s: string): (r: Option<int>)
  {
    var negative := s != [] && s[0] == '-';
    var rest := if s != [] && (s[0] == '-' || s[0] == '+') then s[1..] else s;
    var magnitude: Option<nat> :=
      if |rest| >= 2 && rest[0] == '0' && (rest[1] == 'x' || rest[1] == 'X') then
        var hex := rest[2..];
        var a := HexRun(hex);
        if a == 0 then None else Some(HexValue(hex[..a]))
      else
        var a := DigitRun(rest);
        if a == 0 then None else Some(DigitsValue(rest[..a]));
    match magnitude
    case None => None
    case Some(m) => Some(if negative then -(m as int) else m)
  }

  /** `parseInt(monthDay) || 0`: the integer prefix, 0 when there is none. */
  function MonthDay(s: string): (d: int)
    ensures (s == [] || (!IsDigit(s[0]) && s[0] != '-' && s[0] != '+')) ==> d == 0
  {
    match IntPrefix(s)
    case Some(v) => v
    case None => 0
  }

  /** A `0x` prefix makes `parseInt` read the rest in base 16. */
  lemma MonthDayOfHex()
    ensures MonthDay("0x1A") == 26
    ensures MonthDay("-0x") == 0
  {
    var hex := "1A";
    assert HexRun(hex) == 2;
    assert hex[..2] == hex;
    assert hex[..1] == "1";
    assert HexValue("1") == 1;
  }

  /** A day number followed by anything that is not a digit (`15`, `15.5`,
      `15th`), nor an `x` that would make a leading `0` a hexadecimal prefix,
      reads as that number. */
  lemma MonthDayOfNumeral(n: nat, rest: string)
    requires rest == [] || (!IsDigit(rest[0]) && rest[0] != 'x' && rest[0] != 'X')
    ensures MonthDay(NatString(n) + rest) == n
  {
    var d := NatString(n);
    DigitRunAll(d, rest);
    assert (d + rest)[..|d|] == d;
  }

  // ---------------------------------------------------------------------------
  // Worked examples
  // ---------------------------------------------------------------------------

  /** `"$1,234.56"` reads as 1234.56. */
  lemma ParseNumDollarAmount(s: string)
    requires s == "$1,234.56"
    ensures ParseNum(s) == 1234.56
  {
    ParseNumOfDollarAmount(s);
  }

  lemma ParseNumOfDollarAmount(s: string)
    requires IsDollarAmount(s)
    ensures ParseNum(s) == 1234.56
  {
    ParseNumIgnoresOtherChars(s);
    var whole, frac := DollarAmountParts(s);
    ParseNumDecimal(whole, frac, "");
  }

  lemma WhereSingle(c: char, p: char -> bool)
    ensures Where([c], p) == if p(c) then [c] else []
  {
    assert [c][..0] == [];
  }

  /** The characters of `$1,234.56`, one by one. */
  predicate IsDollarAmount(s: string)
  {
    |s| == 9 && s[0] == '$' && s[1] == '1' && s[2] == ',' && s[3] == '2' && s[4] == '3' &&
    s[5] == '4' && s[6] == '.' && s[7] == '5' && s[8] == '6'
  }

  lemma NumericOfDollarAmount(s: string)
    requires IsDollarAmount(s)
    ensures Where(s, Numeric()) == [s[1]] + s[3..]
  {
    var t := s[3..];
    assert s == [s[0]] + [s[1]] + [s[2]] + t;
    WhereSingle(s[0], Numeric());
    WhereSingle(s[1], Numeric());
    WhereSingle(s[2], Numeric());
    assert forall i :: 0 <= i < |t| ==> IsNumericChar(t[i]);
    WhereAll(t, Numeric());
    WhereAppend([s[0]], [s[1]], Numeric());
    WhereAppend([s[0]] + [s[1]], [s[2]], Numeric());
    WhereAppend([s[0]] + [s[1]] + [s[2]], t, Numeric());
  }

  /** The numeric part of `$1,234.56` splits into the digits 1234 and 56. */
  lemma DollarAmountParts(s: string) returns (whole: string, frac: string)
    requires IsDollarAmount(s)
    ensures Where(s, Numeric()) == whole + "." + frac + ""
    ensures whole != [] && AllDigits(whole) && AllDigits(frac)
    ensures DigitsValue(whole) == 1234 && FractionValue(frac) == 0.56
  {
    NumericOfDollarAmount(s);
    whole := [s[1]] + s[3..6];
    frac := s[7..];
    assert [s[1]] + s[3..] == whole + "." + frac + "";
    assert whole[0] == '1' && whole[1] == '2' && whole[2] == '3' && whole[3] == '4';
    var w1, w2, w3 := whole[..1], whole[..2], whole[..3];
    assert w1[..0] == [] && w2[..1] == w1 && w3[..2] == w2 && whole[..3] == w3;
    assert DigitsValue(w1) == 1;
    assert DigitsValue(w2) == 12;
    assert DigitsValue(w3) == 123;
    assert frac[0] == '5' && frac[1] == '6';
    var f1 := frac[1..];
    assert f1[0] == '6' && f1[1..] == [];
    assert FractionValue(f1) == 0.6;
  }

  /** `"R 500"` reads as 500. */
  lemma ParseNumRandAmount(s: string)
    requires s == "R 500"
    ensures ParseNum(s) == 500.0
  {
    ParseNumIgnoresOtherChars(s);
    NumericOfRandAmount(s);
    ParseNumOfIntegerText("500");
  }

  lemma NumericOfRandAmount(s: string)
    requires s == "R 500"
    ensures Where(s, Numeric()) == "500"
  {
    assert s == "R " + "500";
    WhereAppend("R ", "500", Numeric());
    WhereNone("R ", Numeric());
    WhereAll("500", Numeric());
  }

  lemma ParseNumOfIntegerText(t: string)
    requires t == "500"
    ensures ParseNum(t) == 500.0
  {
    ParseNumOfNumeric(t);
    assert t == t + [];
    UnsignedOfDigits(t, []);
    assert DigitsValue(t) == 500 by {
      assert t[..2] == "50" && "50"[..1] == "5" && "5"[..0] == "";
    }
  }

  /** `"-45.2"` reads as -45.2. */
  lemma ParseNumNegativeDecimal(s: string)
    requires s == "-45.2"
    ensures ParseNum(s) == -45.2
  {
    assert s == "-" + ("45" + "." + "2");
    ParseNumNegatedDecimal("45", "2");
    FortyFiveAndTwoTenths();
  }

  /** A minus sign in front of `whole.frac` negates its value. */
  lemma ParseNumNegatedDecimal(whole: string, frac: string)
    requires whole != [] && AllDigits(whole) && AllDigits(frac)
    ensures ParseNum("-" + (whole + "." + frac)) == -(DigitsValue(whole) as real + FractionValue(frac))
  {
    var u := whole + "." + frac;
    var s := "-" + u;
    assert forall i :: 0 <= i < |u| ==> IsNumericChar(u[i]);
    assert forall i :: 1 <= i < |s| ==> s[i] == u[i - 1];
    ParseNumOfNumeric(s);
    assert s[1..] == u + "";
    UnsignedOfParts(whole, frac, "");
  }

  lemma FortyFiveAndTwoTenths()
    ensures DigitsValue("45") as real + FractionValue("2") == 45.2
  {
    assert "45"[..1] == "4" && "4"[..0] == "";
    assert "2"[1..] == "";
  }

  /** Text with no digits reads as 0. */
  lemma ParseNumNoDigits()
    ensures ParseNum("N/A") == 0.0
  {
    assert Where("N/A", Numeric()) == "";
    ParseNumIgnoresOtherChars("N/A");
  }
}
