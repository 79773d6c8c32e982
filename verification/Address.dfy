/**
 The address argument of the decompile command: joining the arguments, reading the
 result as a number the way strtoull with base 0 does, and printing an address back.
 */
module Address {
  import opened Lldb

  /** The contents of a NUL-terminated string. */
  type CString = s: string | '\0' !in s

  /* ---------- characters ---------- */

  /** isspace in the C locale. */
  predicate IsSpace(c: char) {
    c == ' ' || '\t' <= c <= '\r'
  }

  predicate Blank(s: string) {
    forall i :: 0 <= i < |s| ==> IsSpace(s[i])
  }

  /** The value of a digit, or 16 for other characters. */
  function DigitValue(c: char): nat {
    if '0' <= c <= '9' then (c - '0') as nat
    else if 'a' <= c <= 'f' then (c - 'a') as nat + 10
    else if 'A' <= c <= 'F' then (c - 'A') as nat + 10
    else 16
  }

  predicate IsDigit(c: char, base: nat) {
    DigitValue(c) < base
  }

  predicate AllDigits(d: string, base: nat) {
    forall i :: 0 <= i < |d| ==> IsDigit(d[i], base)
  }

  /** The number a digit string denotes, most significant digit first. */
  function Eval(d: string, base: nat): nat {
    if d == "" then 0 else Eval(d[..|d| - 1], base) * base + DigitValue(d[|d| - 1])
  }

  /** The C locale has six blanks. */
  lemma SixBlanks(c: char)
    ensures IsSpace(c) <==> c in [' ', '\t', '\n', '\U{000B}', '\U{000C}', '\r']
  {}

  const LOWER_DIGITS: string := "0123456789abcdef"
  const UPPER_DIGITS: string := "0123456789ABCDEF"

  /** The sixteen digits, in either case, are worth their places. */
  lemma DigitValues(d: nat)
    requires d < 16
    ensures DigitValue(LOWER_DIGITS[d]) == d && DigitValue(UPPER_DIGITS[d]) == d
  {}

  /** Nothing else is a digit. */
  lemma NoOtherDigits(c: char)
    ensures DigitValue(c) == 16 || c in LOWER_DIGITS || c in UPPER_DIGITS
  {
    if '0' <= c <= '9' {
      assert LOWER_DIGITS[(c - '0') as nat] == c;
    } else if 'a' <= c <= 'f' {
      assert LOWER_DIGITS[(c - 'a') as nat + 10] == c;
    } else if 'A' <= c <= 'F' {
      assert UPPER_DIGITS[(c - 'A') as nat + 10] == c;
    }
  }

  lemma EvalAppend(d: string, c: char, base: nat)
    ensures Eval("", base) == 0 && Eval(d + [c], base) == Eval(d, base) * base + DigitValue(c)
  {
    assert (d + [c])[..|d|] == d;
  }

  function Power(base: nat, n: nat): nat {
    if n == 0 then 1 else base * Power(base, n - 1)
  }

  /** Each digit at the weight of its place. */
  function PlaceValues(d: string, base: nat): nat {
    if d == "" then 0 else DigitValue(d[0]) * Power(base, |d| - 1) + PlaceValues(d[1..], base)
  }

  lemma {:induction false} PlaceValuesLast(d: string, c: char, base: nat)
    ensures PlaceValues(d + [c], base) == PlaceValues(d, base) * base + DigitValue(c)
    decreases |d|
  {
    hide DigitValue;
    if d == "" {
      assert (d + [c])[1..] == "";
      assert Power(base, 0) == 1;
    } else {
      assert (d + [c])[1..] == d[1..] + [c];
      PlaceValuesLast(d[1..], c, base);
      MoveUp(DigitValue(d[0]), base, Power(base, |d| - 1), PlaceValues(d[1..], base));
    }
  }

  lemma MoveUp(v: nat, base: nat, p: nat, rest: nat)
    ensures v * (base * p) + rest * base == (v * p + rest) * base
  {}

  lemma {:induction false} EvalIsPlaceValues(d: string, base: nat)
    ensures Eval(d, base) == PlaceValues(d, base)
    decreases |d|
  {
    hide DigitValue;
    if d == "" {
    } else {
      EvalIsPlaceValues(d[..|d| - 1], base);
      PlaceValuesLast(d[..|d| - 1], d[|d| - 1], base);
      assert d[..|d| - 1] + [d[|d| - 1]] == d;
    }
  }

  /* ---------- what an address looks like ---------- */

  /** A C integer constant without suffix (section 6.4.4.1 of ISO/IEC 9899:2011):
      decimal, octal or hexadecimal by its prefix. */
  predicate Numeral(d: string, v: nat) {
    || (d != "" && '1' <= d[0] <= '9' && AllDigits(d, 10) && v == Eval(d, 10))
    || (d != "" && d[0] == '0' && AllDigits(d, 8) && v == Eval(d, 8))
    || (|d| > 2 && d[0] == '0' && (d[1] == 'x' || d[1] == 'X') && AllDigits(d[2..], 16) && v == Eval(d[2..], 16))
  }

  /** A numeral with an optional plus sign. */
  predicate Signed(c: string, v: nat) {
    Numeral(c, v) || (c != "" && c[0] == '+' && Numeral(c[1..], v))
  }

  predicate DenotesAt(s: string, i: nat, k: nat, v: nat) {
    i <= k <= |s| && Blank(s[..i]) && Signed(s[i..k], v) && Blank(s[k..])
  }

  /** Nothing but one signed numeral, with blanks around it. */
  ghost predicate Denotes(s: string, v: nat) {
    exists i: nat, k: nat :: DenotesAt(s, i, k, v)
  }

  /* ---------- strtoull ---------- */

  /** The character at a position, NUL at the end. */
  function At(s: CString, i: nat): char {
    if i < |s| then s[i] else '\0'
  }

  function SkipSpaces(s: CString, i: nat): (j: nat)
    requires i <= |s|
    ensures i <= j <= |s| && Blank(s[i..j]) && (j < |s| ==> !IsSpace(s[j]))
    decreases |s| - i
  {
    if i < |s| && IsSpace(s[i]) then
      var j := SkipSpaces(s, i + 1);
      assert s[i..j] == [s[i]] + s[i + 1..j];
      j
    else i
  }

  function DigitsEnd(s: CString, k: nat, base: nat): (e: nat)
    requires k <= |s|
    ensures k <= e <= |s| && AllDigits(s[k..e], base) && (e < |s| ==> !IsDigit(s[e], base))
    decreases |s| - k
  {
    if k < |s| && IsDigit(s[k], base) then
      var e := DigitsEnd(s, k + 1, base);
      assert s[k..e] == [s[k]] + s[k + 1..e];
      e
    else k
  }

  /** The end pointer, the value, and whether errno is set to ERANGE. */
  datatype Conversion = Conversion(end: nat, value: nat, erange: bool)

  predicate HexPrefix(s: CString, j: nat) {
    At(s, j) == '0' && (At(s, j + 1) == 'x' || At(s, j + 1) == 'X') && IsDigit(At(s, j + 2), 16)
  }

  /** strtoull with base 0 (section 7.22.1.4 of ISO/IEC 9899:2011): the longest prefix of
      the form blanks, sign, numeral; no conversion leaves the end at the start. */
  function Strtoull(s: CString, start: nat): (c: Conversion)
    requires start <= |s|
    ensures start <= c.end <= |s|
  {
    var i := SkipSpaces(s, start);
    var j := if At(s, i) == '+' || At(s, i) == '-' then i + 1 else i;
    var base := if HexPrefix(s, j) then 16 else if At(s, j) == '0' then 8 else 10;
    var k := if base == 16 then j + 2 else j;
    var e := DigitsEnd(s, k, base);
    if e == k then Conversion(start, 0, false)
    else
      var v := Eval(s[k..e], base);
      if v > UINT64_MAX then Conversion(e, UINT64_MAX, true)
      else Conversion(e, if At(s, i) == '-' && v > 0 then UINT64_MAX + 1 - v else v, false)
  }

  /* ---------- the conversion and the grammar ---------- */

  lemma SignedShape(c: string, v: nat)
    requires Signed(c, v)
    ensures c != "" && !IsSpace(c[0]) && c[0] != '-' && c[0] != '\0'
  {}

  lemma BlankAt(s: string, n: nat, i: nat)
    requires i < n <= |s| && Blank(s[..n])
    ensures IsSpace(s[i])
  {
    assert s[..n][i] == s[i];
  }

  lemma BlankFrom(s: string, k: nat, i: nat)
    requires k <= i < |s| && Blank(s[k..])
    ensures IsSpace(s[i])
  {
    assert s[k..][i - k] == s[i];
  }

  /** The text starts at the first character that is not a blank. */
  lemma StartIsForced(s: CString, p: nat, i: nat, k: nat, v: nat)
    requires p <= |s| && Blank(s[..p]) && !IsSpace(At(s, p)) && DenotesAt(s, i, k, v)
    ensures i == p < |s| && p < k
  {
    SignedShape(s[i..k], v);
    assert s[i..k][0] == s[i];
    if i < p {
      BlankAt(s, p, i);
    } else if p < i {
      BlankAt(s, i, p);
    }
  }

  /** Where the digits of a converted text start, after sign and prefix. */
  lemma {:induction false} DigitsEndIs(s: CString, k: nat, e: nat, base: nat)
    requires k <= e <= |s| && AllDigits(s[k..e], base) && (e < |s| ==> !IsDigit(s[e], base))
    ensures DigitsEnd(s, k, base) == e
    decreases e - k
  {
    if k >= e {
    } else {
      assert s[k..e][0] == s[k] && s[k + 1..e] == s[k..e][1..];
      DigitsEndIs(s, k + 1, e, base);
    }
  }

  /** A numeral is the longest digit run after its own prefix. */
  lemma NumeralConverts(s: CString, j: nat, k: nat, v: nat)
    requires j <= k <= |s| && Numeral(s[j..k], v) && (k < |s| ==> IsSpace(s[k]))
    ensures HexPrefix(s, j) ==> DigitsEnd(s, j + 2, 16) == k > j + 2 && v == Eval(s[j + 2..k], 16)
    ensures !HexPrefix(s, j) && At(s, j) == '0' ==> DigitsEnd(s, j, 8) == k > j && v == Eval(s[j..k], 8)
    ensures !HexPrefix(s, j) && At(s, j) != '0' ==> DigitsEnd(s, j, 10) == k > j && v == Eval(s[j..k], 10)
  {
    var d := s[j..k];
    assert d[0] == s[j];
    if |d| > 2 && d[0] == '0' && (d[1] == 'x' || d[1] == 'X') && AllDigits(d[2..], 16) && v == Eval(d[2..], 16) {
      assert d[1] == s[j + 1] && d[2..][0] == s[j + 2] && d[2..] == s[j + 2..k];
      DigitsEndIs(s, j + 2, k, 16);
    } else {
      var base := if d[0] == '0' then 8 else 10;
      assert AllDigits(d, base) && v == Eval(d, base);
      if |d| > 1 { assert d[1] == s[j + 1]; }
      DigitsEndIs(s, j, k, base);
    }
  }

  /** A text that is one signed numeral up to a blank or the end is converted whole. */
  lemma SignedConverts(s: CString, p: nat, k: nat, v: nat)
    requires p <= k <= |s| && Signed(s[p..k], v) && (k < |s| ==> IsSpace(s[k]))
    ensures var c := Strtoull(s, p);
            c.end == k > p && if v <= UINT64_MAX then c.value == v && !c.erange else c.erange
  {
    hide Eval, DigitsEnd, Numeral, HexPrefix;
    SignedStarts(s[p..k], v);
    assert s[p..k][0] == s[p] && !IsSpace(s[p]) && s[p] != '-';
    assert SkipSpaces(s, p) == p;
    if s[p] == '+' {
      assert s[p..k][1..] == s[p + 1..k];
      NumeralConverts(s, p + 1, k, v);
    } else {
      NumeralConverts(s, p, k, v);
    }
  }

  lemma SignedStarts(c: string, v: nat)
    requires Signed(c, v)
    ensures c != "" && !IsSpace(c[0]) && c[0] != '-'
    ensures if c[0] == '+' then Numeral(c[1..], v) else Numeral(c, v)
  {}

  /** Whatever is converted is one signed numeral. */
  lemma ConvertedIsSigned(s: CString, p: nat)
    requires p < |s| && !IsSpace(s[p]) && s[p] != '-'
    requires Strtoull(s, p).end != p && !Strtoull(s, p).erange
    ensures Signed(s[p..Strtoull(s, p).end], Strtoull(s, p).value)
  {
    hide Eval, DigitsEnd, SkipSpaces;
    assert SkipSpaces(s, p) == p by { NoSpacesToSkip(s, p); }
    var j := if s[p] == '+' then p + 1 else p;
    var base := if HexPrefix(s, j) then 16 else if At(s, j) == '0' then 8 else 10;
    var k := if base == 16 then j + 2 else j;
    var e := DigitsEnd(s, k, base);
    RunIsNumeral(s, j, base, k, e);
    if s[p] == '+' { assert s[p..e][1..] == s[j..e]; }
  }

  lemma NoSpacesToSkip(s: CString, p: nat)
    requires p < |s| && !IsSpace(s[p])
    ensures SkipSpaces(s, p) == p
  {}

  lemma RunIsNumeral(s: CString, j: nat, base: nat, k: nat, e: nat)
    requires base == (if HexPrefix(s, j) then 16 else if At(s, j) == '0' then 8 else 10)
    requires k == (if base == 16 then j + 2 else j) && k < e <= |s| && AllDigits(s[k..e], base)
    ensures Numeral(s[j..e], Eval(s[k..e], base))
  {
    hide Eval;
    var d := s[j..e];
    assert d[0] == s[j] && s[k..e][0] == s[k];
    if base == 16 {
      assert d[1] == s[j + 1] && d[2..] == s[k..e];
    }
  }

  /** What decides the outcome for a string whose first text is at `p`. */
  lemma Outcome(s: CString, p: nat, v: nat)
    requires p <= |s| && Blank(s[..p]) && !IsSpace(At(s, p))
    ensures var c := Strtoull(s, p);
            Denotes(s, v) && v <= UINT64_MAX <==>
            && p < |s| && s[p] != '-' && c.end != p && !c.erange && Blank(s[c.end..]) && v == c.value
  {
    hide Strtoull, Signed;
    var c := Strtoull(s, p);
    if Denotes(s, v) {
      var i: nat, k: nat :| DenotesAt(s, i, k, v);
      StartIsForced(s, p, i, k, v);
      SignedShape(s[i..k], v);
      assert s[i..k][0] == s[i];
      if k < |s| { assert s[k..][0] == s[k]; }
      SignedConverts(s, p, k, v);
    }
    if p < |s| && s[p] != '-' && c.end != p && !c.erange && Blank(s[c.end..]) && v == c.value {
      ConvertedIsSigned(s, p);
      assert DenotesAt(s, p, c.end, v);
      ValueFits(s, p);
    }
  }

  lemma ValueFits(s: CString, p: nat)
    requires p <= |s|
    ensures Strtoull(s, p).value <= UINT64_MAX
  {}

  /* ---------- parseAddress ---------- */

  /** The address a string denotes, or LLDB_INVALID_ADDRESS. */
  ghost function ParsedAddress(s: CString): nat {
    if exists v: nat :: v < INVALID_ADDRESS && Denotes(s, v)
    then var v: nat :| v < INVALID_ADDRESS && Denotes(s, v); v
    else INVALID_ADDRESS
  }

  lemma ParsedCases(s: CString, p: nat)
    requires p <= |s| && Blank(s[..p]) && !IsSpace(At(s, p))
    ensures var c := Strtoull(s, p);
            ParsedAddress(s) ==
            if p < |s| && s[p] != '-' && c.end != p && !c.erange && Blank(s[c.end..]) then c.value
            else INVALID_ADDRESS
  {
    hide Strtoull, Denotes;
    Outcome(s, p, Strtoull(s, p).value);
    Outcome(s, p, ParsedAddress(s));
    ValueFits(s, p);
  }

  /** The result is the number the string denotes, if that is an address below the
      all-ones one, and LLDB_INVALID_ADDRESS for every other string. */
  method ParseAddress(str: Option<CString>) returns (r: nat)
    ensures r <= INVALID_ADDRESS
    ensures str.None? ==> r == INVALID_ADDRESS
    ensures str.Some? ==> forall v: nat :: v < INVALID_ADDRESS ==> (r == v <==> Denotes(str.value, v))
    ensures str.Some? ==> r == ParsedAddress(str.value)
  {
    hide Strtoull, Denotes, ParsedAddress;
    if str.None? { return INVALID_ADDRESS; }
    var s := str.value;
    var p := 0;
    while At(s, p) != '\0' && IsSpace(At(s, p))
      invariant p <= |s| && Blank(s[..p])
      decreases |s| - p
    {
      assert s[..p + 1] == s[..p] + [s[p]];
      p := p + 1;
    }
    forall v: nat
      ensures var c := Strtoull(s, p);
              Denotes(s, v) && v <= UINT64_MAX <==>
              && p < |s| && s[p] != '-' && c.end != p && !c.erange && Blank(s[c.end..]) && v == c.value
    {
      Outcome(s, p, v);
    }
    ParsedCases(s, p);
    if At(s, p) == '\0' { return INVALID_ADDRESS; }
    if At(s, p) == '-' { return INVALID_ADDRESS; }
    var conversion := Strtoull(s, p);
    var end := conversion.end;
    if end == p { return INVALID_ADDRESS; }
    if conversion.erange { return INVALID_ADDRESS; }
    while At(s, end) != '\0' && IsSpace(At(s, end))
      invariant conversion.end <= end <= |s| && Blank(s[conversion.end..end])
      decreases |s| - end
    {
      assert s[conversion.end..end + 1] == s[conversion.end..end] + [s[end]];
      end := end + 1;
    }
    if At(s, end) != '\0' {
      assert s[conversion.end..][end - conversion.end] == s[end];
      return INVALID_ADDRESS;
    }
    assert s[conversion.end..end] == s[conversion.end..];
    ValueFits(s, p);
    return conversion.value;
  }

  /** A string denotes at most one number below 2^64. */
  lemma DenotesUnique(s: CString, v: nat, w: nat)
    ensures Denotes(s, v) && Denotes(s, w) && v <= UINT64_MAX && w <= UINT64_MAX ==> v == w
  {
    var p := SkipSpaces(s, 0);
    assert s[..p] == s[0..p];
    Outcome(s, p, v);
    Outcome(s, p, w);
  }

  /* ---------- printing ---------- */

  type Digits = d: string | d == LOWER_DIGITS || d == UPPER_DIGITS witness LOWER_DIGITS

  /** Hexadecimal with the given digits, no leading zeros. */
  function Hex(v: nat, digits: Digits): string {
    if v < 16 then [digits[v]] else Hex(v / 16, digits) + [digits[v % 16]]
  }

  lemma DigitOf(d: nat, digits: Digits)
    requires d < 16
    ensures |digits| == 16 && digits[d] != '\0'
    ensures DigitValue(digits[d]) == d && IsDigit(digits[d], 16)
  {
    DigitValues(d);
  }

  lemma {:induction false} HexEvaluates(v: nat, digits: Digits)
    ensures var h := Hex(v, digits);
            h != "" && AllDigits(h, 16) && Eval(h, 16) == v && '\0' !in h
    decreases v
  {
    hide DigitValue, Eval, IsDigit;
    DigitOf(v % 16, digits);
    if v < 16 {
      EvalAppend("", digits[v], 16);
      assert "" + [digits[v]] == [digits[v]];
    } else {
      HexEvaluates(v / 16, digits);
      EvalAppend(Hex(v / 16, digits), digits[v % 16], 16);
    }
  }

  /** The output has digits of the given case only, and no leading zero. */
  lemma {:induction false} HexShape(v: nat, digits: Digits)
    ensures var h := Hex(v, digits);
            h != "" && (forall c :: c in h ==> c in digits) && (v > 0 ==> h[0] != '0')
    decreases v
  {
    if v < 16 {
    } else {
      HexShape(v / 16, digits);
    }
  }

  /** "0x" and the hexadecimal digits, as in the error message of the command. */
  function PrintAddress(v: nat): string {
    "0x" + Hex(v, LOWER_DIGITS)
  }

  /** Hexadecimal output of either case, behind either prefix, denotes its number. */
  lemma HexDenotes(v: nat, x: char, digits: Digits)
    requires x == 'x' || x == 'X'
    ensures var s := ['0', x] + Hex(v, digits);
            '\0' !in s && Denotes(s, v)
  {
    hide Hex, Eval;
    HexEvaluates(v, digits);
    var s := ['0', x] + Hex(v, digits);
    assert s[0] == '0' && s[1] == x && s[2..] == Hex(v, digits);
    assert s[0..|s|] == s;
    assert DenotesAt(s, 0, |s|, v);
  }

  lemma DenotedIsParsed(s: CString, v: nat)
    requires v < INVALID_ADDRESS && Denotes(s, v)
    ensures ParsedAddress(s) == v
  {
    hide Denotes;
    DenotesUnique(s, v, ParsedAddress(s));
  }

  /** A number typed with digits and prefix of either case is read as that number, or as
      the invalid address if it is not below that. */
  lemma HexIsParsed(v: nat, x: char, digits: Digits)
    requires x == 'x' || x == 'X'
    ensures var s := ['0', x] + Hex(v, digits);
            '\0' !in s && ParsedAddress(s) == if v < 0xFFFF_FFFF_FFFF_FFFF then v else 0xFFFF_FFFF_FFFF_FFFF
  {
    hide Denotes, Hex;
    HexDenotes(v, x, digits);
    var s := ['0', x] + Hex(v, digits);
    if v < INVALID_ADDRESS {
      DenotedIsParsed(s, v);
    } else {
      LargeIsInvalid(s, v);
    }
  }

  lemma LargeIsInvalid(s: CString, v: nat)
    requires v >= INVALID_ADDRESS && Denotes(s, v)
    ensures ParsedAddress(s) == INVALID_ADDRESS
  {
    hide Strtoull, Signed, ParsedAddress;
    var i: nat, k: nat :| DenotesAt(s, i, k, v);
    SignedShape(s[i..k], v);
    assert s[i..k][0] == s[i];
    if k < |s| { assert s[k..][0] == s[k]; }
    SignedConverts(s, i, k, v);
    ValueFits(s, i);
    ParsedCases(s, i);
  }

  /** Printing and reading an address is the identity below the all-ones address. */
  lemma PrintThenParse(v: nat)
    requires v < INVALID_ADDRESS
    ensures '\0' !in PrintAddress(v) && ParsedAddress(PrintAddress(v)) == v
  {
    hide Denotes, Hex;
    HexIsParsed(v, 'x', LOWER_DIGITS);
    assert "0x" == ['0', 'x'];
  }

  /* ---------- some inputs ---------- */

  /** A non-empty run of digits of the base its prefix stands for. */
  predicate Typed(prefix: string, d: string, base: nat) {
    && d != "" && AllDigits(d, base)
    && ((prefix == "" && base == 10 && d[0] != '0')
        || (prefix == "" && base == 8 && d[0] == '0')
        || ((prefix == "0x" || prefix == "0X") && base == 16))
  }

  lemma TypedIsNumeral(prefix: string, d: string, base: nat)
    requires Typed(prefix, d, base)
    ensures Numeral(prefix + d, PlaceValues(d, base))
  {
    hide Eval, PlaceValues;
    EvalIsPlaceValues(d, base);
    if prefix == "" {
      assert prefix + d == d && IsDigit(d[0], base);
    } else {
      assert (prefix + d)[2..] == d;
    }
  }

  /** What is typed in base 10, 8 or 16, with blanks around it and a plus sign, is read as
      its digits at their place values, or as the invalid address from there on. */
  lemma TypedIsParsed(l: CString, sign: CString, prefix: CString, d: CString, base: nat, r: CString)
    requires Blank(l) && Blank(r) && (sign == "" || sign == "+") && Typed(prefix, d, base)
    ensures var v := PlaceValues(d, base);
            ParsedAddress(l + sign + (prefix + d) + r)
            == if v < 0xFFFF_FFFF_FFFF_FFFF then v else 0xFFFF_FFFF_FFFF_FFFF
  {
    hide Numeral, Typed, PlaceValues, ParsedAddress, Blank, Denotes;
    var v := PlaceValues(d, base);
    TypedIsNumeral(prefix, d, base);
    NumeralDenotes(l, sign, prefix + d, r, v);
    var s := l + sign + (prefix + d) + r;
    if v < INVALID_ADDRESS {
      DenotedIsParsed(s, v);
    } else {
      LargeIsInvalid(s, v);
    }
  }

  lemma NumeralDenotes(l: string, sign: string, d: string, r: string, v: nat)
    requires Blank(l) && Blank(r) && (sign == "" || sign == "+") && Numeral(d, v)
    ensures Denotes(l + sign + d + r, v)
  {
    hide Numeral, Blank;
    var s := l + sign + d + r;
    var i, k := |l|, |l| + |sign| + |d|;
    assert s[..i] == l && s[i..k] == sign + d && s[k..] == r;
    assert (sign + d)[|sign|..] == d;
    assert DenotesAt(s, i, k, v);
  }

  /** A digit that is not octal, a bare prefix and a minus sign are not addresses. */
  lemma NotAddresses()
    ensures ParsedAddress("08") == INVALID_ADDRESS
    ensures ParsedAddress("0x") == INVALID_ADDRESS
    ensures ParsedAddress("-1") == INVALID_ADDRESS
    ensures ParsedAddress("") == INVALID_ADDRESS
  {
    hide ParsedAddress, Strtoull;
    ParsedCases("08", 0);
    ParsedCases("0x", 0);
    ParsedCases("-1", 0);
    ParsedCases("", 0);
    ConvertsZero("08");
    ConvertsZero("0x");
  }

  lemma ConvertsZero(s: CString)
    requires |s| == 2 && s[0] == '0' && (s[1] == '8' || s[1] == 'x')
    ensures Strtoull(s, 0).end == 1 && !Blank(s[1..])
  {
    hide Eval;
    NoSpacesToSkip(s, 0);
    assert s[0..1][0] == s[0];
    DigitsEndIs(s, 0, 1, 8);
    assert s[1..][0] == s[1];
  }

  /* ---------- joining the arguments ---------- */

  function Join(args: seq<CString>): (s: CString)
  {
    if args == [] then ""
    else if |args| == 1 then args[0]
    else Join(args[..|args| - 1]) + " " + args[|args| - 1]
  }

  /** The argument loop of DoExecute. */
  method JoinArguments(command: seq<CString>) returns (argStr: CString)
    ensures argStr == Join(command)
  {
    argStr := "";
    var i := 0;
    while i < |command|
      invariant i <= |command| && argStr == Join(command[..i])
    {
      assert command[..i + 1][..i] == command[..i];
      if i > 0 { argStr := argStr + " "; }
      argStr := argStr + command[i];
      i := i + 1;
    }
    assert command[..i] == command;
  }

  /** Between any two parts of the arguments there is one space; a single argument
      stands as it is. */
  lemma {:induction false} JoinAppend(p: seq<CString>, q: seq<CString>)
    requires p != [] && q != []
    ensures Join(p + q) == Join(p) + " " + Join(q)
    ensures |q| == 1 ==> Join(q) == q[0]
    ensures Join([]) == ""
    decreases |q|
  {
    var init, last := q[..|q| - 1], q[|q| - 1];
    assert (p + q)[..|p + q| - 1] == p + init;
    if init == [] {
      assert p + init == p;
    } else {
      JoinAppend(p, init);
      Associates(Join(p), " ", Join(init), " " + last);
      assert Join(init) + " " + last == Join(init) + (" " + last);
    }
  }

  lemma Associates(a: string, b: string, c: string, d: string)
    ensures (a + b + c) + d == a + b + (c + d)
  {}

  lemma BlankAppend(s: string, t: string)
    ensures Blank(s + t) <==> Blank(s) && Blank(t)
  {
    if Blank(s + t) {
      forall i | 0 <= i < |s| ensures IsSpace(s[i]) { assert (s + t)[i] == s[i]; }
      forall i | 0 <= i < |t| ensures IsSpace(t[i]) { assert (s + t)[|s| + i] == t[i]; }
    }
  }

  lemma {:induction false} BlankJoin(args: seq<CString>)
    ensures Blank(Join(args)) <==> forall p :: 0 <= p < |args| ==> Blank(args[p])
    decreases |args|
  {
    if |args| <= 1 {
    } else {
      var init, last := args[..|args| - 1], args[|args| - 1];
      BlankJoin(init);
      BlankAppend(Join(init) + " ", last);
      BlankAppend(Join(init), " ");
      assert forall p :: 0 <= p < |init| ==> init[p] == args[p];
    }
  }

  /** Blanks around a string change nothing. */
  lemma Padded(l: string, s: string, r: string, v: nat)
    requires Blank(l) && Blank(r)
    ensures Denotes(s, v) ==> Denotes(l + s + r, v)
  {
    hide Signed, Blank;
    if Denotes(s, v) {
      var i: nat, k: nat :| DenotesAt(s, i, k, v);
      var t := l + s + r;
      BlankAppend(l, s[..i]);
      BlankAppend(s[k..], r);
      assert t[..|l| + i] == l + s[..i] && t[|l| + i..|l| + k] == s[i..k] && t[|l| + k..] == s[k..] + r;
      assert DenotesAt(t, |l| + i, |l| + k, v);
    }
  }

  lemma SignedHasNoSpace(c: string, v: nat, i: nat)
    requires Signed(c, v) && i < |c|
    ensures !IsSpace(c[i])
  {
    hide Eval;
    var d := if c[0] == '+' then c[1..] else c;
    SignedStarts(c, v);
    assert c[0] == '+' ==> i > 0 ==> c[i] == d[i - 1];
    if |d| > 2 && AllDigits(d[2..], 16) {
      assert forall j :: 2 <= j < |d| ==> d[j] == d[2..][j - 2];
    }
  }

  lemma TextSpansSpace(l: string, r: string, i: nat, k: nat)
    requires !Blank(l) && !Blank(r) && i <= k <= |l| + 1 + |r|
    requires Blank((l + " " + r)[..i]) && Blank((l + " " + r)[k..])
    ensures i <= |l| < k
  {
    var s := l + " " + r;
    var p: nat :| p < |l| && !IsSpace(l[p]);
    var q: nat :| q < |r| && !IsSpace(r[q]);
    var m: nat := |l| + 1 + q;
    assert s[p] == l[p] && s[m] == r[q];
    if p < i { BlankAt(s, i, p); }
    if m >= k { BlankFrom(s, k, m); }
  }

  lemma InsideIsText(s: string, i: nat, k: nat, v: nat, m: nat)
    requires DenotesAt(s, i, k, v) && i <= m < k
    ensures !IsSpace(s[m])
  {
    SignedHasNoSpace(s[i..k], v, m - i);
  }

  /** Text on both sides of a space does not denote a number. */
  lemma SpaceInside(l: string, r: string, v: nat)
    requires !Blank(l) && !Blank(r)
    ensures !Denotes(l + " " + r, v)
  {
    hide Signed, Blank;
    var s := l + " " + r;
    assert s[|l|] == ' ';
    forall i: nat, k: nat ensures !DenotesAt(s, i, k, v) {
      if DenotesAt(s, i, k, v) {
        TextSpansSpace(l, r, i, k);
        InsideIsText(s, i, k, v, |l|);
      }
    }
  }

  lemma PaddingIsBlank(l: string, s: string, r: string, i: nat)
    requires Blank(l) && Blank(r) && i < |l| + |s| + |r|
    ensures !IsSpace((l + s + r)[i]) ==> |l| <= i < |l| + |s|
  {
    var t := l + s + r;
    if i < |l| {
      assert t[i] == l[i];
    } else if i >= |l| + |s| {
      assert t[i] == r[i - |l| - |s|];
    }
  }

  lemma Unpadded(l: string, s: string, r: string, v: nat)
    requires Blank(l) && Blank(r)
    ensures Denotes(l + s + r, v) ==> Denotes(s, v)
  {
    hide Signed;
    var t := l + s + r;
    if Denotes(t, v) {
      var i: nat, k: nat :| DenotesAt(t, i, k, v);
      SignedShape(t[i..k], v);
      SignedHasNoSpace(t[i..k], v, 0);
      SignedHasNoSpace(t[i..k], v, k - i - 1);
      PaddingIsBlank(l, s, r, i);
      PaddingIsBlank(l, s, r, k - 1);
      var a, b := i - |l|, k - |l|;
      assert t[..i] == l + s[..a] && t[i..k] == s[a..b] && t[k..] == s[b..] + r;
      BlankAppend(l, s[..a]);
      BlankAppend(s[b..], r);
      assert DenotesAt(s, a, b, v);
    }
  }

  lemma DenotesIsNotBlank(s: string, v: nat)
    requires Denotes(s, v)
    ensures !Blank(s)
  {
    var i: nat, k: nat :| DenotesAt(s, i, k, v);
    SignedShape(s[i..k], v);
    assert s[i..k][0] == s[i];
  }

  /** Argument `p` alone is an address, all others are blank. */
  ghost predicate OnlyArgument(args: seq<CString>, p: nat, v: nat) {
    && p < |args| && Denotes(args[p], v)
    && forall q :: 0 <= q < |args| && q != p ==> Blank(args[q])
  }

  /** The joined arguments denote a number if and only if one of them does and the
      others are blank; so two non-blank arguments are never an address. */
  lemma {:induction false} JoinedArgumentsDenote(args: seq<CString>, v: nat)
    ensures Denotes(Join(args), v) <==> exists p: nat :: OnlyArgument(args, p, v)
    decreases |args|
  {
    hide Signed;
    if |args| == 0 {
      if Denotes("", v) { DenotesIsNotBlank("", v); }
    } else if |args| == 1 {
      if Denotes(args[0], v) { assert OnlyArgument(args, 0, v); }
    } else {
      LastArgument(args, v);
    }
  }

  lemma {:induction false} LastArgument(args: seq<CString>, v: nat)
    requires |args| > 1
    ensures Denotes(Join(args), v) <==> exists p: nat :: OnlyArgument(args, p, v)
    decreases |args|, 0
  {
    hide Denotes, Blank;
    var n := |args| - 1;
    var init, last := args[..n], args[n];
    var l := Join(init);
    BlankJoin(init);
    assert l + " " + last == l + (" " + last) == (l + " ") + last;
    if Blank(last) {
      BlankAppend(" ", last);
      SingleSpace();
      Padded("", l, " " + last, v);
      Unpadded("", l, " " + last, v);
      EmptyPad(l, " " + last);
      JoinedArgumentsDenote(init, v);
      LastIsBlank(args, init, v);
    } else if Blank(l) {
      BlankAppend(l, " ");
      SingleSpace();
      Padded(l + " ", last, "", v);
      Unpadded(l + " ", last, "", v);
      EmptyPad(l + " ", last);
      OthersAreBlank(args, init, v);
    } else {
      SpaceInside(l, last, v);
      TwoTexts(args, init, v);
    }
  }

  lemma SingleSpace()
    ensures Blank(" ") && Blank("")
  {}

  lemma EmptyPad(l: string, r: string)
    ensures "" + l + r == l + r && l + r + "" == l + r
  {}

  lemma LastIsBlank(args: seq<CString>, init: seq<CString>, v: nat)
    requires |args| > 0 && init == args[..|args| - 1] && Blank(args[|args| - 1])
    ensures (exists p: nat :: OnlyArgument(args, p, v)) <==>
            exists p: nat :: OnlyArgument(init, p, v)
  {
    hide Blank;
    assert forall q :: 0 <= q < |init| ==> init[q] == args[q];
    if p: nat :| OnlyArgument(args, p, v) {
      DenotesIsNotBlank(args[p], v);
      assert OnlyArgument(init, p, v);
    }
    if p: nat :| OnlyArgument(init, p, v) {
      assert OnlyArgument(args, p, v);
    }
  }

  lemma OthersAreBlank(args: seq<CString>, init: seq<CString>, v: nat)
    requires |args| > 0 && init == args[..|args| - 1] && !Blank(args[|args| - 1])
    requires forall q :: 0 <= q < |init| ==> Blank(init[q])
    ensures (exists p: nat :: OnlyArgument(args, p, v)) <==> Denotes(args[|args| - 1], v)
  {
    hide Blank, Denotes;
    assert forall q :: 0 <= q < |init| ==> init[q] == args[q];
    if Denotes(args[|args| - 1], v) {
      assert OnlyArgument(args, |args| - 1, v);
    }
  }

  lemma TwoTexts(args: seq<CString>, init: seq<CString>, v: nat)
    requires |args| > 0 && init == args[..|args| - 1] && !Blank(args[|args| - 1])
    requires exists q :: 0 <= q < |init| && !Blank(init[q])
    ensures !exists p: nat :: OnlyArgument(args, p, v)
  {
    hide Denotes, Blank;
    var q :| 0 <= q < |init| && !Blank(init[q]);
    assert init[q] == args[q];
  }
}
