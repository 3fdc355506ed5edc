/**
 The shorthand for token limits, such as 2.5B or 500k (src/lib/quota.ts), in exact arithmetic:
 printing is lossless and parsing undoes it.
 */
module Quota {
  import opened Wrappers
  import opened Sequences
  import opened Text
  import opened Arithmetic
  import StableSort

  const MAX_SAFE: nat := 9007199254740991

  /** No limit, not a limit, or this many tokens. */
  datatype Limit = Unlimited | Invalid | Tokens(n: nat)

  // ----- Parsing -----

  predicate IsFiller(c: char) {
    c == ',' || c == '_' || IsJsSpace(c)
  }

  function DropFillers(s: string): string {
    if s == "" then "" else (if IsFiller(s[0]) then "" else [s[0]]) + DropFillers(s[1..])
  }

  /** The factor of a unit letter; None for any other character. */
  function UnitOf(c: char): Option<nat> {
    if c == 'k' || c == 'K' then Some(1000)
    else if c == 'm' || c == 'M' then Some(1000000)
    else if c == 'b' || c == 'B' then Some(1000000000)
    else None
  }

  function Pow10(p: nat): (r: nat)
    ensures r > 0
  {
    if p == 0 then 1 else 10 * Pow10(p - 1)
  }

  /** digits * mult / 10^places, rounded half up. */
  function Rounded(digits: nat, places: nat, mult: nat): nat {
    FloorDiv(2 * Times(digits, mult) + Pow10(places), 2 * Pow10(places))
  }

  /** Digits, or digits with a point and more digits, times a factor. */
  function ParseBody(body: string, mult: nat): Limit {
    var parts := Split(body, '.');
    if |parts| > 2 || (exists i :: 0 <= i < |parts| && (parts[i] == "" || !AllDigits(parts[i]))) then Invalid
    else
      var fraction := if |parts| == 2 then parts[1] else "";
      assert forall i :: 0 <= i < |parts| ==> AllDigits(parts[i]);
      var v := Rounded(NumeralValue(parts[0] + fraction), |fraction|, mult);
      if 0 < v <= MAX_SAFE then Tokens(v) else Invalid
  }

  function ParseShorthand(raw: string): Limit {
    var s := DropFillers(Trim(raw, IsJsSpace));
    if s == "" then Unlimited
    else
      var unit := UnitOf(s[|s| - 1]);
      if unit.Some? then ParseBody(s[..|s| - 1], unit.value) else ParseBody(s, 1)
  }

  // ----- Printing -----

  function TwoDigits(d: nat): string
    requires d < 100
  {
    [DigitChar(d / 10), DigitChar(d % 10)]
  }

  /** n / base to two decimal places, rounded half up. */
  function Hundredths(n: nat, base: nat): nat
    requires base > 0
  {
    (200 * n + base) / (2 * base)
  }

  function Fixed2(hundredths: nat): string {
    Numeral(hundredths / 100) + "." + TwoDigits(hundredths % 100)
  }

  function DropTrailingZeros(s: string): string {
    if s != "" && s[|s| - 1] == '0' then DropTrailingZeros(s[..|s| - 1]) else s
  }

  /** Removes zeros at the end and a point before them; without such zeros nothing. */
  function StripZeros(s: string): string {
    var t := DropTrailingZeros(s);
    if |t| < |s| && t != "" && t[|t| - 1] == '.' then t[..|t| - 1] else t
  }

  function Candidate(n: nat, base: nat, suffix: char): string
    requires base > 0
  {
    (if n % base == 0 then Numeral(n / base) else StripZeros(Fixed2(Hundredths(n, base)))) + [suffix]
  }

  /** The largest unit not exceeding n. */
  function UnitFor(n: nat): Option<(nat, char)> {
    if n >= 1000000000 then Some((1000000000, 'B'))
    else if n >= 1000000 then Some((1000000, 'M'))
    else if n >= 1000 then Some((1000, 'k'))
    else None
  }

  /** The short form if it reads back as the number, else all digits. */
  function Lossless(n: nat, candidate: string, parse: string -> Limit): string {
    if parse(candidate) == Tokens(n) then candidate else Numeral(n)
  }

  function FormatShorthand(limit: Option<nat>): string {
    if limit.None? then ""
    else
      var n := limit.value;
      var unit := UnitFor(n);
      if unit.None? then Numeral(n)
      else
        Lossless(n, Candidate(n, unit.value.0, unit.value.1), ParseShorthand)
  }

  // ----- Reading printed text -----

  /** Neither trimmed nor dropped. */
  ghost predicate Plain(s: string) {
    forall i :: 0 <= i < |s| ==> !IsFiller(s[i])
  }

  lemma {:induction false} PlainStays(s: string)
    requires Plain(s)
    ensures DropFillers(s) == s && Trim(s, IsJsSpace) == s
  {
    if s != "" {
      PlainStays(s[1..]);
      HeadTail(s);
      assert TrimStart(s, IsJsSpace) == s;
      assert TrimEnd(s, IsJsSpace) == s;
    }
  }

  lemma DigitsArePlain(s: string)
    requires AllDigits(s)
    ensures Plain(s) && '.' !in s
  {
  }

  /** Text that ends with a unit letter. */
  lemma ParseWithUnit(body: string, suffix: char)
    requires Plain(body) && UnitOf(suffix).Some?
    ensures ParseShorthand(body + [suffix]) == ParseBody(body, UnitOf(suffix).value)
  {
    var s := body + [suffix];
    PlainWithUnit(body, suffix);
    PlainStays(s);
    assert s[..|s| - 1] == body && s[|s| - 1] == suffix;
  }

  lemma PlainWithUnit(body: string, suffix: char)
    requires Plain(body) && UnitOf(suffix).Some?
    ensures Plain(body + [suffix])
  {
  }

  lemma ExactQuotient(v: nat, p: nat)
    requires p > 0
    ensures FloorDiv(2 * Times(v, p) + p, 2 * p) == v
  {
    assert 2 * (v * p) == v * (2 * p);
    QuotientIs(2 * Times(v, p) + p, 2 * p, v, p);
  }

  /** Rounding does nothing to a whole number. */
  lemma RoundedExact(digits: nat, places: nat, mult: nat, v: nat)
    requires Times(digits, mult) == Times(v, Pow10(places))
    ensures Rounded(digits, places, mult) == v
  {
    ExactQuotient(v, Pow10(places));
  }

  function Safe(v: nat): Limit {
    if 0 < v <= MAX_SAFE then Tokens(v) else Invalid
  }

  lemma ParseWhole(digits: string, mult: nat)
    requires digits != "" && AllDigits(digits)
    ensures ParseBody(digits, mult) == Safe(Times(NumeralValue(digits), mult))
  {
    DigitsArePlain(digits);
    SplitWithoutSeparator(digits, '.');
    assert digits + "" == digits;
    RoundedExact(NumeralValue(digits), 0, mult, Times(NumeralValue(digits), mult));
  }

  lemma {:induction false} ParseWithPoint(whole: string, fraction: string, mult: nat, v: nat)
    requires whole != "" && AllDigits(whole) && fraction != "" && AllDigits(fraction)
    requires Times(NumeralValue(whole + fraction), mult) == Times(v, Pow10(|fraction|))
    ensures ParseBody(whole + "." + fraction, mult) == Safe(v)
  {
    DigitsArePlain(whole);
    DigitsArePlain(fraction);
    SplitAcross(whole, '.', fraction);
    SplitWithoutSeparator(whole, '.');
    SplitWithoutSeparator(fraction, '.');
    assert [whole] + [fraction] == [whole, fraction];
    RoundedExact(NumeralValue(whole + fraction), |fraction|, mult, v);
  }

  lemma ValueOfMore(s: string, d: nat)
    requires AllDigits(s) && d <= 9
    ensures AllDigits(s + [DigitChar(d)])
    ensures NumeralValue(s + [DigitChar(d)]) == 10 * NumeralValue(s) + d
  {
  }

  // ----- Stripping zeros keeps the value -----

  /** The three shapes of a stripped two-place decimal. */
  lemma StrippedShape(h: nat)
    ensures var q, d := Numeral(h / 100), h % 100;
      StripZeros(Fixed2(h)) ==
        if d == 0 then q
        else if d % 10 == 0 then q + "." + [DigitChar(d / 10)]
        else q + "." + TwoDigits(d)
  {
    var q, d := Numeral(h / 100), h % 100;
    var s := Fixed2(h);
    var a, b := DigitChar(d / 10), DigitChar(d % 10);
    assert s == q + "." + [a] + [b];
    DropLast(q + "." + [a], b);
    if d % 10 == 0 {
      DropLast(q + ".", a);
      if d == 0 {
        NoZeroAtEnd(q + ".");
        assert (q + ".")[..|q|] == q;
      }
    }
  }

  lemma NoZeroAtEnd(s: string)
    requires s != "" ==> s[|s| - 1] != '0'
    ensures DropTrailingZeros(s) == s
  {
  }

  lemma DropLast(s: string, c: char)
    ensures DropTrailingZeros(s + [c]) == if c == '0' then DropTrailingZeros(s) else s + [c]
  {
  }

  lemma ParseTenths(q: nat, x: nat, mult: nat, v: nat)
    requires x <= 9 && Times(10 * q + x, mult) == 10 * v
    ensures ParseBody(Numeral(q) + "." + [DigitChar(x)], mult) == Safe(v)
  {
    NumeralRoundTrip(q);
    ValueOfMore(Numeral(q), x);
    assert Pow10(1) == 10;
    ParseWithPoint(Numeral(q), [DigitChar(x)], mult, v);
  }

  lemma ParseHundredths(q: nat, d: nat, mult: nat, v: nat)
    requires d < 100 && Times(100 * q + d, mult) == 100 * v
    ensures ParseBody(Numeral(q) + "." + TwoDigits(d), mult) == Safe(v)
  {
    NumeralRoundTrip(q);
    var s := Numeral(q) + [DigitChar(d / 10)];
    ValueOfMore(Numeral(q), d / 10);
    ValueOfMore(s, d % 10);
    assert Numeral(q) + TwoDigits(d) == s + [DigitChar(d % 10)];
    assert Pow10(1) == 10 && Pow10(2) == 100;
    ParseWithPoint(Numeral(q), TwoDigits(d), mult, v);
  }

  lemma ScaleDown(a: nat, k: nat, mult: nat, v: nat)
    requires k > 0 && Times(k * a, mult) == k * v
    ensures Times(a, mult) == v
  {
  }

  /** Parsing the stripped text with a unit gives exactly the hundredths times the unit. */
  lemma ParseStripped(h: nat, mult: nat, v: nat)
    requires Times(h, mult) == 100 * v
    ensures ParseBody(StripZeros(Fixed2(h)), mult) == Safe(v)
  {
    StrippedShape(h);
    var q, d := h / 100, h % 100;
    assert h == 100 * q + d;
    if d == 0 {
      NumeralRoundTrip(q);
      ParseWhole(Numeral(q), mult);
      ScaleDown(q, 100, mult, v);
    } else if d % 10 == 0 {
      assert h == 10 * (10 * q + d / 10);
      ScaleDown(10 * q + d / 10, 10, mult, 10 * v);
      ParseTenths(q, d / 10, mult, v);
    } else {
      ParseHundredths(q, d, mult, v);
    }
  }

  lemma StrippedIsPlain(h: nat)
    ensures Plain(StripZeros(Fixed2(h)))
  {
    StrippedShape(h);
    DigitsArePlain(Numeral(h / 100));
  }

  // ----- What is read -----

  /** Commas, underscores and blanks do not count. */
  function Counts(): char -> bool {
    c => c != ',' && c != '_' && !IsJsSpace(c)
  }

  lemma {:induction false} DropFillersFilters(s: string)
    ensures DropFillers(s) == StableSort.Filter(s, Counts())
  {
    if s != "" {
      DropFillersFilters(s[1..]);
      HeadTail(s);
      StableSort.FilterCons(s[0], s[1..], Counts());
    }
  }

  lemma FilterDropsFront(s: string, a: nat, p: char -> bool)
    requires a <= |s| && forall i :: 0 <= i < a ==> !p(s[i])
    ensures StableSort.Filter(s[a..], p) == StableSort.Filter(s, p)
  {
    StableSort.FilterNone(s[..a], p);
    StableSort.FilterConcat(s[..a], s[a..], p);
    assert s[..a] + s[a..] == s;
  }

  lemma FilterDropsBack(s: string, b: nat, p: char -> bool)
    requires b <= |s| && forall i :: b <= i < |s| ==> !p(s[i])
    ensures StableSort.Filter(s[..b], p) == StableSort.Filter(s, p)
  {
    StableSort.FilterNone(s[b..], p);
    StableSort.FilterConcat(s[..b], s[b..], p);
    assert s[..b] + s[b..] == s;
  }

  /** What is left of a text, wherever the fillers are, is its other characters in order. */
  lemma CleanedIs(raw: string)
    ensures DropFillers(Trim(raw, IsJsSpace)) == StableSort.Filter(raw, Counts())
  {
    var a, b := TrimIsSlice(raw, IsJsSpace);
    DropFillersFilters(raw[a..b]);
    FilterDropsBack(raw, b, Counts());
    FilterDropsFront(raw[..b], a, Counts());
    assert raw[..b][a..] == raw[a..b];
  }

  lemma CleanedKeeps(raw: string) returns (at: seq<nat>)
    ensures StableSort.TakenAt(raw, DropFillers(Trim(raw, IsJsSpace)), at)
    ensures forall i :: 0 <= i < |raw| ==> (i in at <==> raw[i] !in ",_" && !IsJsSpace(raw[i]))
  {
    CleanedIs(raw);
    at := StableSort.FilterTakes(raw, Counts());
  }

  /** No limit is read exactly from a text of nothing but fillers, and is printed as nothing. */
  lemma UnlimitedIff(raw: string)
    ensures ParseShorthand(raw) == Unlimited <==> forall i :: 0 <= i < |raw| ==> raw[i] in ",_" || IsJsSpace(raw[i])
    ensures FormatShorthand(None) == ""
  {
    var at := CleanedKeeps(raw);
    assert forall k :: 0 <= k < |at| ==> at[k] in at;
    if exists i :: 0 <= i < |raw| && raw[i] !in ",_" && !IsJsSpace(raw[i]) {
      var i :| 0 <= i < |raw| && raw[i] !in ",_" && !IsJsSpace(raw[i]);
      assert i in at;
    }
  }

  /** k, M and B, in either case, stand for 10^3, 10^6 and 10^9. */
  lemma UnitsMean(q: nat, letter: char, unit: nat)
    requires (letter in "kK" && unit == 1000) || (letter in "mM" && unit == 1000000) || (letter in "bB" && unit == 1000000000)
    ensures UnitOf(letter) == Some(unit) && ParseShorthand(Numeral(q) + [letter]) == Safe(Times(q, unit))
  {
    ParseDigitsWithUnit(q, letter);
  }

  /** Rounding is to the nearest whole number, half up. */
  lemma RoundedIsNearest(digits: nat, places: nat, mult: nat)
    ensures var (v, p) := (Rounded(digits, places, mult), Pow10(places));
      Times(v, 2 * p) <= 2 * Times(digits, mult) + p < Times(v, 2 * p) + 2 * p
  {
    var (a, b) := (2 * Times(digits, mult) + Pow10(places), 2 * Pow10(places));
    assert a == a / b * b + a % b;
  }

  lemma SplitDecimal(whole: string, fraction: string)
    requires AllDigits(whole) && AllDigits(fraction)
    ensures Split(whole + "." + fraction, '.') == [whole, fraction] && Plain(whole + "." + fraction)
  {
    DigitsArePlain(whole);
    DigitsArePlain(fraction);
    SplitAcross(whole, '.', fraction);
    SplitWithoutSeparator(whole, '.');
    SplitWithoutSeparator(fraction, '.');
    assert [whole] + [fraction] == [whole, fraction];
  }

  lemma BodyOfTwo(body: string, whole: string, fraction: string, mult: nat)
    requires Split(body, '.') == [whole, fraction] && whole != "" && AllDigits(whole) && fraction != "" && AllDigits(fraction)
    ensures AllDigits(whole + fraction)
    ensures ParseBody(body, mult) == Safe(Rounded(NumeralValue(whole + fraction), |fraction|, mult))
  {
  }

  /** Digits with a point in them are the digits over a power of ten, times the unit, rounded. */
  lemma DecimalReads(whole: string, fraction: string, suffix: char)
    requires whole != "" && AllDigits(whole) && fraction != "" && AllDigits(fraction) && UnitOf(suffix).Some?
    ensures AllDigits(whole + fraction)
    ensures ParseShorthand(whole + "." + fraction + [suffix]) ==
      Safe(Rounded(NumeralValue(whole + fraction), |fraction|, UnitOf(suffix).value))
  {
    SplitDecimal(whole, fraction);
    ParseWithUnit(whole + "." + fraction, suffix);
    BodyOfTwo(whole + "." + fraction, whole, fraction, UnitOf(suffix).value);
  }

  /** Nothing but digits, with a point and digits after it or without, is read as a number. */
  lemma OnlyDecimalsAreRead(body: string, mult: nat) returns (whole: string, fraction: string)
    requires ParseBody(body, mult) != Invalid
    ensures whole != "" && AllDigits(whole) && AllDigits(fraction)
    ensures body == if fraction == "" then whole else whole + "." + fraction
  {
    var parts := Split(body, '.');
    JoinSplit(body, '.');
    whole := parts[0];
    fraction := if |parts| == 2 then parts[1] else "";
    if |parts| == 2 { assert parts[1..] == [parts[1]]; }
  }

  // ----- What printing and parsing promise -----

  /** Parsing never yields a number outside the safe range. */
  lemma ParsedIsSafe(raw: string)
    ensures ParseShorthand(raw).Tokens? ==> 1 <= ParseShorthand(raw).n <= 9007199254740991
  {
  }

  lemma NoUnitAfterDigit(s: string)
    requires s != "" && AllDigits(s)
    ensures UnitOf(s[|s| - 1]).None?
  {
  }

  lemma ParseNumeral(n: nat)
    ensures ParseShorthand(Numeral(n)) == Safe(n)
  {
    var s := Numeral(n);
    DigitsArePlain(s);
    PlainStays(s);
    NoUnitAfterDigit(s);
    ParseWhole(s, 1);
    NumeralRoundTrip(n);
  }

  /** Saving what is shown keeps the limit: parsing what was printed gives the number back, for
      exactly the numbers from 1 to the largest safe integer. */
  lemma FormatIsLosslessIff(n: nat)
    ensures ParseShorthand(FormatShorthand(Some(n))) == Tokens(n) <==> 1 <= n <= 9007199254740991
  {
    ParseNumeral(n);
    ParsedIsSafe(FormatShorthand(Some(n)));
  }

  lemma UnitsAgree(n: nat)
    requires UnitFor(n).Some?
    ensures var (base, suffix) := UnitFor(n).value;
      base >= 1000 && base % 1000 == 0 && n >= base && UnitOf(suffix) == Some(base)
  {
  }

  lemma ParseDigitsWithUnit(q: nat, suffix: char)
    requires UnitOf(suffix).Some?
    ensures ParseShorthand(Numeral(q) + [suffix]) == Safe(Times(q, UnitOf(suffix).value))
  {
    NumeralRoundTrip(q);
    DigitsArePlain(Numeral(q));
    ParseWithUnit(Numeral(q), suffix);
    ParseWhole(Numeral(q), UnitOf(suffix).value);
  }

  /** A whole number of units. */
  lemma ParseWholeCandidate(n: nat, base: nat, suffix: char)
    requires base > 0 && n % base == 0 && UnitOf(suffix) == Some(base)
    ensures ParseShorthand(Candidate(n, base, suffix)) == Safe(n)
  {
    ParseDigitsWithUnit(n / base, suffix);
    WholeQuotient(n, base);
  }

  lemma WholeQuotient(n: nat, base: nat)
    requires base > 0 && n % base == 0
    ensures Times(n / base, base) == n
  {
  }

  /** Otherwise two decimal places, which stand for a whole number of tokens. */
  lemma ParseFixedCandidate(n: nat, base: nat, suffix: char)
    requires base >= 1000 && base % 1000 == 0 && n % base != 0 && UnitOf(suffix) == Some(base)
    ensures ParseShorthand(Candidate(n, base, suffix)) == Safe(Times(Hundredths(n, base), base / 100))
  {
    var h := Hundredths(n, base);
    StrippedIsPlain(h);
    ParseWithUnit(StripZeros(Fixed2(h)), suffix);
    var c := base / 100;
    assert base == 100 * c;
    assert h * (100 * c) == 100 * (h * c);
    ParseStripped(h, base, Times(h, c));
  }

  /** The rounded hundredths are exact precisely when there is nothing to round. */
  lemma HundredthsExactIff(n: nat, c: nat)
    requires c > 0
    ensures Times(Hundredths(n, 100 * c), c) == n <==> n % c == 0
  {
    var h := Hundredths(n, 100 * c);
    if n % c == 0 {
      var q := n / c;
      assert n == q * c;
      assert 200 * n + 100 * c == q * (2 * (100 * c)) + 100 * c;
      QuotientIs(200 * n + 100 * c, 2 * (100 * c), q, 100 * c);
      assert h == q;
    }
    if h * c == n {
      MultipleHasNoRemainder(h, c);
    }
  }

  lemma MultipleHasNoRemainder(h: nat, c: nat)
    requires c > 0
    ensures Times(h, c) % c == 0
  {
    QuotientIs(Times(h, c), c, h, 0);
    assert h * c == h * c / c * c + h * c % c;
  }

  lemma HundredMultiple(n: nat, c: nat)
    requires c > 0
    ensures n % c == 0 <==> (100 * n) % (100 * c) == 0
  {
    var q, r := n / c, n % c;
    assert n == q * c + r;
    assert 100 * n == q * (100 * c) + 100 * r;
    RemainderIs(100 * n, 100 * c, q, 100 * r);
  }

  lemma WholeIsHundredMultiple(n: nat, base: nat)
    requires base > 0 && n % base == 0
    ensures (100 * n) % base == 0
  {
    var q := n / base;
    assert n == q * base;
    assert 100 * n == (100 * q) * base + 0;
    RemainderIs(100 * n, base, 100 * q, 0);
  }

  /** The short form is used exactly when two decimals of the largest unit that fits say the
      number precisely; otherwise all digits are printed. */
  lemma {:induction false} ShortFormIff(n: nat)
    requires 1 <= n <= MAX_SAFE && UnitFor(n).Some?
    ensures var (base, suffix) := UnitFor(n).value;
      FormatShorthand(Some(n)) ==
        if (100 * n) % base == 0 then Candidate(n, base, suffix) else Numeral(n)
  {
    UnitsAgree(n);
    var (base, suffix) := UnitFor(n).value;
    if n % base == 0 {
      ParseWholeCandidate(n, base, suffix);
      WholeIsHundredMultiple(n, base);
    } else {
      var c := base / 100;
      assert base == 100 * c;
      ParseFixedCandidate(n, base, suffix);
      HundredthsExactIff(n, c);
      HundredMultiple(n, c);
    }
  }

  // ----- The text that is printed -----

  /** The decimals of d hundredths: none, one or two digits, no zero at the end. */
  function Decimals(d: nat): string
    requires d < 100
  {
    if d == 0 then "" else if d % 10 == 0 then "." + [DigitChar(d / 10)] else "." + [DigitChar(d / 10), DigitChar(d % 10)]
  }

  lemma WholeHundredths(n: nat, c: nat, h: nat)
    requires c > 0 && n == Times(h, c)
    ensures n % c == 0 && Hundredths(n, 100 * c) == h
  {
    RemainderIs(n, c, h, 0);
    HundredthsExactIff(n, c);
    SameFactor(Hundredths(n, 100 * c), h, c);
  }

  lemma WholeUnits(n: nat, c: nat, q: nat, d: nat)
    requires c > 0 && d < 100 && n == Times(100 * q + d, c)
    ensures n / (100 * c) == q && (n % (100 * c) == 0 <==> d == 0)
  {
    assert n == q * (100 * c) + d * c && d * c < 100 * c;
    QuotientIs(n, 100 * c, q, d * c);
    RemainderIs(n, 100 * c, q, d * c);
    if d > 0 { assert d * c >= c; }
  }

  lemma DecimalsAre(q: string, d: nat)
    requires d < 100
    ensures q + Decimals(d) ==
      if d == 0 then q else if d % 10 == 0 then q + "." + [DigitChar(d / 10)] else q + "." + TwoDigits(d)
  {
    if d == 0 {
      assert q + "" == q;
    } else if d % 10 == 0 {
      Assoc(q, ".", [DigitChar(d / 10)]);
    } else {
      Assoc(q, ".", TwoDigits(d));
    }
  }

  lemma TextOfHundredths(h: nat, q: nat, d: nat)
    requires h / 100 == q && h % 100 == d
    ensures StripZeros(Fixed2(h)) == Numeral(q) + Decimals(d)
  {
    StrippedShape(h);
    DecimalsAre(Numeral(q), d);
  }

  lemma CandidateText(n: nat, c: nat, q: nat, d: nat, suffix: char)
    requires c > 0 && d < 100 && n == Times(100 * q + d, c)
    ensures Candidate(n, 100 * c, suffix) == Numeral(q) + Decimals(d) + [suffix]
  {
    WholeHundredths(n, c, 100 * q + d);
    WholeUnits(n, c, q, d);
    TextOfHundredths(100 * q + d, q, d);
    if d == 0 { assert Numeral(q) + "" == Numeral(q); }
  }

  /** k, M or B for the largest of the three units not exceeding the number; c is a hundredth of it. */
  ghost predicate IsUnitFor(n: nat, c: nat, letter: char) {
    || (c == 10 && letter == 'k' && 1000 <= n < 1000000)
    || (c == 10000 && letter == 'M' && 1000000 <= n < 1000000000)
    || (c == 10000000 && letter == 'B' && 1000000000 <= n)
  }

  lemma UnitIs(n: nat, c: nat, letter: char)
    requires IsUnitFor(n, c, letter)
    ensures UnitFor(n) == Some((100 * c, letter))
  {
  }

  lemma ShortFormOf(n: nat, c: nat, letter: char)
    requires n <= MAX_SAFE && IsUnitFor(n, c, letter)
    ensures FormatShorthand(Some(n)) == if n % c == 0 then Candidate(n, 100 * c, letter) else Numeral(n)
  {
    UnitIs(n, c, letter);
    HundredMultiple(n, c);
    ShortFormIff(n);
  }

  /** What is printed for q units and d hundredths of one: both, without needless zeros. */
  lemma PrintedText(n: nat, c: nat, letter: char, q: nat, d: nat)
    requires n <= MAX_SAFE && IsUnitFor(n, c, letter) && d < 100 && n == Times(100 * q + d, c)
    ensures FormatShorthand(Some(n)) == Numeral(q) + Decimals(d) + [letter]
  {
    WholeHundredths(n, c, 100 * q + d);
    ShortFormOf(n, c, letter);
    CandidateText(n, c, q, d, letter);
  }

  /** All digits are printed for small numbers and for those with more decimals. */
  lemma PrintedDigits(n: nat, c: nat, letter: char)
    requires 1 <= n <= MAX_SAFE && (n < 1000 || (IsUnitFor(n, c, letter) && n % c != 0))
    ensures FormatShorthand(Some(n)) == Numeral(n)
  {
    if n >= 1000 { ShortFormOf(n, c, letter); }
  }

  lemma SameFactor(a: nat, b: nat, c: nat)
    requires c > 0 && Times(a, c) == Times(b, c)
    ensures a == b
  {
    assert (a - b) * c == 0;
  }
}
