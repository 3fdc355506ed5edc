/**
 Strings as the source handles them: trimming, searching, splitting and joining, and
 decimal numerals. Characters are single units.
 */
module Text {
  import opened Wrappers

  // ----- Blank characters -----

  /** The characters that JavaScript's `trim` and the regular expression class \s remove. */
  predicate IsJsSpace(c: char) {
    IsSharedSpace(c) || c as int == 0xFEFF
  }

  /** The characters that Rust's `trim` and `split_whitespace` remove. */
  predicate IsRustSpace(c: char) {
    IsSharedSpace(c) || c as int == 0x85
  }

  /** The blank characters on which both languages agree. */
  predicate IsSharedSpace(c: char) {
    var u := c as int;
    9 <= u <= 13 || u == 0x20 || u == 0xA0 || u == 0x1680 || 0x2000 <= u <= 0x200A
    || u == 0x2028 || u == 0x2029 || u == 0x202F || u == 0x205F || u == 0x3000
  }

  // ----- Trimming -----

  function TrimStart(s: string, p: char -> bool): string {
    if s != [] && p(s[0]) then TrimStart(s[1..], p) else s
  }

  function TrimEnd(s: string, p: char -> bool): string {
    if s != [] && p(s[|s| - 1]) then TrimEnd(s[..|s| - 1], p) else s
  }

  function Trim(s: string, p: char -> bool): string {
    TrimEnd(TrimStart(s, p), p)
  }

  /** Every character of s[from..to] satisfies p. */
  ghost predicate AllBetween(s: string, from: nat, to: nat, p: char -> bool)
    requires to <= |s|
  {
    forall i :: from <= i < to ==> p(s[i])
  }

  lemma {:induction false} TrimStartIsSuffix(s: string, p: char -> bool) returns (k: nat)
    ensures k <= |s| && TrimStart(s, p) == s[k..] && AllBetween(s, 0, k, p)
    ensures k < |s| ==> !p(s[k])
  {
    if s != [] && p(s[0]) {
      var j := TrimStartIsSuffix(s[1..], p);
      k := j + 1;
      assert s[1..][j..] == s[k..];
      assert forall i :: 1 <= i < k ==> s[i] == s[1..][i - 1];
    } else {
      k := 0;
    }
  }

  lemma {:induction false} TrimEndIsPrefix(s: string, p: char -> bool) returns (k: nat)
    ensures k <= |s| && TrimEnd(s, p) == s[..k] && AllBetween(s, k, |s|, p)
    ensures k > 0 ==> !p(s[k - 1])
  {
    if s != [] && p(s[|s| - 1]) {
      var t := s[..|s| - 1];
      k := TrimEndIsPrefix(t, p);
      assert t[..k] == s[..k];
      assert forall i :: 0 <= i < |t| ==> s[i] == t[i];
    } else {
      k := |s|;
      assert s[..k] == s;
    }
  }

  /** Trimming cuts off a blank prefix and a blank suffix, and what stays has no blank end. */
  lemma TrimIsSlice(s: string, p: char -> bool) returns (a: nat, b: nat)
    ensures a <= b <= |s| && Trim(s, p) == s[a..b]
    ensures AllBetween(s, 0, a, p) && AllBetween(s, b, |s|, p)
    ensures a < b ==> !p(s[a]) && !p(s[b - 1])
  {
    a := TrimStartIsSuffix(s, p);
    var t := s[a..];
    var k := TrimEndIsPrefix(t, p);
    b := a + k;
    assert t[..k] == s[a..b];
    assert forall i :: a <= i < |s| ==> s[i] == t[i - a];
  }

  /** There is only one such slice, unless everything is blank. */
  lemma TrimIs(s: string, p: char -> bool, a: nat, b: nat)
    requires a < b <= |s| && AllBetween(s, 0, a, p) && AllBetween(s, b, |s|, p) && !p(s[a]) && !p(s[b - 1])
    ensures Trim(s, p) == s[a..b]
  {
    var x, y := TrimIsSlice(s, p);
    assert x <= a && b <= y;
  }

  /** Blanks around a text with two other ends are what trimming removes. */
  lemma TrimAround(before: string, mid: string, after: string, p: char -> bool)
    requires mid != "" && !p(mid[0]) && !p(mid[|mid| - 1])
    requires AllBetween(before, 0, |before|, p) && AllBetween(after, 0, |after|, p)
    ensures Trim(before + mid + after, p) == mid
  {
    var s := before + mid + after;
    TrimIs(s, p, |before|, |before| + |mid|);
  }

  lemma TrimEndOf(mid: string, after: string, p: char -> bool)
    requires mid != "" && !p(mid[|mid| - 1]) && AllBetween(after, 0, |after|, p)
    ensures TrimEnd(mid + after, p) == mid
  {
    var s := mid + after;
    var k := TrimEndIsPrefix(s, p);
    assert s[|mid| - 1] == mid[|mid| - 1];
    assert forall j :: |mid| <= j < |s| ==> s[j] == after[j - |mid|];
  }

  /** A string trims to nothing exactly when it is blank. */
  lemma TrimEmptyIff(s: string, p: char -> bool)
    ensures Trim(s, p) == "" <==> AllBetween(s, 0, |s|, p)
  {
    var a, b := TrimIsSlice(s, p);
  }

  // ----- Digits -----

  predicate IsDigit(c: char) { '0' <= c <= '9' }

  function DigitValue(c: char): (d: nat)
    requires IsDigit(c)
    ensures d <= 9
  {
    c as int - '0' as int
  }

  function DigitChar(d: nat): (c: char)
    requires d <= 9
    ensures IsDigit(c) && DigitValue(c) == d
  {
    ('0' as int + d) as char
  }

  predicate AllDigits(s: string) {
    forall i :: 0 <= i < |s| ==> IsDigit(s[i])
  }

  /** The decimal numeral of n, without leading zeros. */
  function Numeral(n: nat): (s: string)
    ensures |s| >= 1 && AllDigits(s)
  {
    if n < 10 then [DigitChar(n)] else Numeral(n / 10) + [DigitChar(n % 10)]
  }

  /** The value of a string of digits, leading zeros allowed. */
  function NumeralValue(s: string): nat
    requires AllDigits(s)
  {
    if s == [] then 0 else 10 * NumeralValue(s[..|s| - 1]) + DigitValue(s[|s| - 1])
  }

  lemma {:induction false} NumeralRoundTrip(n: nat)
    ensures NumeralValue(Numeral(n)) == n
  {
    if n >= 10 {
      NumeralRoundTrip(n / 10);
      var s := Numeral(n);
      assert s[..|s| - 1] == Numeral(n / 10);
    }
  }

  /** A numeral has no needless zero in front. */
  lemma {:induction false} NoLeadingZero(n: nat)
    ensures Numeral(n)[0] == '0' <==> n == 0
  {
    if n >= 10 { NoLeadingZero(n / 10); }
  }

  /** Which characters are blank, by code: 24 that both languages trim, and one more for each. */
  lemma BlanksAre(c: char)
    ensures var shared := [9, 10, 11, 12, 13, 32, 160, 5760, 8192, 8193, 8194, 8195, 8196, 8197, 8198, 8199, 8200, 8201,
                           8202, 8232, 8233, 8239, 8287, 12288];
      && (IsJsSpace(c) <==> c as int in shared || c as int == 65279)
      && (IsRustSpace(c) <==> c as int in shared || c as int == 133)
  {
  }

  // ----- Searching -----

  /** pat occurs in s at position i. */
  predicate OccursAt(s: string, pat: string, i: nat) {
    i + |pat| <= |s| && s[i..i + |pat|] == pat
  }

  /** The first position at or after `from` where pat occurs. */
  function IndexOf(s: string, pat: string, from: nat): (r: Option<nat>)
    ensures r.Some? ==> from <= r.value && OccursAt(s, pat, r.value)
    decreases |s| - from
  {
    if from + |pat| > |s| then None
    else if s[from..from + |pat|] == pat then Some(from)
    else IndexOf(s, pat, from + 1)
  }

  /** Any occurrence from `from` on is found, or one before it. */
  lemma {:induction false} IndexOfFinds(s: string, pat: string, from: nat, j: nat)
    requires from <= j && OccursAt(s, pat, j)
    ensures IndexOf(s, pat, from).Some? && IndexOf(s, pat, from).value <= j
    decreases j - from
  {
    if s[from..from + |pat|] != pat { IndexOfFinds(s, pat, from + 1, j); }
  }

  /** A position with an occurrence and none before it is the one found. */
  lemma IndexOfIs(s: string, pat: string, from: nat, k: nat)
    requires from <= k && OccursAt(s, pat, k)
    requires forall j :: from <= j < k ==> !OccursAt(s, pat, j)
    ensures IndexOf(s, pat, from) == Some(k)
  {
    IndexOfFinds(s, pat, from, k);
  }

  // ----- Splitting on a character and joining -----

  /** What one more character in front does to a split. */
  function Prepend(c: char, sep: char, rest: seq<string>): seq<string>
    requires rest != []
  {
    if c == sep then [""] + rest else [[c] + rest[0]] + rest[1..]
  }

  function Split(s: string, sep: char): (parts: seq<string>)
    ensures |parts| >= 1
  {
    if s == [] then [""] else Prepend(s[0], sep, Split(s[1..], sep))
  }

  function Join(parts: seq<string>, sep: char): string {
    if parts == [] then ""
    else if |parts| == 1 then parts[0]
    else parts[0] + [sep] + Join(parts[1..], sep)
  }

  ghost predicate NoneContains(parts: seq<string>, sep: char) {
    forall i :: 0 <= i < |parts| ==> sep !in parts[i]
  }

  lemma {:induction false} SplitPartsLackSeparator(s: string, sep: char)
    ensures NoneContains(Split(s, sep), sep)
  {
    if s != [] {
      SplitPartsLackSeparator(s[1..], sep);
    }
  }

  /** Joining undoes splitting. */
  lemma {:induction false} JoinSplit(s: string, sep: char)
    ensures Join(Split(s, sep), sep) == s
  {
    if s != [] {
      JoinSplit(s[1..], sep);
      var rest := Split(s[1..], sep);
      var parts := Split(s, sep);
      assert parts[1..] == if s[0] == sep then rest else rest[1..];
    }
  }

  /** A separator in the middle splits the two sides independently. */
  lemma {:induction false} SplitAcross(a: string, sep: char, b: string)
    ensures Split(a + [sep] + b, sep) == Split(a, sep) + Split(b, sep)
  {
    var s := a + [sep] + b;
    if a == [] {
      assert s[1..] == b;
    } else {
      SplitAcross(a[1..], sep, b);
      assert s[1..] == a[1..] + [sep] + b && s[0] == a[0];
      PrependAcross(a[0], sep, Split(a[1..], sep), Split(b, sep));
    }
  }

  lemma PrependAcross(c: char, sep: char, left: seq<string>, right: seq<string>)
    requires left != []
    ensures Prepend(c, sep, left + right) == Prepend(c, sep, left) + right
  {
  }

  lemma {:induction false} SplitWithoutSeparator(s: string, sep: char)
    requires sep !in s
    ensures Split(s, sep) == [s]
  {
    if s != [] {
      SplitWithoutSeparator(s[1..], sep);
      assert [s[0]] + s[1..] == s;
    }
  }

  /** Splitting undoes joining, provided there is a part and no part contains the separator. */
  lemma {:induction false} SplitJoin(parts: seq<string>, sep: char)
    requires parts != [] && NoneContains(parts, sep)
    ensures Split(Join(parts, sep), sep) == parts
  {
    SplitWithoutSeparator(parts[0], sep);
    if |parts| > 1 {
      SplitJoin(parts[1..], sep);
      SplitAcross(parts[0], sep, Join(parts[1..], sep));
      assert parts == [parts[0]] + parts[1..];
    }
  }
}
