/** The few Python string operations the redaction code relies on: `str(n)`
    for a non-negative integer, the `{:03d}` zero padding, `startswith`,
    `endswith`, the `in` substring test, `str.replace` and ASCII `lower`. */
module Strings {

  // ---------------------------------------------------------------------------
  // Decimal rendering of naturals, as Python's str(n) and f"{n:0Wd}" for n >= 0
  // ---------------------------------------------------------------------------

  predicate IsDigit(c: char) {
    '0' <= c <= '9'
  }

  predicate AllDigits(s: string) {
    forall i :: 0 <= i < |s| ==> IsDigit(s[i])
  }

  function DigitChar(d: nat): (c: char)
    requires d < 10
    ensures IsDigit(c)
    ensures (c as int) - ('0' as int) == d
  {
    ((d + '0' as int) as char)
  }

  function DigitValue(c: char): (d: nat)
    requires IsDigit(c)
    ensures d < 10
  {
    (c as int) - ('0' as int)
  }

  /** Python's str(n) for n >= 0: the shortest decimal numeral, no sign and no
      leading zero (except for 0 itself). */
  function NatToString(n: nat): (s: string)
    ensures |s| >= 1 && AllDigits(s)
    ensures (|s| == 1) <==> (n < 10)
    ensures n >= 1 ==> s[0] != '0'
    decreases n
  {
    if n < 10 then [DigitChar(n)] else NatToString(n / 10) + [DigitChar(n % 10)]
  }

  /** The value of a numeral, read most significant digit first. */
  function DecimalValue(s: string): nat
    requires AllDigits(s)
  {
    if s == [] then 0 else 10 * DecimalValue(s[..|s| - 1]) + DigitValue(s[|s| - 1])
  }

  /** Reading back the numeral str(n) gives n. */
  lemma {:induction false} NatToStringRoundTrip(n: nat)
    ensures DecimalValue(NatToString(n)) == n
    decreases n
  {
    var s := NatToString(n);
    if n >= 10 {
      NatToStringRoundTrip(n / 10);
      assert s[..|s| - 1] == NatToString(n / 10);
    }
  }

  /** str is injective on naturals, so numbering records 1, 2, 3, ... by
      their decimal string never produces the same id twice. */
  lemma NatToStringInjective(a: nat, b: nat)
    requires NatToString(a) == NatToString(b)
    ensures a == b
  {
    NatToStringRoundTrip(a);
    NatToStringRoundTrip(b);
  }

  function Zeros(k: nat): (s: string)
    ensures |s| == k && forall i :: 0 <= i < k ==> s[i] == '0'
  {
    seq(k, _ => '0')
  }

  /** Left padding with '0' to at least `width` characters, as the format
      specification `0<width>d` does for a non-negative integer. */
  function ZeroPad(s: string, width: nat): string {
    if |s| >= width then s else Zeros(width - |s|) + s
  }

  /** Leading zeros do not change the value of a numeral. */
  lemma {:induction false} LeadingZerosValue(k: nat, s: string)
    requires AllDigits(s)
    ensures AllDigits(Zeros(k) + s)
    ensures DecimalValue(Zeros(k) + s) == DecimalValue(s)
    decreases |s|
  {
    var z := Zeros(k) + s;
    if s == [] {
      assert z == Zeros(k);
      ZerosValue(k);
    } else {
      assert z[..|z| - 1] == Zeros(k) + s[..|s| - 1];
      LeadingZerosValue(k, s[..|s| - 1]);
    }
  }

  lemma {:induction false} ZerosValue(k: nat)
    ensures AllDigits(Zeros(k))
    ensures DecimalValue(Zeros(k)) == 0
  {
    if k > 0 {
      assert Zeros(k)[..k - 1] == Zeros(k - 1);
      ZerosValue(k - 1);
    }
  }

  /** The zero-padded numeral of n >= 1 has at least `width` digits, pads only
      with zeros, and reads back as n. */
  lemma ZeroPadNumeral(n: nat, width: nat)
    requires n >= 1
    ensures AllDigits(ZeroPad(NatToString(n), width))
    ensures |ZeroPad(NatToString(n), width)| >= width
    ensures DecimalValue(ZeroPad(NatToString(n), width)) == n
  {
    var s := NatToString(n);
    NatToStringRoundTrip(n);
    if |s| < width {
      LeadingZerosValue(width - |s|, s);
    }
  }

  /** The number of '0' characters at the front of s. */
  function LeadingZeroCount(s: string): nat
    decreases |s|
  {
    if s != [] && s[0] == '0' then 1 + LeadingZeroCount(s[1..]) else 0
  }

  lemma {:induction false} LeadingZeroCountOfPad(k: nat, s: string)
    requires |s| >= 1 && s[0] != '0'
    ensures LeadingZeroCount(Zeros(k) + s) == k
  {
    if k > 0 {
      assert (Zeros(k) + s)[1..] == Zeros(k - 1) + s;
      LeadingZeroCountOfPad(k - 1, s);
    } else {
      assert Zeros(k) + s == s;
    }
  }

  /** Padding numerals without leading zeros is injective. */
  lemma ZeroPadInjective(s1: string, s2: string, width: nat)
    requires |s1| >= 1 && |s2| >= 1 && s1[0] != '0' && s2[0] != '0'
    requires ZeroPad(s1, width) == ZeroPad(s2, width)
    ensures s1 == s2
  {
    var z1 := if |s1| >= width then 0 else width - |s1|;
    var z2 := if |s2| >= width then 0 else width - |s2|;
    var p := ZeroPad(s1, width);
    assert p == Zeros(z1) + s1;
    assert p == Zeros(z2) + s2;
    LeadingZeroCountOfPad(z1, s1);
    LeadingZeroCountOfPad(z2, s2);
    assert s1 == p[z1..];
  }

  // ---------------------------------------------------------------------------
  // Prefix, suffix and substring tests
  // ---------------------------------------------------------------------------

  predicate StartsWith(s: string, prefix: string) {
    |prefix| <= |s| && s[..|prefix|] == prefix
  }

  predicate EndsWith(s: string, suffix: string) {
    |suffix| <= |s| && s[|s| - |suffix|..] == suffix
  }

  /** Concatenation regrouped. */
  lemma ConcatAssoc<T>(a: seq<T>, b: seq<T>, c: seq<T>)
    ensures a + b + c == a + (b + c)
  {
  }

  predicate Lacks(s: string, c: char) {
    forall i :: 0 <= i < |s| ==> s[i] != c
  }

  lemma LacksConcat(a: string, b: string, c: char)
    requires Lacks(a, c) && Lacks(b, c)
    ensures Lacks(a + b, c)
  {
  }

  lemma LacksSlice(s: string, i: nat, j: nat, c: char)
    requires Lacks(s, c) && i <= j <= |s|
    ensures Lacks(s[i..j], c)
  {
  }

  /** The index of the first c in s, or |s| when there is none. */
  function FindChar(s: string, c: char): (i: nat)
    ensures i <= |s|
    decreases |s|
  {
    if s == [] then 0 else if s[0] == c then 0 else 1 + FindChar(s[1..], c)
  }

  /** The first c in a + [c] + b is the one after a, when a has none. */
  lemma {:induction false} FindCharAfter(a: string, c: char, b: string)
    requires Lacks(a, c)
    ensures FindChar(a + [c] + b, c) == |a|
    decreases |a|
  {
    if a != [] {
      assert (a + [c] + b)[1..] == a[1..] + [c] + b;
      FindCharAfter(a[1..], c, b);
    }
  }

  /** Python's `sub in s`. */
  predicate Contains(s: string, sub: string)
    decreases |s|
  {
    StartsWith(s, sub) || (s != [] && Contains(s[1..], sub))
  }

  /** A text contains whatever it has in its middle. */
  lemma {:induction false} ContainsMiddle(a: string, b: string, c: string)
    ensures Contains(a + b + c, b)
    decreases |a|
  {
    if a == [] {
      assert a + b + c == b + c;
      assert (b + c)[..|b|] == b;
    } else {
      assert (a + b + c)[1..] == a[1..] + b + c;
      ContainsMiddle(a[1..], b, c);
    }
  }

  // ---------------------------------------------------------------------------
  // Python's str.replace(pat, rep): leftmost, non-overlapping, one pass
  // ---------------------------------------------------------------------------

  /** `s.replace(pat, rep)`. With an empty `pat`, Python inserts `rep` before
      every character and at the end. */
  function Replace(s: string, pat: string, rep: string): string
    decreases |s|
  {
    if |pat| == 0 then
      if s == [] then rep else rep + [s[0]] + Replace(s[1..], pat, rep)
    else if StartsWith(s, pat) then
      rep + Replace(s[|pat|..], pat, rep)
    else if s == [] then
      []
    else
      [s[0]] + Replace(s[1..], pat, rep)
  }

  /** Replacing a string that does not occur changes nothing. */
  lemma {:induction false} ReplaceAbsent(s: string, pat: string, rep: string)
    requires |pat| > 0 && !Contains(s, pat)
    ensures Replace(s, pat, rep) == s
    decreases |s|
  {
    if s != [] {
      ReplaceAbsent(s[1..], pat, rep);
      assert s == [s[0]] + s[1..];
    }
  }

  /** A leading occurrence of `pat` is replaced and scanning resumes after it. */
  lemma ReplaceAfterPrefix(pat: string, rest: string, rep: string)
    requires |pat| > 0
    ensures Replace(pat + rest, pat, rep) == rep + Replace(rest, pat, rep)
  {
    var s := pat + rest;
    assert StartsWith(s, pat);
    assert s[|pat|..] == rest;
  }

  // ---------------------------------------------------------------------------
  // ASCII lower-casing
  // ---------------------------------------------------------------------------

  function LowerChar(c: char): char {
    if 'A' <= c <= 'Z' then (c as int + 32) as char else c
  }

  /** `s.lower()` restricted to ASCII letters. */
  function Lower(s: string): (r: string)
    ensures |r| == |s|
    ensures forall i :: 0 <= i < |s| ==> r[i] == LowerChar(s[i])
  {
    seq(|s|, i requires 0 <= i < |s| => LowerChar(s[i]))
  }

  /** `filename.lower().endswith('.pdf')` accepts exactly the names whose
      last four characters are a dot and the letters p, d, f in either case. */
  lemma LowerEndsWithPdf(f: string)
    ensures EndsWith(Lower(f), ".pdf")
            <==> |f| >= 4 && f[|f| - 4] == '.' && f[|f| - 3] in "pP" && f[|f| - 2] in "dD" && f[|f| - 1] in "fF"
  {
    var n := |f|;
    if n >= 4 {
      var l := Lower(f);
      assert l[n - 4..] == [l[n - 4], l[n - 3], l[n - 2], l[n - 1]];
      assert ".pdf" == ['.', 'p', 'd', 'f'];
    }
  }
}
