/** String primitives the PHP source takes from its runtime: `str_replace`
    of separators, decimal rendering and `intval`, `str_pad`, the byte order
    of string comparison, and the ASCII case folding of `stripos`. */
module Text {

  predicate IsDigit(c: char) { '0' <= c <= '9' }

  predicate AllDigits(s: string) {
    forall i | 0 <= i < |s| :: IsDigit(s[i])
  }

  function DigitValue(c: char): nat
    requires IsDigit(c)
  {
    c as int - '0' as int
  }

  function DigitChar(d: nat): (c: char)
    requires d < 10
    ensures IsDigit(c) && DigitValue(c) == d
  {
    ('0' as int + d) as char
  }

  // ---------------------------------------------------------------------
  // Separator stripping: str_replace(array('-', ' '), '', s)

  predicate IsSeparator(c: char) { c == '-' || c == ' ' }

  /** `s` with every '-' and every space removed, other characters in order. */
  function StripSeparators(s: string): (r: string)
    ensures |r| <= |s|
    ensures forall i | 0 <= i < |r| :: !IsSeparator(r[i])
  {
    if s == [] then []
    else (if IsSeparator(s[0]) then [] else [s[0]]) + StripSeparators(s[1..])
  }

  /** Stripping works character by character: it distributes over concatenation. */
  lemma {:induction false} StripConcat(a: string, b: string)
    ensures StripSeparators(a + b) == StripSeparators(a) + StripSeparators(b)
  {
    if a == [] {
      assert a + b == b;
    } else {
      assert (a + b)[0] == a[0] && (a + b)[1..] == a[1..] + b;
      StripConcat(a[1..], b);
    }
  }

  /** A string without separators is left unchanged. */
  lemma {:induction false} StripWithoutSeparators(s: string)
    requires forall i | 0 <= i < |s| :: !IsSeparator(s[i])
    ensures StripSeparators(s) == s
  {
    if s != [] {
      StripWithoutSeparators(s[1..]);
    }
  }

  /** Stripping twice is stripping once. */
  lemma StripIdempotent(s: string)
    ensures StripSeparators(StripSeparators(s)) == StripSeparators(s)
  {
    StripWithoutSeparators(StripSeparators(s));
  }

  // ---------------------------------------------------------------------
  // Decimal numbers

  /** The number a string of decimal digits denotes (leading zeros allowed). */
  function DigitsValue(s: string): nat
    requires AllDigits(s)
  {
    if s == [] then 0 else DigitsValue(s[..|s| - 1]) * 10 + DigitValue(s[|s| - 1])
  }

  /** The decimal rendering PHP gives a non-negative integer. */
  function NatToString(n: nat): (r: string)
    ensures 1 <= |r| && AllDigits(r)
    ensures r[0] != '0' || r == "0"
    ensures DigitsValue(r) == n
  {
    if n < 10 then [DigitChar(n)]
    else
      var prefix := NatToString(n / 10);
      var r := prefix + [DigitChar(n % 10)];
      assert r[..|r| - 1] == prefix;
      r
  }

  function Repeat(c: char, k: nat): (r: string)
    ensures |r| == k && forall i | 0 <= i < k :: r[i] == c
  {
    if k == 0 then [] else [c] + Repeat(c, k - 1)
  }

  /** str_pad(s, width, c, STR_PAD_LEFT). */
  function PadLeft(s: string, width: nat, c: char): (r: string)
    ensures |r| == if |s| >= width then |s| else width
    ensures r == Repeat(c, |r| - |s|) + s
  {
    if |s| >= width then (assert Repeat(c, 0) + s == s; s) else Repeat(c, width - |s|) + s
  }

  /** Leading zeros do not change the value of a digit string. */
  lemma {:induction false} LeadingZerosValue(k: nat, s: string)
    requires AllDigits(s)
    ensures AllDigits(Repeat('0', k) + s)
    ensures DigitsValue(Repeat('0', k) + s) == DigitsValue(s)
  {
    var z := Repeat('0', k);
    if s == [] {
      assert z + s == z;
      ZerosValue(k);
    } else {
      var init := s[..|s| - 1];
      assert (z + s)[..|z + s| - 1] == z + init;
      LeadingZerosValue(k, init);
    }
  }

  lemma {:induction false} ZerosValue(k: nat)
    ensures AllDigits(Repeat('0', k)) && DigitsValue(Repeat('0', k)) == 0
  {
    if k > 0 {
      var z := Repeat('0', k);
      assert z[..k - 1] == Repeat('0', k - 1);
      ZerosValue(k - 1);
    }
  }

  /** A number rendered and zero-padded to any width still denotes that number. */
  lemma PaddedNatValue(n: nat, width: nat)
    ensures AllDigits(PadLeft(NatToString(n), width, '0'))
    ensures |PadLeft(NatToString(n), width, '0')| >= width
    ensures DigitsValue(PadLeft(NatToString(n), width, '0')) == n
  {
    var s := NatToString(n);
    LeadingZerosValue(|PadLeft(s, width, '0')| - |s|, s);
  }

  // ---------------------------------------------------------------------
  // intval() of a string

  predicate IsWhitespace(c: char) {
    c == ' ' || c == '\t' || c == '\n' || c == '\r' || c == '\U{B}' || c == '\U{C}'
  }

  function SkipWhitespace(s: string): (r: string)
    ensures |r| <= |s|
    ensures r == s[|s| - |r|..]
    ensures r == [] || !IsWhitespace(r[0])
  {
    if s != [] && IsWhitespace(s[0]) then SkipWhitespace(s[1..]) else s
  }

  /** The longest prefix of `s` made of decimal digits. */
  function LeadingDigits(s: string): (r: string)
    ensures |r| <= |s| && r == s[..|r|] && AllDigits(r)
    ensures |r| == |s| || !IsDigit(s[|r|])
    ensures AllDigits(s) ==> r == s
  {
    if s != [] && IsDigit(s[0]) then [s[0]] + LeadingDigits(s[1..]) else []
  }

  /** PHP's intval() of a string: optional leading whitespace, an optional
      sign, then as many decimal digits as follow; 0 when there are none. */
  function Intval(s: string): (n: int)
    ensures AllDigits(s) ==> n == DigitsValue(s)
    ensures s != [] && s[0] == '-' && AllDigits(s[1..]) ==> n == 0 - DigitsValue(s[1..]) as int
  {
    var t := SkipWhitespace(s);
    if t != [] && t[0] == '-' then 0 - DigitsValue(LeadingDigits(t[1..])) as int
    else if t != [] && t[0] == '+' then DigitsValue(LeadingDigits(t[1..]))
    else DigitsValue(LeadingDigits(t))
  }

  lemma {:induction false} LeadingDigitsOfDigits(s: string)
    requires AllDigits(s)
    ensures LeadingDigits(s) == s
  {
    if s != [] {
      LeadingDigitsOfDigits(s[1..]);
    }
  }

  /** intval() reads back every rendered non-negative number. */
  lemma IntvalOfNatToString(n: nat)
    ensures Intval(NatToString(n)) == n
  {
    var s := NatToString(n);
    assert SkipWhitespace(s) == s;
    LeadingDigitsOfDigits(s);
  }

  /** The decimal rendering PHP gives any integer: a '-' before negatives. */
  function IntToString(i: int): (r: string)
    ensures i >= 0 ==> r == NatToString(i)
    ensures i < 0 ==> r == "-" + NatToString(-i)
  {
    if i < 0 then "-" + NatToString(-i) else NatToString(i)
  }

  /** intval() reads back every rendered integer. */
  lemma IntvalOfIntToString(i: int)
    ensures Intval(IntToString(i)) == i
  {
    if i >= 0 {
      IntvalOfNatToString(i);
    } else {
      var s := NatToString(-i);
      var t := IntToString(i);
      assert SkipWhitespace(t) == t;
      assert t[1..] == s;
      LeadingDigitsOfDigits(s);
    }
  }

  // ---------------------------------------------------------------------
  // Byte-wise string order (PHP's `<` and `>` on non-numeric strings)

  /** `a` sorts strictly before `b` character by character, a proper prefix first. */
  predicate LexLess(a: string, b: string)
    ensures LexLess(a, b) ==> a != b
    ensures a != [] && b != [] && a[0] < b[0] ==> LexLess(a, b)
    decreases |a|
  {
    if b == [] then false
    else if a == [] then true
    else if a[0] != b[0] then a[0] < b[0]
    else LexLess(a[1..], b[1..])
  }

  lemma {:induction false} LexLessIrreflexive(a: string)
    ensures !LexLess(a, a)
  {
    if a != [] {
      LexLessIrreflexive(a[1..]);
    }
  }

  /** Strings of equal length sharing a prefix compare as their remainders do. */
  lemma {:induction false} LexLessCommonPrefix(p: string, a: string, b: string)
    ensures LexLess(p + a, p + b) == LexLess(a, b)
    decreases |p|
  {
    if p == [] {
      assert p + a == a && p + b == b;
    } else {
      assert (p + a)[0] == p[0] == (p + b)[0];
      assert (p + a)[1..] == p[1..] + a;
      assert (p + b)[1..] == p[1..] + b;
      LexLessCommonPrefix(p[1..], a, b);
    }
  }

  /** Between strings of equal length, the first differing character decides. */
  lemma LexLessFirstDifference(a: string, b: string, x: string, y: string)
    requires |a| == |b| && a != b
    ensures LexLess(a + x, b + y) == LexLess(a, b)
    decreases |a|
  {
    assert a != [];
    if a[0] == b[0] {
      assert (a + x)[1..] == a[1..] + x;
      assert (b + y)[1..] == b[1..] + y;
      LexLessFirstDifference(a[1..], b[1..], x, y);
    }
  }

  // ---------------------------------------------------------------------
  // stripos(haystack, needle) !== false, with ASCII case folding

  function Lower(c: char): char {
    if 'A' <= c <= 'Z' then (c as int + 32) as char else c
  }

  function LowerString(s: string): (r: string)
    ensures |r| == |s| && forall i | 0 <= i < |s| :: r[i] == Lower(s[i])
  {
    seq(|s|, i requires 0 <= i < |s| => Lower(s[i]))
  }

  /** `needle` occurs in `haystack` at position 0 or further on (the empty
      needle occurs everywhere). */
  predicate Contains(haystack: string, needle: string)
    decreases |haystack|
  {
    (|needle| <= |haystack| && haystack[..|needle|] == needle)
    || (haystack != [] && Contains(haystack[1..], needle))
  }

  /** An occurrence fits inside the haystack. */
  lemma {:induction false} ContainsFits(haystack: string, needle: string)
    ensures Contains(haystack, needle) ==> |needle| <= |haystack|
    decreases |haystack|
  {
    if haystack != [] {
      ContainsFits(haystack[1..], needle);
    }
  }

  /** stripos(haystack, needle) !== false. */
  predicate ContainsIgnoringCase(haystack: string, needle: string)
    ensures ContainsIgnoringCase(haystack, needle) ==> |needle| <= |haystack|
    ensures LowerString(haystack) == haystack && LowerString(needle) == needle ==>
      (ContainsIgnoringCase(haystack, needle) <==> Contains(haystack, needle))
  {
    ContainsFits(LowerString(haystack), LowerString(needle));
    Contains(LowerString(haystack), LowerString(needle))
  }

  /** Every exact occurrence is also a case-insensitive one. */
  lemma {:induction false} ExactMatchIgnoringCase(haystack: string, needle: string)
    requires Contains(haystack, needle)
    ensures ContainsIgnoringCase(haystack, needle)
    decreases |haystack|
  {
    var lh, ln := LowerString(haystack), LowerString(needle);
    if |needle| <= |haystack| && haystack[..|needle|] == needle {
      assert lh[..|needle|] == ln by {
        forall k | 0 <= k < |needle| ensures lh[..|needle|][k] == ln[k] {
          assert haystack[..|needle|][k] == needle[k];
        }
      }
    } else {
      ExactMatchIgnoringCase(haystack[1..], needle);
      assert LowerString(haystack[1..]) == lh[1..];
    }
  }

  /** The empty query matches every string. */
  lemma EmptyNeedleMatches(haystack: string)
    ensures ContainsIgnoringCase(haystack, "")
  {
    assert LowerString(haystack)[..0] == LowerString("");
  }
}
