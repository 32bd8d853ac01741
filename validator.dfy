/** The field checks of classes/utils/Validator.php: each accepts and
    normalises one value or fails with its own error kind. The clock that
    `validateYear` reads is the `currentYear` parameter. */
module Validator {
  import opened Outcomes
  import opened Text
  import opened Dates

  /** The subject a PCRE pattern anchored with `$` (no D modifier) is matched
      against: `$` also matches just before one final newline. */
  function BeforeFinalNewline(s: string): (t: string)
    ensures t == s || (s == t + "\n")
  {
    if s != [] && s[|s| - 1] == '\n' then s[..|s| - 1] else s
  }

  /** `/^\d{13}$/` */
  predicate IsIsbnPattern(s: string) {
    var t := BeforeFinalNewline(s);
    |t| == 13 && AllDigits(t)
  }

  /** `/^P\d{3,}$/` for the prefix letter `P`. */
  predicate IsIdPattern(s: string, prefix: char) {
    var t := BeforeFinalNewline(s);
    |t| >= 4 && t[0] == prefix && AllDigits(t[1..])
  }

  /** validateISBN: drops every '-' and space, then demands thirteen digits
      (optionally followed by the one newline PCRE's `$` lets through). */
  function ValidateISBN(isbn: string): (r: Result<string>)
    ensures r.Ok? <==> IsIsbnPattern(StripSeparators(isbn))
    ensures r.Ok? ==> r.value == StripSeparators(isbn)
    ensures r.Ok? ==> forall i | 0 <= i < |r.value| :: r.value[i] != '-' && r.value[i] != ' '
    ensures r.Err? ==> r.error == InvalidISBN
  {
    var stripped := StripSeparators(isbn);
    if IsIsbnPattern(stripped) then Ok(stripped) else Err(InvalidISBN)
  }

  /** Validating an accepted ISBN again accepts it unchanged. */
  lemma ValidateISBNIdempotent(isbn: string)
    requires ValidateISBN(isbn).Ok?
    ensures ValidateISBN(ValidateISBN(isbn).value) == ValidateISBN(isbn)
  {
    StripIdempotent(isbn);
  }

  lemma DigitsHaveNoSeparators(s: string)
    requires AllDigits(s)
    ensures StripSeparators(s) == s
  {
    StripWithoutSeparators(s);
  }

  lemma StripAroundSeparator(a: string, b: string, sep: char)
    requires AllDigits(a) && AllDigits(b) && IsSeparator(sep)
    ensures StripSeparators(a + [sep] + b) == a + b
  {
    var tail := [sep] + b;
    assert tail[0] == sep && tail[1..] == b;
    DigitsHaveNoSeparators(b);
    assert StripSeparators(tail) == b;
    StripConcat(a, tail);
    DigitsHaveNoSeparators(a);
    assert a + [sep] + b == a + tail;
  }

  /** A separator between digit groups is dropped: the digits alone decide. */
  lemma SeparatedIsbn(a: string, b: string, sep: char)
    requires AllDigits(a) && AllDigits(b) && IsSeparator(sep)
    ensures ValidateISBN(a + [sep] + b).Ok? <==> |a| + |b| == 13
    ensures ValidateISBN(a + [sep] + b).Ok? ==> ValidateISBN(a + [sep] + b).value == a + b
  {
    var t := a + b;
    StripAroundSeparator(a, b, sep);
    assert AllDigits(t) by {
      forall i | 0 <= i < |t| ensures IsDigit(t[i]) {
        if i >= |a| { assert t[i] == b[i - |a|]; }
      }
    }
    assert BeforeFinalNewline(t) == t by {
      if t != [] { assert IsDigit(t[|t| - 1]); }
    }
  }

  /** What `$` admits: thirteen digits and one final newline pass, the newline kept. */
  lemma IsbnWithFinalNewline(digits: string)
    requires AllDigits(digits) && |digits| == 13
    ensures ValidateISBN(digits + "\n") == Ok(digits + "\n")
  {
    StripWithoutSeparators(digits + "\n");
    assert (digits + "\n")[..13] == digits;
  }

  /** A stand-in for FILTER_VALIDATE_EMAIL: one '@' with text on both
      sides and no whitespace. */
  predicate IsEmailAddress(s: string) {
    exists i | 0 < i < |s| - 1 :: s[i] == '@'
      && forall j | 0 <= j < |s| :: (j != i ==> s[j] != '@') && !IsWhitespace(s[j])
  }

  function ValidateEmail(email: string): (r: Result<string>)
    ensures r.Ok? ==> r.value == email && '@' in email
    ensures r.Err? ==> r.error == InvalidEmail
  {
    if IsEmailAddress(email) then Ok(email) else Err(InvalidEmail)
  }

  /** validateYear: intval of the input, accepted from 1000 up to ten years
      after the current year. */
  function ValidateYear(year: string, currentYear: int): (r: Result<int>)
    ensures r.Ok? <==> 1000 <= Intval(year) <= currentYear + 10
    ensures r.Ok? ==> r.value == Intval(year)
    ensures r.Err? ==> r.error == InvalidYear
  {
    var y := Intval(year);
    if y < 1000 || y > currentYear + 10 then Err(InvalidYear) else Ok(y)
  }

  /** Every year in the accepted window passes when written in decimal, and
      reads back as itself. */
  lemma YearReadsBack(y: nat, currentYear: int)
    requires 1000 <= y <= currentYear + 10
    ensures ValidateYear(NatToString(y), currentYear) == Ok(y)
  {
    IntvalOfNatToString(y);
  }

  /** Copy counts written in decimal read back as themselves. */
  lemma CopiesReadBack(n: nat)
    requires n >= 1
    ensures ValidateCopies(NatToString(n)) == Ok(n)
  {
    IntvalOfNatToString(n);
  }

  /** validateCopies: intval of the input, at least one. */
  function ValidateCopies(copies: string): (r: Result<int>)
    ensures r.Ok? <==> Intval(copies) >= 1
    ensures r.Ok? ==> r.value == Intval(copies) && r.value >= 1
    ensures r.Err? ==> r.error == InvalidCopies
  {
    var c := Intval(copies);
    if c < 1 then Err(InvalidCopies) else Ok(c)
  }

  /** PHP's empty() of a string: the empty string and "0". */
  predicate IsEmpty(value: string) {
    value == "" || value == "0"
  }

  /** validateRequired: the value itself unless PHP considers it empty. */
  function ValidateRequired(value: string, field: string): (r: Result<string>)
    ensures r.Ok? <==> value != "" && value != "0"
    ensures r.Ok? ==> r.value == value
    ensures r.Err? ==> r.error == Required(field)
  {
    if IsEmpty(value) then Err(Required(field)) else Ok(value)
  }

  /** validateDate: the input unchanged when DateTime reads it as Y-m-d and
      writes it back identically, i.e. when it names a real calendar day in
      canonical form. */
  function ValidateDate(date: string): (r: Result<string>)
    ensures r.Ok? <==> exists d :: ValidDate(d) && Render(d) == date
    ensures r.Ok? <==> Parse(date).Some?
    ensures r.Ok? ==> r.value == date
    ensures r.Err? ==> r.error == InvalidDate
  {
    match Parse(date)
    case Some(d) => RenderParse(date); Ok(date)
    case None => NoDateRendersAs(date); Err(InvalidDate)
  }

  lemma NoDateRendersAs(s: string)
    requires Parse(s).None?
    ensures forall d :: ValidDate(d) ==> Render(d) != s
  {
    forall d | ValidDate(d)
      ensures Render(d) != s
    {
      ParseRender(d);
    }
  }

  /** The value of a two-digit string. */
  lemma TwoDigitsValue(dd: string)
    requires |dd| == 2 && AllDigits(dd)
    ensures DigitsValue(dd) == 10 * DigitValue(dd[0]) + DigitValue(dd[1])
  {
    var first := dd[..1];
    assert first[..0] == [] && first[0] == dd[0];
    assert DigitsValue(first) == DigitValue(dd[0]);
  }

  /** The value of a four-digit string. */
  lemma FourDigitsValue(yyyy: string)
    requires |yyyy| == 4 && AllDigits(yyyy)
    ensures DigitsValue(yyyy) ==
      1000 * DigitValue(yyyy[0]) + 100 * DigitValue(yyyy[1]) + 10 * DigitValue(yyyy[2]) + DigitValue(yyyy[3])
  {
    var three := yyyy[..3];
    TwoDigitsValue(three[..2]);
    assert three[..2] == yyyy[..2];
  }

  /** `s` is 2024-02-`dd` for the two digits at its end. */
  lemma ParseFebruary2024(s: string)
    requires |s| == 10 && s[..8] == "2024-02-" && AllDigits(s[8..])
    ensures Parse(s) ==
      var day := DigitsValue(s[8..]); if 1 <= day <= 29 then Some(Date(2024, 2, day)) else None
  {
    assert s[..4] == "2024" && s[5..7] == "02" by {
      assert s[..4] == s[..8][..4] && s[5..7] == s[..8][5..7];
    }
    assert s[4] == s[..8][4] && s[7] == s[..8][7];
    FourDigitsValue("2024");
    TwoDigitsValue("02");
    assert IsLeapYear(2024);
  }

  /** The round trip rejects days a month does not have. */
  lemma February30Refused()
    ensures ValidateDate("2024-02-30").Err?
    ensures ValidateDate("2024-02-29").Ok?
  {
    ParseFebruary2024("2024-02-30");
    assert "2024-02-30"[8..] == "30";
    TwoDigitsValue("30");
    ParseFebruary2024("2024-02-29");
    assert "2024-02-29"[8..] == "29";
    TwoDigitsValue("29");
  }

  /** validateUserID: 'U' and at least three digits. */
  function ValidateUserID(userID: string): (r: Result<string>)
    ensures r.Ok? <==> IsIdPattern(userID, 'U')
    ensures r.Ok? ==> r.value == userID
    ensures r.Err? ==> r.error == InvalidUserID
  {
    if IsIdPattern(userID, 'U') then Ok(userID) else Err(InvalidUserID)
  }

  /** validateLoanID: 'L' and at least three digits. */
  function ValidateLoanID(loanID: string): (r: Result<string>)
    ensures r.Ok? <==> IsIdPattern(loanID, 'L')
    ensures r.Ok? ==> r.value == loanID
    ensures r.Err? ==> r.error == InvalidLoanID
  {
    if IsIdPattern(loanID, 'L') then Ok(loanID) else Err(InvalidLoanID)
  }

  /** Two digits are too few; three and more are accepted. */
  lemma IdLengthBoundary()
    ensures ValidateUserID("U01").Err? && ValidateUserID("U001").Ok?
    ensures ValidateLoanID("L1234").Ok? && ValidateLoanID("U001").Err?
  {
    assert "U001"[1..] == "001";
    assert "L1234"[1..] == "1234";
  }
}
