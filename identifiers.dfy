/** The numbering of user and loan IDs (`generateUserID` and
    `generateLoanID` in classes/repositories/UserRepository.php and
    classes/repositories/LoanRepository.php): the largest number among the
    IDs of the form `P<digits>`, plus one, written with at least three
    digits after the prefix letter `P`. */
module Identifiers {
  import opened Outcomes
  import opened Text
  import opened Validator
  import opened Records

  /** intval of a string of digits is its decimal value. */
  lemma IntvalOfDigits(s: string)
    requires AllDigits(s)
    ensures Intval(s) == DigitsValue(s)
  {
    LeadingDigitsOfDigits(s);
    if s != [] {
      assert !IsWhitespace(s[0]) && s[0] != '-' && s[0] != '+';
    }
  }

  /** `preg_match('/^P(\d+)$/', id, $m)` and `intval($m[1])`: the number an
      ID carries, when it has the form (PCRE's `$` also lets one final
      newline through). */
  function IdNumber(id: string, prefix: char): Option<nat> {
    var t := BeforeFinalNewline(id);
    if |t| >= 2 && t[0] == prefix && AllDigits(t[1..]) then
      IntvalOfDigits(t[1..]);
      Some(Intval(t[1..]))
    else None
  }

  /** The largest of the numbers present, 0 when there is none: `$maxID`
      after a loop that starts at 0 and keeps the larger value. */
  function MaxNumber(ns: seq<Option<nat>>): (m: nat)
    ensures forall i | 0 <= i < |ns| :: ns[i].Some? ==> ns[i].value <= m
    ensures m == 0 || exists i | 0 <= i < |ns| :: ns[i] == Some(m)
  {
    if ns == [] then 0
    else
      var init := ns[..|ns| - 1];
      assert forall i | 0 <= i < |init| :: init[i] == ns[i];
      var m := MaxNumber(init);
      var last := ns[|ns| - 1];
      if last.Some? && last.value > m then last.value else m
  }

  /** The number of each ID, in order. */
  function Numbers(ids: seq<string>, prefix: char): (ns: seq<Option<nat>>)
    ensures |ns| == |ids| && forall i | 0 <= i < |ids| :: ns[i] == IdNumber(ids[i], prefix)
  {
    seq(|ids|, i requires 0 <= i < |ids| => IdNumber(ids[i], prefix))
  }

  function MaxIdNumber(ids: seq<string>, prefix: char): nat {
    MaxNumber(Numbers(ids, prefix))
  }

  /** `P . str_pad(maxID + 1, 3, '0', STR_PAD_LEFT)` */
  function NextId(ids: seq<string>, prefix: char): (r: string)
    ensures |r| >= 4 && r[0] == prefix && AllDigits(r[1..])
    ensures DigitsValue(r[1..]) == MaxIdNumber(ids, prefix) + 1
  {
    PaddedNatValue(MaxIdNumber(ids, prefix) + 1, 3);
    [prefix] + PadLeft(NatToString(MaxIdNumber(ids, prefix) + 1), 3, '0')
  }

  /** The generated ID carries the number one above every numbered ID. */
  lemma NextIdNumber(ids: seq<string>, prefix: char)
    ensures IdNumber(NextId(ids, prefix), prefix) == Some(MaxIdNumber(ids, prefix) + 1)
  {
    var n := MaxIdNumber(ids, prefix) + 1;
    PaddedIdNumber(n, prefix);
  }

  /** The ID written with `n` padded to three digits carries `n`. */
  lemma PaddedIdNumber(n: nat, prefix: char)
    ensures IdNumber([prefix] + PadLeft(NatToString(n), 3, '0'), prefix) == Some(n)
  {
    var digits := PadLeft(NatToString(n), 3, '0');
    var id := [prefix] + digits;
    PaddedNatValue(n, 3);
    assert id[|id| - 1] == digits[|digits| - 1];
    assert BeforeFinalNewline(id) == id;
    assert id[1..] == digits;
    IntvalOfDigits(digits);
  }

  /** The generated ID is none of the existing IDs. */
  lemma NextIdFresh(ids: seq<string>, prefix: char)
    ensures NextId(ids, prefix) !in ids
  {
    NextIdNumber(ids, prefix);
  }

  /** A removed ID is not handed out again while an ID with a number at
      least as large remains. */
  lemma NoReuseBelowMax(ids: seq<string>, prefix: char, gone: string, kept: nat)
    requires IdNumber(gone, prefix).Some? && kept < |ids|
    requires IdNumber(ids[kept], prefix).Some? && IdNumber(ids[kept], prefix).value >= IdNumber(gone, prefix).value
    ensures NextId(ids, prefix) != gone
  {
    NextIdNumber(ids, prefix);
  }

  /** The generated ID has the form validateUserID / validateLoanID accept:
      the prefix letter and at least three digits. */
  lemma NextIdValid(ids: seq<string>, prefix: char)
    ensures IsIdPattern(NextId(ids, prefix), prefix)
  {
    var r := NextId(ids, prefix);
    assert IsDigit(r[1..][|r| - 2]);
  }

  /** IDs of the user and loan forms pass their validators. */
  lemma NextIdsPassValidation(ids: seq<string>)
    ensures ValidateUserID(NextId(ids, 'U')) == Ok(NextId(ids, 'U'))
    ensures ValidateLoanID(NextId(ids, 'L')) == Ok(NextId(ids, 'L'))
  {
    NextIdValid(ids, 'U');
    NextIdValid(ids, 'L');
  }

  /** One more record moves the largest number only when its own ID
      carries a larger one. */
  lemma MaxIdStep<T>(xs: seq<T>, id: T -> string, prefix: char, i: nat)
    requires i < |xs|
    ensures var n, m := IdNumber(id(xs[i]), prefix), MaxIdNumber(Project(xs[..i], id), prefix);
      MaxIdNumber(Project(xs[..i + 1], id), prefix) == if n.Some? && n.value > m then n.value else m
  {
    var ns := Numbers(Project(xs[..i + 1], id), prefix);
    assert ns[..i] == Numbers(Project(xs[..i], id), prefix);
    assert ns[i] == IdNumber(id(xs[i]), prefix);
  }

  /** The loop of generateUserID / generateLoanID over the stored records:
      keep the largest number among the IDs of the form, then number the
      next ID one above it. */
  method NextIdOf<T>(xs: seq<T>, id: T -> string, prefix: char) returns (next: string)
    ensures next == NextId(Project(xs, id), prefix)
  {
    var maxID: nat := 0;
    for i := 0 to |xs|
      invariant maxID == MaxIdNumber(Project(xs[..i], id), prefix)
    {
      MaxIdStep(xs, id, prefix, i);
      var number := IdNumber(id(xs[i]), prefix);
      if number.Some? && number.value > maxID {
        maxID := number.value;
      }
    }
    assert xs[..|xs|] == xs;
    next := [prefix] + PadLeft(NatToString(maxID + 1), 3, '0');
  }
}
