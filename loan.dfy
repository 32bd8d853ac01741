/** classes/models/Loan.php: one copy of a book lent to a user. A loan is
    either on loan (貸出中) or returned (返却済); its due date defaults to
    fourteen days after checkout. `today` stands for `date('Y-m-d')`, and a
    return date of PHP's null is the empty string (which is also how the
    CSV file stores it). */
module LoanModel {
  import opened Outcomes
  import opened Text
  import opened Dates
  import opened Arrays
  import opened Validator

  const StatusLoaned: string := "貸出中"
  const StatusReturned: string := "返却済"

  /** The `P14D` interval of the constructor. */
  const LoanPeriod: nat := 14

  datatype LoanRecord = LoanRecord(
    loanID: string,
    userID: string,
    isbn: string,
    checkoutDate: string,
    dueDate: string,
    returnDate: string,
    status: string)

  /** The key order of toArray. */
  const Columns: seq<string> := ["貸出ID", "利用者ID", "ISBN", "貸出日", "返却予定日", "返却日", "状態"]

  /** What the constructor guarantees of every loan it builds (given a due
      date, or a checkout day before the last days of year 9999). */
  predicate WellFormed(l: LoanRecord) {
    && IsIdPattern(l.userID, 'U')
    && ValidateISBN(l.isbn) == Ok(l.isbn)
    && Parse(l.checkoutDate).Some?
    && Parse(l.dueDate).Some?
  }

  /** `new DateTime($checkoutDate)`, `add(new DateInterval('P14D'))`, `format('Y-m-d')`. */
  function DueDateFor(checkout: Date): (r: string)
    requires IsCalendarDate(checkout)
    ensures ValidDate(checkout) && checkout.year < 9999 ==>
      Parse(r).Some? && DayNumber(Parse(r).value) == DayNumber(checkout) + LoanPeriod
  {
    if ValidDate(checkout) && checkout.year < 9999 then
      ShortSpanYear(checkout, LoanPeriod);
      ParseRender(AddDays(checkout, LoanPeriod));
      AddDaysNumber(checkout, LoanPeriod);
      Render(AddDays(checkout, LoanPeriod))
    else
      Render(AddDays(checkout, LoanPeriod))
  }

  /** The constructor: the user ID and the ISBN are validated, a missing
      checkout date is today, a missing due date is fourteen days after
      checkout, a given date must pass validateDate, and a missing status
      is 貸出中. */
  function NewLoan(loanID: string, userID: string, isbn: string, checkoutDate: Option<string>,
                   dueDate: Option<string>, returnDate: Option<string>, status: Option<string>,
                   today: Date): (r: Result<LoanRecord>)
    requires ValidDate(today)
    ensures r.Ok? <==>
      && IsIdPattern(userID, 'U')
      && IsIsbnPattern(StripSeparators(isbn))
      && (checkoutDate.Some? ==> Parse(checkoutDate.value).Some?)
      && (dueDate.Some? ==> Parse(dueDate.value).Some?)
    ensures !IsIdPattern(userID, 'U') ==> r == Err(InvalidUserID)
    ensures IsIdPattern(userID, 'U') && !IsIsbnPattern(StripSeparators(isbn)) ==> r == Err(InvalidISBN)
    ensures r.Ok? ==> r.value.loanID == loanID && r.value.userID == userID && r.value.isbn == StripSeparators(isbn)
    ensures r.Ok? ==> r.value.checkoutDate == if checkoutDate.Some? then checkoutDate.value else Render(today)
    ensures r.Ok? ==> ValidateISBN(r.value.isbn) == Ok(r.value.isbn) && Parse(r.value.checkoutDate).Some?
    ensures r.Ok? ==>
      r.value.dueDate == if dueDate.Some? then dueDate.value else DueDateFor(Parse(r.value.checkoutDate).value)
    ensures r.Ok? ==> r.value.returnDate == if returnDate.Some? then returnDate.value else ""
    ensures r.Ok? ==> r.value.status == if status.Some? then status.value else StatusLoaned
  {
    var u :- ValidateUserID(userID);
    var i :- ValidateISBN(isbn);
    ParseRender(today);
    var checkout :- if checkoutDate.None? then Ok(Render(today)) else ValidateDate(checkoutDate.value);
    var due :- if dueDate.None? then Ok(DueDateFor(Parse(checkout).value)) else ValidateDate(dueDate.value);
    ValidateISBNIdempotent(isbn);
    Ok(LoanRecord(loanID, u, i, checkout, due,
                  if returnDate.Some? then returnDate.value else "",
                  if status.Some? then status.value else StatusLoaned))
  }

  /** The default due date names the day fourteen days after checkout,
      and sorts after the checkout date, for checkout days before year 9999. */
  lemma DueDateForChecked(c: Date)
    requires ValidDate(c) && c.year < 9999
    ensures ValidDate(AddDays(c, LoanPeriod))
    ensures Parse(DueDateFor(c)) == Some(AddDays(c, LoanPeriod))
    ensures DayNumber(AddDays(c, LoanPeriod)) == DayNumber(c) + LoanPeriod
    ensures LexLess(Render(c), DueDateFor(c))
  {
    ShortSpanYear(c, LoanPeriod);
    ParseRender(AddDays(c, LoanPeriod));
    AddDaysNumber(c, LoanPeriod);
    AddDaysRendersLater(c, LoanPeriod);
  }

  // ---------------------------------------------------------------------
  // Queries

  /** isLoaned */
  predicate IsLoaned(l: LoanRecord)
    ensures IsLoaned(l) ==> l.status != StatusReturned
  {
    l.status == StatusLoaned
  }

  /** isOverdue: not returned, and today's `Y-m-d` sorts after the due date. */
  predicate IsOverdue(l: LoanRecord, today: Date)
    requires ValidDate(today)
    ensures IsOverdue(l, today) ==> l.status != StatusReturned && l.dueDate != Render(today)
  {
    l.status != StatusReturned && LexLess(l.dueDate, Render(today))
  }

  /** For a due date that names a day, overdue means that day is before today. */
  lemma OverdueIffPastDue(l: LoanRecord, today: Date)
    requires ValidDate(today) && Parse(l.dueDate).Some?
    ensures IsOverdue(l, today) <==> l.status != StatusReturned && Before(Parse(l.dueDate).value, today)
  {
    var due := Parse(l.dueDate).value;
    RenderParse(l.dueDate);
    RenderOrder(due, today);
  }

  /** A loan due today is not overdue. */
  lemma DueTodayNotOverdue(l: LoanRecord, today: Date)
    requires ValidDate(today) && l.dueDate == Render(today)
    ensures !IsOverdue(l, today)
  {
    LexLessIrreflexive(Render(today));
  }

  /** A loan still out that was due yesterday is overdue. */
  lemma DueYesterdayOverdue(l: LoanRecord, yesterday: Date, today: Date)
    requires ValidDate(yesterday) && ValidDate(today) && AddDays(yesterday, 1) == today
    requires l.dueDate == Render(yesterday) && l.status != StatusReturned
    ensures IsOverdue(l, today)
  {
    AddDaysRendersLater(yesterday, 1);
  }

  /** A loan made today with the default dates is on loan, well-formed,
      due fourteen days from today, and not overdue today. */
  lemma FreshLoan(loanID: string, userID: string, isbn: string, today: Date, l: LoanRecord)
    requires ValidDate(today) && today.year < 9999
    requires NewLoan(loanID, userID, isbn, None, None, None, None, today) == Ok(l)
    ensures WellFormed(l) && IsLoaned(l) && l.returnDate == ""
    ensures l.checkoutDate == Render(today) && l.dueDate == DueDateFor(today)
    ensures !IsOverdue(l, today)
  {
    ParseRender(today);
    DueDateForChecked(today);
    NotDueBeforeToday(today, l);
  }

  lemma NotDueBeforeToday(today: Date, l: LoanRecord)
    requires ValidDate(today) && today.year < 9999 && l.dueDate == DueDateFor(today)
    ensures !IsOverdue(l, today)
  {
    DueDateForChecked(today);
    var due := AddDays(today, LoanPeriod);
    RenderOrder(today, due);
    RenderOrder(due, today);
  }

  /** getDaysOverdue: 0 unless overdue, otherwise the whole days since the due date. */
  function DaysOverdue(l: LoanRecord, today: Date): (n: nat)
    requires ValidDate(today) && Parse(l.dueDate).Some?
    ensures n == 0 <==> !IsOverdue(l, today)
    ensures n > 0 ==> DayNumber(Parse(l.dueDate).value) + n == DayNumber(today)
  {
    if !IsOverdue(l, today) then 0
    else
      var due := Parse(l.dueDate).value;
      OverdueIffPastDue(l, today);
      DayNumberOrder(due, today);
      DayNumber(today) - DayNumber(due)
  }

  // ---------------------------------------------------------------------
  // Returning

  /** returnBook: refused once returned; otherwise the status becomes 返却済
      and the return date today, all else kept. */
  function ReturnLoan(l: LoanRecord, today: Date): (r: Result<LoanRecord>)
    requires ValidDate(today)
    ensures r.Err? <==> l.status == StatusReturned
    ensures r.Err? ==> r.error == AlreadyReturned
    ensures r.Ok? ==> r.value.status == StatusReturned && r.value.returnDate == Render(today)
    ensures r.Ok? ==>
      && r.value.loanID == l.loanID && r.value.userID == l.userID && r.value.isbn == l.isbn
      && r.value.checkoutDate == l.checkoutDate && r.value.dueDate == l.dueDate
  {
    if l.status == StatusReturned then Err(AlreadyReturned)
    else Ok(l.(returnDate := Render(today), status := StatusReturned))
  }

  /** A returned loan is neither on loan nor overdue, and cannot be returned again. */
  lemma ReturnedIsSettled(l: LoanRecord, today: Date, later: Date)
    requires ValidDate(today) && ValidDate(later) && ReturnLoan(l, today).Ok?
    ensures !IsLoaned(ReturnLoan(l, today).value)
    ensures !IsOverdue(ReturnLoan(l, today).value, later)
    ensures ReturnLoan(ReturnLoan(l, today).value, later) == Err(AlreadyReturned)
    ensures WellFormed(l) ==> WellFormed(ReturnLoan(l, today).value)
  {
  }

  // ---------------------------------------------------------------------
  // Array form

  /** toArray */
  function ToArray(l: LoanRecord): (a: Assoc<string>)
    ensures Keys(a) == Columns
  {
    [ ("貸出ID", l.loanID), ("利用者ID", l.userID), ("ISBN", l.isbn), ("貸出日", l.checkoutDate),
      ("返却予定日", l.dueDate), ("返却日", l.returnDate), ("状態", l.status) ]
  }

  /** fromArray: the constructor applied to the named entries; a missing
      ID or ISBN reads as "", a missing date or status as null. */
  function FromArray(data: Assoc<string>, today: Date): (r: Result<LoanRecord>)
    requires ValidDate(today)
    ensures !IsIdPattern(GetOr(data, "利用者ID", ""), 'U') ==> r == Err(InvalidUserID)
    ensures r.Ok? ==> r.value.loanID == GetOr(data, "貸出ID", "") && r.value.userID == GetOr(data, "利用者ID", "")
    ensures r.Ok? && "返却日" !in Keys(data) ==> r.value.returnDate == ""
    ensures r.Ok? && "状態" !in Keys(data) ==> r.value.status == StatusLoaned
  {
    NewLoan(GetOr(data, "貸出ID", ""), GetOr(data, "利用者ID", ""), GetOr(data, "ISBN", ""),
            Get(data, "貸出日"), Get(data, "返却予定日"), Get(data, "返却日"), Get(data, "状態"), today)
  }

  lemma ColumnsDistinct()
    ensures Distinct(Columns)
  {
  }

  lemma ToArrayEntries(l: LoanRecord)
    ensures GetOr(ToArray(l), "貸出ID", "") == l.loanID
    ensures GetOr(ToArray(l), "利用者ID", "") == l.userID
    ensures GetOr(ToArray(l), "ISBN", "") == l.isbn
    ensures Get(ToArray(l), "貸出日") == Some(l.checkoutDate)
    ensures Get(ToArray(l), "返却予定日") == Some(l.dueDate)
    ensures Get(ToArray(l), "返却日") == Some(l.returnDate)
    ensures Get(ToArray(l), "状態") == Some(l.status)
  {
    var a := ToArray(l);
    ColumnsDistinct();
    GetDistinct(a, 0);
    GetDistinct(a, 1);
    GetDistinct(a, 2);
    GetDistinct(a, 3);
    GetDistinct(a, 4);
    GetDistinct(a, 5);
    GetDistinct(a, 6);
  }

  /** A row carrying every column gives its own due date, so what the
      constructor accepts from it is well-formed. */
  lemma FromArrayWellFormed(data: Assoc<string>, today: Date)
    requires ValidDate(today) && Keys(data) == Columns && FromArray(data, today).Ok?
    ensures WellFormed(FromArray(data, today).value)
  {
    assert "返却予定日" == Columns[4];
  }

  /** Every well-formed loan comes back from its array form unchanged,
      return date and status included. */
  lemma FromArrayToArray(l: LoanRecord, today: Date)
    requires WellFormed(l) && ValidDate(today)
    ensures FromArray(ToArray(l), today) == Ok(l)
  {
    ToArrayEntries(l);
  }

  // ---------------------------------------------------------------------
  // The object

  class Loan {
    var loanID: string
    var userID: string
    var isbn: string
    var checkoutDate: string
    var dueDate: string
    var returnDate: string
    var status: string

    function Record(): LoanRecord
      reads this
    {
      LoanRecord(loanID, userID, isbn, checkoutDate, dueDate, returnDate, status)
    }

    /** A Loan object holding a record the constructor accepted. */
    constructor (r: LoanRecord)
      ensures Record() == r
    {
      loanID, userID, isbn := r.loanID, r.userID, r.isbn;
      checkoutDate, dueDate, returnDate, status := r.checkoutDate, r.dueDate, r.returnDate, r.status;
    }

    /** returnBook */
    method ReturnBook(today: Date) returns (o: Outcome)
      requires ValidDate(today)
      modifies this
      ensures ReturnLoan(old(Record()), today).Ok? ==> o == Pass && Record() == ReturnLoan(old(Record()), today).value
      ensures ReturnLoan(old(Record()), today).Err? ==> o == Fail(AlreadyReturned) && Record() == old(Record())
    {
      if status == StatusReturned {
        return Fail(AlreadyReturned);
      }
      returnDate := Render(today);
      status := StatusReturned;
      o := Pass;
    }
  }
}
