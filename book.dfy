/** classes/models/Book.php: a title held by the library, with the number
    of copies owned and the number currently on loan. The object's state is
    the value `BookRecord`; the mutating methods live on the class `Book`,
    each specified by a function on the record. `currentYear` stands for
    `date('Y')`. */
module BookModel {
  import opened Outcomes
  import opened Text
  import opened Arrays
  import opened Validator

  datatype BookRecord = BookRecord(
    isbn: string,
    title: string,
    author: string,
    publisher: string,
    year: int,
    category: string,
    totalCopies: int,
    loanedCopies: int)

  /** The column order of books.csv, which is also the key order of toArray. */
  const Headers: seq<string> := ["ISBN", "タイトル", "著者", "出版社", "出版年", "カテゴリ", "総数", "貸出中数"]

  function Max0(n: int): (r: nat)
    ensures r == n || (n < 0 && r == 0)
  {
    if n < 0 then 0 else n
  }

  /** What the constructor guarantees of every book it builds. */
  predicate WellFormed(b: BookRecord, currentYear: int) {
    && ValidateISBN(b.isbn) == Ok(b.isbn)
    && !IsEmpty(b.title) && !IsEmpty(b.author) && !IsEmpty(b.publisher) && !IsEmpty(b.category)
    && 1000 <= b.year <= currentYear + 10
    && b.totalCopies >= 1
    && b.loanedCopies >= 0
  }

  /** The counter invariant the library relies on (not enforced by the constructor). */
  predicate CountsConsistent(b: BookRecord) {
    0 <= b.loanedCopies <= b.totalCopies
  }

  /** The constructor: every field validated in declaration order, the
      loaned count clamped at zero. */
  function NewBook(isbn: string, title: string, author: string, publisher: string, year: string,
                   category: string, totalCopies: string, loanedCopies: string, currentYear: int): (r: Result<BookRecord>)
    ensures r.Ok? <==>
      && IsIsbnPattern(StripSeparators(isbn))
      && !IsEmpty(title) && !IsEmpty(author) && !IsEmpty(publisher)
      && 1000 <= Intval(year) <= currentYear + 10
      && !IsEmpty(category)
      && Intval(totalCopies) >= 1
    ensures r.Ok? ==> WellFormed(r.value, currentYear)
    ensures r.Ok? ==>
      && r.value.isbn == StripSeparators(isbn) && r.value.title == title && r.value.author == author
      && r.value.publisher == publisher && r.value.category == category
      && r.value.year == Intval(year) && r.value.totalCopies == Intval(totalCopies)
      && r.value.loanedCopies == Max0(Intval(loanedCopies))
    ensures !IsIsbnPattern(StripSeparators(isbn)) ==> r == Err(InvalidISBN)
    ensures IsIsbnPattern(StripSeparators(isbn)) && IsEmpty(title) ==> r == Err(Required("タイトル"))
  {
    var i :- ValidateISBN(isbn);
    var t :- ValidateRequired(title, "タイトル");
    var a :- ValidateRequired(author, "著者");
    var p :- ValidateRequired(publisher, "出版社");
    var y :- ValidateYear(year, currentYear);
    var c :- ValidateRequired(category, "カテゴリ");
    var n :- ValidateCopies(totalCopies);
    ValidateISBNIdempotent(isbn);
    Ok(BookRecord(i, t, a, p, y, c, n, Max0(Intval(loanedCopies))))
  }

  // ---------------------------------------------------------------------
  // Queries

  /** getAvailableCopies */
  function AvailableCopies(b: BookRecord): (n: int)
    ensures b.loanedCopies >= 0 ==> n <= b.totalCopies
    ensures CountsConsistent(b) ==> n >= 0
  {
    b.totalCopies - b.loanedCopies
  }

  /** isAvailable */
  predicate IsAvailable(b: BookRecord)
    ensures IsAvailable(b) ==> b.loanedCopies < b.totalCopies
    ensures CountsConsistent(b) && !IsAvailable(b) ==> b.loanedCopies == b.totalCopies
  {
    AvailableCopies(b) > 0
  }

  // ---------------------------------------------------------------------
  // Counter updates

  /** incrementLoanedCopies */
  function LoanOne(b: BookRecord): (r: Result<BookRecord>)
    ensures r.Err? <==> b.loanedCopies >= b.totalCopies
    ensures r.Err? ==> r.error == NoCopyToLend
    ensures r.Ok? ==> r.value == b.(loanedCopies := b.loanedCopies + 1)
  {
    if b.loanedCopies >= b.totalCopies then Err(NoCopyToLend)
    else Ok(b.(loanedCopies := b.loanedCopies + 1))
  }

  /** decrementLoanedCopies */
  function ReturnOne(b: BookRecord): (r: Result<BookRecord>)
    ensures r.Err? <==> b.loanedCopies <= 0
    ensures r.Err? ==> r.error == NoCopyToReturn
    ensures r.Ok? ==> r.value == b.(loanedCopies := b.loanedCopies - 1)
  {
    if b.loanedCopies <= 0 then Err(NoCopyToReturn)
    else Ok(b.(loanedCopies := b.loanedCopies - 1))
  }

  /** isAvailable is exactly the condition under which a copy can be lent. */
  lemma AvailableIffLendable(b: BookRecord)
    ensures IsAvailable(b) <==> LoanOne(b).Ok?
    ensures IsAvailable(b) ==> AvailableCopies(LoanOne(b).value) == AvailableCopies(b) - 1
  {
  }

  /** Lending a copy and taking it back restores the book. */
  lemma LoanThenReturn(b: BookRecord)
    requires CountsConsistent(b) && LoanOne(b).Ok?
    ensures ReturnOne(LoanOne(b).value) == Ok(b)
  {
    var lent := LoanOne(b).value;
    assert lent.(loanedCopies := lent.loanedCopies - 1) == b;
  }

  /** Taking a copy back and lending it again restores the book. */
  lemma ReturnThenLoan(b: BookRecord)
    requires CountsConsistent(b) && ReturnOne(b).Ok?
    ensures LoanOne(ReturnOne(b).value) == Ok(b)
  {
    var back := ReturnOne(b).value;
    assert back.(loanedCopies := back.loanedCopies + 1) == b;
  }

  /** Both counter updates keep 0 <= loanedCopies <= totalCopies and well-formedness. */
  lemma CounterUpdatesPreserve(b: BookRecord, currentYear: int)
    ensures CountsConsistent(b) && LoanOne(b).Ok? ==> CountsConsistent(LoanOne(b).value)
    ensures CountsConsistent(b) && ReturnOne(b).Ok? ==> CountsConsistent(ReturnOne(b).value)
    ensures WellFormed(b, currentYear) && LoanOne(b).Ok? ==> WellFormed(LoanOne(b).value, currentYear)
    ensures WellFormed(b, currentYear) && ReturnOne(b).Ok? ==> WellFormed(ReturnOne(b).value, currentYear)
  {
  }

  // ---------------------------------------------------------------------
  // Setters

  /** A setter call: the field it writes and the raw value it is given. */
  datatype BookEdit =
    | SetTitle(title: string)
    | SetAuthor(author: string)
    | SetPublisher(publisher: string)
    | SetYear(year: string, currentYear: int)
    | SetCategory(category: string)
    | SetTotalCopies(copies: string)

  /** The setters: validate the value, then store it. */
  function Edit(b: BookRecord, e: BookEdit): (r: Result<BookRecord>)
    ensures r.Ok? ==> r.value.isbn == b.isbn && r.value.loanedCopies == b.loanedCopies
    ensures r.Ok? && !e.SetTitle? ==> r.value.title == b.title
    ensures r.Ok? && !e.SetAuthor? ==> r.value.author == b.author
    ensures r.Ok? && !e.SetPublisher? ==> r.value.publisher == b.publisher
    ensures r.Ok? && !e.SetYear? ==> r.value.year == b.year
    ensures r.Ok? && !e.SetCategory? ==> r.value.category == b.category
    ensures r.Ok? && !e.SetTotalCopies? ==> r.value.totalCopies == b.totalCopies
    ensures e.SetTitle? ==> r == (if IsEmpty(e.title) then Err(Required("タイトル")) else Ok(b.(title := e.title)))
    ensures e.SetAuthor? ==> r == (if IsEmpty(e.author) then Err(Required("著者")) else Ok(b.(author := e.author)))
    ensures e.SetPublisher? ==> r == (if IsEmpty(e.publisher) then Err(Required("出版社")) else Ok(b.(publisher := e.publisher)))
    ensures e.SetYear? ==> (r.Ok? <==> 1000 <= Intval(e.year) <= e.currentYear + 10)
    ensures e.SetYear? && r.Ok? ==> r.value.year == Intval(e.year)
    ensures e.SetCategory? ==> r == (if IsEmpty(e.category) then Err(Required("カテゴリ")) else Ok(b.(category := e.category)))
    ensures e.SetTotalCopies? ==> (r.Ok? <==> Intval(e.copies) >= 1)
    ensures e.SetTotalCopies? && r.Ok? ==> r.value.totalCopies == Intval(e.copies)
  {
    match e
    case SetTitle(t) => var v :- ValidateRequired(t, "タイトル"); Ok(b.(title := v))
    case SetAuthor(a) => var v :- ValidateRequired(a, "著者"); Ok(b.(author := v))
    case SetPublisher(p) => var v :- ValidateRequired(p, "出版社"); Ok(b.(publisher := v))
    case SetYear(y, cy) => var v :- ValidateYear(y, cy); Ok(b.(year := v))
    case SetCategory(c) => var v :- ValidateRequired(c, "カテゴリ"); Ok(b.(category := v))
    case SetTotalCopies(c) => var v :- ValidateCopies(c); Ok(b.(totalCopies := v))
  }

  /** A successful setter keeps a well-formed book well-formed (a year is
      checked against the clock the setter is given). */
  lemma EditPreservesWellFormed(b: BookRecord, e: BookEdit, currentYear: int)
    requires WellFormed(b, currentYear) && Edit(b, e).Ok?
    requires e.SetYear? ==> e.currentYear <= currentYear
    ensures WellFormed(Edit(b, e).value, currentYear)
  {
  }

  /** setTotalCopies only demands at least one copy, so it can set the total
      below the number of copies on loan. */
  lemma SetTotalCopiesBreaksCounts(b: BookRecord, copies: string)
    requires CountsConsistent(b) && Intval(copies) >= 1 && Intval(copies) < b.loanedCopies
    ensures Edit(b, SetTotalCopies(copies)).Ok?
    ensures !CountsConsistent(Edit(b, SetTotalCopies(copies)).value)
  {
  }

  // ---------------------------------------------------------------------
  // Array form

  /** toArray: the fields under the column names, integers in decimal. */
  function ToArray(b: BookRecord): (a: Assoc<string>)
    ensures Keys(a) == Headers
  {
    [ ("ISBN", b.isbn), ("タイトル", b.title), ("著者", b.author), ("出版社", b.publisher),
      ("出版年", IntToString(b.year)), ("カテゴリ", b.category),
      ("総数", IntToString(b.totalCopies)), ("貸出中数", IntToString(b.loanedCopies)) ]
  }

  /** fromArray: the constructor applied to the named entries; a missing
      entry reads as PHP's null, which every check treats like "". */
  function FromArray(data: Assoc<string>, currentYear: int): (r: Result<BookRecord>)
    ensures "ISBN" !in Keys(data) ==> r == Err(InvalidISBN)
    ensures r.Ok? ==> WellFormed(r.value, currentYear)
    ensures r.Ok? ==>
      && r.value.title == GetOr(data, "タイトル", "") && r.value.year == Intval(GetOr(data, "出版年", ""))
      && r.value.totalCopies == Intval(GetOr(data, "総数", ""))
      && r.value.loanedCopies == Max0(Intval(GetOr(data, "貸出中数", "")))
  {
    NewBook(GetOr(data, "ISBN", ""), GetOr(data, "タイトル", ""), GetOr(data, "著者", ""),
            GetOr(data, "出版社", ""), GetOr(data, "出版年", ""), GetOr(data, "カテゴリ", ""),
            GetOr(data, "総数", ""), GetOr(data, "貸出中数", ""), currentYear)
  }

  /** Each column of toArray holds its field. */
  lemma ToArrayEntries(b: BookRecord)
    ensures GetOr(ToArray(b), "ISBN", "") == b.isbn
    ensures GetOr(ToArray(b), "タイトル", "") == b.title
    ensures GetOr(ToArray(b), "著者", "") == b.author
    ensures GetOr(ToArray(b), "出版社", "") == b.publisher
    ensures GetOr(ToArray(b), "出版年", "") == IntToString(b.year)
    ensures GetOr(ToArray(b), "カテゴリ", "") == b.category
    ensures GetOr(ToArray(b), "総数", "") == IntToString(b.totalCopies)
    ensures GetOr(ToArray(b), "貸出中数", "") == IntToString(b.loanedCopies)
  {
    var a := ToArray(b);
    HeadersDistinct();
    GetDistinct(a, 0);
    GetDistinct(a, 1);
    GetDistinct(a, 2);
    GetDistinct(a, 3);
    GetDistinct(a, 4);
    GetDistinct(a, 5);
    GetDistinct(a, 6);
    GetDistinct(a, 7);
  }

  /** Every book the constructor can build comes back from its array form unchanged. */
  lemma FromArrayToArray(b: BookRecord, currentYear: int)
    requires WellFormed(b, currentYear)
    ensures FromArray(ToArray(b), currentYear) == Ok(b)
  {
    ToArrayEntries(b);
    IntvalOfIntToString(b.year);
    IntvalOfIntToString(b.totalCopies);
    IntvalOfIntToString(b.loanedCopies);
    var r := NewBook(b.isbn, b.title, b.author, b.publisher, IntToString(b.year), b.category,
                     IntToString(b.totalCopies), IntToString(b.loanedCopies), currentYear);
    assert r.Ok?;
  }

  lemma HeadersDistinct()
    ensures Distinct(Headers)
  {
  }

  // ---------------------------------------------------------------------
  // The object

  class Book {
    var isbn: string
    var title: string
    var author: string
    var publisher: string
    var year: int
    var category: string
    var totalCopies: int
    var loanedCopies: int

    function Record(): BookRecord
      reads this
    {
      BookRecord(isbn, title, author, publisher, year, category, totalCopies, loanedCopies)
    }

    /** A Book object holding a record the constructor accepted. */
    constructor (r: BookRecord)
      ensures Record() == r
    {
      isbn, title, author, publisher := r.isbn, r.title, r.author, r.publisher;
      year, category, totalCopies, loanedCopies := r.year, r.category, r.totalCopies, r.loanedCopies;
    }

    /** incrementLoanedCopies */
    method IncrementLoanedCopies() returns (o: Outcome)
      modifies this
      ensures LoanOne(old(Record())).Ok? ==> o == Pass && Record() == LoanOne(old(Record())).value
      ensures LoanOne(old(Record())).Err? ==> o == Fail(NoCopyToLend) && Record() == old(Record())
    {
      if loanedCopies >= totalCopies {
        return Fail(NoCopyToLend);
      }
      loanedCopies := loanedCopies + 1;
      o := Pass;
    }

    /** decrementLoanedCopies */
    method DecrementLoanedCopies() returns (o: Outcome)
      modifies this
      ensures ReturnOne(old(Record())).Ok? ==> o == Pass && Record() == ReturnOne(old(Record())).value
      ensures ReturnOne(old(Record())).Err? ==> o == Fail(NoCopyToReturn) && Record() == old(Record())
    {
      if loanedCopies <= 0 {
        return Fail(NoCopyToReturn);
      }
      loanedCopies := loanedCopies - 1;
      o := Pass;
    }

    /** setTitle, setAuthor, setPublisher, setYear, setCategory and
        setTotalCopies: a rejected value leaves the object unchanged. */
    method Set(e: BookEdit) returns (o: Outcome)
      modifies this
      ensures Edit(old(Record()), e).Ok? ==> o == Pass && Record() == Edit(old(Record()), e).value
      ensures Edit(old(Record()), e).Err? ==> o == Fail(Edit(old(Record()), e).error) && Record() == old(Record())
    {
      var r := Edit(Record(), e);
      if r.Err? {
        return Fail(r.error);
      }
      var b := r.value;
      assert b.isbn == isbn && b.loanedCopies == loanedCopies;
      title, author, publisher, year, category, totalCopies := b.title, b.author, b.publisher, b.year, b.category, b.totalCopies;
      o := Pass;
    }
  }
}
