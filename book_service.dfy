/** classes/services/BookService.php: the book operations the command line
    offers, over one BookRepository. Each operation reads the file afresh,
    so its outcome is a function of the books stored before it ran; the
    module-level functions below state that outcome, the class runs the
    source's steps against the repository. */
module BookService {
  import opened Outcomes
  import opened Text
  import opened Arrays
  import opened Validator
  import opened Records
  import opened BookModel
  import opened BR = BookRepository

  // ---------------------------------------------------------------------
  // What each operation computes from the stored books

  /** getBookByISBN: the first book with the ISBN, an error when there is none. */
  function BookByISBN(books: Result<seq<BookRecord>>, isbn: string): (r: Result<BookRecord>)
    ensures books.Err? ==> r == Err(books.error)
    ensures books.Ok? ==> (r.Ok? <==> Lookup(books.value, IsbnOf, isbn).Some?)
    ensures books.Ok? && r.Ok? ==> r.value in books.value && r.value.isbn == isbn
    ensures books.Ok? && r.Err? ==> r.error == BookNotFound
  {
    var bs :- books;
    match Lookup(bs, IsbnOf, isbn)
    case None => Err(BookNotFound)
    case Some(b) => Ok(b)
  }

  /** The search of searchBooksByTitle / Author / Category: the matches,
      an error when there are none. */
  function Found(books: Result<seq<BookRecord>>, field: BookField, query: string): (r: Result<seq<BookRecord>>)
    ensures books.Err? ==> r == Err(books.error)
    ensures books.Ok? && r.Err? ==> r.error == NoSearchResult
    ensures r.Ok? ==> books.Ok? && r.value != [] && forall b | b in r.value :: b in books.value
  {
    var bs :- books;
    var hits := Search(bs, field, query);
    if hits == [] then Err(NoSearchResult) else Ok(hits)
  }

  /** loanBook: the book with one more copy on loan. */
  function Lent(books: Result<seq<BookRecord>>, isbn: string): (r: Result<BookRecord>)
    ensures books.Err? ==> r == Err(books.error)
    ensures books.Ok? && Lookup(books.value, IsbnOf, isbn).None? ==> r == Err(BookNotFound)
    ensures books.Ok? && Lookup(books.value, IsbnOf, isbn).Some? ==>
      var b := Lookup(books.value, IsbnOf, isbn).value;
      r == if IsAvailable(b) then Ok(b.(loanedCopies := b.loanedCopies + 1)) else Err(NoCopyAvailable)
  {
    var b :- BookByISBN(books, isbn);
    if !IsAvailable(b) then Err(NoCopyAvailable) else LoanOne(b)
  }

  /** returnBook: the book with one copy fewer on loan. */
  function TakenBack(books: Result<seq<BookRecord>>, isbn: string): (r: Result<BookRecord>)
    ensures books.Err? ==> r == Err(books.error)
    ensures books.Ok? && Lookup(books.value, IsbnOf, isbn).None? ==> r == Err(BookNotFound)
    ensures books.Ok? && Lookup(books.value, IsbnOf, isbn).Some? ==>
      var b := Lookup(books.value, IsbnOf, isbn).value;
      r == if b.loanedCopies > 0 then Ok(b.(loanedCopies := b.loanedCopies - 1)) else Err(NothingToReturn)
  {
    var b :- BookByISBN(books, isbn);
    if b.loanedCopies <= 0 then Err(NothingToReturn) else ReturnOne(b)
  }

  /** What updateBook reads of its options: for each key it looks at,
      `isset($options[key])` and the value. */
  datatype BookChanges = BookChanges(
    title: Option<string>,
    author: Option<string>,
    publisher: Option<string>,
    year: Option<string>,
    category: Option<string>,
    copies: Option<string>)

  function ChangesOf(options: Assoc<string>): BookChanges {
    BookChanges(Get(options, "title"), Get(options, "author"), Get(options, "publisher"),
                Get(options, "year"), Get(options, "category"), Get(options, "copies"))
  }

  /** The six `if (isset(...))` of updateBook, in order. */
  datatype BookOption = TitleOption | AuthorOption | PublisherOption | YearOption | CategoryOption | CopiesOption

  const UpdateOrder: seq<BookOption> := [TitleOption, AuthorOption, PublisherOption, YearOption, CategoryOption, CopiesOption]

  function ValueOf(c: BookChanges, o: BookOption): Option<string> {
    match o
    case TitleOption => c.title
    case AuthorOption => c.author
    case PublisherOption => c.publisher
    case YearOption => c.year
    case CategoryOption => c.category
    case CopiesOption => c.copies
  }

  /** The setter updateBook calls when the option is given. */
  function OptionEdit(c: BookChanges, o: BookOption, currentYear: int): Option<BookEdit> {
    match ValueOf(c, o)
    case None => None
    case Some(v) =>
      Some(match o
           case TitleOption => SetTitle(v)
           case AuthorOption => SetAuthor(v)
           case PublisherOption => SetPublisher(v)
           case YearOption => SetYear(v, currentYear)
           case CategoryOption => SetCategory(v)
           case CopiesOption => SetTotalCopies(v))
  }

  /** One `if (isset(...))` of updateBook: the setter runs when the option is given. */
  function EditIfGiven(b: BookRecord, e: Option<BookEdit>): Result<BookRecord> {
    if e.None? then Ok(b) else Edit(b, e.value)
  }

  /** The setters for the options `os`, in order; the first that throws
      ends the update. */
  function ReviseBy(b: BookRecord, c: BookChanges, os: seq<BookOption>, currentYear: int): Result<BookRecord>
    decreases |os|
  {
    if os == [] then Ok(b)
    else
      var next :- EditIfGiven(b, OptionEdit(c, os[0], currentYear));
      ReviseBy(next, c, os[1..], currentYear)
  }

  /** The setters of updateBook. */
  function Revised(b: BookRecord, c: BookChanges, currentYear: int): Result<BookRecord> {
    ReviseBy(b, c, UpdateOrder, currentYear)
  }

  /** updateBook: the stored book with the given options applied. */
  function Updated(books: Result<seq<BookRecord>>, isbn: string, options: Assoc<string>, currentYear: int): (r: Result<BookRecord>)
    ensures books.Err? ==> r == Err(books.error)
    ensures books.Ok? && Lookup(books.value, IsbnOf, isbn).None? ==> r == Err(BookNotFound)
    ensures r.Ok? ==>
      && books.Ok? && Lookup(books.value, IsbnOf, isbn).Some?
      && r.value.isbn == isbn
      && r.value.loanedCopies == Lookup(books.value, IsbnOf, isbn).value.loanedCopies
  {
    var b :- BookByISBN(books, isbn);
    var revised := Revised(b, ChangesOf(options), currentYear);
    if revised.Ok? then
      RevisedFields(b, ChangesOf(options), currentYear);
      revised
    else
      revised
  }

  function Available(): BookRecord -> bool {
    (b: BookRecord) => IsAvailable(b)
  }

  function OnLoan(): BookRecord -> bool {
    (b: BookRecord) => b.loanedCopies > 0
  }

  // ---------------------------------------------------------------------
  // What the operations promise

  /** The check the setter of option `o` makes of the value it is given. */
  predicate Accepts(o: BookOption, v: string, currentYear: int) {
    match o
    case YearOption => 1000 <= Intval(v) <= currentYear + 10
    case CopiesOption => Intval(v) >= 1
    case _ => !IsEmpty(v)
  }

  /** Option `o` is given with a value its setter refuses. */
  predicate Refused(c: BookChanges, o: BookOption, currentYear: int) {
    ValueOf(c, o).Some? && !Accepts(o, ValueOf(c, o).value, currentYear)
  }

  /** The value a text field ends up with: the option's, when it is among
      the options tried and given, the book's own otherwise. */
  function Given(c: BookChanges, os: seq<BookOption>, o: BookOption, kept: string): string {
    if o in os && ValueOf(c, o).Some? then ValueOf(c, o).value else kept
  }

  /** The same for a number field, read through intval. */
  function GivenNumber(c: BookChanges, os: seq<BookOption>, o: BookOption, kept: int): int {
    if o in os && ValueOf(c, o).Some? then Intval(ValueOf(c, o).value) else kept
  }

  /** One setter step of updateBook: when its option is given, that one
      field takes the given value (year and copies through intval); every
      other field is kept, and the step fails exactly when the value does
      not pass the setter's check. */
  lemma StepFields(b: BookRecord, c: BookChanges, o: BookOption, currentYear: int)
    ensures var r := EditIfGiven(b, OptionEdit(c, o, currentYear));
      && (r.Err? <==> Refused(c, o, currentYear))
      && (r.Ok? ==>
            && r.value.isbn == b.isbn && r.value.loanedCopies == b.loanedCopies
            && r.value.title == Given(c, [o], TitleOption, b.title)
            && r.value.author == Given(c, [o], AuthorOption, b.author)
            && r.value.publisher == Given(c, [o], PublisherOption, b.publisher)
            && r.value.year == GivenNumber(c, [o], YearOption, b.year)
            && r.value.category == Given(c, [o], CategoryOption, b.category)
            && r.value.totalCopies == GivenNumber(c, [o], CopiesOption, b.totalCopies))
  {
    assert forall p: BookOption :: p in [o] <==> p == o;
    match o
    case TitleOption =>
    case AuthorOption =>
    case PublisherOption =>
    case YearOption =>
    case CategoryOption =>
    case CopiesOption =>
  }

  /** Running the setters for `os`: each field whose option is among them
      and given takes the given value, every other field is kept; the run
      fails exactly when some option among them is refused. */
  lemma {:induction false} ReviseByFields(b: BookRecord, c: BookChanges, os: seq<BookOption>, currentYear: int)
    decreases |os|
    ensures var r := ReviseBy(b, c, os, currentYear);
      && (r.Err? <==> exists o | o in os :: Refused(c, o, currentYear))
      && (r.Ok? ==>
            && r.value.isbn == b.isbn && r.value.loanedCopies == b.loanedCopies
            && r.value.title == Given(c, os, TitleOption, b.title)
            && r.value.author == Given(c, os, AuthorOption, b.author)
            && r.value.publisher == Given(c, os, PublisherOption, b.publisher)
            && r.value.year == GivenNumber(c, os, YearOption, b.year)
            && r.value.category == Given(c, os, CategoryOption, b.category)
            && r.value.totalCopies == GivenNumber(c, os, CopiesOption, b.totalCopies))
  {
    if os != [] {
      StepFields(b, c, os[0], currentYear);
      var step := EditIfGiven(b, OptionEdit(c, os[0], currentYear));
      if step.Ok? {
        ReviseByFields(step.value, c, os[1..], currentYear);
        assert forall o :: o in os <==> o == os[0] || o in os[1..];
      }
    }
  }

  /** updateBook changes exactly the fields whose options are given, to
      the values given (year and copies through intval), and never the
      ISBN or the number of copies on loan. */
  lemma RevisedFields(b: BookRecord, c: BookChanges, currentYear: int)
    requires Revised(b, c, currentYear).Ok?
    ensures var r := Revised(b, c, currentYear).value;
      && r.isbn == b.isbn && r.loanedCopies == b.loanedCopies
      && r.title == (if c.title.Some? then c.title.value else b.title)
      && r.author == (if c.author.Some? then c.author.value else b.author)
      && r.publisher == (if c.publisher.Some? then c.publisher.value else b.publisher)
      && r.year == (if c.year.Some? then Intval(c.year.value) else b.year)
      && r.category == (if c.category.Some? then c.category.value else b.category)
      && r.totalCopies == (if c.copies.Some? then Intval(c.copies.value) else b.totalCopies)
  {
    forall o: BookOption
      ensures o in UpdateOrder
    {
      InOrder(o);
    }
    ReviseAllFields(b, c, UpdateOrder, currentYear);
  }

  /** The same for any run that tries every option. */
  lemma ReviseAllFields(b: BookRecord, c: BookChanges, os: seq<BookOption>, currentYear: int)
    requires forall o: BookOption :: o in os
    requires ReviseBy(b, c, os, currentYear).Ok?
    ensures var r := ReviseBy(b, c, os, currentYear).value;
      && r.isbn == b.isbn && r.loanedCopies == b.loanedCopies
      && r.title == (if c.title.Some? then c.title.value else b.title)
      && r.author == (if c.author.Some? then c.author.value else b.author)
      && r.publisher == (if c.publisher.Some? then c.publisher.value else b.publisher)
      && r.year == (if c.year.Some? then Intval(c.year.value) else b.year)
      && r.category == (if c.category.Some? then c.category.value else b.category)
      && r.totalCopies == (if c.copies.Some? then Intval(c.copies.value) else b.totalCopies)
  {
    ReviseByFields(b, c, os, currentYear);
  }

  /** updateBook tries every option. */
  lemma InOrder(o: BookOption)
    ensures o in UpdateOrder
  {
    match o
    case TitleOption => assert UpdateOrder[0] == o;
    case AuthorOption => assert UpdateOrder[1] == o;
    case PublisherOption => assert UpdateOrder[2] == o;
    case YearOption => assert UpdateOrder[3] == o;
    case CategoryOption => assert UpdateOrder[4] == o;
    case CopiesOption => assert UpdateOrder[5] == o;
  }

  /** updateBook goes through exactly when every option given passes its
      setter's check. */
  lemma RevisedIffValid(b: BookRecord, c: BookChanges, currentYear: int)
    ensures Revised(b, c, currentYear).Ok? <==>
      && (c.title.Some? ==> !IsEmpty(c.title.value))
      && (c.author.Some? ==> !IsEmpty(c.author.value))
      && (c.publisher.Some? ==> !IsEmpty(c.publisher.value))
      && (c.year.Some? ==> 1000 <= Intval(c.year.value) <= currentYear + 10)
      && (c.category.Some? ==> !IsEmpty(c.category.value))
      && (c.copies.Some? ==> Intval(c.copies.value) >= 1)
  {
    forall o: BookOption
      ensures o in UpdateOrder
    {
      InOrder(o);
    }
    ReviseAllIffValid(b, c, UpdateOrder, currentYear);
    NoneRefused(c, currentYear);
  }

  /** No option is refused exactly when each given value passes its check. */
  lemma NoneRefused(c: BookChanges, currentYear: int)
    ensures (forall o: BookOption :: !Refused(c, o, currentYear)) <==>
      && (c.title.Some? ==> !IsEmpty(c.title.value))
      && (c.author.Some? ==> !IsEmpty(c.author.value))
      && (c.publisher.Some? ==> !IsEmpty(c.publisher.value))
      && (c.year.Some? ==> 1000 <= Intval(c.year.value) <= currentYear + 10)
      && (c.category.Some? ==> !IsEmpty(c.category.value))
      && (c.copies.Some? ==> Intval(c.copies.value) >= 1)
  {
    if forall o: BookOption :: !Refused(c, o, currentYear) {
      assert !Refused(c, TitleOption, currentYear) && !Refused(c, AuthorOption, currentYear);
      assert !Refused(c, PublisherOption, currentYear) && !Refused(c, YearOption, currentYear);
      assert !Refused(c, CategoryOption, currentYear) && !Refused(c, CopiesOption, currentYear);
    } else {
      var o: BookOption :| Refused(c, o, currentYear);
      match o
      case TitleOption =>
      case AuthorOption =>
      case PublisherOption =>
      case YearOption =>
      case CategoryOption =>
      case CopiesOption =>
    }
  }

  /** The same for any run that tries every option. */
  lemma ReviseAllIffValid(b: BookRecord, c: BookChanges, os: seq<BookOption>, currentYear: int)
    requires forall o: BookOption :: o in os
    ensures ReviseBy(b, c, os, currentYear).Ok? <==>
      forall o: BookOption :: !Refused(c, o, currentYear)
  {
    ReviseByFields(b, c, os, currentYear);
  }

  /** An updated book is still one the constructor accepts. */
  lemma {:induction false} ReviseByWellFormed(b: BookRecord, c: BookChanges, os: seq<BookOption>, currentYear: int)
    decreases |os|
    requires WellFormed(b, currentYear) && ReviseBy(b, c, os, currentYear).Ok?
    ensures WellFormed(ReviseBy(b, c, os, currentYear).value, currentYear)
  {
    if os != [] {
      var e := OptionEdit(c, os[0], currentYear);
      var step := EditIfGiven(b, e);
      if e.Some? {
        EditPreservesWellFormed(b, e.value, currentYear);
      }
      ReviseByWellFormed(step.value, c, os[1..], currentYear);
    }
  }

  /** loanBook puts one more copy of the book on loan and leaves every
      other book as it was; it refuses exactly when no copy is free. */
  lemma LentChangesOneBook(books: seq<BookRecord>, isbn: string, other: string)
    requires Lookup(books, IsbnOf, isbn).Some?
    ensures var b := Lookup(books, IsbnOf, isbn).value;
      && (Lent(Ok(books), isbn).Err? <==> b.loanedCopies >= b.totalCopies)
      && (Lent(Ok(books), isbn).Ok? ==>
            var after := Upsert(books, IsbnOf, Lent(Ok(books), isbn).value);
            && Lookup(after, IsbnOf, isbn) == Some(b.(loanedCopies := b.loanedCopies + 1))
            && (other != isbn ==> Lookup(after, IsbnOf, other) == Lookup(books, IsbnOf, other)))
  {
    var r := Lent(Ok(books), isbn);
    if r.Ok? {
      LookupAfterUpsert(books, IsbnOf, r.value);
      if other != isbn {
        LookupOtherAfterUpsert(books, IsbnOf, r.value, other);
      }
    }
  }

  /** returnBook takes one copy of the book back and leaves every other
      book as it was; it refuses exactly when no copy is on loan. */
  lemma TakenBackChangesOneBook(books: seq<BookRecord>, isbn: string, other: string)
    requires Lookup(books, IsbnOf, isbn).Some?
    ensures var b := Lookup(books, IsbnOf, isbn).value;
      && (TakenBack(Ok(books), isbn).Err? <==> b.loanedCopies <= 0)
      && (TakenBack(Ok(books), isbn).Ok? ==>
            var after := Upsert(books, IsbnOf, TakenBack(Ok(books), isbn).value);
            && Lookup(after, IsbnOf, isbn) == Some(b.(loanedCopies := b.loanedCopies - 1))
            && (other != isbn ==> Lookup(after, IsbnOf, other) == Lookup(books, IsbnOf, other)))
  {
    var r := TakenBack(Ok(books), isbn);
    if r.Ok? {
      LookupAfterUpsert(books, IsbnOf, r.value);
      if other != isbn {
        LookupOtherAfterUpsert(books, IsbnOf, r.value, other);
      }
    }
  }

  /** Lending a copy and taking it back leaves the stored books as they were. */
  lemma LendThenTakeBack(books: seq<BookRecord>, isbn: string)
    requires Lent(Ok(books), isbn).Ok?
    requires Lookup(books, IsbnOf, isbn).value.loanedCopies >= 0
    ensures var after := Upsert(books, IsbnOf, Lent(Ok(books), isbn).value);
      && TakenBack(Ok(after), isbn).Ok?
      && Upsert(after, IsbnOf, TakenBack(Ok(after), isbn).value) == books
  {
    var b := Lookup(books, IsbnOf, isbn).value;
    var lent := Lent(Ok(books), isbn).value;
    LookupAfterUpsert(books, IsbnOf, lent);
    LoanThenReturn(b);
    UpsertRestores(books, IsbnOf, lent);
  }

  /** getAvailableBooks and getLoanedBooks list exactly the books with a
      free copy and the books with a copy out, in file order. */
  lemma ListsExact(books: seq<BookRecord>)
    ensures forall b :: b in Filter(books, Available()) <==> b in books && AvailableCopies(b) > 0
    ensures forall b :: b in Filter(books, OnLoan()) <==> b in books && b.loanedCopies > 0
  {
    FilterMembers(books, Available());
    FilterMembers(books, OnLoan());
  }

  /** The searches fail exactly when no stored book matches. */
  lemma FoundIffMatch(books: seq<BookRecord>, field: BookField, query: string)
    ensures Found(Ok(books), field, query).Err? <==>
      forall b | b in books :: !ContainsIgnoringCase(FieldOf(b, field), query)
    ensures Found(Ok(books), field, query).Ok? ==>
      forall b :: b in Found(Ok(books), field, query).value <==>
        b in books && ContainsIgnoringCase(FieldOf(b, field), query)
  {
    var hits := Search(books, field, query);
    if hits != [] {
      assert hits[0] in books;
    }
  }

  // ---------------------------------------------------------------------
  // The service

  /** addBook leaves the loaned count to the constructor's default, 0. */
  lemma IntvalZero()
    ensures Intval("0") == 0
  {
    assert AllDigits("0");
  }

  /** A setter call of updateBook on the Book object, when its option is given. */
  method SetIfGiven(book: Book, e: Option<BookEdit>) returns (o: Outcome)
    modifies book
    ensures EditIfGiven(old(book.Record()), e).Ok? ==>
      o == Pass && book.Record() == EditIfGiven(old(book.Record()), e).value
    ensures EditIfGiven(old(book.Record()), e).Err? ==> o == Fail(EditIfGiven(old(book.Record()), e).error)
  {
    o := Pass;
    if e.Some? {
      o := book.Set(e.value);
    }
  }

  /** The `if (isset(...))` setter calls of updateBook on the Book object,
      in order, stopping at the first that throws. */
  method Revise(book: Book, c: BookChanges, currentYear: int) returns (o: Outcome)
    modifies book
    ensures Revised(old(book.Record()), c, currentYear).Ok? ==>
      o == Pass && book.Record() == Revised(old(book.Record()), c, currentYear).value
    ensures Revised(old(book.Record()), c, currentYear).Err? ==>
      o == Fail(Revised(old(book.Record()), c, currentYear).error)
  {
    o := SetIfGiven(book, OptionEdit(c, TitleOption, currentYear));
    if o.Fail? {
      return;
    }
    o := SetIfGiven(book, OptionEdit(c, AuthorOption, currentYear));
    if o.Fail? {
      return;
    }
    o := SetIfGiven(book, OptionEdit(c, PublisherOption, currentYear));
    if o.Fail? {
      return;
    }
    o := SetIfGiven(book, OptionEdit(c, YearOption, currentYear));
    if o.Fail? {
      return;
    }
    o := SetIfGiven(book, OptionEdit(c, CategoryOption, currentYear));
    if o.Fail? {
      return;
    }
    o := SetIfGiven(book, OptionEdit(c, CopiesOption, currentYear));
  }

  class BookService {
    const books: BR.BookRepository

    /** The constructor with the repository it builds. */
    constructor (books: BR.BookRepository)
      requires books.Valid()
      ensures this.books == books && Valid()
    {
      this.books := books;
    }

    ghost predicate Valid() {
      books.Valid()
    }

    /** addBook: a new book with `copies` copies and none on loan, saved
        over any book with the same ISBN. */
    method AddBook(isbn: string, title: string, author: string, publisher: string, year: string,
                   category: string, copies: string := "1") returns (r: Result<BookRecord>)
      requires Valid()
      modifies books.file
      ensures var made := NewBook(isbn, title, author, publisher, year, category, copies, "0", books.currentYear);
        && (made.Err? ==> r == Err(made.error) && unchanged(books.file))
        && (made.Ok? && old(books.Books()).Err? ==> r == Err(old(books.Books()).error) && unchanged(books.file))
        && (made.Ok? && old(books.Books()).Ok? ==> r == made && r.value.loanedCopies == 0)
        && (made.Ok? && old(books.Books()).Ok? && old(books.HasHeader()) ==>
              books.Books() == Ok(Upsert(old(books.Books()).value, IsbnOf, made.value)))
    {
      var made := NewBook(isbn, title, author, publisher, year, category, copies, "0", books.currentYear);
      if made.Err? {
        return Err(made.error);
      }
      IntvalZero();
      r := books.Save(made.value);
    }

    /** getAllBooks */
    method GetAllBooks() returns (r: Result<seq<BookRecord>>)
      ensures r == books.Books()
    {
      r := books.FindAll();
    }

    /** getBookByISBN */
    method GetBookByISBN(isbn: string) returns (r: Result<BookRecord>)
      ensures r == BookByISBN(books.Books(), isbn)
    {
      var found := books.FindByISBN(isbn);
      if found.Err? {
        return Err(found.error);
      }
      if found.value.None? {
        return Err(BookNotFound);
      }
      return Ok(found.value.value);
    }

    /** searchBooksByTitle, searchBooksByAuthor and searchBooksByCategory. */
    method SearchBooks(field: BookField, query: string) returns (r: Result<seq<BookRecord>>)
      ensures r == Found(books.Books(), field, query)
    {
      var hits := books.FindBy(field, query);
      if hits.Err? {
        return Err(hits.error);
      }
      if hits.value == [] {
        return Err(NoSearchResult);
      }
      return hits;
    }

    /** updateBook: the setters of the options given, then save. */
    method UpdateBook(isbn: string, options: Assoc<string>) returns (r: Result<BookRecord>)
      requires Valid()
      modifies books.file
      ensures r == Updated(old(books.Books()), isbn, options, books.currentYear)
      ensures r.Err? ==> unchanged(books.file)
      ensures r.Ok? ==> books.file.present && books.file.lines == Stored(Upsert(old(books.Books()).value, IsbnOf, r.value))
      ensures r.Ok? && old(books.HasHeader()) ==> books.Books() == Ok(Upsert(old(books.Books()).value, IsbnOf, r.value))
    {
      var found := GetBookByISBN(isbn);
      if found.Err? {
        return Err(found.error);
      }
      var book := new Book(found.value);
      var o := Revise(book, ChangesOf(options), books.currentYear);
      if o.Fail? {
        return Err(o.error);
      }
      var revised := book.Record();
      RevisedFields(found.value, ChangesOf(options), books.currentYear);
      if books.HasHeader() {
        books.LoadedAccepted();
        ReviseByWellFormed(found.value, ChangesOf(options), UpdateOrder, books.currentYear);
      }
      r := books.Save(revised);
    }

    /** deleteBook: refused while a copy is on loan. */
    method DeleteBook(isbn: string) returns (o: Outcome)
      requires Valid()
      modifies books.file
      ensures var found := BookByISBN(old(books.Books()), isbn);
        && (found.Err? ==> o == Fail(found.error) && unchanged(books.file))
        && (found.Ok? && found.value.loanedCopies > 0 ==> o == Fail(BookOnLoan) && unchanged(books.file))
        && (found.Ok? && found.value.loanedCopies <= 0 ==>
              o == Pass && books.file.lines == Stored(RemoveAll(old(books.Books()).value, IsbnOf, isbn)))
        && (found.Ok? && found.value.loanedCopies <= 0 && old(books.HasHeader()) ==>
              books.Books() == Ok(RemoveAll(old(books.Books()).value, IsbnOf, isbn)))
    {
      var found := GetBookByISBN(isbn);
      if found.Err? {
        return Fail(found.error);
      }
      if found.value.loanedCopies > 0 {
        return Fail(BookOnLoan);
      }
      o := books.Delete(isbn);
    }

    /** loanBook */
    method LoanBook(isbn: string) returns (r: Result<BookRecord>)
      requires Valid()
      modifies books.file
      ensures r == Lent(old(books.Books()), isbn)
      ensures r.Err? ==> unchanged(books.file)
      ensures r.Ok? ==> books.file.present && books.file.lines == Stored(Upsert(old(books.Books()).value, IsbnOf, r.value))
      ensures r.Ok? && old(books.HasHeader()) ==> books.Books() == Ok(Upsert(old(books.Books()).value, IsbnOf, r.value))
    {
      var found := GetBookByISBN(isbn);
      if found.Err? {
        return Err(found.error);
      }
      if !IsAvailable(found.value) {
        return Err(NoCopyAvailable);
      }
      var book := new Book(found.value);
      var o := book.IncrementLoanedCopies();
      assert o == Pass;
      if books.HasHeader() {
        books.LoadedAccepted();
        CounterUpdatesPreserve(found.value, books.currentYear);
      }
      r := books.Save(book.Record());
    }

    /** returnBook */
    method ReturnBook(isbn: string) returns (r: Result<BookRecord>)
      requires Valid()
      modifies books.file
      ensures r == TakenBack(old(books.Books()), isbn)
      ensures r.Err? ==> unchanged(books.file)
      ensures r.Ok? ==> books.file.present && books.file.lines == Stored(Upsert(old(books.Books()).value, IsbnOf, r.value))
      ensures r.Ok? && old(books.HasHeader()) ==> books.Books() == Ok(Upsert(old(books.Books()).value, IsbnOf, r.value))
    {
      var found := GetBookByISBN(isbn);
      if found.Err? {
        return Err(found.error);
      }
      if found.value.loanedCopies <= 0 {
        return Err(NothingToReturn);
      }
      var book := new Book(found.value);
      var o := book.DecrementLoanedCopies();
      assert o == Pass;
      if books.HasHeader() {
        books.LoadedAccepted();
        CounterUpdatesPreserve(found.value, books.currentYear);
      }
      r := books.Save(book.Record());
    }

    /** getAvailableBooks */
    method GetAvailableBooks() returns (r: Result<seq<BookRecord>>)
      ensures books.Books().Err? ==> r == Err(books.Books().error)
      ensures books.Books().Ok? ==> r == Ok(Filter(books.Books().value, Available()))
    {
      var all := GetAllBooks();
      if all.Err? {
        return Err(all.error);
      }
      var available := Collect(all.value, Available());
      return Ok(available);
    }

    /** getLoanedBooks */
    method GetLoanedBooks() returns (r: Result<seq<BookRecord>>)
      ensures books.Books().Err? ==> r == Err(books.Books().error)
      ensures books.Books().Ok? ==> r == Ok(Filter(books.Books().value, OnLoan()))
    {
      var all := GetAllBooks();
      if all.Err? {
        return Err(all.error);
      }
      var loaned := Collect(all.value, OnLoan());
      return Ok(loaned);
    }
  }
}
