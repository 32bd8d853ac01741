/** classes/services/LoanService.php: lending and taking back copies, over
    the LoanRepository, the BookService and the UserService. Each operation
    reads the files afresh; the module-level functions below state its
    outcome as a function of what was stored before it ran, the class runs
    the source's steps against the repositories and services. */
module LoanService {
  import opened Outcomes
  import opened Dates
  import opened Arrays
  import opened Validator
  import opened Records
  import opened Identifiers
  import opened LoanModel
  import opened LR = LoanRepository
  import BookModel
  import BR = BookRepository
  import BS = BookService
  import UserModel
  import UR = UserRepository
  import US = UserService

  // ---------------------------------------------------------------------
  // What each operation computes from the stored users, books and loans

  /** A loan of the ISBN still on loan: the test of checkoutBook's foreach,
      and what a book's count of copies on loan counts. */
  function OnLoanOf(isbn: string): LoanRecord -> bool {
    (l: LoanRecord) => l.isbn == isbn && IsLoaned(l)
  }

  /** getLoanByID: the first loan with the ID, an error when there is none. */
  function LoanByID(loans: Result<seq<LoanRecord>>, loanID: string): (r: Result<LoanRecord>)
    ensures loans.Err? ==> r == Err(loans.error)
    ensures loans.Ok? ==> (r.Ok? <==> Lookup(loans.value, LoanIdOf, loanID).Some?)
    ensures loans.Ok? && r.Ok? ==> r.value in loans.value && r.value.loanID == loanID
    ensures loans.Ok? && r.Err? ==> r.error == LoanNotFound
  {
    var ls :- loans;
    match Lookup(ls, LoanIdOf, loanID)
    case None => Err(LoanNotFound)
    case Some(l) => Ok(l)
  }

  /** checkoutBook: the user and the book must exist, a copy must be free
      and the user must not already have this ISBN on loan; the new loan
      gets the next loan ID and the constructor's defaults. */
  function Checkout(users: Result<seq<UserModel.UserRecord>>, books: Result<seq<BookModel.BookRecord>>,
                    loans: Result<seq<LoanRecord>>, userID: string, isbn: string, today: Day): (r: Result<LoanRecord>)
    ensures users.Err? ==> r == Err(users.error)
    ensures users.Ok? && Lookup(users.value, UR.UserIdOf, userID).None? ==> r == Err(UserNotFound)
    ensures r.Ok? ==>
      && r.value.userID == userID && IsLoaned(r.value)
      && r.value.checkoutDate == Render(today) && r.value.returnDate == ""
  {
    var user :- US.UserByID(users, userID);
    var book :- BS.BookByISBN(books, isbn);
    if !BookModel.IsAvailable(book) then Err(BookUnavailable)
    else
      var ls :- loans;
      if AnyIn(Filter(ls, KeyIs(UserOf, userID)), OnLoanOf(isbn)) then Err(AlreadyBorrowing)
      else NewLoan(NextId(Project(ls, LoanIdOf), 'L'), userID, isbn, None, None, None, None, today)
  }

  /** returnBook: the loan must exist and be on loan; it is closed today,
      and the book must take the copy back before the loan is saved. */
  function ReturnOf(books: Result<seq<BookModel.BookRecord>>, loans: Result<seq<LoanRecord>>,
                    loanID: string, today: Day): (r: Result<LoanRecord>)
    ensures loans.Err? ==> r == Err(loans.error)
    ensures loans.Ok? && Lookup(loans.value, LoanIdOf, loanID).None? ==> r == Err(LoanNotFound)
    ensures loans.Ok? && Lookup(loans.value, LoanIdOf, loanID).Some? && !IsLoaned(Lookup(loans.value, LoanIdOf, loanID).value) ==>
      r == Err(LoanNotActive)
    ensures r.Ok? ==> r.value.loanID == loanID && r.value.status == StatusReturned && r.value.returnDate == Render(today)
  {
    var l :- LoanByID(loans, loanID);
    if !IsLoaned(l) then Err(LoanNotActive)
    else
      var closed := ReturnLoan(l, today).value;
      var book :- BS.TakenBack(books, closed.isbn);
      Ok(closed)
  }

  /** getUserLoanHistory: the user must exist and have at least one loan. */
  function UserHistory(users: Result<seq<UserModel.UserRecord>>, loans: Result<seq<LoanRecord>>, userID: string): (r: Result<seq<LoanRecord>>)
    ensures users.Err? ==> r == Err(users.error)
    ensures users.Ok? && Lookup(users.value, UR.UserIdOf, userID).None? ==> r == Err(UserNotFound)
    ensures r.Ok? ==> r.value != [] && forall l | l in r.value :: l.userID == userID
  {
    var user :- US.UserByID(users, userID);
    var ls :- loans;
    FilterKeyMembers(ls, UserOf, userID);
    var mine := Filter(ls, KeyIs(UserOf, userID));
    if mine == [] then Err(NoLoanHistory) else Ok(mine)
  }

  /** getBookLoanHistory: the book must exist; its loans may be none. */
  function BookHistory(books: Result<seq<BookModel.BookRecord>>, loans: Result<seq<LoanRecord>>, isbn: string): (r: Result<seq<LoanRecord>>)
    ensures books.Err? ==> r == Err(books.error)
    ensures books.Ok? && Lookup(books.value, BR.IsbnOf, isbn).None? ==> r == Err(BookNotFound)
    ensures r.Ok? ==> forall l | l in r.value :: l.isbn == isbn
  {
    var book :- BS.BookByISBN(books, isbn);
    var ls :- loans;
    FilterKeyMembers(ls, IsbnOf, isbn);
    Ok(Filter(ls, KeyIs(IsbnOf, isbn)))
  }

  /** The array getLoanSummary returns. */
  datatype LoanSummary = LoanSummary(total: int, active: int, overdue: int, returned: int)

  /** getLoanSummary: the counts of all, active and overdue loans, and all
      minus active as the returned ones. */
  function Summary(loans: Result<seq<LoanRecord>>, today: Day): (r: Result<LoanSummary>)
    ensures loans.Err? ==> r == Err(loans.error)
    ensures r.Ok? ==> 0 <= r.value.active <= r.value.total && r.value.returned >= 0
  {
    var ls :- loans;
    Ok(LoanSummary(|ls|, |ActiveLoans(ls)|, |OverdueLoans(ls, today)|, |ls| - |ActiveLoans(ls)|))
  }

  // ---------------------------------------------------------------------
  // The invariant tying the two files together

  /** Every book's count of copies on loan is the number of its loans
      still on loan. */
  predicate CountsMatch(books: seq<BookModel.BookRecord>, loans: seq<LoanRecord>)
    ensures CountsMatch(books, loans) ==> forall b | b in books :: b.loanedCopies >= 0
    ensures loans == [] ==> (CountsMatch(books, loans) <==> forall b | b in books :: b.loanedCopies == 0)
  {
    forall b | b in books :: b.loanedCopies == |Filter(loans, OnLoanOf(b.isbn))|
  }

  /** The ISBNs stored are the normalised ones validateISBN returns, as
      for every book the constructor builds. */
  predicate IsbnsNormal(books: seq<BookModel.BookRecord>) {
    forall b | b in books :: ValidateISBN(b.isbn) == Ok(b.isbn)
  }

  /** The user has a loan of the ISBN still on loan. */
  predicate HasOnLoan(loans: seq<LoanRecord>, userID: string, isbn: string) {
    exists l | l in loans :: l.userID == userID && l.isbn == isbn && IsLoaned(l)
  }

  // ---------------------------------------------------------------------
  // Properties

  /** checkoutBook's foreach over the user's loans throws exactly when the
      user has the ISBN on loan. */
  lemma BorrowingIff(loans: seq<LoanRecord>, userID: string, isbn: string)
    ensures AnyIn(Filter(loans, KeyIs(UserOf, userID)), OnLoanOf(isbn)) <==> HasOnLoan(loans, userID, isbn)
  {
    AnyWithKey(loans, UserOf, userID, OnLoanOf(isbn));
    if l :| l in loans && l.userID == userID && l.isbn == isbn && IsLoaned(l) {
      assert UserOf(l) == userID && OnLoanOf(isbn)(l);
    }
  }

  /** checkoutBook refuses, in this order, an unknown user, an unknown
      book, a book with no free copy and a user who already has the ISBN
      on loan; a loan it makes is on loan, under an ID no stored loan has
      and validateLoanID accepts, for this user and book, from today. */
  lemma CheckoutOutcome(users: seq<UserModel.UserRecord>, books: seq<BookModel.BookRecord>, loans: seq<LoanRecord>,
                        userID: string, isbn: string, today: Day)
    requires IsbnsNormal(books)
    ensures var r := Checkout(Ok(users), Ok(books), Ok(loans), userID, isbn, today);
      && (Lookup(users, UR.UserIdOf, userID).None? ==> r == Err(UserNotFound))
      && (Lookup(users, UR.UserIdOf, userID).Some? && Lookup(books, BR.IsbnOf, isbn).None? ==> r == Err(BookNotFound))
      && (Lookup(users, UR.UserIdOf, userID).Some? && Lookup(books, BR.IsbnOf, isbn).Some? ==>
            && (!BookModel.IsAvailable(Lookup(books, BR.IsbnOf, isbn).value) ==> r == Err(BookUnavailable))
            && (BookModel.IsAvailable(Lookup(books, BR.IsbnOf, isbn).value) && HasOnLoan(loans, userID, isbn) ==>
                  r == Err(AlreadyBorrowing))
            && (BookModel.IsAvailable(Lookup(books, BR.IsbnOf, isbn).value) && !HasOnLoan(loans, userID, isbn) ==>
                  && (r.Ok? <==> IsIdPattern(userID, 'U'))
                  && (!IsIdPattern(userID, 'U') ==> r == Err(InvalidUserID))))
    ensures var r := Checkout(Ok(users), Ok(books), Ok(loans), userID, isbn, today);
      r.Ok? ==>
        && Lookup(users, UR.UserIdOf, userID).Some?
        && BookModel.IsAvailable(Lookup(books, BR.IsbnOf, isbn).value)
        && !HasOnLoan(loans, userID, isbn)
        && r.value.userID == userID && r.value.isbn == isbn && IsLoaned(r.value)
        && Lookup(loans, LoanIdOf, r.value.loanID).None? && ValidateLoanID(r.value.loanID).Ok?
        && r.value.checkoutDate == Render(today) && r.value.returnDate == ""
        && (today.year < 9999 ==> WellFormed(r.value) && r.value.dueDate == DueDateFor(today) && !IsOverdue(r.value, today))
  {
    BorrowingIff(loans, userID, isbn);
    var r := Checkout(Ok(users), Ok(books), Ok(loans), userID, isbn, today);
    if r.Ok? {
      var b := Lookup(books, BR.IsbnOf, isbn).value;
      assert ValidateISBN(b.isbn) == Ok(b.isbn);
      GeneratedIdFresh(loans);
      if today.year < 9999 {
        FreshLoan(r.value.loanID, userID, isbn, today, r.value);
      }
    }
  }

  /** One more copy of a book on loan, together with one more loan of it
      on loan, keeps the counts matching. */
  lemma LendKeepsCounts(books: seq<BookModel.BookRecord>, loans: seq<LoanRecord>, i: nat, l: LoanRecord)
    requires CountsMatch(books, loans) && UniqueKeys(books, BR.IsbnOf)
    requires i < |books| && l.isbn == books[i].isbn && IsLoaned(l)
    ensures CountsMatch(books[i := books[i].(loanedCopies := books[i].loanedCopies + 1)], loans + [l])
  {
    var after := books[i := books[i].(loanedCopies := books[i].loanedCopies + 1)];
    forall c | c in after
      ensures c.loanedCopies == |Filter(loans + [l], OnLoanOf(c.isbn))|
    {
      FilterAppend(loans, [l], OnLoanOf(c.isbn));
      assert Filter([l], OnLoanOf(c.isbn)) == if OnLoanOf(c.isbn)(l) then [l] else [];
      var j :| 0 <= j < |after| && after[j] == c;
      assert books[j] in books;
      if j != i {
        assert BR.IsbnOf(books[j]) != BR.IsbnOf(books[i]);
      }
    }
  }

  /** Lending an available stored book writes back that one record with
      one more copy on loan; returns its index. */
  lemma LentAt(books: seq<BookModel.BookRecord>, isbn: string) returns (i: nat)
    requires Lookup(books, BR.IsbnOf, isbn).Some? && BookModel.IsAvailable(Lookup(books, BR.IsbnOf, isbn).value)
    ensures i < |books| && books[i].isbn == isbn && BS.Lent(Ok(books), isbn).Ok?
    ensures Upsert(books, BR.IsbnOf, BS.Lent(Ok(books), isbn).value)
         == books[i := books[i].(loanedCopies := books[i].loanedCopies + 1)]
  {
    i := FirstIndex(books, BR.IsbnOf, isbn).value;
    var lent := books[i].(loanedCopies := books[i].loanedCopies + 1);
    assert Lookup(books, BR.IsbnOf, isbn) == Some(books[i]);
    assert BS.BookByISBN(Ok(books), isbn) == Ok(books[i]);
    assert BS.Lent(Ok(books), isbn) == Ok(lent);
    assert Replace(books, BR.IsbnOf, lent) == Some(books[i := lent]);
  }

  /** checkoutBook keeps the counts matching: the book gains one copy on
      loan and the loans one loan of it on loan; no other count moves. */
  lemma CheckoutKeepsCounts(users: seq<UserModel.UserRecord>, books: seq<BookModel.BookRecord>, loans: seq<LoanRecord>,
                            userID: string, isbn: string, today: Day)
    requires CountsMatch(books, loans) && UniqueKeys(books, BR.IsbnOf) && IsbnsNormal(books)
    requires Checkout(Ok(users), Ok(books), Ok(loans), userID, isbn, today).Ok?
    ensures CountsMatch(Upsert(books, BR.IsbnOf, BS.Lent(Ok(books), isbn).value),
                        loans + [Checkout(Ok(users), Ok(books), Ok(loans), userID, isbn, today).value])
  {
    var l := Checkout(Ok(users), Ok(books), Ok(loans), userID, isbn, today).value;
    CheckoutOutcome(users, books, loans, userID, isbn, today);
    var i := LentAt(books, isbn);
    LendKeepsCounts(books, loans, i, l);
  }

  /** Under matching counts, returnBook goes through exactly when the loan
      is stored and on loan and its book is stored: the book then has a
      copy out. The loan comes back returned today, all else kept. */
  lemma ReturnOutcome(books: seq<BookModel.BookRecord>, loans: seq<LoanRecord>, loanID: string, today: Day)
    requires CountsMatch(books, loans)
    ensures var r := ReturnOf(Ok(books), Ok(loans), loanID, today);
      && (Lookup(loans, LoanIdOf, loanID).None? ==> r == Err(LoanNotFound))
      && (Lookup(loans, LoanIdOf, loanID).Some? && !IsLoaned(Lookup(loans, LoanIdOf, loanID).value) ==> r == Err(LoanNotActive))
      && (r.Ok? <==>
            && Lookup(loans, LoanIdOf, loanID).Some?
            && IsLoaned(Lookup(loans, LoanIdOf, loanID).value)
            && Lookup(books, BR.IsbnOf, Lookup(loans, LoanIdOf, loanID).value.isbn).Some?)
      && (r.Ok? ==> r == ReturnLoan(Lookup(loans, LoanIdOf, loanID).value, today) && !IsLoaned(r.value))
  {
    var found := Lookup(loans, LoanIdOf, loanID);
    if found.Some? && IsLoaned(found.value) {
      var l := found.value;
      var b := Lookup(books, BR.IsbnOf, l.isbn);
      if b.Some? {
        FilterMembers(loans, OnLoanOf(l.isbn));
        assert l in Filter(loans, OnLoanOf(l.isbn));
      }
    }
  }

  /** returnBook keeps the counts matching: the book loses one copy on
      loan and the loan is no longer on loan; no other count moves. */
  lemma ReturnKeepsCounts(books: seq<BookModel.BookRecord>, loans: seq<LoanRecord>, loanID: string, today: Day)
    requires CountsMatch(books, loans) && UniqueKeys(books, BR.IsbnOf)
    requires ReturnOf(Ok(books), Ok(loans), loanID, today).Ok?
    ensures var closed := ReturnOf(Ok(books), Ok(loans), loanID, today).value;
      CountsMatch(Upsert(books, BR.IsbnOf, BS.TakenBack(Ok(books), closed.isbn).value),
                  Upsert(loans, LoanIdOf, closed))
  {
    var k := FirstIndex(loans, LoanIdOf, loanID).value;
    var l := loans[k];
    var closed := ReturnOf(Ok(books), Ok(loans), loanID, today).value;
    var isbn := l.isbn;
    assert Upsert(loans, LoanIdOf, closed) == loans[k := closed];
    var i := FirstIndex(books, BR.IsbnOf, isbn).value;
    var taken := BS.TakenBack(Ok(books), isbn).value;
    var after := Upsert(books, BR.IsbnOf, taken);
    assert books[i] in books;
    assert after == books[i := taken];
    forall c | c in after
      ensures c.loanedCopies == |Filter(loans[k := closed], OnLoanOf(c.isbn))|
    {
      FilterCountUpdate(loans, k, closed, OnLoanOf(c.isbn));
      var j :| 0 <= j < |after| && after[j] == c;
      if j != i {
        assert books[j] in books;
      }
    }
  }

  /** Returning a loan made of a book just lent, under an ID no other
      loan has, puts the books back as they were and keeps the loan,
      returned, at the end of the loans. */
  lemma ReturnAfterLend(books: seq<BookModel.BookRecord>, loans: seq<LoanRecord>, isbn: string, l: LoanRecord, today: Day)
    requires BS.Lent(Ok(books), isbn).Ok? && Lookup(books, BR.IsbnOf, isbn).value.loanedCopies >= 0
    requires l.isbn == isbn && IsLoaned(l) && Lookup(loans, LoanIdOf, l.loanID).None?
    ensures var lentBooks := Upsert(books, BR.IsbnOf, BS.Lent(Ok(books), isbn).value);
      var back := ReturnOf(Ok(lentBooks), Ok(loans + [l]), l.loanID, today);
      && back == ReturnLoan(l, today)
      && BS.TakenBack(Ok(lentBooks), back.value.isbn).Ok?
    ensures var lentBooks := Upsert(books, BR.IsbnOf, BS.Lent(Ok(books), isbn).value);
      var back := ReturnOf(Ok(lentBooks), Ok(loans + [l]), l.loanID, today);
      && Upsert(lentBooks, BR.IsbnOf, BS.TakenBack(Ok(lentBooks), back.value.isbn).value) == books
      && Upsert(loans + [l], LoanIdOf, back.value) == loans + [back.value]
  {
    var ls := loans + [l];
    assert FirstIndex(ls, LoanIdOf, l.loanID) == Some(|loans|);
    BS.LendThenTakeBack(books, isbn);
    LookupAfterUpsert(books, BR.IsbnOf, BS.Lent(Ok(books), isbn).value);
    var closed := ReturnLoan(l, today).value;
    assert ls[|loans| := closed] == loans + [closed];
  }

  /** A successful checkout lends a copy of a stored book, under a new loan ID. */
  lemma CheckoutLends(users: seq<UserModel.UserRecord>, books: seq<BookModel.BookRecord>, loans: seq<LoanRecord>,
                      userID: string, isbn: string, today: Day)
    requires IsbnsNormal(books) && forall b | b in books :: b.loanedCopies >= 0
    requires Checkout(Ok(users), Ok(books), Ok(loans), userID, isbn, today).Ok?
    ensures var l := Checkout(Ok(users), Ok(books), Ok(loans), userID, isbn, today).value;
      && BS.Lent(Ok(books), isbn).Ok? && Lookup(books, BR.IsbnOf, isbn).value.loanedCopies >= 0
      && l.isbn == isbn && IsLoaned(l) && Lookup(loans, LoanIdOf, l.loanID).None?
  {
    CheckoutOutcome(users, books, loans, userID, isbn, today);
    assert Lookup(books, BR.IsbnOf, isbn).value in books;
  }

  /** Lending a copy and then returning that loan puts the books back as
      they were and keeps the loan in the history, returned. */
  lemma CheckoutThenReturn(users: seq<UserModel.UserRecord>, books: seq<BookModel.BookRecord>, loans: seq<LoanRecord>,
                           userID: string, isbn: string, today: Day)
    requires IsbnsNormal(books) && forall b | b in books :: b.loanedCopies >= 0
    requires Checkout(Ok(users), Ok(books), Ok(loans), userID, isbn, today).Ok?
    ensures BS.Lent(Ok(books), isbn).Ok?
    ensures var l := Checkout(Ok(users), Ok(books), Ok(loans), userID, isbn, today).value;
      var lentBooks := Upsert(books, BR.IsbnOf, BS.Lent(Ok(books), isbn).value);
      var back := ReturnOf(Ok(lentBooks), Ok(loans + [l]), l.loanID, today);
      && back == ReturnLoan(l, today)
      && BS.TakenBack(Ok(lentBooks), back.value.isbn).Ok?
    ensures var l := Checkout(Ok(users), Ok(books), Ok(loans), userID, isbn, today).value;
      var lentBooks := Upsert(books, BR.IsbnOf, BS.Lent(Ok(books), isbn).value);
      var back := ReturnOf(Ok(lentBooks), Ok(loans + [l]), l.loanID, today);
      && Upsert(lentBooks, BR.IsbnOf, BS.TakenBack(Ok(lentBooks), back.value.isbn).value) == books
      && Upsert(loans + [l], LoanIdOf, back.value) == loans + [back.value]
  {
    var l := Checkout(Ok(users), Ok(books), Ok(loans), userID, isbn, today).value;
    CheckoutLends(users, books, loans, userID, isbn, today);
    ReturnAfterLend(books, loans, isbn, l, today);
  }

  /** getUserLoanHistory lists exactly the user's loans, and fails for a
      stored user with none. */
  lemma UserHistoryExact(users: seq<UserModel.UserRecord>, loans: seq<LoanRecord>, userID: string)
    ensures var h := UserHistory(Ok(users), Ok(loans), userID);
      && (Lookup(users, UR.UserIdOf, userID).None? ==> h == Err(UserNotFound))
      && (Lookup(users, UR.UserIdOf, userID).Some? ==>
            (h.Ok? <==> exists l | l in loans :: l.userID == userID))
      && (h.Ok? ==> forall l :: l in h.value <==> l in loans && l.userID == userID)
  {
    var mine := Filter(loans, KeyIs(UserOf, userID));
    FilterKeyMembers(loans, UserOf, userID);
    if mine != [] {
      assert mine[0] in mine;
    }
  }

  /** getBookLoanHistory lists exactly the loans of the ISBN, and fails
      only for a book that is not stored. */
  lemma BookHistoryExact(books: seq<BookModel.BookRecord>, loans: seq<LoanRecord>, isbn: string)
    ensures var h := BookHistory(Ok(books), Ok(loans), isbn);
      && (h.Ok? <==> Lookup(books, BR.IsbnOf, isbn).Some?)
      && (h.Ok? ==> forall l :: l in h.value <==> l in loans && l.isbn == isbn)
  {
    FilterKeyMembers(loans, IsbnOf, isbn);
  }

  /** The summary's counts: every loan is active or returned, and the
      overdue ones are among the active ones. */
  lemma SummaryCounts(loans: seq<LoanRecord>, today: Day)
    ensures var s := Summary(Ok(loans), today).value;
      && s.total == |loans|
      && s.total == s.active + s.returned
      && s.returned == |Filter(loans, Not(Active()))|
      && 0 <= s.overdue <= s.active <= s.total
  {
    FilterSplit(loans, Active());
    OverdueWithinActive(loans, today);
  }

  // ---------------------------------------------------------------------
  // The service

  class LoanService {
    const loans: LR.LoanRepository
    const books: BS.BookService
    const users: US.UserService

    /** The constructor with the repository and services it builds; the
        books and the loans live in different files. */
    constructor (loans: LR.LoanRepository, books: BS.BookService, users: US.UserService)
      requires loans.Valid() && books.Valid() && users.Valid() && books.books.file != loans.file
      ensures this.loans == loans && this.books == books && this.users == users && Valid()
    {
      this.loans := loans;
      this.books := books;
      this.users := users;
    }

    ghost predicate Valid() {
      loans.Valid() && books.Valid() && users.Valid() && books.books.file != loans.file
    }

    /** checkoutBook: the checks, then the book's count, then the new loan. */
    method CheckoutBook(userID: string, isbn: string) returns (r: Result<LoanRecord>)
      requires Valid()
      modifies books.books.file, loans.file
      ensures r == Checkout(old(users.users.Users()), old(books.books.Books()), old(loans.Loans()), userID, isbn, loans.today)
      ensures r.Err? ==> unchanged(books.books.file) && unchanged(loans.file)
      ensures r.Ok? ==>
        var lent := BS.Lent(old(books.books.Books()), isbn).value;
        && books.books.file.lines == BR.Stored(Upsert(old(books.books.Books()).value, BR.IsbnOf, lent))
        && loans.file.lines == (if old(loans.file.present) then old(loans.file.lines) else []) + [Values(ToArray(r.value))]
      ensures r.Ok? && old(books.books.HasHeader()) ==>
        books.books.Books() == Ok(Upsert(old(books.books.Books()).value, BR.IsbnOf, BS.Lent(old(books.books.Books()), isbn).value))
      ensures r.Ok? && old(loans.HasHeader()) && loans.today.year < 9999 ==>
        loans.Loans() == Ok(old(loans.Loans()).value + [r.value])
    {
      var user := users.GetUserByID(userID);
      if user.Err? {
        return Err(user.error);
      }
      var book := books.GetBookByISBN(isbn);
      if book.Err? {
        return Err(book.error);
      }
      if !BookModel.IsAvailable(book.value) {
        return Err(BookUnavailable);
      }
      var mine := loans.FindByUserID(userID);
      if mine.Err? {
        return Err(mine.error);
      }
      var borrowing := FindAny(mine.value, OnLoanOf(isbn));
      if borrowing {
        return Err(AlreadyBorrowing);
      }
      var id := loans.GenerateLoanID();
      var made := NewLoan(id.value, userID, isbn, None, None, None, None, loans.today);
      if made.Err? {
        return Err(made.error);
      }
      assert Checkout(users.users.Users(), books.books.Books(), loans.Loans(), userID, isbn, loans.today) == made;
      GeneratedIdFresh(loans.Loans().value);
      if loans.today.year < 9999 {
        FreshLoan(id.value, userID, isbn, loans.today, made.value);
      }
      var lent := books.LoanBook(isbn);
      r := loans.Save(made.value);
    }

    /** returnBook: close the loan, take the copy back, then save the loan. */
    method ReturnBook(loanID: string) returns (r: Result<LoanRecord>)
      requires Valid()
      modifies books.books.file, loans.file
      ensures r == ReturnOf(old(books.books.Books()), old(loans.Loans()), loanID, loans.today)
      ensures r.Err? ==> unchanged(books.books.file) && unchanged(loans.file)
      ensures r.Ok? ==>
        var taken := BS.TakenBack(old(books.books.Books()), r.value.isbn).value;
        && books.books.file.lines == BR.Stored(Upsert(old(books.books.Books()).value, BR.IsbnOf, taken))
        && loans.file.lines == Stored(Upsert(old(loans.Loans()).value, LoanIdOf, r.value))
      ensures r.Ok? && old(books.books.HasHeader()) ==>
        books.books.Books() ==
          Ok(Upsert(old(books.books.Books()).value, BR.IsbnOf, BS.TakenBack(old(books.books.Books()), r.value.isbn).value))
      ensures r.Ok? && old(loans.HasHeader()) ==> loans.Loans() == Ok(Upsert(old(loans.Loans()).value, LoanIdOf, r.value))
    {
      var found := GetLoanByID(loanID);
      if found.Err? {
        return Err(found.error);
      }
      if !IsLoaned(found.value) {
        return Err(LoanNotActive);
      }
      var loan := new Loan(found.value);
      var o := loan.ReturnBook(loans.today);
      assert o == Pass;
      var closed := loan.Record();
      ghost var taken := BS.TakenBack(books.books.Books(), closed.isbn);
      assert ReturnOf(books.books.Books(), loans.Loans(), loanID, loans.today)
          == if taken.Ok? then Ok(closed) else Err(taken.error);
      var back := books.ReturnBook(closed.isbn);
      if back.Err? {
        return Err(back.error);
      }
      if loans.HasHeader() {
        loans.LoadedAccepted();
        ReturnedIsSettled(found.value, loans.today, loans.today);
      }
      r := loans.Save(closed);
    }

    /** getAllLoans */
    method GetAllLoans() returns (r: Result<seq<LoanRecord>>)
      ensures r == loans.Loans()
    {
      r := loans.FindAll();
    }

    /** getActiveLoans */
    method GetActiveLoans() returns (r: Result<seq<LoanRecord>>)
      ensures loans.Loans().Err? ==> r == Err(loans.Loans().error)
      ensures loans.Loans().Ok? ==> r == Ok(ActiveLoans(loans.Loans().value))
    {
      r := loans.FindActiveLoans();
    }

    /** getOverdueLoans */
    method GetOverdueLoans() returns (r: Result<seq<LoanRecord>>)
      ensures loans.Loans().Err? ==> r == Err(loans.Loans().error)
      ensures loans.Loans().Ok? ==> r == Ok(OverdueLoans(loans.Loans().value, loans.today))
    {
      r := loans.FindOverdueLoans();
    }

    /** getLoanByID */
    method GetLoanByID(loanID: string) returns (r: Result<LoanRecord>)
      ensures r == LoanByID(loans.Loans(), loanID)
    {
      var found := loans.FindByID(loanID);
      if found.Err? {
        return Err(found.error);
      }
      if found.value.None? {
        return Err(LoanNotFound);
      }
      return Ok(found.value.value);
    }

    /** getUserLoanHistory */
    method GetUserLoanHistory(userID: string) returns (r: Result<seq<LoanRecord>>)
      ensures r == UserHistory(users.users.Users(), loans.Loans(), userID)
    {
      var user := users.GetUserByID(userID);
      if user.Err? {
        return Err(user.error);
      }
      var mine := loans.FindByUserID(userID);
      if mine.Err? {
        return Err(mine.error);
      }
      if mine.value == [] {
        return Err(NoLoanHistory);
      }
      return mine;
    }

    /** getBookLoanHistory */
    method GetBookLoanHistory(isbn: string) returns (r: Result<seq<LoanRecord>>)
      ensures r == BookHistory(books.books.Books(), loans.Loans(), isbn)
    {
      var book := books.GetBookByISBN(isbn);
      if book.Err? {
        return Err(book.error);
      }
      r := loans.FindByISBN(isbn);
    }

    /** getLoanSummary */
    method GetLoanSummary() returns (r: Result<LoanSummary>)
      ensures r == Summary(loans.Loans(), loans.today)
    {
      var all := GetAllLoans();
      if all.Err? {
        return Err(all.error);
      }
      var active := GetActiveLoans();
      var overdue := GetOverdueLoans();
      r := Ok(LoanSummary(|all.value|, |active.value|, |overdue.value|, |all.value| - |active.value|));
    }
  }
}
