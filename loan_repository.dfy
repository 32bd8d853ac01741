/** classes/repositories/LoanRepository.php: the loans kept in loans.csv,
    one line per loan under the header line, in file order. Every query
    reads the whole file back through Loan::fromArray, so a row the
    constructor rejects makes the query fail; `today` stands for the
    `date('Y-m-d')` that the constructor and isOverdue read. */
module LoanRepository {
  import opened Outcomes
  import opened Dates
  import opened Arrays
  import opened Validator
  import opened CsvHandler
  import opened Records
  import opened Identifiers
  import opened LoanModel

  function LoanIdOf(l: LoanRecord): string {
    l.loanID
  }

  function UserOf(l: LoanRecord): string {
    l.userID
  }

  function IsbnOf(l: LoanRecord): string {
    l.isbn
  }

  /** Loan::fromArray of one row as readCsv returns it; a row read without
      a header line has no named entries at all. */
  function RowLoan(row: CsvRow, today: Day): (r: Result<LoanRecord>)
    ensures r.Ok? ==> Parse(r.value.checkoutDate).Some? && ValidateISBN(r.value.isbn) == Ok(r.value.isbn)
  {
    match row
    case Keyed(fields) => FromArray(fields, today)
    case Raw(_) => FromArray([], today)
  }

  function Decoder(today: Day): CsvRow -> Result<LoanRecord> {
    row => RowLoan(row, today)
  }

  /** What findAll returns for the file in a given state. */
  function Load(present: bool, lines: seq<seq<string>>, today: Day): Result<seq<LoanRecord>> {
    DecodeAll(ReadRows(present, lines, true), Decoder(today))
  }

  function Accepted(): LoanRecord -> bool {
    l => WellFormed(l)
  }

  /** The file after saveAll(loans): the header line, then one line per loan. */
  function Stored(loans: seq<LoanRecord>): seq<seq<string>> {
    Table(Columns, loans, ToArray)
  }

  /** Loan::fromArray and toArray are a sound conversion for loans.csv. */
  lemma DecoderSound(today: Day)
    ensures Sound(Decoder(today), ToArray, Accepted(), Columns)
  {
    var decode, ok := Decoder(today), Accepted();
    ColumnsDistinct();
    forall a | Keys(a) == Columns && decode(Keyed(a)).Ok?
      ensures ok(decode(Keyed(a)).value)
    {
      FromArrayWellFormed(a, today);
    }
    forall l | ok(l)
      ensures Keys(ToArray(l)) == Columns && decode(Keyed(ToArray(l))) == Ok(l)
    {
      FromArrayToArray(l, today);
    }
  }

  /** saveAll followed by findAll gives the same loans back, in order. */
  lemma StoredReadsBack(loans: seq<LoanRecord>, today: Day)
    requires forall i | 0 <= i < |loans| :: WellFormed(loans[i])
    ensures Load(true, Stored(loans), today) == Ok(loans)
  {
    DecoderSound(today);
    TableReadsBack(loans, Decoder(today), ToArray, Accepted(), Columns);
  }

  function Active(): LoanRecord -> bool {
    l => IsLoaned(l)
  }

  function Late(today: Day): LoanRecord -> bool {
    l => IsOverdue(l, today)
  }

  /** findActiveLoans: the loans whose status is 貸出中, in file order. */
  function ActiveLoans(loans: seq<LoanRecord>): (r: seq<LoanRecord>)
    ensures forall l :: l in r <==> l in loans && IsLoaned(l)
  {
    FilterMembers(loans, Active());
    Filter(loans, Active())
  }

  /** findOverdueLoans: the active loans that are overdue, in file order. */
  function OverdueLoans(loans: seq<LoanRecord>, today: Day): (r: seq<LoanRecord>)
    ensures forall l :: l in r <==> l in loans && IsLoaned(l) && IsOverdue(l, today)
  {
    FilterMembers(ActiveLoans(loans), Late(today));
    Filter(ActiveLoans(loans), Late(today))
  }

  /** The overdue loans are exactly the loans, in file order, that are both
      on loan and overdue; so they are a subsequence of the active loans. */
  lemma OverdueWithinActive(loans: seq<LoanRecord>, today: Day)
    ensures OverdueLoans(loans, today) == Filter(loans, Both(Active(), Late(today)))
    ensures |OverdueLoans(loans, today)| <= |ActiveLoans(loans)|
  {
    FilterTwice(loans, Active(), Late(today));
  }

  class LoanRepository {
    const file: CsvFile
    const today: Day
    /** The conversion findAll applies to every row: Loan::fromArray, as
        the constructor installs it. */
    const decode: CsvRow -> Result<LoanRecord>

    /** The constructor with initializeFile: a missing file is created
        holding only the header line; an existing file is left as it is. */
    constructor (file: CsvFile, today: Day)
      modifies file
      ensures this.file == file && this.today == today
      ensures decode == Decoder(today) && Valid()
      ensures file.present
      ensures old(file.present) ==> file.lines == old(file.lines)
      ensures !old(file.present) ==> file.lines == [Columns] && Loans() == Ok([])
    {
      this.file := file;
      this.today := today;
      this.decode := Decoder(today);
      new;
      DecoderSound(today);
      if !file.present {
        WriteCsv(file, [], Some(Columns));
        assert ReadRows(true, [Columns], true) == [];
      }
    }

    /** The conversion is sound for this file's loans. */
    ghost predicate Valid() {
      Sound(decode, ToArray, Accepted(), Columns)
    }

    /** The loans the file holds, as findAll reads them. */
    function Loans(): Result<seq<LoanRecord>>
      reads file
    {
      DecodeAll(ReadRows(file.present, file.lines, true), decode)
    }

    /** The file starts with the header line this repository writes. */
    predicate HasHeader()
      reads file
    {
      file.present && file.lines != [] && file.lines[0] == Columns
    }

    /** Every record read from a file under the header line is one the
        constructor accepts. */
    lemma LoadedAccepted()
      requires Valid() && HasHeader() && Loans().Ok?
      ensures All(Loans().value, Accepted())
    {
      LoadedAll(file.lines, decode, ToArray, Accepted(), Columns);
    }

    /** findAll */
    method FindAll() returns (r: Result<seq<LoanRecord>>)
      ensures r == Loans()
    {
      var data := ReadCsv(file, true);
      var loans: seq<LoanRecord> := [];
      for i := 0 to |data|
        invariant DecodeAll(data[..i], decode) == Ok(loans)
      {
        var l := decode(data[i]);
        assert data[..i + 1] == data[..i] + [data[i]];
        DecodeAllSnoc(data[..i], data[i], decode);
        if l.Err? {
          DecodeAllPrefixError(data, decode, i + 1);
          return Err(l.error);
        }
        loans := loans + [l.value];
      }
      assert data[..|data|] == data;
      return Ok(loans);
    }

    /** findByID: the first loan with exactly this ID, or null. */
    method FindByID(loanID: string) returns (r: Result<Option<LoanRecord>>)
      ensures Loans().Err? ==> r == Err(Loans().error)
      ensures Loans().Ok? ==> r == Ok(Lookup(Loans().value, LoanIdOf, loanID))
    {
      var all := FindAll();
      if all.Err? {
        return Err(all.error);
      }
      var found := FindFirst(all.value, LoanIdOf, loanID);
      return Ok(found);
    }

    /** findByUserID: every loan of the user, in file order. */
    method FindByUserID(userID: string) returns (r: Result<seq<LoanRecord>>)
      ensures Loans().Err? ==> r == Err(Loans().error)
      ensures Loans().Ok? ==> r == Ok(Filter(Loans().value, KeyIs(UserOf, userID)))
    {
      var all := FindAll();
      if all.Err? {
        return Err(all.error);
      }
      var results := Collect(all.value, KeyIs(UserOf, userID));
      return Ok(results);
    }

    /** findByISBN: every loan of the book, in file order. */
    method FindByISBN(isbn: string) returns (r: Result<seq<LoanRecord>>)
      ensures Loans().Err? ==> r == Err(Loans().error)
      ensures Loans().Ok? ==> r == Ok(Filter(Loans().value, KeyIs(IsbnOf, isbn)))
    {
      var all := FindAll();
      if all.Err? {
        return Err(all.error);
      }
      var results := Collect(all.value, KeyIs(IsbnOf, isbn));
      return Ok(results);
    }

    /** findActiveLoans */
    method FindActiveLoans() returns (r: Result<seq<LoanRecord>>)
      ensures Loans().Err? ==> r == Err(Loans().error)
      ensures Loans().Ok? ==> r == Ok(ActiveLoans(Loans().value))
    {
      var all := FindAll();
      if all.Err? {
        return Err(all.error);
      }
      var results := Collect(all.value, Active());
      return Ok(results);
    }

    /** findOverdueLoans: the overdue loans among the active ones. */
    method FindOverdueLoans() returns (r: Result<seq<LoanRecord>>)
      ensures Loans().Err? ==> r == Err(Loans().error)
      ensures Loans().Ok? ==> r == Ok(OverdueLoans(Loans().value, today))
    {
      var active := FindActiveLoans();
      if active.Err? {
        return Err(active.error);
      }
      var results := Collect(active.value, Late(today));
      return Ok(results);
    }

    /** saveAll: the whole file rewritten from `loans`. */
    method SaveAll(loans: seq<LoanRecord>)
      modifies file
      ensures file.present && file.lines == Stored(loans)
      ensures Valid() && All(loans, Accepted()) ==> HasHeader() && Loans() == Ok(loans)
    {
      var data: seq<Assoc<string>> := [];
      for i := 0 to |loans|
        invariant data == Project(loans[..i], ToArray)
      {
        data := data + [ToArray(loans[i])];
      }
      assert loans[..|loans|] == loans;
      WriteCsv(file, data, Some(Columns));
      if Valid() && All(loans, Accepted()) {
        TableReadsBack(loans, decode, ToArray, Accepted(), Columns);
      }
    }

    /** create: refused when the ID is already stored, otherwise the
        loan's line is appended. */
    method Create(l: LoanRecord) returns (r: Result<LoanRecord>)
      modifies file
      ensures old(Loans()).Err? ==> r == Err(old(Loans()).error) && unchanged(file)
      ensures old(Loans()).Ok? && FirstIndex(old(Loans()).value, LoanIdOf, l.loanID).Some? ==>
        r == Err(DuplicateKey) && unchanged(file)
      ensures old(Loans()).Ok? && FirstIndex(old(Loans()).value, LoanIdOf, l.loanID).None? ==>
        r == Ok(l) && file.present && file.lines == (if old(file.present) then old(file.lines) else []) + [Values(ToArray(l))]
    {
      var existing := FindByID(l.loanID);
      if existing.Err? {
        return Err(existing.error);
      }
      if existing.value.Some? {
        return Err(DuplicateKey);
      }
      AppendCsv(file, ToArray(l));
      return Ok(l);
    }

    /** update: the first loan with the same ID replaced where it stands,
        then the whole file rewritten; refused when there is none. */
    method Update(l: LoanRecord) returns (r: Result<LoanRecord>)
      modifies file
      ensures old(Loans()).Err? ==> r == Err(old(Loans()).error) && unchanged(file)
      ensures old(Loans()).Ok? && Replace(old(Loans()).value, LoanIdOf, l).None? ==>
        r == Err(NotFoundForUpdate) && unchanged(file)
      ensures old(Loans()).Ok? && Replace(old(Loans()).value, LoanIdOf, l).Some? ==>
        r == Ok(l) && file.present && file.lines == Stored(Replace(old(Loans()).value, LoanIdOf, l).value)
    {
      var all := FindAll();
      if all.Err? {
        return Err(all.error);
      }
      var loans := ReplaceFirst(all.value, LoanIdOf, l);
      if loans.None? {
        return Err(NotFoundForUpdate);
      }
      SaveAll(loans.value);
      return Ok(l);
    }

    /** save: update when a loan with the ID is stored, create otherwise.
        Either way a well-formed loan is then what findByID finds. */
    method Save(l: LoanRecord) returns (r: Result<LoanRecord>)
      modifies file
      ensures old(Loans()).Err? ==> r == Err(old(Loans()).error) && unchanged(file)
      ensures old(Loans()).Ok? ==> r == Ok(l) && file.present
      ensures old(Loans()).Ok? && FirstIndex(old(Loans()).value, LoanIdOf, l.loanID).Some? ==>
        file.lines == Stored(Upsert(old(Loans()).value, LoanIdOf, l))
      ensures old(Loans()).Ok? && FirstIndex(old(Loans()).value, LoanIdOf, l.loanID).None? ==>
        file.lines == (if old(file.present) then old(file.lines) else []) + [Values(ToArray(l))]
      ensures Valid() && old(Loans()).Ok? && old(HasHeader()) && WellFormed(l) ==>
        HasHeader() && Loans() == Ok(Upsert(old(Loans()).value, LoanIdOf, l))
    {
      if Valid() && Loans().Ok? && HasHeader() && WellFormed(l) {
        SaveReadsBack(file.lines, l, LoanIdOf, decode, ToArray, Accepted(), Columns);
      }
      var existing := FindByID(l.loanID);
      if existing.Err? {
        return Err(existing.error);
      }
      if existing.value.Some? {
        r := Update(l);
      } else {
        r := Create(l);
      }
    }

    /** delete: every loan with the ID removed and the file rewritten;
        refused, with the file untouched, when there is none. */
    method Delete(loanID: string) returns (o: Outcome)
      modifies file
      ensures old(Loans()).Err? ==> o == Fail(old(Loans()).error) && unchanged(file)
      ensures old(Loans()).Ok? && FirstIndex(old(Loans()).value, LoanIdOf, loanID).None? ==>
        o == Fail(NotFoundForDelete) && unchanged(file)
      ensures old(Loans()).Ok? && FirstIndex(old(Loans()).value, LoanIdOf, loanID).Some? ==>
        o == Pass && file.present && file.lines == Stored(RemoveAll(old(Loans()).value, LoanIdOf, loanID))
      ensures Valid() && old(Loans()).Ok? && old(HasHeader()) && FirstIndex(old(Loans()).value, LoanIdOf, loanID).Some? ==>
        Loans() == Ok(RemoveAll(old(Loans()).value, LoanIdOf, loanID))
    {
      var all := FindAll();
      if all.Err? {
        return Fail(all.error);
      }
      var newLoans, deleted := RemoveMatching(all.value, LoanIdOf, loanID);
      if !deleted {
        return Fail(NotFoundForDelete);
      }
      if Valid() && HasHeader() {
        LoadedAll(file.lines, decode, ToArray, Accepted(), Columns);
        DeleteReadsBack(all.value, LoanIdOf, loanID, decode, ToArray, Accepted(), Columns);
      }
      SaveAll(newLoans);
      return Pass;
    }

    /** generateLoanID: 'L' and one more than the largest number among
        the stored IDs of the form L<digits>, padded to three digits. */
    method GenerateLoanID() returns (r: Result<string>)
      ensures Loans().Err? ==> r == Err(Loans().error)
      ensures Loans().Ok? ==> r == Ok(NextId(Project(Loans().value, LoanIdOf), 'L'))
    {
      var all := FindAll();
      if all.Err? {
        return Err(all.error);
      }
      var next := NextIdOf(all.value, LoanIdOf, 'L');
      return Ok(next);
    }
  }

  /** The generated ID is new, is read back by findByID as absent, and
      passes validateLoanID. */
  lemma GeneratedIdFresh(loans: seq<LoanRecord>)
    ensures Lookup(loans, LoanIdOf, NextId(Project(loans, LoanIdOf), 'L')).None?
    ensures ValidateLoanID(NextId(Project(loans, LoanIdOf), 'L')).Ok?
  {
    var ids := Project(loans, LoanIdOf);
    NextIdFresh(ids, 'L');
    NextIdsPassValidation(ids);
    assert forall j | 0 <= j < |loans| :: LoanIdOf(loans[j]) == ids[j];
  }
}
