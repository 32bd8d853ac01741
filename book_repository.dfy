/** classes/repositories/BookRepository.php: the books kept in books.csv,
    one line per book under the header line, in file order. Every query
    reads the whole file back through Book::fromArray, so a row the
    constructor rejects makes the query fail; `currentYear` stands for the
    `date('Y')` those constructors read. */
module BookRepository {
  import opened Outcomes
  import opened Text
  import opened Arrays
  import opened CsvHandler
  import opened Records
  import opened BookModel

  function IsbnOf(b: BookRecord): string {
    b.isbn
  }

  /** Book::fromArray of one row as readCsv returns it; a row read without
      a header line has no named entries at all. */
  function RowBook(row: CsvRow, currentYear: int): (r: Result<BookRecord>)
    ensures r.Ok? ==> WellFormed(r.value, currentYear)
  {
    match row
    case Keyed(fields) => FromArray(fields, currentYear)
    case Raw(_) => FromArray([], currentYear)
  }

  function Decoder(currentYear: int): CsvRow -> Result<BookRecord> {
    row => RowBook(row, currentYear)
  }

  /** What findAll returns for the file in a given state. */
  function Load(present: bool, lines: seq<seq<string>>, currentYear: int): Result<seq<BookRecord>> {
    DecodeAll(ReadRows(present, lines, true), Decoder(currentYear))
  }

  function Accepted(currentYear: int): BookRecord -> bool {
    b => WellFormed(b, currentYear)
  }

  /** The file after saveAll(books): the header line, then one line per book. */
  function Stored(books: seq<BookRecord>): seq<seq<string>> {
    Table(Headers, books, ToArray)
  }

  /** Book::fromArray and toArray are a sound conversion for books.csv. */
  lemma DecoderSound(currentYear: int)
    ensures Sound(Decoder(currentYear), ToArray, Accepted(currentYear), Headers)
  {
    var decode, ok := Decoder(currentYear), Accepted(currentYear);
    HeadersDistinct();
    forall a | Keys(a) == Headers && decode(Keyed(a)).Ok?
      ensures ok(decode(Keyed(a)).value)
    {
      assert decode(Keyed(a)) == RowBook(Keyed(a), currentYear);
    }
    forall b | ok(b)
      ensures Keys(ToArray(b)) == Headers && decode(Keyed(ToArray(b))) == Ok(b)
    {
      FromArrayToArray(b, currentYear);
    }
  }

  /** saveAll followed by findAll gives the same books back, in order. */
  lemma StoredReadsBack(books: seq<BookRecord>, currentYear: int)
    requires forall i | 0 <= i < |books| :: WellFormed(books[i], currentYear)
    ensures Load(true, Stored(books), currentYear) == Ok(books)
  {
    DecoderSound(currentYear);
    TableReadsBack(books, Decoder(currentYear), ToArray, Accepted(currentYear), Headers);
  }

  /** After delete succeeds, no stored book has the ISBN and every other
      book is still there; a well-formed store reads back as exactly that. */
  lemma DeleteLeavesOthers(books: seq<BookRecord>, isbn: string, currentYear: int)
    requires forall i | 0 <= i < |books| :: WellFormed(books[i], currentYear)
    ensures Load(true, Stored(RemoveAll(books, IsbnOf, isbn)), currentYear) == Ok(RemoveAll(books, IsbnOf, isbn))
    ensures Lookup(RemoveAll(books, IsbnOf, isbn), IsbnOf, isbn).None?
  {
    DecoderSound(currentYear);
    DeleteReadsBack(books, IsbnOf, isbn, Decoder(currentYear), ToArray, Accepted(currentYear), Headers);
  }

  // ---------------------------------------------------------------------
  // Searches

  /** The field findByTitle, findByAuthor or findByCategory looks in. */
  datatype BookField = Title | Author | Category

  function FieldOf(b: BookRecord, field: BookField): string {
    match field
    case Title => b.title
    case Author => b.author
    case Category => b.category
  }

  function Matches(field: BookField, query: string): BookRecord -> bool {
    b => ContainsIgnoringCase(FieldOf(b, field), query)
  }

  /** The books whose field contains the query, ignoring case, in file order. */
  function Search(books: seq<BookRecord>, field: BookField, query: string): (r: seq<BookRecord>)
    ensures forall b :: b in r <==> b in books && ContainsIgnoringCase(FieldOf(b, field), query)
  {
    FilterMembers(books, Matches(field, query));
    Filter(books, Matches(field, query))
  }

  /** Searching keeps file order: the matches of a later book follow those of an earlier one. */
  lemma SearchKeepsOrder(books: seq<BookRecord>, more: seq<BookRecord>, field: BookField, query: string)
    ensures Search(books + more, field, query) == Search(books, field, query) + Search(more, field, query)
  {
    FilterAppend(books, more, Matches(field, query));
  }

  // ---------------------------------------------------------------------
  // The repository

  class BookRepository {
    const file: CsvFile
    const currentYear: int
    /** The conversion findAll applies to every row: Book::fromArray, as
        the constructor installs it. */
    const decode: CsvRow -> Result<BookRecord>

    /** The constructor with initializeFile: a missing file is created
        holding only the header line; an existing file is left as it is. */
    constructor (file: CsvFile, currentYear: int)
      modifies file
      ensures this.file == file && this.currentYear == currentYear
      ensures decode == Decoder(currentYear) && Valid()
      ensures file.present
      ensures old(file.present) ==> file.lines == old(file.lines)
      ensures !old(file.present) ==> file.lines == [Headers] && Books() == Ok([])
    {
      this.file := file;
      this.currentYear := currentYear;
      this.decode := Decoder(currentYear);
      new;
      DecoderSound(currentYear);
      if !file.present {
        WriteCsv(file, [], Some(Headers));
        assert ReadRows(true, [Headers], true) == [];
      }
    }

    /** The conversion is sound for this file's books. */
    ghost predicate Valid() {
      Sound(decode, ToArray, Accepted(currentYear), Headers)
    }

    /** The books the file holds, as findAll reads them. */
    function Books(): Result<seq<BookRecord>>
      reads file
    {
      DecodeAll(ReadRows(file.present, file.lines, true), decode)
    }

    /** The file starts with the header line this repository writes. */
    predicate HasHeader()
      reads file
    {
      file.present && file.lines != [] && file.lines[0] == Headers
    }

    /** Every record read from a file under the header line is one the
        constructor accepts. */
    lemma LoadedAccepted()
      requires Valid() && HasHeader() && Books().Ok?
      ensures All(Books().value, Accepted(currentYear))
    {
      LoadedAll(file.lines, decode, ToArray, Accepted(currentYear), Headers);
    }

    /** findAll */
    method FindAll() returns (r: Result<seq<BookRecord>>)
      ensures r == Books()
    {
      var data := ReadCsv(file, true);
      var books: seq<BookRecord> := [];
      for i := 0 to |data|
        invariant DecodeAll(data[..i], decode) == Ok(books)
      {
        var b := decode(data[i]);
        assert data[..i + 1] == data[..i] + [data[i]];
        DecodeAllSnoc(data[..i], data[i], decode);
        if b.Err? {
          DecodeAllPrefixError(data, decode, i + 1);
          return Err(b.error);
        }
        books := books + [b.value];
      }
      assert data[..|data|] == data;
      return Ok(books);
    }

    /** findByISBN: the first book with exactly this ISBN, or null. */
    method FindByISBN(isbn: string) returns (r: Result<Option<BookRecord>>)
      ensures Books().Err? ==> r == Err(Books().error)
      ensures Books().Ok? ==> r == Ok(Lookup(Books().value, IsbnOf, isbn))
    {
      var all := FindAll();
      if all.Err? {
        return Err(all.error);
      }
      var found := FindFirst(all.value, IsbnOf, isbn);
      return Ok(found);
    }

    /** findByTitle, findByAuthor and findByCategory. */
    method FindBy(field: BookField, query: string) returns (r: Result<seq<BookRecord>>)
      ensures Books().Err? ==> r == Err(Books().error)
      ensures Books().Ok? ==> r == Ok(Search(Books().value, field, query))
    {
      var all := FindAll();
      if all.Err? {
        return Err(all.error);
      }
      var results := Collect(all.value, Matches(field, query));
      return Ok(results);
    }

    /** saveAll: the whole file rewritten from `books`. */
    method SaveAll(books: seq<BookRecord>)
      modifies file
      ensures file.present && file.lines == Stored(books)
      ensures Valid() && All(books, Accepted(currentYear)) ==> HasHeader() && Books() == Ok(books)
    {
      var data: seq<Assoc<string>> := [];
      for i := 0 to |books|
        invariant data == Project(books[..i], ToArray)
      {
        data := data + [ToArray(books[i])];
      }
      assert books[..|books|] == books;
      WriteCsv(file, data, Some(Headers));
      if Valid() && All(books, Accepted(currentYear)) {
        TableReadsBack(books, decode, ToArray, Accepted(currentYear), Headers);
      }
    }

    /** create: refused when the ISBN is already stored, otherwise the
        book's line is appended. */
    method Create(b: BookRecord) returns (r: Result<BookRecord>)
      modifies file
      ensures old(Books()).Err? ==> r == Err(old(Books()).error) && unchanged(file)
      ensures old(Books()).Ok? && FirstIndex(old(Books()).value, IsbnOf, b.isbn).Some? ==>
        r == Err(DuplicateKey) && unchanged(file)
      ensures old(Books()).Ok? && FirstIndex(old(Books()).value, IsbnOf, b.isbn).None? ==>
        r == Ok(b) && file.present && file.lines == (if old(file.present) then old(file.lines) else []) + [Values(ToArray(b))]
    {
      var existing := FindByISBN(b.isbn);
      if existing.Err? {
        return Err(existing.error);
      }
      if existing.value.Some? {
        return Err(DuplicateKey);
      }
      AppendCsv(file, ToArray(b));
      return Ok(b);
    }

    /** update: the first book with the same ISBN replaced where it stands,
        then the whole file rewritten; refused when there is none. */
    method Update(b: BookRecord) returns (r: Result<BookRecord>)
      modifies file
      ensures old(Books()).Err? ==> r == Err(old(Books()).error) && unchanged(file)
      ensures old(Books()).Ok? && Replace(old(Books()).value, IsbnOf, b).None? ==>
        r == Err(NotFoundForUpdate) && unchanged(file)
      ensures old(Books()).Ok? && Replace(old(Books()).value, IsbnOf, b).Some? ==>
        r == Ok(b) && file.present && file.lines == Stored(Replace(old(Books()).value, IsbnOf, b).value)
    {
      var all := FindAll();
      if all.Err? {
        return Err(all.error);
      }
      var books := ReplaceFirst(all.value, IsbnOf, b);
      if books.None? {
        return Err(NotFoundForUpdate);
      }
      SaveAll(books.value);
      return Ok(b);
    }

    /** save: update when a book with the ISBN is stored, create otherwise.
        Either way a well-formed book is then what findByISBN finds. */
    method Save(b: BookRecord) returns (r: Result<BookRecord>)
      modifies file
      ensures old(Books()).Err? ==> r == Err(old(Books()).error) && unchanged(file)
      ensures old(Books()).Ok? ==> r == Ok(b) && file.present
      ensures old(Books()).Ok? && FirstIndex(old(Books()).value, IsbnOf, b.isbn).Some? ==>
        file.lines == Stored(Upsert(old(Books()).value, IsbnOf, b))
      ensures old(Books()).Ok? && FirstIndex(old(Books()).value, IsbnOf, b.isbn).None? ==>
        file.lines == (if old(file.present) then old(file.lines) else []) + [Values(ToArray(b))]
      ensures Valid() && old(Books()).Ok? && old(HasHeader()) && WellFormed(b, currentYear) ==>
        HasHeader() && Books() == Ok(Upsert(old(Books()).value, IsbnOf, b))
    {
      if Valid() && Books().Ok? && HasHeader() && WellFormed(b, currentYear) {
        SaveReadsBack(file.lines, b, IsbnOf, decode, ToArray, Accepted(currentYear), Headers);
      }
      var existing := FindByISBN(b.isbn);
      if existing.Err? {
        return Err(existing.error);
      }
      if existing.value.Some? {
        r := Update(b);
      } else {
        r := Create(b);
      }
    }

    /** delete: every book with the ISBN removed and the file rewritten;
        refused, with the file untouched, when there is none. */
    method Delete(isbn: string) returns (o: Outcome)
      modifies file
      ensures old(Books()).Err? ==> o == Fail(old(Books()).error) && unchanged(file)
      ensures old(Books()).Ok? && FirstIndex(old(Books()).value, IsbnOf, isbn).None? ==>
        o == Fail(NotFoundForDelete) && unchanged(file)
      ensures old(Books()).Ok? && FirstIndex(old(Books()).value, IsbnOf, isbn).Some? ==>
        o == Pass && file.present && file.lines == Stored(RemoveAll(old(Books()).value, IsbnOf, isbn))
      ensures Valid() && old(Books()).Ok? && old(HasHeader()) && FirstIndex(old(Books()).value, IsbnOf, isbn).Some? ==>
        Books() == Ok(RemoveAll(old(Books()).value, IsbnOf, isbn))
    {
      var all := FindAll();
      if all.Err? {
        return Fail(all.error);
      }
      var newBooks, deleted := RemoveMatching(all.value, IsbnOf, isbn);
      if !deleted {
        return Fail(NotFoundForDelete);
      }
      if Valid() && HasHeader() {
        LoadedAll(file.lines, decode, ToArray, Accepted(currentYear), Headers);
        DeleteReadsBack(all.value, IsbnOf, isbn, decode, ToArray, Accepted(currentYear), Headers);
      }
      SaveAll(newBooks);
      return Pass;
    }
  }
}
