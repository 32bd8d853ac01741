/** classes/repositories/UserRepository.php: the users kept in users.csv,
    one line per user under the header line, in file order. Every query
    reads the whole file back through User::fromArray, so a row the
    constructor rejects makes the query fail; `today` stands for the
    `date('Y-m-d')` a row without a registration date takes. */
module UserRepository {
  import opened Outcomes
  import opened Text
  import opened Dates
  import opened Arrays
  import opened CsvHandler
  import opened Records
  import opened Validator
  import opened Identifiers
  import opened UserModel

  function UserIdOf(u: UserRecord): string {
    u.userID
  }

  /** User::fromArray of one row as readCsv returns it; a row read without
      a header line has no named entries at all. */
  function RowUser(row: CsvRow, today: Day): (r: Result<UserRecord>)
    ensures r.Ok? ==> WellFormed(r.value)
  {
    match row
    case Keyed(fields) => FromArray(fields, today)
    case Raw(_) => FromArray([], today)
  }

  function Decoder(today: Day): CsvRow -> Result<UserRecord> {
    row => RowUser(row, today)
  }

  /** What findAll returns for the file in a given state. */
  function Load(present: bool, lines: seq<seq<string>>, today: Day): Result<seq<UserRecord>> {
    DecodeAll(ReadRows(present, lines, true), Decoder(today))
  }

  function Accepted(): UserRecord -> bool {
    u => WellFormed(u)
  }

  /** The file after saveAll(users): the header line, then one line per user. */
  function Stored(users: seq<UserRecord>): seq<seq<string>> {
    Table(Columns, users, ToArray)
  }

  /** User::fromArray and toArray are a sound conversion for users.csv. */
  lemma DecoderSound(today: Day)
    ensures Sound(Decoder(today), ToArray, Accepted(), Columns)
  {
    var decode, ok := Decoder(today), Accepted();
    ColumnsDistinct();
    forall a | Keys(a) == Columns && decode(Keyed(a)).Ok?
      ensures ok(decode(Keyed(a)).value)
    {
      assert decode(Keyed(a)) == RowUser(Keyed(a), today);
    }
    forall u | ok(u)
      ensures Keys(ToArray(u)) == Columns && decode(Keyed(ToArray(u))) == Ok(u)
    {
      FromArrayToArray(u, today);
    }
  }

  /** saveAll followed by findAll gives the same users back, in order. */
  lemma StoredReadsBack(users: seq<UserRecord>, today: Day)
    requires forall i | 0 <= i < |users| :: WellFormed(users[i])
    ensures Load(true, Stored(users), today) == Ok(users)
  {
    DecoderSound(today);
    TableReadsBack(users, Decoder(today), ToArray, Accepted(), Columns);
  }

  /** The users whose name contains the query, ignoring case, in file order. */
  function SearchByName(users: seq<UserRecord>, query: string): (r: seq<UserRecord>)
    ensures forall u :: u in r <==> u in users && ContainsIgnoringCase(u.name, query)
  {
    FilterMembers(users, NameMatches(query));
    Filter(users, NameMatches(query))
  }

  function NameMatches(query: string): UserRecord -> bool {
    (u: UserRecord) => ContainsIgnoringCase(u.name, query)
  }

  class UserRepository {
    const file: CsvFile
    const today: Day
    /** The conversion findAll applies to every row: User::fromArray, as
        the constructor installs it. */
    const decode: CsvRow -> Result<UserRecord>

    /** The constructor with initializeFile: a missing file is created
        holding only the header line; an existing file is left as it is. */
    constructor (file: CsvFile, today: Day)
      modifies file
      ensures this.file == file && this.today == today
      ensures decode == Decoder(today) && Valid()
      ensures file.present
      ensures old(file.present) ==> file.lines == old(file.lines)
      ensures !old(file.present) ==> file.lines == [Columns] && Users() == Ok([])
    {
      this.file := file;
      this.today := today;
      this.decode := Decoder(today);
      new;
      DecoderSound(today);
      if !file.present {
        WriteCsv(file, [], Some(Columns));
        assert ReadRows(true, [Columns], true) == [];
      }
    }

    /** The conversion is sound for this file's users. */
    ghost predicate Valid() {
      Sound(decode, ToArray, Accepted(), Columns)
    }

    /** The users the file holds, as findAll reads them. */
    function Users(): Result<seq<UserRecord>>
      reads file
    {
      DecodeAll(ReadRows(file.present, file.lines, true), decode)
    }

    /** The file starts with the header line this repository writes. */
    predicate HasHeader()
      reads file
    {
      file.present && file.lines != [] && file.lines[0] == Columns
    }

    /** Every record read from a file under the header line is one the
        constructor accepts. */
    lemma LoadedAccepted()
      requires Valid() && HasHeader() && Users().Ok?
      ensures All(Users().value, Accepted())
    {
      LoadedAll(file.lines, decode, ToArray, Accepted(), Columns);
    }

    /** findAll */
    method FindAll() returns (r: Result<seq<UserRecord>>)
      ensures r == Users()
    {
      var data := ReadCsv(file, true);
      var users: seq<UserRecord> := [];
      for i := 0 to |data|
        invariant DecodeAll(data[..i], decode) == Ok(users)
      {
        var u := decode(data[i]);
        assert data[..i + 1] == data[..i] + [data[i]];
        DecodeAllSnoc(data[..i], data[i], decode);
        if u.Err? {
          DecodeAllPrefixError(data, decode, i + 1);
          return Err(u.error);
        }
        users := users + [u.value];
      }
      assert data[..|data|] == data;
      return Ok(users);
    }

    /** findByID: the first user with exactly this ID, or null. */
    method FindByID(userID: string) returns (r: Result<Option<UserRecord>>)
      ensures Users().Err? ==> r == Err(Users().error)
      ensures Users().Ok? ==> r == Ok(Lookup(Users().value, UserIdOf, userID))
    {
      var all := FindAll();
      if all.Err? {
        return Err(all.error);
      }
      var found := FindFirst(all.value, UserIdOf, userID);
      return Ok(found);
    }

    /** findByName */
    method FindByName(name: string) returns (r: Result<seq<UserRecord>>)
      ensures Users().Err? ==> r == Err(Users().error)
      ensures Users().Ok? ==> r == Ok(SearchByName(Users().value, name))
    {
      var all := FindAll();
      if all.Err? {
        return Err(all.error);
      }
      var results := Collect(all.value, NameMatches(name));
      return Ok(results);
    }

    /** saveAll: the whole file rewritten from `users`. */
    method SaveAll(users: seq<UserRecord>)
      modifies file
      ensures file.present && file.lines == Stored(users)
      ensures Valid() && All(users, Accepted()) ==> HasHeader() && Users() == Ok(users)
    {
      var data: seq<Assoc<string>> := [];
      for i := 0 to |users|
        invariant data == Project(users[..i], ToArray)
      {
        data := data + [ToArray(users[i])];
      }
      assert users[..|users|] == users;
      WriteCsv(file, data, Some(Columns));
      if Valid() && All(users, Accepted()) {
        TableReadsBack(users, decode, ToArray, Accepted(), Columns);
      }
    }

    /** create: refused when the ID is already stored, otherwise the
        user's line is appended. */
    method Create(u: UserRecord) returns (r: Result<UserRecord>)
      modifies file
      ensures old(Users()).Err? ==> r == Err(old(Users()).error) && unchanged(file)
      ensures old(Users()).Ok? && FirstIndex(old(Users()).value, UserIdOf, u.userID).Some? ==>
        r == Err(DuplicateKey) && unchanged(file)
      ensures old(Users()).Ok? && FirstIndex(old(Users()).value, UserIdOf, u.userID).None? ==>
        r == Ok(u) && file.present && file.lines == (if old(file.present) then old(file.lines) else []) + [Values(ToArray(u))]
    {
      var existing := FindByID(u.userID);
      if existing.Err? {
        return Err(existing.error);
      }
      if existing.value.Some? {
        return Err(DuplicateKey);
      }
      AppendCsv(file, ToArray(u));
      return Ok(u);
    }

    /** update: the first user with the same ID replaced where it stands,
        then the whole file rewritten; refused when there is none. */
    method Update(u: UserRecord) returns (r: Result<UserRecord>)
      modifies file
      ensures old(Users()).Err? ==> r == Err(old(Users()).error) && unchanged(file)
      ensures old(Users()).Ok? && Replace(old(Users()).value, UserIdOf, u).None? ==>
        r == Err(NotFoundForUpdate) && unchanged(file)
      ensures old(Users()).Ok? && Replace(old(Users()).value, UserIdOf, u).Some? ==>
        r == Ok(u) && file.present && file.lines == Stored(Replace(old(Users()).value, UserIdOf, u).value)
    {
      var all := FindAll();
      if all.Err? {
        return Err(all.error);
      }
      var users := ReplaceFirst(all.value, UserIdOf, u);
      if users.None? {
        return Err(NotFoundForUpdate);
      }
      SaveAll(users.value);
      return Ok(u);
    }

    /** save: update when a user with the ID is stored, create otherwise.
        Either way a well-formed user is then what findByID finds. */
    method Save(u: UserRecord) returns (r: Result<UserRecord>)
      modifies file
      ensures old(Users()).Err? ==> r == Err(old(Users()).error) && unchanged(file)
      ensures old(Users()).Ok? ==> r == Ok(u) && file.present
      ensures old(Users()).Ok? && FirstIndex(old(Users()).value, UserIdOf, u.userID).Some? ==>
        file.lines == Stored(Upsert(old(Users()).value, UserIdOf, u))
      ensures old(Users()).Ok? && FirstIndex(old(Users()).value, UserIdOf, u.userID).None? ==>
        file.lines == (if old(file.present) then old(file.lines) else []) + [Values(ToArray(u))]
      ensures Valid() && old(Users()).Ok? && old(HasHeader()) && WellFormed(u) ==>
        HasHeader() && Users() == Ok(Upsert(old(Users()).value, UserIdOf, u))
    {
      if Valid() && Users().Ok? && HasHeader() && WellFormed(u) {
        SaveReadsBack(file.lines, u, UserIdOf, decode, ToArray, Accepted(), Columns);
      }
      var existing := FindByID(u.userID);
      if existing.Err? {
        return Err(existing.error);
      }
      if existing.value.Some? {
        r := Update(u);
      } else {
        r := Create(u);
      }
    }

    /** delete: every user with the ID removed and the file rewritten;
        refused, with the file untouched, when there is none. */
    method Delete(userID: string) returns (o: Outcome)
      modifies file
      ensures old(Users()).Err? ==> o == Fail(old(Users()).error) && unchanged(file)
      ensures old(Users()).Ok? && FirstIndex(old(Users()).value, UserIdOf, userID).None? ==>
        o == Fail(NotFoundForDelete) && unchanged(file)
      ensures old(Users()).Ok? && FirstIndex(old(Users()).value, UserIdOf, userID).Some? ==>
        o == Pass && file.present && file.lines == Stored(RemoveAll(old(Users()).value, UserIdOf, userID))
      ensures Valid() && old(Users()).Ok? && old(HasHeader()) && FirstIndex(old(Users()).value, UserIdOf, userID).Some? ==>
        Users() == Ok(RemoveAll(old(Users()).value, UserIdOf, userID))
    {
      var all := FindAll();
      if all.Err? {
        return Fail(all.error);
      }
      var newUsers, deleted := RemoveMatching(all.value, UserIdOf, userID);
      if !deleted {
        return Fail(NotFoundForDelete);
      }
      if Valid() && HasHeader() {
        LoadedAll(file.lines, decode, ToArray, Accepted(), Columns);
        DeleteReadsBack(all.value, UserIdOf, userID, decode, ToArray, Accepted(), Columns);
      }
      SaveAll(newUsers);
      return Pass;
    }

    /** generateUserID: 'U' and one more than the largest number among
        the stored IDs of the form U<digits>, padded to three digits. */
    method GenerateUserID() returns (r: Result<string>)
      ensures Users().Err? ==> r == Err(Users().error)
      ensures Users().Ok? ==> r == Ok(NextId(Project(Users().value, UserIdOf), 'U'))
    {
      var all := FindAll();
      if all.Err? {
        return Err(all.error);
      }
      var next := NextIdOf(all.value, UserIdOf, 'U');
      return Ok(next);
    }
  }

  /** The generated ID is new, is read back by findByID as absent, and
      passes validateUserID. */
  lemma GeneratedIdFresh(users: seq<UserRecord>)
    ensures Lookup(users, UserIdOf, NextId(Project(users, UserIdOf), 'U')).None?
    ensures ValidateUserID(NextId(Project(users, UserIdOf), 'U')).Ok?
  {
    var ids := Project(users, UserIdOf);
    NextIdFresh(ids, 'U');
    NextIdsPassValidation(ids);
    assert forall j | 0 <= j < |users| :: UserIdOf(users[j]) == ids[j];
  }
}
