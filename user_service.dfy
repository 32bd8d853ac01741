/** classes/services/UserService.php: the user operations the command line
    offers, over one UserRepository. deleteUser also reads the loans, so
    the service is given the LoanRepository that deleteUser consults. Each
    operation reads the files afresh; the module-level functions below state
    its outcome as a function of what was stored before it ran, the class
    runs the source's steps against the repositories. */
module UserService {
  import opened Outcomes
  import opened Text
  import opened Dates
  import opened Arrays
  import opened Validator
  import opened Records
  import opened Identifiers
  import opened UserModel
  import opened UR = UserRepository
  import LR = LoanRepository
  import LoanModel

  // ---------------------------------------------------------------------
  // What each operation computes from the stored users (and loans)

  /** addUser: a user with the next free ID, registered today. The ID is
      generated (reading the file) before the constructor validates. */
  function Registered(users: Result<seq<UserRecord>>, name: string, email: string, today: Day): (r: Result<UserRecord>)
    ensures users.Err? ==> r == Err(users.error)
    ensures users.Ok? && IsEmpty(name) ==> r == Err(Required("氏名"))
    ensures users.Ok? && !IsEmpty(name) && !IsEmailAddress(email) ==> r == Err(InvalidEmail)
    ensures r.Ok? ==> WellFormed(r.value) && r.value.registrationDate == Render(today)
  {
    var us :- users;
    NewUser(NextId(Project(us, UserIdOf), 'U'), name, email, None, today)
  }

  /** getUserByID: the first user with the ID, an error when there is none. */
  function UserByID(users: Result<seq<UserRecord>>, userID: string): (r: Result<UserRecord>)
    ensures users.Err? ==> r == Err(users.error)
    ensures users.Ok? ==> (r.Ok? <==> Lookup(users.value, UserIdOf, userID).Some?)
    ensures users.Ok? && r.Ok? ==> r.value in users.value && r.value.userID == userID
    ensures users.Ok? && r.Err? ==> r.error == UserNotFound
  {
    var us :- users;
    match Lookup(us, UserIdOf, userID)
    case None => Err(UserNotFound)
    case Some(u) => Ok(u)
  }

  /** searchUsersByName: the matches, an error when there are none. */
  function NamedLike(users: Result<seq<UserRecord>>, name: string): (r: Result<seq<UserRecord>>)
    ensures users.Err? ==> r == Err(users.error)
    ensures users.Ok? && r.Err? ==> r.error == NoSearchResult
    ensures r.Ok? ==> users.Ok? && r.value != [] && forall u | u in r.value :: u in users.value
  {
    var us :- users;
    var hits := SearchByName(us, name);
    if hits == [] then Err(NoSearchResult) else Ok(hits)
  }

  /** What updateUser reads of its options: `isset($options[key])` and the value. */
  datatype UserChanges = UserChanges(name: Option<string>, email: Option<string>)

  function ChangesOf(options: Assoc<string>): UserChanges {
    UserChanges(Get(options, "name"), Get(options, "email"))
  }

  function NameEdit(c: UserChanges): Option<UserEdit> {
    if c.name.Some? then Some(SetName(c.name.value)) else None
  }

  function EmailEdit(c: UserChanges): Option<UserEdit> {
    if c.email.Some? then Some(SetEmail(c.email.value)) else None
  }

  /** One `if (isset(...))` of updateUser: the setter runs when the option is given. */
  function EditIfGiven(u: UserRecord, e: Option<UserEdit>): Result<UserRecord> {
    if e.None? then Ok(u) else Edit(u, e.value)
  }

  /** The setters of updateUser: setName, then setEmail; the first that
      throws ends the update. */
  function Revised(u: UserRecord, c: UserChanges): Result<UserRecord> {
    var named :- EditIfGiven(u, NameEdit(c));
    EditIfGiven(named, EmailEdit(c))
  }

  /** updateUser: the stored user with the given options applied. */
  function Updated(users: Result<seq<UserRecord>>, userID: string, options: Assoc<string>): (r: Result<UserRecord>)
    ensures users.Err? ==> r == Err(users.error)
    ensures users.Ok? && Lookup(users.value, UserIdOf, userID).None? ==> r == Err(UserNotFound)
    ensures r.Ok? ==>
      && users.Ok? && Lookup(users.value, UserIdOf, userID).Some?
      && r.value.userID == userID
      && r.value.registrationDate == Lookup(users.value, UserIdOf, userID).value.registrationDate
  {
    var u :- UserByID(users, userID);
    Revised(u, ChangesOf(options))
  }

  /** The loans deleteUser looks at: those findByUserID returns. */
  function LoansOf(loans: seq<LoanModel.LoanRecord>, userID: string): seq<LoanModel.LoanRecord> {
    Filter(loans, KeyIs(LR.UserOf, userID))
  }

  /** deleteUser: the users left once the user is deleted. A loan of the
      user still on loan refuses the deletion before the users are read. */
  function Removal(users: Result<seq<UserRecord>>, loans: Result<seq<LoanModel.LoanRecord>>, userID: string): (r: Result<seq<UserRecord>>)
    ensures loans.Err? ==> r == Err(loans.error)
    ensures r.Ok? ==>
      && users.Ok? && Lookup(users.value, UserIdOf, userID).Some?
      && forall u | u in r.value :: u in users.value && u.userID != userID
  {
    var ls :- loans;
    if AnyIn(LoansOf(ls, userID), LR.Active()) then Err(UserHasActiveLoan)
    else
      var us :- users;
      if FirstIndex(us, UserIdOf, userID).None? then Err(NotFoundForDelete)
      else Ok(RemoveAll(us, UserIdOf, userID))
  }

  // ---------------------------------------------------------------------
  // Properties

  /** addUser succeeds exactly when the name and address pass the
      constructor's checks; the user it makes has an ID no stored user
      has, one validateUserID accepts, and today as registration date, so
      saving it appends it to the stored users. */
  lemma RegisteredFresh(users: seq<UserRecord>, name: string, email: string, today: Day)
    ensures Registered(Ok(users), name, email, today).Ok? <==> !IsEmpty(name) && IsEmailAddress(email)
    ensures Registered(Ok(users), name, email, today).Ok? ==>
      var u := Registered(Ok(users), name, email, today).value;
      && Lookup(users, UserIdOf, u.userID).None?
      && ValidateUserID(u.userID).Ok?
      && u.name == name && u.email == email && u.registrationDate == Render(today)
      && Upsert(users, UserIdOf, u) == users + [u]
  {
    GeneratedIdFresh(users);
  }

  /** searchUsersByName fails exactly when no stored name contains the
      query, and otherwise lists exactly the users whose name does. */
  lemma NamedLikeIffMatch(users: seq<UserRecord>, name: string)
    ensures NamedLike(Ok(users), name).Err? <==>
      forall u | u in users :: !ContainsIgnoringCase(u.name, name)
    ensures NamedLike(Ok(users), name).Ok? ==>
      forall u :: u in NamedLike(Ok(users), name).value <==> u in users && ContainsIgnoringCase(u.name, name)
  {
    var hits := SearchByName(users, name);
    if hits != [] {
      assert hits[0] in users;
    }
  }

  /** updateUser goes through exactly when each option given passes its
      setter's check, the name being checked first; it changes exactly the
      fields given, never the ID or the registration date, and keeps a
      user the constructor accepted one it accepts. */
  lemma RevisedFields(u: UserRecord, c: UserChanges)
    ensures Revised(u, c).Ok? <==>
      (c.name.Some? ==> !IsEmpty(c.name.value)) && (c.email.Some? ==> IsEmailAddress(c.email.value))
    ensures c.name.Some? && IsEmpty(c.name.value) ==> Revised(u, c) == Err(Required("氏名"))
    ensures Revised(u, c).Ok? ==>
      var r := Revised(u, c).value;
      && r.userID == u.userID && r.registrationDate == u.registrationDate
      && r.name == (if c.name.Some? then c.name.value else u.name)
      && r.email == (if c.email.Some? then c.email.value else u.email)
    ensures WellFormed(u) && Revised(u, c).Ok? ==> WellFormed(Revised(u, c).value)
  {
    var named := EditIfGiven(u, NameEdit(c));
    if Revised(u, c).Ok? && WellFormed(u) {
      if c.name.Some? {
        EditPreservesWellFormed(u, SetName(c.name.value));
      }
      if c.email.Some? {
        EditPreservesWellFormed(named.value, SetEmail(c.email.value));
      }
    }
  }

  /** deleteUser removes the user exactly when the user is stored and has
      no loan on loan; it then removes that user and keeps every other. A
      loan on loan refuses it whatever the users file holds. */
  lemma RemovalIff(users: seq<UserRecord>, loans: seq<LoanModel.LoanRecord>, userID: string)
    ensures Removal(Ok(users), Ok(loans), userID).Ok? <==>
      && (exists u | u in users :: u.userID == userID)
      && !(exists l | l in loans :: l.userID == userID && LoanModel.IsLoaned(l))
    ensures Removal(Ok(users), Ok(loans), userID).Ok? ==>
      forall u :: u in Removal(Ok(users), Ok(loans), userID).value <==> u in users && u.userID != userID
    ensures (exists l | l in loans :: l.userID == userID && LoanModel.IsLoaned(l)) ==>
      forall us: Result<seq<UserRecord>> :: Removal(us, Ok(loans), userID) == Err(UserHasActiveLoan)
  {
    AnyWithKey(loans, LR.UserOf, userID, LR.Active());
    if FirstIndex(users, UserIdOf, userID).Some? {
      assert users[FirstIndex(users, UserIdOf, userID).value] in users;
    }
  }

  // ---------------------------------------------------------------------
  // The service

  /** A setter call of updateUser on the User object, when its option is given. */
  method SetIfGiven(user: User, e: Option<UserEdit>) returns (o: Outcome)
    modifies user
    ensures EditIfGiven(old(user.Record()), e).Ok? ==>
      o == Pass && user.Record() == EditIfGiven(old(user.Record()), e).value
    ensures EditIfGiven(old(user.Record()), e).Err? ==> o == Fail(EditIfGiven(old(user.Record()), e).error)
  {
    o := Pass;
    if e.Some? {
      o := user.Set(e.value);
    }
  }

  class UserService {
    const users: UR.UserRepository
    /** The LoanRepository deleteUser consults. */
    const loans: LR.LoanRepository

    /** The constructor with the repositories it builds. */
    constructor (users: UR.UserRepository, loans: LR.LoanRepository)
      requires users.Valid() && loans.Valid()
      ensures this.users == users && this.loans == loans && Valid()
    {
      this.users := users;
      this.loans := loans;
    }

    ghost predicate Valid() {
      users.Valid() && loans.Valid()
    }

    /** addUser: a new user under a freshly generated ID, appended to the file. */
    method AddUser(name: string, email: string) returns (r: Result<UserRecord>)
      requires Valid()
      modifies users.file
      ensures r == Registered(old(users.Users()), name, email, users.today)
      ensures r.Err? ==> unchanged(users.file)
      ensures r.Ok? ==> users.file.present && users.file.lines == (if old(users.file.present) then old(users.file.lines) else []) + [Values(ToArray(r.value))]
      ensures r.Ok? && old(users.HasHeader()) ==> users.Users() == Ok(old(users.Users()).value + [r.value])
    {
      var id := users.GenerateUserID();
      if id.Err? {
        return Err(id.error);
      }
      var made := NewUser(id.value, name, email, None, users.today);
      if made.Err? {
        return Err(made.error);
      }
      RegisteredFresh(users.Users().value, name, email, users.today);
      r := users.Save(made.value);
    }

    /** getAllUsers */
    method GetAllUsers() returns (r: Result<seq<UserRecord>>)
      ensures r == users.Users()
    {
      r := users.FindAll();
    }

    /** getUserByID */
    method GetUserByID(userID: string) returns (r: Result<UserRecord>)
      ensures r == UserByID(users.Users(), userID)
    {
      var found := users.FindByID(userID);
      if found.Err? {
        return Err(found.error);
      }
      if found.value.None? {
        return Err(UserNotFound);
      }
      return Ok(found.value.value);
    }

    /** searchUsersByName */
    method SearchUsersByName(name: string) returns (r: Result<seq<UserRecord>>)
      ensures r == NamedLike(users.Users(), name)
    {
      var hits := users.FindByName(name);
      if hits.Err? {
        return Err(hits.error);
      }
      if hits.value == [] {
        return Err(NoSearchResult);
      }
      return hits;
    }

    /** updateUser: the setters of the options given, then save. */
    method UpdateUser(userID: string, options: Assoc<string>) returns (r: Result<UserRecord>)
      requires Valid()
      modifies users.file
      ensures r == Updated(old(users.Users()), userID, options)
      ensures r.Err? ==> unchanged(users.file)
      ensures r.Ok? ==> users.file.present && users.file.lines == Stored(Upsert(old(users.Users()).value, UserIdOf, r.value))
      ensures r.Ok? && old(users.HasHeader()) ==> users.Users() == Ok(Upsert(old(users.Users()).value, UserIdOf, r.value))
    {
      var found := GetUserByID(userID);
      if found.Err? {
        return Err(found.error);
      }
      var c := ChangesOf(options);
      var user := new User(found.value);
      var o := SetIfGiven(user, NameEdit(c));
      if o.Fail? {
        return Err(o.error);
      }
      o := SetIfGiven(user, EmailEdit(c));
      if o.Fail? {
        return Err(o.error);
      }
      RevisedFields(found.value, c);
      if users.HasHeader() {
        users.LoadedAccepted();
      }
      r := users.Save(user.Record());
    }

    /** deleteUser: refused while one of the user's loans is on loan. */
    method DeleteUser(userID: string) returns (o: Outcome)
      requires Valid()
      modifies users.file
      ensures var after := Removal(old(users.Users()), old(loans.Loans()), userID);
        && (after.Err? ==> o == Fail(after.error) && unchanged(users.file))
        && (after.Ok? ==> o == Pass && users.file.present && users.file.lines == Stored(after.value))
        && (after.Ok? && old(users.HasHeader()) ==> users.Users() == after)
    {
      var mine := loans.FindByUserID(userID);
      if mine.Err? {
        return Fail(mine.error);
      }
      var active := FindAny(mine.value, LR.Active());
      if active {
        return Fail(UserHasActiveLoan);
      }
      o := users.Delete(userID);
    }
  }
}
