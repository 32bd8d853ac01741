/** classes/models/User.php: a registered borrower. The user ID is stored
    as given; the name, the e-mail address and the registration date are
    validated. `today` stands for `date('Y-m-d')`. */
module UserModel {
  import opened Outcomes
  import opened Dates
  import opened Arrays
  import opened Validator

  datatype UserRecord = UserRecord(userID: string, name: string, email: string, registrationDate: string)

  /** The key order of toArray. */
  const Columns: seq<string> := ["利用者ID", "氏名", "連絡先", "登録日"]

  /** What the constructor guarantees of every user it builds. */
  predicate WellFormed(u: UserRecord) {
    !IsEmpty(u.name) && IsEmailAddress(u.email) && Parse(u.registrationDate).Some?
  }

  /** The constructor; a missing registration date is today's. */
  function NewUser(userID: string, name: string, email: string, registrationDate: Option<string>, today: Date): (r: Result<UserRecord>)
    requires ValidDate(today)
    ensures r.Ok? <==>
      && !IsEmpty(name) && IsEmailAddress(email)
      && (registrationDate.Some? ==> ValidateDate(registrationDate.value).Ok?)
    ensures IsEmpty(name) ==> r == Err(Required("氏名"))
    ensures !IsEmpty(name) && !IsEmailAddress(email) ==> r == Err(InvalidEmail)
    ensures r.Ok? ==> r.value.userID == userID && r.value.name == name && r.value.email == email
    ensures r.Ok? ==> r.value.registrationDate == if registrationDate.Some? then registrationDate.value else Render(today)
    ensures r.Ok? ==> WellFormed(r.value)
  {
    var n :- ValidateRequired(name, "氏名");
    var e :- ValidateEmail(email);
    ParseRender(today);
    var d :- if registrationDate.None? then Ok(Render(today)) else ValidateDate(registrationDate.value);
    Ok(UserRecord(userID, n, e, d))
  }

  /** A setter call: setName or setEmail with the value it is given. */
  datatype UserEdit = SetName(name: string) | SetEmail(email: string)

  /** setName and setEmail: validate the value, then store it. */
  function Edit(u: UserRecord, e: UserEdit): (r: Result<UserRecord>)
    ensures r.Ok? ==> r.value.userID == u.userID && r.value.registrationDate == u.registrationDate
    ensures e.SetName? ==> r == (if IsEmpty(e.name) then Err(Required("氏名")) else Ok(u.(name := e.name)))
    ensures e.SetEmail? ==> r == (if IsEmailAddress(e.email) then Ok(u.(email := e.email)) else Err(InvalidEmail))
  {
    match e
    case SetName(n) => var v :- ValidateRequired(n, "氏名"); Ok(u.(name := v))
    case SetEmail(m) => var v :- ValidateEmail(m); Ok(u.(email := v))
  }

  /** A successful setter keeps a well-formed user well-formed. */
  lemma EditPreservesWellFormed(u: UserRecord, e: UserEdit)
    requires WellFormed(u) && Edit(u, e).Ok?
    ensures WellFormed(Edit(u, e).value)
  {
  }

  /** toArray */
  function ToArray(u: UserRecord): (a: Assoc<string>)
    ensures Keys(a) == Columns
  {
    [("利用者ID", u.userID), ("氏名", u.name), ("連絡先", u.email), ("登録日", u.registrationDate)]
  }

  /** fromArray: the constructor applied to the named entries. A missing
      ID, name or address reads as "" (PHP's null fails the same checks);
      a missing registration date is null, so today's date is taken. */
  function FromArray(data: Assoc<string>, today: Date): (r: Result<UserRecord>)
    requires ValidDate(today)
    ensures "氏名" !in Keys(data) ==> r == Err(Required("氏名"))
    ensures r.Ok? ==> WellFormed(r.value) && r.value.userID == GetOr(data, "利用者ID", "")
    ensures r.Ok? && "登録日" !in Keys(data) ==> r.value.registrationDate == Render(today)
  {
    NewUser(GetOr(data, "利用者ID", ""), GetOr(data, "氏名", ""), GetOr(data, "連絡先", ""), Get(data, "登録日"), today)
  }

  lemma ColumnsDistinct()
    ensures Distinct(Columns)
  {
  }

  lemma ToArrayEntries(u: UserRecord)
    ensures GetOr(ToArray(u), "利用者ID", "") == u.userID
    ensures GetOr(ToArray(u), "氏名", "") == u.name
    ensures GetOr(ToArray(u), "連絡先", "") == u.email
    ensures Get(ToArray(u), "登録日") == Some(u.registrationDate)
  {
    var a := ToArray(u);
    ColumnsDistinct();
    GetDistinct(a, 0);
    GetDistinct(a, 1);
    GetDistinct(a, 2);
    GetDistinct(a, 3);
  }

  /** Every user the constructor can build comes back from its array form unchanged. */
  lemma FromArrayToArray(u: UserRecord, today: Date)
    requires WellFormed(u) && ValidDate(today)
    ensures FromArray(ToArray(u), today) == Ok(u)
  {
    ToArrayEntries(u);
  }

  class User {
    var userID: string
    var name: string
    var email: string
    var registrationDate: string

    function Record(): UserRecord
      reads this
    {
      UserRecord(userID, name, email, registrationDate)
    }

    /** A User object holding a record the constructor accepted. */
    constructor (r: UserRecord)
      ensures Record() == r
    {
      userID, name, email, registrationDate := r.userID, r.name, r.email, r.registrationDate;
    }

    /** setName and setEmail: a rejected value leaves the object unchanged. */
    method Set(e: UserEdit) returns (o: Outcome)
      modifies this
      ensures Edit(old(Record()), e).Ok? ==> o == Pass && Record() == Edit(old(Record()), e).value
      ensures Edit(old(Record()), e).Err? ==> o == Fail(Edit(old(Record()), e).error) && Record() == old(Record())
    {
      o := Pass;
      match e
      case SetName(n) =>
        if IsEmpty(n) {
          return Fail(Required("氏名"));
        }
        name := n;
      case SetEmail(m) =>
        if !IsEmailAddress(m) {
          return Fail(InvalidEmail);
        }
        email := m;
    }
  }
}
