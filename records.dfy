/** The list operations the three repositories share. Each repository holds
    its records in file order; a record's key is its ISBN, user ID or loan
    ID, and nothing keeps two records from sharing a key. */
module Records {
  import opened Outcomes
  import opened Arrays
  import opened CsvHandler

  // ---------------------------------------------------------------------
  // Loading

  /** A `foreach` over the rows with a throwing conversion: every row
      converted, in order, or the error of the first row that fails. */
  function DecodeAll<T>(rows: seq<CsvRow>, decode: CsvRow -> Result<T>): (r: Result<seq<T>>)
    ensures r.Ok? ==> |r.value| == |rows|
  {
    if rows == [] then Ok([])
    else
      match DecodeAll(rows[..|rows| - 1], decode)
      case Err(e) => Err(e)
      case Ok(xs) =>
        match decode(rows[|rows| - 1])
        case Err(e) => Err(e)
        case Ok(x) => Ok(xs + [x])
  }

  /** Loading succeeds exactly when every row converts, and then holds each
      row's record at the row's position. */
  lemma {:induction false} DecodeAllValues<T>(rows: seq<CsvRow>, decode: CsvRow -> Result<T>)
    ensures DecodeAll(rows, decode).Ok? <==> forall i | 0 <= i < |rows| :: decode(rows[i]).Ok?
    ensures DecodeAll(rows, decode).Ok? ==>
      forall i | 0 <= i < |rows| :: decode(rows[i]) == Ok(DecodeAll(rows, decode).value[i])
  {
    if rows != [] {
      var init := rows[..|rows| - 1];
      DecodeAllValues(init, decode);
      assert forall i | 0 <= i < |init| :: init[i] == rows[i];
    }
  }

  /** Rows that each convert to the matching record load as those records. */
  lemma DecodeAllOk<T>(rows: seq<CsvRow>, decode: CsvRow -> Result<T>, xs: seq<T>)
    requires |rows| == |xs| && forall i | 0 <= i < |rows| :: decode(rows[i]) == Ok(xs[i])
    ensures DecodeAll(rows, decode) == Ok(xs)
  {
    DecodeAllValues(rows, decode);
    assert DecodeAll(rows, decode).value == xs;
  }

  /** Once a prefix of the rows fails to load, the whole file fails with the same error. */
  lemma {:induction false} DecodeAllPrefixError<T>(rows: seq<CsvRow>, decode: CsvRow -> Result<T>, k: nat)
    requires k <= |rows| && DecodeAll(rows[..k], decode).Err?
    ensures DecodeAll(rows, decode) == DecodeAll(rows[..k], decode)
  {
    if k < |rows| {
      var init := rows[..|rows| - 1];
      assert init[..k] == rows[..k];
      DecodeAllPrefixError(init, decode, k);
    } else {
      assert rows[..k] == rows;
    }
  }

  /** The error is that of the first row that fails. */
  lemma DecodeAllFirstError<T>(rows: seq<CsvRow>, decode: CsvRow -> Result<T>, k: nat)
    requires k < |rows| && decode(rows[k]).Err?
    requires forall i | 0 <= i < k :: decode(rows[i]).Ok?
    ensures DecodeAll(rows, decode) == Err(decode(rows[k]).error)
  {
    var prefix := rows[..k];
    DecodeAllValues(prefix, decode);
    assert DecodeAll(prefix, decode).Ok?;
    assert rows[..k + 1][..k] == prefix;
    DecodeAllPrefixError(rows, decode, k + 1);
  }

  /** Appending a row appends its record, or fails with its error. */
  lemma DecodeAllSnoc<T>(rows: seq<CsvRow>, row: CsvRow, decode: CsvRow -> Result<T>)
    ensures DecodeAll(rows + [row], decode) ==
      match DecodeAll(rows, decode)
      case Err(e) => Err(e)
      case Ok(xs) =>
        match decode(row)
        case Err(e) => Err(e)
        case Ok(x) => Ok(xs + [x])
  {
    assert (rows + [row])[..|rows|] == rows;
  }

  /** Reading back what a full rewrite stored: a header line, then one
      line per array, each array keyed by exactly the header and converted
      back to its record. */
  lemma ReadBack<T>(headers: seq<string>, arrays: seq<Assoc<string>>, xs: seq<T>, decode: CsvRow -> Result<T>)
    requires headers != [] && Distinct(headers) && |arrays| == |xs|
    requires forall i | 0 <= i < |xs| :: Keys(arrays[i]) == headers && decode(Keyed(arrays[i])) == Ok(xs[i])
    ensures DecodeAll(ReadRows(true, [headers] + Written(arrays), true), decode) == Ok(xs)
  {
    var rows := ReadRows(true, [headers] + Written(arrays), true);
    ReadAfterWrite(headers, arrays);
    assert forall i | 0 <= i < |rows| :: rows[i] == Keyed(arrays[i]);
    DecodeAllOk(rows, decode, xs);
  }

  /** Reading after an append: the records read before, then the appended
      line read under the same header. */
  lemma ReadAfterAppend<T>(lines: seq<seq<string>>, line: seq<string>, decode: CsvRow -> Result<T>)
    requires lines != [] && lines[0] != []
    ensures DecodeAll(ReadRows(true, lines + [line], true), decode) ==
      match DecodeAll(ReadRows(true, lines, true), decode)
      case Err(e) => Err(e)
      case Ok(xs) =>
        match decode(Keyed(RowWithHeaders(line, lines[0])))
        case Err(e) => Err(e)
        case Ok(x) => Ok(xs + [x])
  {
    var rows := ReadRows(true, lines, true);
    var more := ReadRows(true, lines + [line], true);
    ReadRowsKeyed(lines);
    ReadRowsKeyed(lines + [line]);
    assert more == rows + [Keyed(RowWithHeaders(line, lines[0]))];
    DecodeAllSnoc(rows, Keyed(RowWithHeaders(line, lines[0])), decode);
  }

  // ---------------------------------------------------------------------
  // A table of records: the header line, then one line per record

  /** The file after saveAll(xs): the header line, then one line per record. */
  function Table<T>(headers: seq<string>, xs: seq<T>, encode: T -> Assoc<string>): seq<seq<string>> {
    [headers] + Written(Project(xs, encode))
  }

  predicate All<T>(xs: seq<T>, ok: T -> bool) {
    forall i | 0 <= i < |xs| :: ok(xs[i])
  }

  /** What a repository needs of its model's fromArray and toArray: every
      record fromArray accepts from a row keyed by exactly the header line
      passes `ok`, and every record passing `ok` has an array keyed by
      exactly the header line that fromArray turns back into the same
      record. */
  ghost predicate Sound<T(!new)>(decode: CsvRow -> Result<T>, encode: T -> Assoc<string>, ok: T -> bool, headers: seq<string>) {
    && headers != [] && Distinct(headers)
    && (forall a | Keys(a) == headers && decode(Keyed(a)).Ok? :: ok(decode(Keyed(a)).value))
    && (forall x | ok(x) :: Keys(encode(x)) == headers && decode(Keyed(encode(x))) == Ok(x))
  }

  /** Every record loaded from a file under the header line through a sound
      conversion passes `ok`. */
  lemma LoadedAll<T(!new)>(lines: seq<seq<string>>, decode: CsvRow -> Result<T>, encode: T -> Assoc<string>, ok: T -> bool, headers: seq<string>)
    requires Sound(decode, encode, ok, headers)
    requires lines != [] && lines[0] == headers && DecodeAll(ReadRows(true, lines, true), decode).Ok?
    ensures All(DecodeAll(ReadRows(true, lines, true), decode).value, ok)
  {
    var rows := ReadRows(true, lines, true);
    var xs := DecodeAll(rows, decode).value;
    DecodeAllValues(rows, decode);
    ReadRowsKeyed(lines);
    forall i | 0 <= i < |xs|
      ensures ok(xs[i])
    {
      RowWithHeadersShape(lines[i + 1], headers);
      assert rows[i] == Keyed(RowWithHeaders(lines[i + 1], headers));
      assert decode(rows[i]) == Ok(xs[i]);
    }
  }

  /** saveAll followed by findAll gives the same records back, in order. */
  lemma TableReadsBack<T(!new)>(xs: seq<T>, decode: CsvRow -> Result<T>, encode: T -> Assoc<string>, ok: T -> bool, headers: seq<string>)
    requires Sound(decode, encode, ok, headers) && All(xs, ok)
    ensures DecodeAll(ReadRows(true, Table(headers, xs, encode), true), decode) == Ok(xs)
  {
    var arrays := Project(xs, encode);
    assert forall i | 0 <= i < |xs| :: Keys(arrays[i]) == headers && decode(Keyed(arrays[i])) == Ok(xs[i]);
    ReadBack(headers, arrays, xs, decode);
  }

  /** appendCsv of a record passing `ok` adds exactly that record at the
      end of what findAll returns. */
  lemma AppendReadsBack<T(!new)>(lines: seq<seq<string>>, x: T, decode: CsvRow -> Result<T>, encode: T -> Assoc<string>, ok: T -> bool, headers: seq<string>)
    requires Sound(decode, encode, ok, headers)
    requires lines != [] && lines[0] == headers && ok(x)
    requires DecodeAll(ReadRows(true, lines, true), decode).Ok?
    ensures DecodeAll(ReadRows(true, lines + [Values(encode(x))], true), decode) ==
      Ok(DecodeAll(ReadRows(true, lines, true), decode).value + [x])
  {
    ReadAfterAppend(lines, Values(encode(x)), decode);
    KeyedRowOfValues(encode(x), headers);
  }

  /** Both ways save can write the file read back as the upsert of the
      record into what was stored. */
  lemma SaveReadsBack<T(!new)>(lines: seq<seq<string>>, x: T, key: T -> string,
                               decode: CsvRow -> Result<T>, encode: T -> Assoc<string>, ok: T -> bool, headers: seq<string>)
    requires Sound(decode, encode, ok, headers)
    requires lines != [] && lines[0] == headers && ok(x)
    requires DecodeAll(ReadRows(true, lines, true), decode).Ok?
    ensures var before := DecodeAll(ReadRows(true, lines, true), decode).value;
      && DecodeAll(ReadRows(true, Table(headers, Upsert(before, key, x), encode), true), decode) == Ok(Upsert(before, key, x))
      && (FirstIndex(before, key, key(x)).None? ==>
            DecodeAll(ReadRows(true, lines + [Values(encode(x))], true), decode) == Ok(Upsert(before, key, x)))
  {
    var before := DecodeAll(ReadRows(true, lines, true), decode).value;
    var after := Upsert(before, key, x);
    LoadedAll(lines, decode, encode, ok, headers);
    assert forall i | 0 <= i < |after| :: after[i] == x || after[i] == before[i];
    TableReadsBack(after, decode, encode, ok, headers);
    if FirstIndex(before, key, key(x)).None? {
      AppendReadsBack(lines, x, decode, encode, ok, headers);
    }
  }

  /** delete rewrites the file with the other records, which read back as they are. */
  lemma DeleteReadsBack<T(!new)>(xs: seq<T>, key: T -> string, k: string,
                                 decode: CsvRow -> Result<T>, encode: T -> Assoc<string>, ok: T -> bool, headers: seq<string>)
    requires Sound(decode, encode, ok, headers) && All(xs, ok)
    ensures DecodeAll(ReadRows(true, Table(headers, RemoveAll(xs, key, k), encode), true), decode) == Ok(RemoveAll(xs, key, k))
    ensures Lookup(RemoveAll(xs, key, k), key, k).None?
  {
    var rest := RemoveAll(xs, key, k);
    assert forall i | 0 <= i < |rest| :: rest[i] in xs;
    TableReadsBack(rest, decode, encode, ok, headers);
  }

  // ---------------------------------------------------------------------
  // Lookup by key

  /** The position of the first record whose key is `k`. */
  function FirstIndex<T>(xs: seq<T>, key: T -> string, k: string): (r: Option<nat>)
    ensures r.Some? ==> r.value < |xs| && key(xs[r.value]) == k && forall j | 0 <= j < r.value :: key(xs[j]) != k
    ensures r.None? ==> forall j | 0 <= j < |xs| :: key(xs[j]) != k
  {
    if xs == [] then None
    else
      match FirstIndex(xs[..|xs| - 1], key, k)
      case Some(i) => Some(i)
      case None => if key(xs[|xs| - 1]) == k then Some(|xs| - 1) else None
  }

  /** findByISBN / findByID: the first record with key `k`, or null. */
  function Lookup<T>(xs: seq<T>, key: T -> string, k: string): (r: Option<T>)
    ensures r.None? <==> forall j | 0 <= j < |xs| :: key(xs[j]) != k
    ensures r.Some? ==> r.value in xs && key(r.value) == k
    ensures r.Some? ==> exists i | 0 <= i < |xs| :: r.value == xs[i] && key(xs[i]) == k && forall j | 0 <= j < i :: key(xs[j]) != k
  {
    match FirstIndex(xs, key, k)
    case Some(i) => Some(xs[i])
    case None => None
  }

  // ---------------------------------------------------------------------
  // save, update, delete

  /** update: the first record with the same key replaced where it stands. */
  function Replace<T>(xs: seq<T>, key: T -> string, x: T): (r: Option<seq<T>>)
    ensures r.None? <==> FirstIndex(xs, key, key(x)).None?
    ensures r.Some? ==> var i := FirstIndex(xs, key, key(x)).value;
      |r.value| == |xs| && r.value[i] == x && forall j | 0 <= j < |xs| && j != i :: r.value[j] == xs[j]
  {
    match FirstIndex(xs, key, key(x))
    case Some(i) => Some(xs[i := x])
    case None => None
  }

  /** save: update when the key is present, append (create) when it is not. */
  function Upsert<T>(xs: seq<T>, key: T -> string, x: T): (r: seq<T>)
    ensures FirstIndex(xs, key, key(x)).None? ==> r == xs + [x]
    ensures FirstIndex(xs, key, key(x)).Some? ==> Some(r) == Replace(xs, key, x)
  {
    match Replace(xs, key, x)
    case Some(ys) => ys
    case None => xs + [x]
  }

  /** After save, looking the key up finds the record just saved. */
  lemma LookupAfterUpsert<T>(xs: seq<T>, key: T -> string, x: T)
    ensures Lookup(Upsert(xs, key, x), key, key(x)) == Some(x)
  {
    var r := Upsert(xs, key, x);
    match FirstIndex(xs, key, key(x))
    case Some(i) =>
      assert key(r[i]) == key(x);
      assert forall j | 0 <= j < i :: key(r[j]) != key(x);
    case None =>
      assert key(r[|xs|]) == key(x);
      assert forall j | 0 <= j < |xs| :: key(r[j]) != key(x);
  }

  /** save leaves the lookup of every other key as it was. */
  lemma LookupOtherAfterUpsert<T>(xs: seq<T>, key: T -> string, x: T, k: string)
    requires k != key(x)
    ensures Lookup(Upsert(xs, key, x), key, k) == Lookup(xs, key, k)
  {
    var r := Upsert(xs, key, x);
    assert forall j | 0 <= j < |xs| :: key(r[j]) == key(xs[j]) ==> (key(r[j]) == k <==> key(xs[j]) == k);
    assert forall j | 0 <= j < |xs| :: key(r[j]) == k <==> key(xs[j]) == k;
    match FirstIndex(xs, key, k)
    case Some(i) =>
      assert r[i] == xs[i];
    case None =>
  }

  /** No two records share a key: what create's refusal of a stored key keeps. */
  predicate UniqueKeys<T>(xs: seq<T>, key: T -> string) {
    forall i, j | 0 <= i < j < |xs| :: key(xs[i]) != key(xs[j])
  }

  /** save keeps the keys unique: it replaces the record with the key, or
      appends one with a key not yet stored. */
  lemma UpsertKeepsUnique<T>(xs: seq<T>, key: T -> string, x: T)
    requires UniqueKeys(xs, key)
    ensures UniqueKeys(Upsert(xs, key, x), key)
  {
    var r := Upsert(xs, key, x);
    match FirstIndex(xs, key, key(x))
    case Some(i) =>
      assert forall j | 0 <= j < |xs| :: key(r[j]) == key(xs[j]);
    case None =>
      assert forall j | 0 <= j < |xs| :: r[j] == xs[j];
  }

  /** Saving a changed record and then the record as it was restores the list. */
  lemma UpsertRestores<T>(xs: seq<T>, key: T -> string, y: T)
    requires FirstIndex(xs, key, key(y)).Some?
    ensures Upsert(Upsert(xs, key, y), key, xs[FirstIndex(xs, key, key(y)).value]) == xs
  {
    var i := FirstIndex(xs, key, key(y)).value;
    var ys := Upsert(xs, key, y);
    assert ys == xs[i := y];
    assert forall j | 0 <= j < i :: key(ys[j]) != key(y);
    assert FirstIndex(ys, key, key(xs[i])) == Some(i);
  }

  /** The filter of a foreach that keeps the records `keep` accepts. */
  function Filter<T>(xs: seq<T>, keep: T -> bool): (r: seq<T>)
    ensures |r| <= |xs|
  {
    if xs == [] then []
    else Filter(xs[..|xs| - 1], keep) + if keep(xs[|xs| - 1]) then [xs[|xs| - 1]] else []
  }

  /** The filter holds exactly the records that pass the test. */
  lemma {:induction false} FilterMembers<T(!new)>(xs: seq<T>, keep: T -> bool)
    ensures forall x :: x in Filter(xs, keep) <==> x in xs && keep(x)
  {
    if xs != [] {
      var init := xs[..|xs| - 1];
      FilterMembers(init, keep);
      assert xs == init + [xs[|xs| - 1]];
    }
  }

  /** Filtering keeps file order: filtering a concatenation filters each part. */
  lemma {:induction false} FilterAppend<T>(xs: seq<T>, ys: seq<T>, keep: T -> bool)
    ensures Filter(xs + ys, keep) == Filter(xs, keep) + Filter(ys, keep)
  {
    if ys != [] {
      var init := ys[..|ys| - 1];
      assert (xs + ys)[..|xs + ys| - 1] == xs + init;
      FilterAppend(xs, init, keep);
    } else {
      assert xs + ys == xs;
    }
  }

  /** Filtering with a test every record passes changes nothing. */
  lemma {:induction false} FilterAll<T>(xs: seq<T>, keep: T -> bool)
    requires forall j | 0 <= j < |xs| :: keep(xs[j])
    ensures Filter(xs, keep) == xs
  {
    if xs != [] {
      FilterAll(xs[..|xs| - 1], keep);
    }
  }

  /** Filtering twice keeps the records that pass both tests, in order. */
  lemma {:induction false} FilterTwice<T>(xs: seq<T>, first: T -> bool, second: T -> bool)
    ensures Filter(Filter(xs, first), second) == Filter(xs, Both(first, second))
  {
    if xs != [] {
      var init, last := xs[..|xs| - 1], xs[|xs| - 1];
      FilterTwice(init, first, second);
      var kept := if first(last) then [last] else [];
      FilterAppend(Filter(init, first), kept, second);
      if first(last) {
        assert [last][..0] == [];
      }
    }
  }

  function Both<T>(first: T -> bool, second: T -> bool): T -> bool {
    x => first(x) && second(x)
  }

  function KeyIs<T>(key: T -> string, k: string): T -> bool {
    x => key(x) == k
  }

  function KeyIsNot<T>(key: T -> string, k: string): T -> bool {
    x => key(x) != k
  }

  /** delete: every record with key `k` dropped, the others kept in order. */
  function RemoveAll<T(!new)>(xs: seq<T>, key: T -> string, k: string): (r: seq<T>)
    ensures forall x :: x in r <==> x in xs && key(x) != k
  {
    FilterMembers(xs, KeyIsNot(key, k));
    Filter(xs, KeyIsNot(key, k))
  }

  /** delete removes nothing when no record has the key. */
  lemma RemoveNothing<T(!new)>(xs: seq<T>, key: T -> string, k: string)
    requires FirstIndex(xs, key, k).None?
    ensures RemoveAll(xs, key, k) == xs
  {
    FilterAll(xs, KeyIsNot(key, k));
  }

  function Not<T>(test: T -> bool): T -> bool {
    x => !test(x)
  }

  /** Every record passes a test or fails it: the two filters share the list out. */
  lemma {:induction false} FilterSplit<T>(xs: seq<T>, test: T -> bool)
    ensures |Filter(xs, test)| + |Filter(xs, Not(test))| == |xs|
  {
    if xs != [] {
      FilterSplit(xs[..|xs| - 1], test);
    }
  }

  /** Changing one record changes how many records pass a test by at most
      that record's own contribution. */
  lemma {:induction false} FilterCountUpdate<T>(xs: seq<T>, i: nat, y: T, test: T -> bool)
    requires i < |xs|
    ensures |Filter(xs[i := y], test)| ==
      |Filter(xs, test)| - (if test(xs[i]) then 1 else 0) + (if test(y) then 1 else 0)
  {
    var n := |xs| - 1;
    var ys := xs[i := y];
    assert ys[..n] == if i == n then xs[..n] else xs[..n][i := y];
    if i < n {
      FilterCountUpdate(xs[..n], i, y, test);
    }
  }

  /** The test a loop that stops at the first match asks about. */
  predicate AnyIn<T>(xs: seq<T>, test: T -> bool) {
    exists i | 0 <= i < |xs| :: test(xs[i])
  }

  /** The records with key `k` are exactly those of the list with that key. */
  lemma FilterKeyMembers<T(!new)>(xs: seq<T>, key: T -> string, k: string)
    ensures forall x :: x in Filter(xs, KeyIs(key, k)) <==> x in xs && key(x) == k
  {
    FilterMembers(xs, KeyIs(key, k));
  }

  /** Among the records with key `k`, one passes the test exactly when some
      record of the whole list has key `k` and passes it. */
  lemma AnyWithKey<T(!new)>(xs: seq<T>, key: T -> string, k: string, test: T -> bool)
    ensures AnyIn(Filter(xs, KeyIs(key, k)), test) <==> exists x | x in xs :: key(x) == k && test(x)
  {
    var mine := Filter(xs, KeyIs(key, k));
    FilterMembers(xs, KeyIs(key, k));
    if AnyIn(mine, test) {
      var i :| 0 <= i < |mine| && test(mine[i]);
      assert mine[i] in mine;
    }
    if x :| x in xs && key(x) == k && test(x) {
      assert KeyIs(key, k)(x);
      assert x in mine;
      var i :| 0 <= i < |mine| && mine[i] == x;
    }
  }

  /** `f` applied to every record, in order: the IDs generateUserID scans,
      or the arrays saveAll hands to writeCsv. */
  function Project<T, U>(xs: seq<T>, f: T -> U): (ys: seq<U>)
    ensures |ys| == |xs| && forall i | 0 <= i < |xs| :: ys[i] == f(xs[i])
  {
    seq(|xs|, i requires 0 <= i < |xs| => f(xs[i]))
  }

  // ---------------------------------------------------------------------
  // The foreach loops the repositories run over the loaded records

  /** The loop of findByISBN / findByID: return the first record whose key matches. */
  method FindFirst<T>(xs: seq<T>, key: T -> string, k: string) returns (r: Option<T>)
    ensures r == Lookup(xs, key, k)
  {
    for i := 0 to |xs|
      invariant forall j | 0 <= j < i :: key(xs[j]) != k
    {
      if key(xs[i]) == k {
        assert FirstIndex(xs, key, k) == Some(i);
        return Some(xs[i]);
      }
    }
    return None;
  }

  /** The loop of the searches: collect the records that pass the test, in order. */
  method Collect<T>(xs: seq<T>, keep: T -> bool) returns (r: seq<T>)
    ensures r == Filter(xs, keep)
  {
    r := [];
    for i := 0 to |xs|
      invariant r == Filter(xs[..i], keep)
    {
      assert xs[..i + 1][..i] == xs[..i];
      if keep(xs[i]) {
        r := r + [xs[i]];
      }
    }
    assert xs[..|xs|] == xs;
  }

  /** The loop of update: replace the first record with the same key and
      stop, reporting whether one was found. */
  method ReplaceFirst<T>(xs: seq<T>, key: T -> string, x: T) returns (r: Option<seq<T>>)
    ensures r == Replace(xs, key, x)
  {
    for i := 0 to |xs|
      invariant forall j | 0 <= j < i :: key(xs[j]) != key(x)
    {
      if key(xs[i]) == key(x) {
        assert FirstIndex(xs, key, key(x)) == Some(i);
        return Some(xs[i := x]);
      }
    }
    return None;
  }

  /** The loop of delete: keep every record with another key, noting
      whether any record had this one. */
  method RemoveMatching<T(!new)>(xs: seq<T>, key: T -> string, k: string) returns (kept: seq<T>, found: bool)
    ensures kept == RemoveAll(xs, key, k)
    ensures found <==> FirstIndex(xs, key, k).Some?
  {
    kept := [];
    found := false;
    for i := 0 to |xs|
      invariant kept == Filter(xs[..i], KeyIsNot(key, k))
      invariant found <==> exists j | 0 <= j < i :: key(xs[j]) == k
    {
      assert xs[..i + 1][..i] == xs[..i];
      if key(xs[i]) != k {
        kept := kept + [xs[i]];
      } else {
        found := true;
      }
    }
    assert xs[..|xs|] == xs;
  }

  /** A foreach that throws at the first record passing the test: whether
      it would throw. */
  method FindAny<T>(xs: seq<T>, test: T -> bool) returns (found: bool)
    ensures found == AnyIn(xs, test)
  {
    for i := 0 to |xs|
      invariant forall j | 0 <= j < i :: !test(xs[j])
    {
      if test(xs[i]) {
        return true;
      }
    }
    return false;
  }
}
