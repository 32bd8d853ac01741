# Library management core, modelled in Dafny

This project models the core of a small PHP library-management tool: the
layer between the command line and the three CSV files it keeps.

- **Books** (`books.csv`): titles with a count of copies owned and a count on loan.
- **Users** (`users.csv`): registered borrowers.
- **Loans** (`loans.csv`): one copy of a book lent to a user.

The PHP classes map onto Dafny modules as follows.

- **Field validators** (`Validator`).
- **Command-line option parser** (`CommandParser`).
- **CSV row store** (`CsvHandler`). A file is a presence flag plus its lines, each line already split into fields.
- **Three entity models** (`BookModel`, `UserModel`, `LoanModel`).
  - Each is a datatype for the record value.
  - A class holds the mutating methods, each specified by a function on the record.
- **Three repositories** (`BookRepository`, `UserRepository`, `LoanRepository`).
  - Each is a class over a `CsvFile`.
  - Each reads the whole file through the model's `fromArray` on every query.
- **Three services** (`BookService`, `UserService`, `LoanService`).
  - The module-level functions state what each operation computes from the records stored before it runs.
  - The classes run the source's own steps against the repositories and are proved equal to those functions.

Supporting modules:

- `Outcomes`: Option, Result and the error kinds; a PHP exception is an `Err` of its kind.
- `Text`: `str_replace` of separators, `intval`, `str_pad`, byte-wise string order, ASCII `stripos`.
- `Dates`: `Y-m-d` rendering and strict parsing, adding days, day numbers.
- `Arrays`: PHP's ordered string-keyed arrays.
- `Records`: the list operations the repositories share, and their `foreach` loops.
- `Identifiers`: `generateUserID` and `generateLoanID`.

The clock is a parameter. `date('Y')` is `currentYear`, and `date('Y-m-d')` is a `today` value of type `Dates.Day`.

The main results are:

- Every model's `toArray`/`fromArray` round-trips.
- Every repository's save, update and delete read back exactly the records intended.
- Generated IDs are fresh and pass their validators.
- `updateBook` and `updateUser` change exactly the fields whose options are given.
- Lending, returning and deleting fail in the source's order, with the stores unchanged.
- Checkout followed by return restores the books.
- Checkout and return keep "each book's loaned count equals its number of loans on loan" (`LoanService.CountsMatch`).

## Model

| member | source | states |
|---|---|---|
| Validator.ValidateISBN | classes/utils/Validator.php:4-12 | succeeds iff, after every '-' and space is removed, thirteen digits remain (PCRE `$` also admits one final newline); returns that stripped string; error kind InvalidISBN otherwise |
| Validator.ValidateISBNIdempotent | classes/utils/Validator.php:5-11 | validating an accepted ISBN again succeeds with the same string |
| Validator.SeparatedIsbn | classes/utils/Validator.php:5-7 | digit groups joined by '-' or ' ' pass exactly when the digits number thirteen, and the result is the digits alone |
| Validator.IsbnWithFinalNewline | classes/utils/Validator.php:7 | example: thirteen digits followed by one newline pass `/^\d{13}$/`, the newline kept |
| Validator.ValidateEmail | classes/utils/Validator.php:14-20 | an accepted address is returned unchanged and contains '@'; otherwise InvalidEmail |
| Validator.ValidateYear | classes/utils/Validator.php:22-31 | succeeds iff 1000 <= intval(year) <= currentYear + 10, returning intval(year); InvalidYear otherwise |
| Validator.YearReadsBack | classes/utils/Validator.php:22-31 | every year in the window, written in decimal, passes and reads back as itself |
| Validator.ValidateCopies | classes/utils/Validator.php:33-41 | succeeds iff intval(copies) >= 1, returning that integer (so at least 1); InvalidCopies otherwise |
| Validator.CopiesReadBack | classes/utils/Validator.php:33-41 | every count >= 1 written in decimal passes and reads back as itself |
| Validator.ValidateRequired | classes/utils/Validator.php:43-49 | succeeds iff the value is neither "" nor "0" (PHP's empty), returning it unchanged; Required(field) otherwise |
| Validator.ValidateDate | classes/utils/Validator.php:51-59 | succeeds iff the string is the Y-m-d rendering of a real calendar day (equivalently, it parses), returning it unchanged |
| Validator.February30Refused | classes/utils/Validator.php:51-59 | example: "2024-02-30" is refused and "2024-02-29" accepted |
| Validator.ValidateUserID | classes/utils/Validator.php:61-67 | succeeds iff the string is 'U' followed by at least three digits, returning it unchanged |
| Validator.ValidateLoanID | classes/utils/Validator.php:69-75 | succeeds iff the string is 'L' followed by at least three digits, returning it unchanged |
| Validator.IdLengthBoundary | classes/utils/Validator.php:61-75 | example: two digits are refused, three and four accepted, and the wrong prefix refused |
| Text.StripSeparators | classes/utils/Validator.php:5 | the result has no '-' or space and is no longer than the input |
| Text.StripIdempotent | classes/utils/Validator.php:5 | stripping separators twice is stripping once |
| Text.StripConcat | classes/utils/Validator.php:5 | stripping distributes over concatenation |
| Text.IntvalOfNatToString | classes/utils/Validator.php:24 | intval reads back every non-negative number PHP renders |
| Text.IntvalOfIntToString | classes/models/Book.php:106-130 | intval reads back every integer PHP renders, negatives included |
| Text.Intval | classes/utils/Validator.php:22-41 | intval of a string of digits is the number it denotes; a minus sign before the digits negates it |
| Text.PadLeft | classes/repositories/UserRepository.php:134 | str_pad to the left: the result has the larger of the two lengths and is the fill characters followed by the input |
| Text.PaddedNatValue | classes/repositories/UserRepository.php:134 | a number zero-padded to any width is all digits, at least that wide, and denotes the same number |
| Text.ExactMatchIgnoringCase | classes/repositories/BookRepository.php:53 | every exact occurrence is also a case-insensitive stripos match |
| Text.EmptyNeedleMatches | classes/repositories/BookRepository.php:53 | the empty query matches every field |
| Text.ContainsIgnoringCase | classes/repositories/BookRepository.php:53 | a case-insensitive match never has a needle longer than the haystack; on text without capitals it is exactly strpos |
| Text.LexLessIrreflexive | classes/models/Loan.php:80 | no date string sorts before itself |
| Text.LexLess | classes/models/Loan.php:80 | a string never sorts strictly before an equal one; the first character decides when it differs |
| Dates.Parse | classes/utils/Validator.php:52-54 | a string that parses names a day whose year has at most four digits |
| Dates.ParseRender | classes/utils/Validator.php:52-54 | parsing reads back every rendered date |
| Dates.RenderParse | classes/utils/Validator.php:54 | only canonical renderings parse: a parsed string is the rendering of its date |
| Dates.RenderOrder | classes/models/Loan.php:80 | for four-digit years, string order of Y-m-d renderings is calendar order |
| Dates.AddDaysNumber | classes/models/Loan.php:27-29 | adding n days advances the day number by exactly n |
| Dates.AddDaysRendersLater | classes/models/Loan.php:27-29 | adding a positive number of days moves the rendering strictly later in string order |
| Dates.DayNumberOrder | classes/models/Loan.php:92-96 | an earlier day has a smaller day number |
| CommandParser.FirstIndex | classes/utils/CommandParser.php:19 | the position found holds the character, with no earlier occurrence; none iff it does not occur |
| CommandParser.CommandParser.constructor | classes/utils/CommandParser.php:10-25 | entity is argv[1] and action argv[2], each None when absent; options are what the loop over argv[3..] builds |
| CommandParser.CommandParser.GetOption | classes/utils/CommandParser.php:35-37 | the stored value when the key is present, the default when it is absent |
| CommandParser.CommandParser.HasOption | classes/utils/CommandParser.php:43-45 | true iff the key was given; then getOption returns the stored value whatever the default |
| CommandParser.CommandParser.Validate | classes/utils/CommandParser.php:47-62 | fails first on a missing or empty entity, then on a missing or empty action, then on an entity outside book/user/loan; passes iff none applies |
| CommandParser.OptionsPrefixStable | classes/utils/CommandParser.php:16-24 | later arguments do not change what the loop had built before them |
| CommandParser.OptionsAppend | classes/utils/CommandParser.php:16-24 | one more argument updates the options by its entry when it starts with "--" and leaves them alone otherwise |
| CommandParser.OptionsIgnoreFirstThree | classes/utils/CommandParser.php:16 | the first three arguments never produce options |
| CommandParser.PlainArgumentIgnored | classes/utils/CommandParser.php:18 | an argument not starting with "--" is ignored |
| CommandParser.EntryWithValue | classes/utils/CommandParser.php:19-21 | `--key=value` splits at the first '=': key and the whole rest, which may contain '=' |
| CommandParser.EntryWithoutValue | classes/utils/CommandParser.php:19-21 | a bare `--key` maps key to true |
| CommandParser.LastValueWins | classes/utils/CommandParser.php:22 | a repeated key keeps the last value given |
| CommandParser.BareKeyIsFlag | classes/utils/CommandParser.php:21-22 | after a bare `--key` the stored value is true |
| CommandParser.OtherKeysKept | classes/utils/CommandParser.php:22 | an option leaves the values of all other keys unchanged |
| Arrays.Put | classes/utils/CsvHandler.php:53 | assigning to an existing key keeps the key order; a new key is appended with its value |
| Arrays.Get | classes/utils/CommandParser.php:35-37 | `isset($a[$k])` fails iff the key is absent; otherwise the value of the entry with that key |
| Arrays.GetPutSame | classes/utils/CommandParser.php:22 | after assigning a key, reading it gives the value assigned |
| Arrays.GetPutOther | classes/utils/CommandParser.php:22 | assigning one key does not change what another key reads |
| Arrays.Values | classes/utils/CsvHandler.php:72 | array_values: the values in key order, one per entry |
| CsvHandler.CreateRowWithHeaders | classes/utils/CsvHandler.php:48-57 | the loop builds the row createRowWithHeaders specifies |
| CsvHandler.RowWithHeadersShape | classes/utils/CsvHandler.php:48-57 | with distinct headers the row has exactly one entry per header, in header order; missing trailing fields are '' and surplus fields are dropped |
| CsvHandler.RowPrefixShape | classes/utils/CsvHandler.php:52-54 | after i iterations the row pairs the first i headers with the first i padded fields |
| CsvHandler.ReadHeaders | classes/utils/CsvHandler.php:29-32 | the header line is the first line, or none for an empty file |
| CsvHandler.ReadCsvData | classes/utils/CsvHandler.php:34-46 | one row per remaining line, in file order, keyed when a non-empty header was read and raw otherwise |
| CsvHandler.ReadCsv | classes/utils/CsvHandler.php:6-17 | the rows of the file as specified: none for a missing file, otherwise the data lines after the header |
| CsvHandler.ReadRows | classes/utils/CsvHandler.php:6-17 | a missing file gives no rows; otherwise one row per data line |
| CsvHandler.MissingFileReadsEmpty | classes/utils/CsvHandler.php:7-9 | example: reading a missing file yields no rows |
| CsvHandler.ReadRowsKeyed | classes/utils/CsvHandler.php:38-41 | under a non-empty header line every later line becomes the keyed row of that line |
| CsvHandler.WriteCsv | classes/utils/CsvHandler.php:59-79 | the file is present and holds exactly the header line (if given) then each row's values, in order |
| CsvHandler.AppendCsv | classes/utils/CsvHandler.php:81-95 | every existing line stays and exactly one line, the row's values, is added at the end; a missing file is created holding only that line |
| CsvHandler.KeyedRowOfValues | classes/utils/CsvHandler.php:48-57 | a line written from an array keyed by exactly the headers reads back as that array |
| CsvHandler.ReadAfterWrite | classes/utils/CsvHandler.php:34-79 | reading what writeCsv wrote under distinct non-empty headers gives back the rows, keyed, in order |
| BookModel.NewBook | classes/models/Book.php:17-26 | accepted iff each validator passes; the book is well-formed, with the stripped ISBN, the given texts, intval year and total, loaned count max(0, intval); an invalid ISBN fails first with InvalidISBN, then an empty title with Required |
| BookModel.Max0 | classes/models/Book.php:25 | max(0, n): n itself, or 0 for a negative n |
| BookModel.LoanOne | classes/models/Book.php:88-93 | fails with NoCopyToLend iff loaned >= total; otherwise exactly one more copy on loan, all else kept |
| BookModel.ReturnOne | classes/models/Book.php:95-100 | fails with NoCopyToReturn iff loaned <= 0; otherwise exactly one copy fewer, all else kept |
| BookModel.AvailableCopies | classes/models/Book.php:60-62 | never more than the total when the loaned count is not negative, and not negative while the counters are consistent |
| BookModel.IsAvailable | classes/models/Book.php:102-104 | an available book has fewer copies on loan than it owns; an unavailable one with consistent counters has every copy on loan |
| BookModel.AvailableIffLendable | classes/models/Book.php:60-62 | isAvailable holds exactly when a copy can be lent, and lending lowers the available copies by one |
| BookModel.LoanThenReturn | classes/models/Book.php:88-100 | lending then taking back restores the book |
| BookModel.ReturnThenLoan | classes/models/Book.php:88-100 | taking back then lending restores the book |
| BookModel.CounterUpdatesPreserve | classes/models/Book.php:88-100 | both counter updates keep 0 <= loaned <= total and well-formedness |
| BookModel.Edit | classes/models/Book.php:64-86 | a successful setter changes only its own field, never the ISBN or the loaned count; setTitle, setAuthor, setPublisher and setCategory refuse an empty value and otherwise store it; setYear succeeds iff 1000 <= intval(year) <= current year + 10 and stores that number; setTotalCopies succeeds iff intval(copies) >= 1 and stores that number |
| BookModel.EditPreservesWellFormed | classes/models/Book.php:64-86 | a successful setter keeps a well-formed book well-formed |
| BookModel.SetTotalCopiesBreaksCounts | classes/models/Book.php:84-86 | setTotalCopies accepts a total below the loaned count, breaking 0 <= loaned <= total |
| BookModel.ToArray | classes/models/Book.php:106-117 | the keys are the books.csv columns, in order |
| BookModel.FromArray | classes/models/Book.php:119-130 | a row without the ISBN column fails with InvalidISBN; a book it builds is well formed and takes its title, year, total and loaned count (floored at 0) from the named columns |
| BookModel.ToArrayEntries | classes/models/Book.php:106-117 | each column holds its field, integers in decimal |
| BookModel.FromArrayToArray | classes/models/Book.php:106-130 | fromArray(toArray(b)) == b for every book the constructor can build, given the same current year |
| BookModel.Book.IncrementLoanedCopies | classes/models/Book.php:88-93 | the object's new state is LoanOne of the old, or unchanged with NoCopyToLend |
| BookModel.Book.DecrementLoanedCopies | classes/models/Book.php:95-100 | the object's new state is ReturnOne of the old, or unchanged with NoCopyToReturn |
| BookModel.Book.Set | classes/models/Book.php:64-86 | the object's new state is Edit of the old, or unchanged with the setter's error |
| UserModel.NewUser | classes/models/User.php:9-19 | accepted iff the name is non-empty, the address valid and a given date valid; the ID is stored as given; a missing registration date is today; Required before InvalidEmail |
| UserModel.Edit | classes/models/User.php:37-43 | setName and setEmail validate and change only their own field |
| UserModel.EditPreservesWellFormed | classes/models/User.php:37-43 | a successful setter keeps a well-formed user well-formed |
| UserModel.ToArray | classes/models/User.php:45-52 | the keys are 利用者ID, 氏名, 連絡先, 登録日, the users.csv header |
| UserModel.FromArray | classes/models/User.php:54-61 | a row without the name column fails with Required(氏名); a user it builds is well formed, has the row's ID, and is registered today when the row has no registration date |
| UserModel.ToArrayEntries | classes/models/User.php:45-52 | each key holds its field |
| UserModel.FromArrayToArray | classes/models/User.php:45-61 | fromArray(toArray(u)) == u for every well-formed user |
| UserModel.User.Set | classes/models/User.php:37-43 | the object's new state is Edit of the old, or unchanged with the setter's error |
| LoanModel.NewLoan | classes/models/Loan.php:15-36 | accepted iff the user ID and ISBN pass and a given checkout or due date parses; an invalid user ID fails before an invalid ISBN; checkout defaults to today, due date to checkout + 14 days, return date to null ("") and status to 貸出中 |
| LoanModel.DueDateFor | classes/models/Loan.php:26-29 | for a checkout before year 9999 the default due date is a date fourteen days later |
| LoanModel.DueDateForChecked | classes/models/Loan.php:26-29 | the default due date names the day 14 days after checkout and sorts after it (checkout before year 9999) |
| LoanModel.FreshLoan | classes/models/Loan.php:15-36 | a loan made today with defaults is on loan, well-formed, not returned, due in 14 days and not overdue |
| LoanModel.OverdueIffPastDue | classes/models/Loan.php:75-81 | overdue iff not returned and the due day is before today |
| LoanModel.IsLoaned | classes/models/Loan.php:83-85 | a loan on loan is never returned |
| LoanModel.IsOverdue | classes/models/Loan.php:75-81 | an overdue loan is not returned and is not due today |
| LoanModel.DueTodayNotOverdue | classes/models/Loan.php:80 | a loan due today is not overdue |
| LoanModel.DueYesterdayOverdue | classes/models/Loan.php:80 | a loan still out that was due yesterday is overdue |
| LoanModel.DaysOverdue | classes/models/Loan.php:87-97 | 0 exactly when not overdue; otherwise the number of days from the due date to today |
| LoanModel.ReturnLoan | classes/models/Loan.php:66-73 | fails with AlreadyReturned iff the status is 返却済; otherwise status 返却済 and return date today, every other field kept |
| LoanModel.ReturnedIsSettled | classes/models/Loan.php:66-85 | a returned loan is neither on loan nor overdue on any later day, and a second return fails |
| LoanModel.ToArray | classes/models/Loan.php:99-109 | the keys are the loans.csv columns, in order |
| LoanModel.FromArray | classes/models/Loan.php:111-121 | a row whose user ID does not pass fails with InvalidUserID; a loan it builds has the row's loan and user IDs, no return date and status 貸出中 when those columns are missing |
| LoanModel.ToArrayEntries | classes/models/Loan.php:99-109 | each key holds its field |
| LoanModel.FromArrayWellFormed | classes/models/Loan.php:111-121 | a row with exactly the loans.csv columns that fromArray accepts yields a well-formed loan |
| LoanModel.FromArrayToArray | classes/models/Loan.php:99-121 | fromArray(toArray(l)) == l for every well-formed loan, return date and status included |
| LoanModel.Loan.ReturnBook | classes/models/Loan.php:66-73 | the object's new state is ReturnLoan of the old, or unchanged with AlreadyReturned |
| Records.DecodeAll | classes/repositories/BookRepository.php:25-34 | a successful load has one record per row |
| Records.DecodeAllValues | classes/repositories/BookRepository.php:29-31 | loading succeeds iff every row converts, and then holds each row's record in order |
| Records.DecodeAllFirstError | classes/repositories/BookRepository.php:29-31 | a failed load fails with the error of the first row that fails |
| Records.FirstIndex | classes/repositories/BookRepository.php:39-43 | the position found is the first with the key; none iff no record has it |
| Records.Lookup | classes/repositories/BookRepository.php:36-46 | null iff no record has the key; otherwise the first record, in file order, with that key |
| Records.Replace | classes/repositories/BookRepository.php:107-125 | none iff the key is absent; otherwise only the first match is replaced, at its index, every other record kept |
| Records.Upsert | classes/repositories/BookRepository.php:87-95 | appends when the key is absent, replaces the first match in place otherwise |
| Records.LookupAfterUpsert | classes/repositories/BookRepository.php:87-95 | after save, looking the key up finds the saved record |
| Records.LookupOtherAfterUpsert | classes/repositories/BookRepository.php:87-95 | save leaves the lookup of every other key unchanged |
| Records.UpsertKeepsUnique | classes/repositories/BookRepository.php:87-105 | save keeps keys unique |
| Records.UpsertRestores | classes/repositories/BookRepository.php:107-125 | saving a changed record and then the original restores the list |
| Records.RemoveAll | classes/repositories/BookRepository.php:127-146 | the records left are exactly those with another key |
| Records.RemoveNothing | classes/repositories/BookRepository.php:132-138 | removing an absent key changes nothing |
| Records.FilterMembers | classes/repositories/BookRepository.php:52-56 | a filter holds exactly the records passing the test |
| Records.FilterAppend | classes/repositories/BookRepository.php:52-56 | filtering keeps file order |
| Records.FilterTwice | classes/repositories/LoanRepository.php:87-98 | filtering twice keeps, in order, the records passing both tests |
| Records.FilterSplit | classes/services/LoanService.php:112 | the records passing a test and those failing it together number all the records |
| Records.FilterCountUpdate | classes/services/LoanService.php:57-58 | changing one record changes a filter's count only by that record's own change |
| Records.FilterKeyMembers | classes/repositories/LoanRepository.php:48-59 | the records with key k are exactly the stored ones with that key |
| Records.AnyWithKey | classes/services/UserService.php:52-58 | among the records with key k one passes the test iff some stored record has key k and passes it |
| Records.ReadBack | classes/repositories/BookRepository.php:148-155 | a rewritten table of arrays that each convert reads back as those records |
| Records.ReadAfterAppend | classes/repositories/BookRepository.php:103 | after an append the file reads as before, followed by the appended line's record |
| Records.LoadedAll | classes/repositories/BookRepository.php:25-34 | every record loaded under the header through a sound conversion is one the constructor accepts |
| Records.TableReadsBack | classes/repositories/BookRepository.php:148-155 | saveAll followed by findAll gives the same records back, in order |
| Records.AppendReadsBack | classes/repositories/BookRepository.php:97-105 | create followed by findAll gives the stored records plus the new one at the end |
| Records.SaveReadsBack | classes/repositories/BookRepository.php:87-125 | both ways save writes the file read back as the upsert of the record into what was stored |
| Records.DeleteReadsBack | classes/repositories/BookRepository.php:127-155 | delete's rewrite reads back as the other records, and none has the key |
| Records.FindFirst | classes/repositories/BookRepository.php:39-45 | the loop returns the first record with the key, or null |
| Records.Collect | classes/repositories/BookRepository.php:50-58 | the loop collects exactly the filter, in order |
| Records.ReplaceFirst | classes/repositories/BookRepository.php:108-121 | the loop with break replaces exactly as Replace specifies |
| Records.RemoveMatching | classes/repositories/BookRepository.php:128-142 | the loop keeps the records with other keys and flags whether any matched |
| Records.FindAny | classes/services/UserService.php:54-58 | the foreach throws (found) exactly when some record passes the test |
| Records.Project | classes/repositories/UserRepository.php:124-125 | one value per record, the function applied to it, in order (the IDs generateUserID scans, the arrays saveAll writes) |
| Identifiers.MaxNumber | classes/repositories/UserRepository.php:122-132 | at least every number present, and either 0 or one of them |
| Identifiers.NextIdNumber | classes/repositories/UserRepository.php:134 | the generated ID carries the largest number plus one |
| Identifiers.NextId | classes/repositories/UserRepository.php:120-135 | the prefix letter followed by at least three digits whose value is the largest stored number plus one |
| Identifiers.NextIdFresh | classes/repositories/UserRepository.php:120-135 | the generated ID is none of the existing IDs |
| Identifiers.NoReuseBelowMax | classes/repositories/UserRepository.php:124-134 | a deleted ID is not handed out again while an ID with a number at least as large remains |
| Identifiers.NextIdValid | classes/repositories/UserRepository.php:134 | the generated ID is the prefix followed by at least three digits |
| Identifiers.NextIdsPassValidation | classes/repositories/LoanRepository.php:175 | generated user and loan IDs pass validateUserID and validateLoanID |
| Identifiers.NextIdOf | classes/repositories/LoanRepository.php:161-176 | the running-maximum loop yields the prefix and the largest number plus one, zero-padded to three digits |
| BookRepository.RowBook | classes/repositories/BookRepository.php:29-31 | every book fromArray accepts is well-formed |
| BookRepository.DecoderSound | classes/models/Book.php:106-130 | fromArray and toArray are a sound conversion for books.csv |
| BookRepository.StoredReadsBack | classes/repositories/BookRepository.php:148-155 | saveAll then findAll returns the same books in order |
| BookRepository.DeleteLeavesOthers | classes/repositories/BookRepository.php:127-146 | after delete no stored book has the ISBN and the others read back in order |
| BookRepository.Search | classes/repositories/BookRepository.php:48-85 | exactly the books whose field contains the query, ignoring case |
| BookRepository.SearchKeepsOrder | classes/repositories/BookRepository.php:48-85 | search results keep file order |
| BookRepository.BookRepository.constructor | classes/repositories/BookRepository.php:9-23 | a missing file is created holding only the header line (and reads as no books); an existing file is left as it is |
| BookRepository.BookRepository.LoadedAccepted | classes/repositories/BookRepository.php:25-34 | every book read under the header line is one the constructor accepts |
| BookRepository.BookRepository.FindAll | classes/repositories/BookRepository.php:25-34 | the loop returns what the file holds, or the first row's conversion error |
| BookRepository.BookRepository.FindByISBN | classes/repositories/BookRepository.php:36-46 | the first book with exactly the ISBN, or null |
| BookRepository.BookRepository.FindBy | classes/repositories/BookRepository.php:48-85 | findByTitle / Author / Category return the search result |
| BookRepository.BookRepository.SaveAll | classes/repositories/BookRepository.php:148-155 | the file becomes the header and one line per book, and reads back as those books |
| BookRepository.BookRepository.Create | classes/repositories/BookRepository.php:97-105 | refused with the file unchanged when the ISBN is stored; otherwise the book's line is appended |
| BookRepository.BookRepository.Update | classes/repositories/BookRepository.php:107-125 | refused with the file unchanged when no book has the ISBN; otherwise the file is rewritten with the first match replaced in place |
| BookRepository.BookRepository.Save | classes/repositories/BookRepository.php:87-95 | update when stored, create otherwise; afterwards the file reads as the upsert of the book |
| BookRepository.BookRepository.Delete | classes/repositories/BookRepository.php:127-146 | refused with the file unchanged when no book has the ISBN; otherwise every such book is removed and the rest kept in order |
| UserRepository.StoredReadsBack | classes/repositories/UserRepository.php:137-144 | saveAll then findAll returns the same users in order |
| UserRepository.DecoderSound | classes/models/User.php:45-61 | fromArray and toArray are a sound conversion for users.csv |
| UserRepository.SearchByName | classes/repositories/UserRepository.php:46-57 | exactly the users whose name contains the query, ignoring case |
| UserRepository.UserRepository.constructor | classes/repositories/UserRepository.php:7-21 | a missing file is created holding only the header line; an existing file is left as it is |
| UserRepository.UserRepository.LoadedAccepted | classes/repositories/UserRepository.php:23-32 | every user read under the header line is one the constructor accepts |
| UserRepository.UserRepository.FindAll | classes/repositories/UserRepository.php:23-32 | the loop returns what the file holds, or the first row's conversion error |
| UserRepository.UserRepository.FindByID | classes/repositories/UserRepository.php:34-44 | the first user with exactly the ID, or null |
| UserRepository.UserRepository.FindByName | classes/repositories/UserRepository.php:46-57 | all case-insensitive name matches, in order |
| UserRepository.UserRepository.SaveAll | classes/repositories/UserRepository.php:137-144 | the file becomes the header and one line per user, and reads back as those users |
| UserRepository.UserRepository.Create | classes/repositories/UserRepository.php:69-77 | refused with the file unchanged when the ID is stored; otherwise the user's line is appended |
| UserRepository.UserRepository.Update | classes/repositories/UserRepository.php:79-97 | refused with the file unchanged when the ID is absent; otherwise the first match is replaced in place |
| UserRepository.UserRepository.Save | classes/repositories/UserRepository.php:59-67 | appends when the ID is absent, replaces the first match in place otherwise; reads back as the upsert |
| UserRepository.UserRepository.Delete | classes/repositories/UserRepository.php:99-118 | removes every user with the ID, or fails with the file unchanged when there is none |
| UserRepository.UserRepository.GenerateUserID | classes/repositories/UserRepository.php:120-135 | 'U' and the largest number among `^U\d+$` IDs (or 0) plus one, padded to three digits |
| UserRepository.GeneratedIdFresh | classes/repositories/UserRepository.php:120-135 | the generated ID belongs to no stored user and passes validateUserID |
| LoanRepository.RowLoan | classes/repositories/LoanRepository.php:29-31 | every loan fromArray accepts has a parseable checkout date and a normalised ISBN |
| LoanRepository.DecoderSound | classes/models/Loan.php:99-121 | fromArray and toArray are a sound conversion for loans.csv |
| LoanRepository.StoredReadsBack | classes/repositories/LoanRepository.php:178-185 | saveAll then findAll returns the same loans in order |
| LoanRepository.ActiveLoans | classes/repositories/LoanRepository.php:74-85 | exactly the loans with status 貸出中 |
| LoanRepository.OverdueLoans | classes/repositories/LoanRepository.php:87-98 | exactly the loans that are on loan and overdue |
| LoanRepository.OverdueWithinActive | classes/repositories/LoanRepository.php:87-98 | the overdue loans are those on loan and overdue, in file order, so no more numerous than the active loans |
| LoanRepository.LoanRepository.constructor | classes/repositories/LoanRepository.php:9-23 | a missing file is created holding only the header line; an existing file is left as it is |
| LoanRepository.LoanRepository.LoadedAccepted | classes/repositories/LoanRepository.php:25-34 | every loan read under the header line is well-formed |
| LoanRepository.LoanRepository.FindAll | classes/repositories/LoanRepository.php:25-34 | the loop returns what the file holds, or the first row's conversion error |
| LoanRepository.LoanRepository.FindByID | classes/repositories/LoanRepository.php:36-46 | the first loan with exactly the ID, or null |
| LoanRepository.LoanRepository.FindByUserID | classes/repositories/LoanRepository.php:48-59 | exactly the loans of the user, in file order |
| LoanRepository.LoanRepository.FindByISBN | classes/repositories/LoanRepository.php:61-72 | exactly the loans of the ISBN, in file order |
| LoanRepository.LoanRepository.FindActiveLoans | classes/repositories/LoanRepository.php:74-85 | the loans on loan, in file order |
| LoanRepository.LoanRepository.FindOverdueLoans | classes/repositories/LoanRepository.php:87-98 | the active loans that are overdue today, in file order |
| LoanRepository.LoanRepository.SaveAll | classes/repositories/LoanRepository.php:178-185 | the file becomes the header and one line per loan, and reads back as those loans |
| LoanRepository.LoanRepository.Create | classes/repositories/LoanRepository.php:110-118 | refused with the file unchanged when the ID is stored; otherwise the loan's line is appended |
| LoanRepository.LoanRepository.Update | classes/repositories/LoanRepository.php:120-138 | refused with the file unchanged when the ID is absent; otherwise the first match is replaced in place |
| LoanRepository.LoanRepository.Save | classes/repositories/LoanRepository.php:100-108 | upsert with first-match in-place replacement; reads back as the upsert |
| LoanRepository.LoanRepository.Delete | classes/repositories/LoanRepository.php:140-159 | removes every loan with the ID, or fails with the file unchanged |
| LoanRepository.LoanRepository.GenerateLoanID | classes/repositories/LoanRepository.php:161-176 | 'L' and the largest number among `^L\d+$` IDs (or 0) plus one, padded to three digits |
| LoanRepository.GeneratedIdFresh | classes/repositories/LoanRepository.php:161-176 | the generated ID belongs to no stored loan and passes validateLoanID |
| BookService.BookByISBN | classes/services/BookService.php:23-29 | fails iff no stored book has the ISBN (BookNotFound); otherwise a stored book with it; a load error propagates |
| BookService.Found | classes/services/BookService.php:31-53 | a load error propagates; otherwise it fails only with NoSearchResult, and a success is non-empty and holds only stored books |
| BookService.Lent | classes/services/BookService.php:90-99 | a load error propagates, an unknown ISBN gives BookNotFound; a stored book with a free copy comes back with one more on loan, otherwise NoCopyAvailable |
| BookService.TakenBack | classes/services/BookService.php:101-110 | a load error propagates, an unknown ISBN gives BookNotFound; a stored book with copies on loan comes back with one fewer, otherwise NothingToReturn |
| BookService.Updated | classes/services/BookService.php:55-78 | a load error propagates, an unknown ISBN gives BookNotFound; a success keeps the ISBN and the stored loaned count |
| BookService.StepFields | classes/services/BookService.php:58-75 | one `isset` step sets only its own field to the given value and fails exactly when the setter's check refuses it |
| BookService.ReviseByFields | classes/services/BookService.php:58-75 | the steps for a list of options change each listed given field, keep every other field, never the ISBN or loaned count |
| BookService.RevisedFields | classes/services/BookService.php:55-78 | updateBook changes exactly the fields whose options are given (year and copies through intval); ISBN and loaned count unchanged |
| BookService.RevisedIffValid | classes/services/BookService.php:58-75 | updateBook's setters all succeed iff every given option passes its check |
| BookService.NoneRefused | classes/services/BookService.php:58-75 | no option is refused exactly when each given value passes its setter's check |
| BookService.ReviseByWellFormed | classes/services/BookService.php:55-78 | an updated book is still one the constructor accepts |
| BookService.LentChangesOneBook | classes/services/BookService.php:90-99 | loanBook stores that book with one more copy on loan; every other ISBN looks up as before |
| BookService.TakenBackChangesOneBook | classes/services/BookService.php:101-110 | returnBook stores that book with one copy fewer on loan; every other ISBN looks up as before |
| BookService.LendThenTakeBack | classes/services/BookService.php:90-110 | lending a copy and taking it back leaves the stored books as they were |
| BookService.ListsExact | classes/services/BookService.php:112-136 | getAvailableBooks and getLoanedBooks list exactly the books with copies available and with copies on loan |
| BookService.FoundIffMatch | classes/services/BookService.php:31-53 | the searches fail iff no stored book matches, and otherwise return exactly the matching books |
| BookService.Revise | classes/services/BookService.php:58-75 | the setter calls on the Book object leave it as Revised specifies, or report its first error |
| BookService.BookService.AddBook | classes/services/BookService.php:14-17 | constructor errors first; otherwise a book with no copy on loan is saved by upsert, overwriting a stored book with the same ISBN |
| BookService.BookService.GetAllBooks | classes/services/BookService.php:19-21 | the books the file holds |
| BookService.BookService.GetBookByISBN | classes/services/BookService.php:23-29 | as BookByISBN |
| BookService.BookService.SearchBooks | classes/services/BookService.php:31-53 | the matches, or NoSearchResult when there are none |
| BookService.BookService.UpdateBook | classes/services/BookService.php:55-78 | the stored book with the given options applied is saved in place; on any error the file is unchanged |
| BookService.BookService.DeleteBook | classes/services/BookService.php:80-88 | fails with the file unchanged when the book is missing or has copies on loan; otherwise the book is removed |
| BookService.BookService.LoanBook | classes/services/BookService.php:90-99 | fails with the file unchanged when the book is missing or unavailable; otherwise the stored book has one more copy on loan |
| BookService.BookService.ReturnBook | classes/services/BookService.php:101-110 | fails with the file unchanged when the book is missing or has none on loan; otherwise one copy fewer |
| BookService.BookService.GetAvailableBooks | classes/services/BookService.php:112-123 | the books with a copy available, in file order |
| BookService.BookService.GetLoanedBooks | classes/services/BookService.php:125-136 | the books with a copy on loan, in file order |
| UserService.UserByID | classes/services/UserService.php:20-26 | fails iff no stored user has the ID (UserNotFound); otherwise a stored user with it |
| UserService.Registered | classes/services/UserService.php:10-14 | a load error propagates; an empty name fails with Required(氏名) before an invalid address fails with InvalidEmail; a success is well formed and registered today |
| UserService.NamedLike | classes/services/UserService.php:28-34 | a load error propagates; otherwise it fails only with NoSearchResult, and a success is non-empty and holds only stored users |
| UserService.Updated | classes/services/UserService.php:36-47 | a load error propagates, an unknown ID gives UserNotFound; a success keeps the ID and the stored registration date |
| UserService.Removal | classes/services/UserService.php:49-61 | an error reading the loans comes first; a success means the user was stored, and no remaining user has the ID |
| UserService.RegisteredFresh | classes/services/UserService.php:10-14 | addUser succeeds iff name and address pass; the new user has a fresh valid ID, the given fields and today's date, and save appends it |
| UserService.NamedLikeIffMatch | classes/services/UserService.php:28-34 | the search fails iff no stored name contains the query |
| UserService.RevisedFields | classes/services/UserService.php:36-47 | updateUser succeeds iff each given option passes (name checked first) and changes only the name and address given |
| UserService.RemovalIff | classes/services/UserService.php:49-61 | deleteUser refuses whenever one of the user's loans is on loan; otherwise it removes the user iff stored |
| UserService.UserService.AddUser | classes/services/UserService.php:10-14 | the generated ID, then the constructor; the new user is appended and reads back after the stored users |
| UserService.UserService.GetAllUsers | classes/services/UserService.php:16-18 | the users the file holds |
| UserService.UserService.GetUserByID | classes/services/UserService.php:20-26 | as UserByID |
| UserService.UserService.SearchUsersByName | classes/services/UserService.php:28-34 | the matches, or NoSearchResult |
| UserService.UserService.UpdateUser | classes/services/UserService.php:36-47 | the stored user with the given options applied is saved in place; on any error the file is unchanged |
| UserService.UserService.DeleteUser | classes/services/UserService.php:49-61 | refused with nothing removed when a loan of the user is on loan; otherwise delete, failing when the user is absent |
| LoanService.LoanByID | classes/services/LoanService.php:78-84 | fails iff no stored loan has the ID (LoanNotFound); otherwise a stored loan with it |
| LoanService.BorrowingIff | classes/services/LoanService.php:29-34 | checkoutBook's foreach throws iff the user already has a loan of the ISBN on loan |
| LoanService.Checkout | classes/services/LoanService.php:20-47 | a load error of the users propagates, an unknown user gives UserNotFound; a loan it makes is the user's, on loan, checked out today, with no return date |
| LoanService.ReturnOf | classes/services/LoanService.php:49-64 | a load error of the loans propagates; an unknown ID gives LoanNotFound, a loan not on loan LoanNotActive; a success is that loan, returned today |
| LoanService.UserHistory | classes/services/LoanService.php:86-96 | a load error propagates, an unknown user gives UserNotFound; a success is non-empty and holds only the user's loans |
| LoanService.BookHistory | classes/services/LoanService.php:98-103 | a load error propagates, an unknown ISBN gives BookNotFound; a success holds only loans of the ISBN |
| LoanService.Summary | classes/services/LoanService.php:105-115 | a load error propagates; the active count lies between 0 and the total, and the returned count is not negative |
| LoanService.CountsMatch | classes/services/LoanService.php:20-64 | a book whose count matches its loans has a non-negative count; with no loans stored, the counts match iff no book has a copy on loan |
| LoanService.CheckoutOutcome | classes/services/LoanService.php:20-47 | errors in the order unknown user, unknown book, no copy, already borrowing; with the user and an available book found and no loan of the ISBN already on loan to the user, it succeeds iff the stored user ID passes validateUserID and otherwise fails with InvalidUserID; on success the loan has a fresh valid ID, the user and ISBN, today's checkout, no return date and status 貸出中; for a checkout before year 9999 it is well-formed, due in 14 days and not overdue |
| LoanService.LendKeepsCounts | classes/services/LoanService.php:38-46 | one more copy on loan plus one more loan of it on loan keeps the counts matching |
| LoanService.LentAt | classes/services/BookService.php:90-99 | lending an available stored book rewrites that one record with one more copy on loan |
| LoanService.CheckoutKeepsCounts | classes/services/LoanService.php:38-46 | checkoutBook keeps "each book's loaned count equals its loans on loan" |
| LoanService.ReturnOutcome | classes/services/LoanService.php:49-64 | returnBook fails for an unknown or returned loan; under matching counts it succeeds iff the book is stored, closing the loan today |
| LoanService.ReturnKeepsCounts | classes/services/LoanService.php:49-64 | returnBook keeps the counts matching |
| LoanService.ReturnAfterLend | classes/services/LoanService.php:49-64 | returning a loan just made of a lent book takes back that copy |
| LoanService.CheckoutThenReturn | classes/services/LoanService.php:20-64 | checkout followed by return of the new loan restores the stored books |
| LoanService.UserHistoryExact | classes/services/LoanService.php:86-96 | an unknown user gives UserNotFound; for a stored user it succeeds iff the user has a loan, and a success holds exactly the user's loans |
| LoanService.BookHistoryExact | classes/services/LoanService.php:98-103 | fails for an unknown book; otherwise exactly the loans of the ISBN, possibly none |
| LoanService.SummaryCounts | classes/services/LoanService.php:105-116 | returned = total - active, returned counts the loans not on loan, and overdue <= active |
| LoanService.LoanService.CheckoutBook | classes/services/LoanService.php:20-47 | the result is Checkout of the stored users, books and loans; on error both files are unchanged; on success the book is saved with one more copy on loan and the loan appended |
| LoanService.LoanService.ReturnBook | classes/services/LoanService.php:49-64 | the result is ReturnOf the stored state; on error both files are unchanged (the loan stays on loan); on success book and loan are saved in place |
| LoanService.LoanService.GetAllLoans | classes/services/LoanService.php:66-68 | the loans the file holds |
| LoanService.LoanService.GetActiveLoans | classes/services/LoanService.php:70-72 | the loans on loan |
| LoanService.LoanService.GetOverdueLoans | classes/services/LoanService.php:74-76 | the overdue loans |
| LoanService.LoanService.GetLoanByID | classes/services/LoanService.php:78-84 | as LoanByID |
| LoanService.LoanService.GetUserLoanHistory | classes/services/LoanService.php:86-96 | as UserHistory |
| LoanService.LoanService.GetBookLoanHistory | classes/services/LoanService.php:98-103 | as BookHistory |
| LoanService.LoanService.GetLoanSummary | classes/services/LoanService.php:105-116 | the four counts of the stored loans |

## Left out

- File I/O. The model leaves out real files, fopen failures, CSV quoting and escaping, and the `mkdir` of `initializeFile`. A file is a presence flag and its lines, already split into fields.
- classes/commands/BookCommand.php, classes/commands/UserCommand.php, classes/commands/LoanCommand.php and library.php are not part of this model. They hold output formatting, usage text and top-level dispatch.
- Exception messages. An error is its kind (`Outcomes.Error`); the localised text is not modelled.
- The clock. `date('Y')` and `date('Y-m-d')` are the parameters `currentYear` and `today`, fixed for the life of a repository or service.
- Validator.ValidateEmail: FILTER_VALIDATE_EMAIL is replaced by a simpler stand-in. It requires exactly one '@' with text on both sides and no whitespace.
- Identifiers.NextId: the next number is the largest stored one plus one on unbounded integers. When that largest number is PHP_INT_MAX, `$maxID + 1` in classes/repositories/UserRepository.php:134 and classes/repositories/LoanRepository.php:175 becomes a float, str_pad writes it in exponent form, and the resulting ID neither passes validateUserID/validateLoanID nor need be fresh; the model's NextIdsPassValidation, NextIdFresh, UserRepository.GeneratedIdFresh, LoanRepository.GeneratedIdFresh, UserService.RegisteredFresh and LoanService.CheckoutOutcome hold only for stored numbers below PHP_INT_MAX.
- Text.Intval: leading whitespace, an optional sign and the decimal digits that follow. Exponent forms, hexadecimal, and saturation at PHP_INT_MAX are not modelled.
- Text.ContainsIgnoringCase: stripos folds ASCII letters only, as PHP 8.2 and later do. Multibyte case folding is not modelled.
- Non-string fields. PHP's null and non-string array values (a book's integers before they are written) are modelled through their string forms. A null return date is "", which is how the CSV file stores it.
- LoanService.LoanService.CheckoutBook: the read-back of the new loan is stated only for a `today` before year 9999. In the last 14 days of 9999 the default due date has five year digits and no longer passes validateDate.
- CommandParser.CommandParser.GetOption: a bare `--key` holds the value `Flag`, standing for PHP's `true`.
- Object identity. Repositories hand out records (values), not shared objects. A service changes a model object, then saves its record.
- BookRepository.BookRepository.constructor, UserRepository.UserRepository.constructor, LoanRepository.LoanRepository.constructor: the repository is given its file rather than building the path from `__FILE__`.
- BookService.BookService.constructor, UserService.UserService.constructor, LoanService.LoanService.constructor: repositories and services are passed in rather than created by the constructor.
  - UserService.deleteUser creates its own LoanRepository over the same loans file; the model uses the injected one.
  - LoanService assumes the books file and the loans file are different files.
- Concurrency. Races between concurrent invocations over the same files are not modelled.
- LoanModel.DaysOverdue: `diff()->days` is modelled as the difference of day numbers between the due date and today.
