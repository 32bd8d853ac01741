/** classes/utils/CsvHandler.php. A CSV file is whether it is present and the
    sequence of its lines, each line already split into its fields: the
    quoting and escaping that fgetcsv and fputcsv perform are not part of
    this model, and neither is a failing fopen. */
module CsvHandler {
  import opened Outcomes
  import opened Arrays

  class CsvFile {
    var present: bool
    var lines: seq<seq<string>>

    constructor (present: bool, lines: seq<seq<string>>)
      ensures this.present == present && this.lines == lines
    {
      this.present := present;
      this.lines := lines;
    }
  }

  /** A row as readCsv returns it: keyed by the header line when one was
      read, the bare list of fields otherwise. */
  datatype CsvRow = Keyed(fields: Assoc<string>) | Raw(values: seq<string>)

  // ---------------------------------------------------------------------
  // Specification

  /** `isset($line[$i]) ? $line[$i] : ''` */
  function FieldOr(line: seq<string>, i: nat): string {
    if i < |line| then line[i] else ""
  }

  /** The row createRowWithHeaders has built after its first `n` iterations. */
  function RowPrefix(line: seq<string>, headers: seq<string>, n: nat): Assoc<string>
    requires n <= |headers|
  {
    if n == 0 then [] else Put(RowPrefix(line, headers, n - 1), headers[n - 1], FieldOr(line, n - 1))
  }

  function RowWithHeaders(line: seq<string>, headers: seq<string>): Assoc<string> {
    RowPrefix(line, headers, |headers|)
  }

  /** `$line` with missing trailing fields read as '' and surplus fields dropped. */
  function Padded(line: seq<string>, n: nat): (r: seq<string>)
    ensures |r| == n
    ensures forall i | 0 <= i < n :: r[i] == (if i < |line| then line[i] else "")
  {
    seq(n, i requires 0 <= i < n => FieldOr(line, i))
  }

  /** The first line, or nothing when the file is empty. */
  function HeaderLine(lines: seq<seq<string>>): seq<string> {
    if lines == [] then [] else lines[0]
  }

  function DataRow(line: seq<string>, hasHeader: bool, headers: seq<string>): CsvRow {
    if hasHeader && headers != [] then Keyed(RowWithHeaders(line, headers)) else Raw(line)
  }

  /** The rows readCsvData builds from a run of lines. */
  function DataRows(lines: seq<seq<string>>, hasHeader: bool, headers: seq<string>): (rows: seq<CsvRow>)
    ensures |rows| == |lines|
  {
    seq(|lines|, i requires 0 <= i < |lines| => DataRow(lines[i], hasHeader, headers))
  }

  /** The rows readCsv returns for a file in a given state. */
  function ReadRows(present: bool, lines: seq<seq<string>>, hasHeader: bool): (rows: seq<CsvRow>)
    ensures !present ==> rows == []
    ensures present && !hasHeader ==> |rows| == |lines|
    ensures present && hasHeader && lines != [] ==> |rows| == |lines| - 1
  {
    if !present then []
    else
      var skip := if hasHeader && lines != [] then 1 else 0;
      var headers := if hasHeader then HeaderLine(lines) else [];
      DataRows(lines[skip..], hasHeader, headers)
  }

  /** The lines fputcsv writes for a sequence of rows: each row's values. */
  function Written(data: seq<Assoc<string>>): (lines: seq<seq<string>>)
    ensures |lines| == |data| && forall i | 0 <= i < |data| :: lines[i] == Values(data[i])
  {
    seq(|data|, i requires 0 <= i < |data| => Values(data[i]))
  }

  // ---------------------------------------------------------------------
  // Properties

  /** With distinct headers, the keyed row has exactly one entry per header,
      in header order; a missing trailing field becomes '' and a field past
      the last header is dropped. */
  lemma RowWithHeadersShape(line: seq<string>, headers: seq<string>)
    requires Distinct(headers)
    ensures RowWithHeaders(line, headers) == Zip(headers, Padded(line, |headers|))
  {
    RowPrefixShape(line, headers, |headers|);
    assert headers[..|headers|] == headers;
  }

  /** A prefix one longer is the shorter prefix and the next element. */
  lemma TakeSnoc<T>(s: seq<T>, n: nat)
    requires 0 < n <= |s|
    ensures s[..n] == s[..n - 1] + [s[n - 1]]
  {
  }

  /** Padding to one more field appends that field, or ''. */
  lemma PaddedSnoc(line: seq<string>, n: nat)
    requires n > 0
    ensures Padded(line, n) == Padded(line, n - 1) + [FieldOr(line, n - 1)]
  {
    var p, q := Padded(line, n), Padded(line, n - 1) + [FieldOr(line, n - 1)];
    assert |p| == |q|;
    forall i | 0 <= i < n
      ensures p[i] == q[i]
    {
    }
  }

  lemma {:induction false} RowPrefixShape(line: seq<string>, headers: seq<string>, n: nat)
    requires Distinct(headers) && n <= |headers|
    ensures RowPrefix(line, headers, n) == Zip(headers[..n], Padded(line, n))
  {
    if n > 0 {
      RowPrefixShape(line, headers, n - 1);
      DistinctLast(headers, n);
      RowPrefixStep(line, headers, n);
    }
  }

  /** A header not met before adds its entry at the end of the row. */
  lemma RowPrefixStep(line: seq<string>, headers: seq<string>, n: nat)
    requires 0 < n <= |headers| && headers[n - 1] !in headers[..n - 1]
    requires RowPrefix(line, headers, n - 1) == Zip(headers[..n - 1], Padded(line, n - 1))
    ensures RowPrefix(line, headers, n) == Zip(headers[..n], Padded(line, n))
  {
    ZipPutFresh(headers[..n - 1], Padded(line, n - 1), headers[n - 1], FieldOr(line, n - 1));
    PaddedSnoc(line, n);
    TakeSnoc(headers, n);
  }

  /** With distinct headers, no header occurs before its own position. */
  lemma DistinctLast(headers: seq<string>, n: nat)
    requires Distinct(headers) && 0 < n <= |headers|
    ensures headers[n - 1] !in headers[..n - 1]
  {
    var hs := headers[..n - 1];
    forall i | 0 <= i < |hs|
      ensures hs[i] != headers[n - 1]
    {
      assert hs[i] == headers[i];
    }
  }

  /** Reading a file that readCsv finds missing yields no rows. */
  lemma MissingFileReadsEmpty(lines: seq<seq<string>>, hasHeader: bool)
    ensures ReadRows(false, lines, hasHeader) == []
  {
  }

  /** A row written from an array keyed by exactly the header reads back as that array. */
  lemma KeyedRowOfValues(a: Assoc<string>, headers: seq<string>)
    requires Distinct(headers) && Keys(a) == headers
    ensures RowWithHeaders(Values(a), headers) == a
  {
    RowWithHeadersShape(Values(a), headers);
    assert Padded(Values(a), |headers|) == Values(a);
    ZipKeysValues(a);
  }

  /** With a non-empty header line, every later line becomes a keyed row. */
  lemma ReadRowsKeyed(lines: seq<seq<string>>)
    requires lines != [] && lines[0] != []
    ensures |ReadRows(true, lines, true)| == |lines| - 1
    ensures forall i | 0 <= i < |lines| - 1 :: ReadRows(true, lines, true)[i] == Keyed(RowWithHeaders(lines[i + 1], lines[0]))
  {
    var rows := ReadRows(true, lines, true);
    assert HeaderLine(lines) == lines[0];
    forall i | 0 <= i < |lines| - 1
      ensures rows[i] == Keyed(RowWithHeaders(lines[i + 1], lines[0]))
    {
      assert rows[i] == DataRow(lines[1 + i], true, lines[0]);
    }
  }

  /** Reading what writeCsv wrote with distinct, non-empty headers and rows
      keyed by exactly those headers gives those rows back, in order. */
  lemma ReadAfterWrite(headers: seq<string>, data: seq<Assoc<string>>)
    requires headers != [] && Distinct(headers)
    requires forall i | 0 <= i < |data| :: Keys(data[i]) == headers
    ensures ReadRows(true, [headers] + Written(data), true) == seq(|data|, i requires 0 <= i < |data| => Keyed(data[i]))
  {
    var lines := [headers] + Written(data);
    ReadRowsKeyed(lines);
    forall i | 0 <= i < |data|
      ensures RowWithHeaders(lines[i + 1], lines[0]) == data[i]
    {
      assert lines[i + 1] == Values(data[i]);
      KeyedRowOfValues(data[i], headers);
    }
  }

  // ---------------------------------------------------------------------
  // Operations

  /** createRowWithHeaders */
  method CreateRowWithHeaders(line: seq<string>, headers: seq<string>) returns (row: Assoc<string>)
    ensures row == RowWithHeaders(line, headers)
  {
    row := [];
    for i := 0 to |headers|
      invariant row == RowPrefix(line, headers, i)
    {
      row := Put(row, headers[i], FieldOr(line, i));
    }
  }

  /** readHeaders: the first line and the position after it. */
  method ReadHeaders(file: CsvFile) returns (headers: seq<string>, next: nat)
    ensures headers == HeaderLine(file.lines)
    ensures next == if file.lines == [] then 0 else 1
  {
    if file.lines != [] {
      headers, next := file.lines[0], 1;
    } else {
      headers, next := [], 0;
    }
  }

  /** readCsvData: every line from `start` on, keyed or raw. */
  method ReadCsvData(file: CsvFile, start: nat, hasHeader: bool, headers: seq<string>) returns (data: seq<CsvRow>)
    requires start <= |file.lines|
    ensures data == DataRows(file.lines[start..], hasHeader, headers)
  {
    var lines := file.lines;
    data := [];
    var pos := start;
    while pos < |lines|
      invariant start <= pos <= |lines|
      invariant data == DataRows(lines[start..pos], hasHeader, headers)
    {
      var row: CsvRow;
      if hasHeader && headers != [] {
        var fields := CreateRowWithHeaders(lines[pos], headers);
        row := Keyed(fields);
      } else {
        row := Raw(lines[pos]);
      }
      assert lines[start..pos + 1] == lines[start..pos] + [lines[pos]];
      data := data + [row];
      pos := pos + 1;
    }
    assert lines[start..pos] == lines[start..];
  }

  /** readCsv */
  method ReadCsv(file: CsvFile, hasHeader: bool) returns (data: seq<CsvRow>)
    ensures data == ReadRows(file.present, file.lines, hasHeader)
  {
    if !file.present {
      return [];
    }
    var headers: seq<string> := [];
    var start := 0;
    if hasHeader {
      headers, start := ReadHeaders(file);
    }
    data := ReadCsvData(file, start, hasHeader, headers);
  }

  /** writeCsv: the file (created if missing) holds the header line, when
      one is given, then one line per row, in order. */
  method WriteCsv(file: CsvFile, data: seq<Assoc<string>>, headers: Option<seq<string>>)
    modifies file
    ensures file.present
    ensures file.lines == (if headers.Some? then [headers.value] else []) + Written(data)
  {
    file.present := true;
    file.lines := [];
    if headers.Some? {
      file.lines := [headers.value];
    }
    ghost var start := file.lines;
    for i := 0 to |data|
      invariant file.present
      invariant file.lines == start + Written(data[..i])
    {
      assert Written(data[..i + 1]) == Written(data[..i]) + [Values(data[i])];
      file.lines := file.lines + [Values(data[i])];
    }
    assert data[..|data|] == data;
  }

  /** appendCsv: every existing line stays, one line is added at the end;
      `fopen` in mode 'a' creates a missing file empty. */
  method AppendCsv(file: CsvFile, row: Assoc<string>)
    modifies file
    ensures file.present
    ensures file.lines == (if old(file.present) then old(file.lines) else []) + [Values(row)]
  {
    if !file.present {
      file.lines := [];
    }
    file.present := true;
    file.lines := file.lines + [Values(row)];
  }
}
