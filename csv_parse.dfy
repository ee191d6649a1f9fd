/**
 * `parse_csv_data`: turns the rows that the CSV tokeniser produced from the
 * model's reply into agent records, one per row after the header.
 */
module CsvParse {
  import opened Results
  import opened Text

  /** An agent record: the Python dict from column name to field value. */
  type Record = map<string, string>

  /** The columns a record may hold, in the order the source lists them. */
  const Columns: seq<string> := ["filename", "role", "goal", "backstory", "assigned_task", "allow_delegation"]

  const RoleMissingMessage: string := "Role component missing in CSV data"

  /** The two exceptions the parser can raise. */
  datatype ParseError = IndexError | ValueError(message: string)

  predicate NoUpper(s: string)
  {
    forall i :: 0 <= i < |s| ==> !('A' <= s[i] <= 'Z')
  }

  lemma LowerNoUpper(s: string)
    requires NoUpper(s)
    ensures Lower(s) == s
  {
  }

  /**
   * Every column name is already lower case, so `header_mapping`, the dict
   * `{h.lower(): h for h in header}`, maps each column name to itself and
   * nothing else.
   */
  lemma ColumnsLowerCase()
    ensures forall h :: h in Columns ==> Lower(h) == h
  {
    forall h | h in Columns ensures Lower(h) == h {
      assert NoUpper(h);
      LowerNoUpper(h);
    }
  }

  /** `header_mapping.get(cell.lower())`: the column a header cell names, if any. */
  function ColumnOf(cell: string): Option<string>
  {
    if Lower(cell) in Columns then Some(Lower(cell)) else None
  }

  /**
   * A header cell names a column exactly when it has the column's length and
   * each of its characters lower-cases to the column's character there.
   */
  lemma ColumnOfCaseInsensitive(cell: string, column: string)
    ensures ColumnOf(cell) == Some(column)
      <==> column in Columns && |cell| == |column| && forall i :: 0 <= i < |cell| ==> LowerChar(cell[i]) == column[i]
  {
    if column in Columns && |cell| == |column| && forall i :: 0 <= i < |cell| ==> LowerChar(cell[i]) == column[i] {
      assert Lower(cell) == column;
    }
  }

  /** Header cells that differ only in ASCII case name the same column, or none. */
  lemma ColumnOfIgnoresCase(a: string, b: string)
    requires |a| == |b| && forall i :: 0 <= i < |a| ==> LowerChar(a[i]) == LowerChar(b[i])
    ensures ColumnOf(a) == ColumnOf(b)
  {
    assert Lower(a) == Lower(b);
  }

  /** `header_indices`: the column of each header cell, in header order. */
  function HeaderIndices(headerLine: seq<string>): (r: seq<Option<string>>)
  {
    seq(|headerLine|, i requires 0 <= i < |headerLine| => ColumnOf(headerLine[i]))
  }

  /** The dict `agent_data` after the first `k` fields of `line` have been stored. */
  function Assigned(indices: seq<Option<string>>, line: seq<string>, k: nat): Record
    requires k <= |line| && k <= |indices|
  {
    if k == 0 then map[]
    else
      var m := Assigned(indices, line, k - 1);
      match indices[k - 1]
      case Some(h) => if h != [] then m[h := StripQuotes(line[k - 1])] else m
      case None => m
  }

  /** The record built from one data row, or the exception that row raises. */
  function RowRecord(indices: seq<Option<string>>, line: seq<string>, filename: string): Result<Record, ParseError>
  {
    if |line| > |indices| then Err(IndexError)
    else
      var m := Assigned(indices, line, |line|);
      if "role" !in m || m["role"] == [] then Err(ValueError(RoleMissingMessage))
      else Ok(m["filename" := filename])
  }

  /** The records of `rows` in order, or the exception of the first row that raises one. */
  function ParseRows(indices: seq<Option<string>>, rows: seq<seq<string>>, filename: string): Result<seq<Record>, ParseError>
  {
    if rows == [] then Ok([])
    else
      match ParseRows(indices, rows[..|rows| - 1], filename)
      case Err(e) => Err(e)
      case Ok(rs) =>
        match RowRecord(indices, rows[|rows| - 1], filename)
        case Err(e) => Err(e)
        case Ok(r) => Ok(rs + [r])
  }

  /** What `parse_csv_data` returns for the tokenised rows `lines`; `lines[0]` is the header. */
  function ParseCsv(lines: seq<seq<string>>, filename: string): Result<seq<Record>, ParseError>
  {
    if |lines| == 0 then Err(IndexError) else ParseRows(HeaderIndices(lines[0]), lines[1..], filename)
  }

  /** Once a prefix of the rows raises, the whole parse raises the same exception. */
  lemma {:induction false} ParseRowsErrorSticks(indices: seq<Option<string>>, rows: seq<seq<string>>, k: nat, filename: string)
    requires k <= |rows|
    requires ParseRows(indices, rows[..k], filename).Err?
    ensures ParseRows(indices, rows, filename) == ParseRows(indices, rows[..k], filename)
  {
    if k < |rows| {
      assert rows[..|rows| - 1][..k] == rows[..k];
      ParseRowsErrorSticks(indices, rows[..|rows| - 1], k, filename);
    } else {
      assert rows[..k] == rows;
    }
  }

  /** Storing one more field of a row. */
  lemma AssignedNext(indices: seq<Option<string>>, line: seq<string>, i: nat)
    requires i < |line| && i < |indices|
    ensures Assigned(indices, line, i + 1) ==
      if indices[i].Some? && indices[i].value != [] then Assigned(indices, line, i)[indices[i].value := StripQuotes(line[i])]
      else Assigned(indices, line, i)
  {
  }

  /** Parsing one more row either raises that row's exception or appends its record. */
  lemma ParseRowsExtend(indices: seq<Option<string>>, rows: seq<seq<string>>, n: nat, filename: string)
    requires n < |rows|
    requires ParseRows(indices, rows[..n], filename).Ok?
    ensures ParseRows(indices, rows[..n + 1], filename) ==
      match RowRecord(indices, rows[n], filename)
      case Err(e) => Err(e)
      case Ok(r) => Ok(ParseRows(indices, rows[..n], filename).value + [r])
  {
    assert rows[..n + 1][..n] == rows[..n];
  }

  /**
   * The inner loop of the parser: stores each field of `line` under the column
   * its header cell names, raising an index error at the first field past the
   * end of the header.
   */
  method FillAgentData(headerIndices: seq<Option<string>>, line: seq<string>) returns (r: Result<Record, ParseError>)
    ensures |line| > |headerIndices| ==> r == Err(IndexError)
    ensures |line| <= |headerIndices| ==> r == Ok(Assigned(headerIndices, line, |line|))
  {
    var agentData: Record := map[];
    var i := 0;
    while i < |line|
      invariant 0 <= i <= |line| && i <= |headerIndices|
      invariant agentData == Assigned(headerIndices, line, i)
    {
      if i == |headerIndices| {
        return Err(IndexError);
      }
      var headerName := headerIndices[i];
      AssignedNext(headerIndices, line, i);
      if headerName.Some? && headerName.value != [] {
        agentData := agentData[headerName.value := StripQuotes(line[i])];
      }
      i := i + 1;
    }
    return Ok(agentData);
  }

  /** The parser as the source writes it: a loop over the data rows filling `agents_data`. */
  method ParseCsvData(lines: seq<seq<string>>, filename: string) returns (r: Result<seq<Record>, ParseError>)
    ensures r == ParseCsv(lines, filename)
  {
    if |lines| == 0 {
      return Err(IndexError);
    }
    var headerIndices := HeaderIndices(lines[0]);
    var rows := lines[1..];
    var agentsData: seq<Record> := [];
    var n := 0;
    while n < |rows|
      invariant 0 <= n <= |rows|
      invariant ParseRows(headerIndices, rows[..n], filename) == Ok(agentsData)
    {
      var filled := FillAgentData(headerIndices, rows[n]);
      ParseRowsExtend(headerIndices, rows, n, filename);
      if filled.Err? {
        ParseRowsErrorSticks(headerIndices, rows, n + 1, filename);
        return Err(IndexError);
      }
      var agentData := filled.value;
      if "role" !in agentData || agentData["role"] == [] {
        ParseRowsErrorSticks(headerIndices, rows, n + 1, filename);
        return Err(ValueError(RoleMissingMessage));
      }
      agentData := agentData["filename" := filename];
      agentsData := agentsData + [agentData];
      n := n + 1;
    }
    assert rows[..n] == rows;
    return Ok(agentsData);
  }

  // ---------------------------------------------------------------- properties

  /** One record per row, in row order, each the record of its own row. */
  lemma {:induction false} ParseRowsCountAndOrder(indices: seq<Option<string>>, rows: seq<seq<string>>, filename: string)
    requires ParseRows(indices, rows, filename).Ok?
    ensures var rs := ParseRows(indices, rows, filename).value;
      |rs| == |rows| && forall i :: 0 <= i < |rows| ==> RowRecord(indices, rows[i], filename) == Ok(rs[i])
  {
    if rows != [] {
      var init := rows[..|rows| - 1];
      ParseRowsCountAndOrder(indices, init, filename);
      var rs := ParseRows(indices, rows, filename).value;
      forall i | 0 <= i < |rows| ensures RowRecord(indices, rows[i], filename) == Ok(rs[i]) {
        if i < |rows| - 1 {
          assert rows[i] == init[i];
        }
      }
    }
  }

  /**
   * The parse succeeds exactly when every row does; otherwise it raises the
   * exception of the first row that raises one.
   */
  lemma {:induction false} ParseRowsFirstError(indices: seq<Option<string>>, rows: seq<seq<string>>, filename: string)
    ensures ParseRows(indices, rows, filename).Ok? <==> forall i :: 0 <= i < |rows| ==> RowRecord(indices, rows[i], filename).Ok?
    ensures ParseRows(indices, rows, filename).Err? ==>
      exists j :: 0 <= j < |rows| && RowRecord(indices, rows[j], filename) == Err(ParseRows(indices, rows, filename).error)
        && forall i :: 0 <= i < j ==> RowRecord(indices, rows[i], filename).Ok?
  {
    if rows != [] {
      var init := rows[..|rows| - 1];
      ParseRowsFirstError(indices, init, filename);
      assert forall i :: 0 <= i < |init| ==> rows[i] == init[i];
      if ParseRows(indices, init, filename).Ok? {
        ParseRowsCountAndOrder(indices, init, filename);
      }
    }
  }

  /** The position of the last of the first `k` fields that falls under column `h`, or -1. */
  function LastFieldOf(indices: seq<Option<string>>, h: string, k: nat): (r: int)
    requires k <= |indices|
    ensures -1 <= r < k
  {
    if k == 0 then -1 else if indices[k - 1] == Some(h) then k - 1 else LastFieldOf(indices, h, k - 1)
  }

  /** `LastFieldOf` finds the last position under `h`, and -1 only when there is none. */
  lemma {:induction false} LastFieldOfSpec(indices: seq<Option<string>>, h: string, k: nat)
    requires k <= |indices|
    ensures var r := LastFieldOf(indices, h, k);
      (r == -1 <==> forall i :: 0 <= i < k ==> indices[i] != Some(h))
      && (r >= 0 ==> indices[r] == Some(h) && forall j :: r < j < k ==> indices[j] != Some(h))
  {
    if k > 0 && indices[k - 1] != Some(h) {
      LastFieldOfSpec(indices, h, k - 1);
    }
  }

  /** One more field adds or overwrites the key of its column, if it has one, and keeps every other key. */
  lemma AssignedStep(indices: seq<Option<string>>, line: seq<string>, k: nat, h: string)
    requires 0 < k <= |line| && k <= |indices|
    ensures h in Assigned(indices, line, k) <==>
      (indices[k - 1] == Some(h) && h != []) || h in Assigned(indices, line, k - 1)
    ensures h in Assigned(indices, line, k) ==>
      Assigned(indices, line, k)[h] == (if indices[k - 1] == Some(h) && h != [] then StripQuotes(line[k - 1]) else Assigned(indices, line, k - 1)[h])
  {
  }

  /**
   * Which columns a row stores and with what value: a column is present exactly
   * when some field of the row falls under it, and then it holds the last such
   * field with its wrapping quotes stripped.
   */
  lemma {:induction false} AssignedContents(indices: seq<Option<string>>, line: seq<string>, k: nat, h: string)
    requires k <= |line| && k <= |indices|
    ensures h in Assigned(indices, line, k) <==> h != [] && LastFieldOf(indices, h, k) >= 0
    ensures h in Assigned(indices, line, k) ==> Assigned(indices, line, k)[h] == StripQuotes(line[LastFieldOf(indices, h, k)])
  {
    if k > 0 {
      AssignedContents(indices, line, k - 1, h);
      AssignedStep(indices, line, k, h);
    }
  }

  /**
   * A row longer than the header raises an index error; otherwise the row
   * raises `ValueError` exactly when it stores no non-empty role; a record
   * holds only known columns, a non-empty role, and the given filename.
   */
  lemma RowRecordOutcome(indices: seq<Option<string>>, line: seq<string>, filename: string)
    requires forall i :: 0 <= i < |indices| ==> indices[i] == None || indices[i].value in Columns
    ensures |line| > |indices| ==> RowRecord(indices, line, filename) == Err(IndexError)
    ensures |line| <= |indices| ==>
      var m := Assigned(indices, line, |line|);
      (RowRecord(indices, line, filename) == Err(ValueError(RoleMissingMessage)) <==> "role" !in m || m["role"] == [])
    ensures RowRecord(indices, line, filename).Ok? ==>
      var rec := RowRecord(indices, line, filename).value;
      (forall k :: k in rec ==> k in Columns) && "role" in rec && rec["role"] != [] && rec["filename"] == filename
  {
    if |line| <= |indices| {
      var m := Assigned(indices, line, |line|);
      forall k | k in m ensures k in Columns {
        AssignedContents(indices, line, |line|, k);
        LastFieldOfSpec(indices, k, |line|);
      }
    }
  }

  /** What the whole parse returns: one record per data row, in order, each stamped with `filename`. */
  lemma ParseCsvRecords(lines: seq<seq<string>>, filename: string)
    requires ParseCsv(lines, filename).Ok?
    ensures var rs := ParseCsv(lines, filename).value;
      |rs| == |lines| - 1
      && (forall i :: 0 <= i < |rs| ==> RowRecord(HeaderIndices(lines[0]), lines[i + 1], filename) == Ok(rs[i]))
      && (forall i :: 0 <= i < |rs| ==> "filename" in rs[i] && rs[i]["filename"] == filename)
      && (forall i :: 0 <= i < |rs| ==> "role" in rs[i] && rs[i]["role"] != [])
  {
    var indices := HeaderIndices(lines[0]);
    ParseRowsCountAndOrder(indices, lines[1..], filename);
    var rs := ParseCsv(lines, filename).value;
    forall i | 0 <= i < |rs| ensures RowRecord(indices, lines[i + 1], filename) == Ok(rs[i]) {
      assert lines[1..][i] == lines[i + 1];
    }
  }

  /** Every stored field loses all wrapping quotes and is otherwise the field as tokenised. */
  lemma StoredFieldShape(field: string) returns (i: nat)
    ensures var v := StripQuotes(field);
      i + |v| <= |field| && v == field[i..i + |v|]
      && (forall k :: 0 <= k < i ==> field[k] == '"')
      && (forall k :: i + |v| <= k < |field| ==> field[k] == '"')
      && (v == [] || (v[0] != '"' && v[|v| - 1] != '"'))
  {
    i := StripShape(field, IsQuote);
  }
}
