/** The string and parameter shaping of the TPC-H loader: where a table file
    lives, which keyword arguments the CSV reader of each engine receives,
    and the fixed-width `|`-separated text that `export_df` writes. */
module TpchUtils {
  import opened Wrappers

  const RootPath: string := "../../TPC-H/tables"
  const StrColWidth: int := 25
  const NumColWidth: int := 10

  // ---------------------------------------------------------------------
  // Table paths

  /** get_table_path(name): the file `<name>.tbl` under the table root. */
  function GetTablePath(name: string): (p: string)
    ensures RootPath + "/" <= p
    ensures |p| == |RootPath| + 1 + |name| + 4 && p[|p| - 4..] == ".tbl"
    ensures p[|RootPath| + 1..|p| - 4] == name
  {
    RootPath + "/" + name + ".tbl"
  }

  /** The table name a path names, when it has the form get_table_path
      produces. */
  function TableName(p: string): (r: Option<string>)
    ensures r.Some? ==> |r.value| + |RootPath| + 5 == |p|
  {
    if |p| >= |RootPath| + 5 && p[..|RootPath| + 1] == RootPath + "/" && p[|p| - 4..] == ".tbl"
    then Some(p[|RootPath| + 1..|p| - 4])
    else None
  }

  /** Every table name is recovered from its path, so different tables
      never share a file. */
  lemma TablePathRoundTrip(name: string)
    ensures TableName(GetTablePath(name)) == Some(name)
  {
    var p := GetTablePath(name);
    assert p[..|RootPath| + 1] == RootPath + "/";
  }

  lemma TablePathInjective(a: string, b: string)
    ensures GetTablePath(a) == GetTablePath(b) <==> a == b
  {
    if GetTablePath(a) == GetTablePath(b) {
      TablePathRoundTrip(a);
      TablePathRoundTrip(b);
    }
  }

  // ---------------------------------------------------------------------
  // read_csv parameters

  /** The values that occur in the parameter dictionary. */
  datatype Value =
    | Text(text: string)
    | NoneValue
    | Columns(names: seq<string>)
    | ColumnTypes(types: map<string, string>)

  /** The reader each mode selects; any mode other than "dask" and "cudf"
      falls back to pandas. */
  datatype Reader = Dask | Cudf | Pandas

  /** Python truthiness of an optional list or dictionary argument: `None`
      and empty containers are false. */
  predicate ListGiven(l: Option<seq<string>>)
  {
    l.Some? && |l.value| > 0
  }

  predicate MapGiven(m: Option<map<string, string>>)
  {
    m.Some? && |m.value| > 0
  }

  /** The parameter part of _read_ds: `params` is built key by key, and in
      cudf mode a copy of it loses "dtype_backend" and "parse_dates" before
      it is passed on.  Returns the path read, the reader, the dictionary
      `params` as built and the keyword arguments the reader receives. */
  method ReadParams(tableName: string, colNames: Option<seq<string>>, dtypes: Option<map<string, string>>,
                    dateCols: Option<seq<string>>, mode: string)
    returns (path: string, reader: Reader, params: map<string, Value>, args: map<string, Value>)
    ensures path == GetTablePath(tableName)
    ensures reader == (if mode == "dask" then Dask else if mode == "cudf" then Cudf else Pandas)
    // the base parameters
    ensures "sep" in params && params["sep"] == Text("|")
    ensures "header" in params && params["header"] == NoneValue
    ensures "dtype_backend" in params && params["dtype_backend"] == Text("pyarrow")
    // an extra "dummy" column absorbs the trailing delimiter
    ensures "names" in params <==> ListGiven(colNames)
    ensures ListGiven(colNames) ==> params["names"] == Columns(colNames.value + ["dummy"])
    ensures "dtype" in params <==> MapGiven(dtypes)
    ensures MapGiven(dtypes) ==> params["dtype"] == ColumnTypes(dtypes.value)
    ensures "parse_dates" in params <==> ListGiven(dateCols) && mode != "cudf"
    ensures "parse_dates" in params ==> params["parse_dates"] == Columns(dateCols.value)
    ensures forall k :: k in params ==> k in {"sep", "header", "dtype_backend", "names", "dtype", "parse_dates"}
    // what the reader receives
    ensures reader != Cudf ==> args == params
    ensures reader == Cudf ==>
              && "dtype_backend" !in args && "parse_dates" !in args
              && (forall k :: k in params && k != "dtype_backend" && k != "parse_dates" ==>
                    k in args && args[k] == params[k])
              && (forall k :: k in args ==> k in params)
  {
    path := GetTablePath(tableName);
    params := map["sep" := Text("|"), "header" := NoneValue, "dtype_backend" := Text("pyarrow")];
    if ListGiven(colNames) {
      params := params["names" := Columns(colNames.value + ["dummy"])];
    }
    if MapGiven(dtypes) {
      params := params["dtype" := ColumnTypes(dtypes.value)];
    }
    if ListGiven(dateCols) && mode != "cudf" {
      params := params["parse_dates" := Columns(dateCols.value)];
    }
    if mode == "dask" {
      reader, args := Dask, params;
    } else if mode == "cudf" {
      var cudfParams := params;
      if "dtype_backend" in cudfParams {
        cudfParams := cudfParams - {"dtype_backend"};
      }
      if "parse_dates" in cudfParams {
        cudfParams := cudfParams - {"parse_dates"};
      }
      reader, args := Cudf, cudfParams;
    } else {
      reader, args := Pandas, params;
    }
  }

  // ---------------------------------------------------------------------
  // Fixed-width export

  /** `k` blanks (none when `k` is not positive). */
  function Spaces(k: int): (s: string)
    ensures |s| == if k > 0 then k else 0
    ensures forall i :: 0 <= i < |s| ==> s[i] == ' '
  {
    if k <= 0 then "" else Spaces(k - 1) + " "
  }

  /** str.ljust(w): the text followed by blanks up to width `w`; a longer
      text is kept whole. */
  function LJust(s: string, w: int): (r: string)
    ensures |r| == if |s| >= w then |s| else w
    ensures r[..|s|] == s
    ensures forall i :: |s| <= i < |r| ==> r[i] == ' '
  {
    s + Spaces(w - |s|)
  }

  /** str.rjust(w): blanks up to width `w` followed by the text; a longer
      text is kept whole. */
  function RJust(s: string, w: int): (r: string)
    ensures |r| == if |s| >= w then |s| else w
    ensures r[|r| - |s|..] == s
    ensures forall i :: 0 <= i < |r| - |s| ==> r[i] == ' '
  {
    Spaces(w - |s|) + s
  }

  /** sep.join(parts). */
  function Join(parts: seq<string>, sep: char): (r: string)
    ensures |parts| == 1 ==> r == parts[0]
  {
    if |parts| == 0 then ""
    else if |parts| == 1 then parts[0]
    else parts[0] + [sep] + Join(parts[1..], sep)
  }

  /** Cutting a text at every occurrence of `sep`, the inverse of Join. */
  function Split(s: string, sep: char): (r: seq<string>)
    ensures |r| >= 1
  {
    if |s| == 0 then [""]
    else if s[0] == sep then [""] + Split(s[1..], sep)
    else var rest := Split(s[1..], sep); [[s[0]] + rest[0]] + rest[1..]
  }

  /** A value of a data row: its text `str(val)`, and whether it is an
      `int` or a `float` (which in Python includes `bool`). */
  datatype Cell = Cell(isNumber: bool, text: string)

  /** Numbers are right-justified to width 10, everything else is
      left-justified to width 25. */
  function FormatCell(c: Cell): string
  {
    if c.isNumber then RJust(c.text, NumColWidth) else LJust(c.text, StrColWidth)
  }

  /** The line export_df writes for the column names. */
  function HeaderLine(columns: seq<string>): string
  {
    Join(seq(|columns|, i requires 0 <= i < |columns| => LJust(columns[i], StrColWidth)), '|') + "\n"
  }

  /** The formatted values of a data row. */
  function Fields(row: seq<Cell>): (f: seq<string>)
    ensures |f| == |row| && forall i :: 0 <= i < |row| ==> f[i] == FormatCell(row[i])
  {
    seq(|row|, i requires 0 <= i < |row| => FormatCell(row[i]))
  }

  /** The line export_df writes for a data row. */
  function RowLine(row: seq<Cell>): string
  {
    Join(Fields(row), '|') + "\n"
  }

  /** The row loop of export_df: for each row the formatted values are
      appended one by one and written joined by "|"; the header line comes
      first.  Returns the sequence of writes. */
  method ExportLines(columns: seq<string>, rows: seq<seq<Cell>>) returns (lines: seq<string>)
    ensures |lines| == |rows| + 1
    ensures lines[0] == HeaderLine(columns)
    ensures forall r :: 0 <= r < |rows| ==> lines[r + 1] == RowLine(rows[r])
  {
    var header := Join(seq(|columns|, i requires 0 <= i < |columns| => LJust(columns[i], StrColWidth)), '|');
    lines := [header + "\n"];
    var r := 0;
    while r < |rows|
      invariant 0 <= r <= |rows|
      invariant |lines| == r + 1 && lines[0] == HeaderLine(columns)
      invariant forall q :: 0 <= q < r ==> lines[q + 1] == RowLine(rows[q])
    {
      var line := FormatRow(rows[r]);
      lines := lines + [line];
      r := r + 1;
    }
  }

  /** The inner loop of export_df for one row. */
  method FormatRow(row: seq<Cell>) returns (line: string)
    ensures line == RowLine(row)
  {
    var formatted: seq<string> := [];
    var k := 0;
    while k < |row|
      invariant 0 <= k <= |row|
      invariant formatted == Fields(row)[..k]
    {
      var val := row[k];
      if val.isNumber {
        formatted := formatted + [RJust(val.text, NumColWidth)];
      } else {
        formatted := formatted + [LJust(val.text, StrColWidth)];
      }
      k := k + 1;
    }
    assert formatted == Fields(row);
    line := Join(formatted, '|') + "\n";
  }

  /** A text without the separator is a single part. */
  lemma {:induction false} SplitPlain(s: string, sep: char)
    requires sep !in s
    ensures Split(s, sep) == [s]
  {
    if |s| > 0 {
      SplitPlain(s[1..], sep);
      assert [s[0]] + s[1..] == s;
    }
  }

  /** A separator-free part followed by the separator splits off as one
      part. */
  lemma {:induction false} SplitFirst(a: string, sep: char, rest: string)
    requires sep !in a
    ensures Split(a + [sep] + rest, sep) == [a] + Split(rest, sep)
  {
    if |a| == 0 {
      assert a + [sep] + rest == [sep] + rest;
    } else {
      SplitFirst(a[1..], sep, rest);
      assert (a + [sep] + rest)[1..] == a[1..] + [sep] + rest;
      assert [a[0]] + a[1..] == a;
    }
  }

  /** Joining parts that do not contain the separator and splitting the
      result gives the parts back. */
  lemma {:induction false} SplitJoin(parts: seq<string>, sep: char)
    requires |parts| >= 1
    requires forall i :: 0 <= i < |parts| ==> sep !in parts[i]
    ensures Split(Join(parts, sep), sep) == parts
  {
    if |parts| == 1 {
      SplitPlain(parts[0], sep);
    } else {
      SplitJoin(parts[1..], sep);
      SplitFirst(parts[0], sep, Join(parts[1..], sep));
      assert [parts[0]] + parts[1..] == parts;
    }
  }

  /** Reading a data row back: when no value's text contains "|", the line
      minus its newline splits into one field per value; each field has the
      value's text, right-aligned in at least 10 places for a number and
      left-aligned in at least 25 places otherwise, so columns line up
      whenever every text fits its width. */
  lemma RowLineFields(row: seq<Cell>)
    requires |row| >= 1
    requires forall i :: 0 <= i < |row| ==> '|' !in row[i].text
    ensures var line := RowLine(row);
            && line[|line| - 1] == '\n'
            && var f := Split(line[..|line| - 1], '|');
            && |f| == |row|
            && forall i :: 0 <= i < |row| ==>
                 if row[i].isNumber
                 then |f[i]| == Max(|row[i].text|, NumColWidth) && f[i][|f[i]| - |row[i].text|..] == row[i].text
                 else |f[i]| == Max(|row[i].text|, StrColWidth) && f[i][..|row[i].text|] == row[i].text
  {
    var fs := Fields(row);
    forall i | 0 <= i < |fs|
      ensures '|' !in fs[i]
    {
      var c := row[i];
      if c.isNumber {
        assert fs[i] == Spaces(NumColWidth - |c.text|) + c.text;
      } else {
        assert fs[i] == c.text + Spaces(StrColWidth - |c.text|);
      }
    }
    SplitJoin(fs, '|');
    var line := RowLine(row);
    assert line[..|line| - 1] == Join(fs, '|');
  }

  /** The header splits back into one field per column name, each padded to
      at least 25 places. */
  lemma HeaderFields(columns: seq<string>)
    requires |columns| >= 1
    requires forall i :: 0 <= i < |columns| ==> '|' !in columns[i]
    ensures var line := HeaderLine(columns);
            && line[|line| - 1] == '\n'
            && var f := Split(line[..|line| - 1], '|');
            && |f| == |columns|
            && forall i :: 0 <= i < |columns| ==>
                 |f[i]| == Max(|columns[i]|, StrColWidth) && f[i][..|columns[i]|] == columns[i]
  {
    var fs := seq(|columns|, i requires 0 <= i < |columns| => LJust(columns[i], StrColWidth));
    forall i | 0 <= i < |fs|
      ensures '|' !in fs[i]
    {
      assert fs[i] == columns[i] + Spaces(StrColWidth - |columns[i]|);
    }
    SplitJoin(fs, '|');
    var line := HeaderLine(columns);
    assert line[..|line| - 1] == Join(fs, '|');
  }
}
