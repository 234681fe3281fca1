/**
  The catalog loader: one table of dishes per group key, checked against the
  required schema. A missing file or a missing required column is not fatal:
  the group then gets an empty table that still has the required columns, so
  the form renders that group with the "no selection" option only.

  The file system is a map from group key to the table parsed from that
  group's file; a key absent from the map is a file that does not exist.
 */
module Catalog {
  import opened Common

  /** The columns every group file must have, in this order. */
  const RequiredColumns: seq<string> := [
    "id", "dish_name_hebrew", "ingredients",
    "gross_yield_per_person", "gross_yield_per_gn1_1",
    "preparation_method", "notes"
  ]

  const NameColumn: string := "dish_name_hebrew"
  const NotesColumn: string := "notes"

  /** One parsed row: a cell per column, None where the file left it blank.
      The cells are not tied to the header: a row may carry a name cell
      even when the header lacks the name column, where pandas would fail.
      Only tables returned by LoadGroupCsv reach the form, and those always
      have the required columns. */
  datatype Row = Row(cells: map<string, Option<string>>)

  /** A parsed table: its header, in file order, and its rows. */
  datatype Table = Table(columns: seq<string>, rows: seq<Row>)

  /** What the loader reports to the user besides the table. */
  datatype Issue = NoIssue | FileNotFound | MissingColumns(missing: seq<string>)

  datatype Loaded = Loaded(table: Table, issue: Issue)

  /** The placeholder for a group that could not be loaded. */
  function EmptyTable(): Table {
    Table(RequiredColumns, [])
  }

  /** The cell of `row` in column `col`; a column the row lacks reads as null. */
  function Cell(row: Row, col: string): Option<string> {
    if col in row.cells then row.cells[col] else None
  }

  function NameOf(row: Row): Option<string> {
    Cell(row, NameColumn)
  }

  predicate HasName(row: Row) {
    NameOf(row).Some?
  }

  /** The entries of `required` that are not among `columns`, in the order
      of `required`. */
  function Missing(required: seq<string>, columns: seq<string>): (missing: seq<string>)
    ensures forall c :: c in missing <==> c in required && c !in columns
    ensures |missing| <= |required|
  {
    if |required| == 0 then []
    else
      var front := Missing(required[..|required| - 1], columns);
      var c := required[|required| - 1];
      assert required == required[..|required| - 1] + [c];
      if c in columns then front else front + [c]
  }

  /** Missing keeps the order of the required list: it distributes over
      concatenation. */
  lemma {:induction false} MissingConcat(a: seq<string>, b: seq<string>, columns: seq<string>)
    ensures Missing(a + b, columns) == Missing(a, columns) + Missing(b, columns)
    decreases |b|
  {
    if |b| > 0 {
      var b' := b[..|b| - 1];
      assert (a + b)[..|a + b| - 1] == a + b';
      assert b[..|b| - 1] == b';
      MissingConcat(a, b', columns);
    } else {
      assert a + b == a;
    }
  }

  /** `load_group_csv`: `fileExists` says whether the group's file is there,
      and `parsed` is what reading it yields. */
  function LoadGroupCsv(fileExists: bool, parsed: Table): (r: Loaded)
    ensures !fileExists ==> r == Loaded(EmptyTable(), FileNotFound)
    ensures fileExists && (exists c :: c in RequiredColumns && c !in parsed.columns) ==>
              r == Loaded(EmptyTable(), MissingColumns(Missing(RequiredColumns, parsed.columns)))
    ensures fileExists && (forall c :: c in RequiredColumns ==> c in parsed.columns) ==>
              r == Loaded(parsed, NoIssue)
    // whatever the file holds, the table has every required column, and it
    // is either the parsed table unchanged or the empty placeholder
    ensures forall c :: c in RequiredColumns ==> c in r.table.columns
    ensures r.table == parsed || r.table == EmptyTable()
  {
    if !fileExists then Loaded(EmptyTable(), FileNotFound)
    else
      var missing := Missing(RequiredColumns, parsed.columns);
      assert missing != [] ==> missing[0] in missing;
      if missing != [] then Loaded(EmptyTable(), MissingColumns(missing))
      else Loaded(parsed, NoIssue)
  }

  /** The table the loader gives group `g` when the files are `files`. */
  function LoadedTable(files: map<string, Table>, g: string): Table {
    LoadGroupCsv(g in files, if g in files then files[g] else EmptyTable()).table
  }

  /** What the loader reports for group `g` (the warning or error shown
      above the form). */
  function LoadedIssue(files: map<string, Table>, g: string): Issue {
    LoadGroupCsv(g in files, if g in files then files[g] else EmptyTable()).issue
  }

  /** Loading every group the form uses, once per distinct key; `issues`
      keeps what each load reported. */
  method LoadCatalog(groupKeys: seq<string>, files: map<string, Table>)
    returns (groupData: map<string, Table>, issues: map<string, Issue>)
    ensures groupData.Keys == set g | g in groupKeys
    ensures forall g :: g in groupData ==> groupData[g] == LoadedTable(files, g)
    ensures issues.Keys == groupData.Keys
    ensures forall g :: g in issues ==> issues[g] == LoadedIssue(files, g)
  {
    groupData, issues := map[], map[];
    var pending := set g | g in groupKeys;
    while pending != {}
      invariant pending <= set g | g in groupKeys
      invariant groupData.Keys == (set g | g in groupKeys) - pending
      invariant forall g :: g in groupData ==> groupData[g] == LoadedTable(files, g)
      invariant issues.Keys == groupData.Keys
      invariant forall g :: g in issues ==> issues[g] == LoadedIssue(files, g)
      decreases pending
    {
      var g :| g in pending;
      var parsed := if g in files then files[g] else EmptyTable();
      var loaded := LoadGroupCsv(g in files, parsed);
      groupData := groupData[g := loaded.table];
      issues := issues[g := loaded.issue];
      pending := pending - {g};
    }
  }

  /** `df["dish_name_hebrew"].dropna().tolist()`: the non-null dish names,
      in row order. */
  function NonNullNames(rows: seq<Row>): seq<string>
  {
    if |rows| == 0 then []
    else
      var front := NonNullNames(rows[..|rows| - 1]);
      match NameOf(rows[|rows| - 1])
      case None => front
      case Some(n) => front + [n]
  }

  /** The name list has one entry per named row, in row order, duplicates
      kept: its j-th entry is the name of the j-th row that has one. */
  lemma {:induction false} NonNullNamesAt(rows: seq<Row>)
    ensures var ps := Positions(rows, HasName);
            |NonNullNames(rows)| == |ps| &&
            forall j :: 0 <= j < |ps| ==> Some(NonNullNames(rows)[j]) == NameOf(rows[ps[j]])
  {
    if |rows| > 0 {
      var front := rows[..|rows| - 1];
      NonNullNamesAt(front);
      PositionsSnoc(front, rows[|rows| - 1], HasName);
      assert rows == front + [rows[|rows| - 1]];
    }
  }

  /** The row at index `k` is the first one named `dish`. */
  predicate IsFirstMatch(rows: seq<Row>, dish: string, k: nat) {
    k < |rows| && NameOf(rows[k]) == Some(dish) &&
    forall j :: 0 <= j < k ==> NameOf(rows[j]) != Some(dish)
  }

  /** `df.loc[df["dish_name_hebrew"] == dish]` followed by `iloc[0]`: the
      index of the first row whose name equals `dish` exactly. */
  function FirstMatch(rows: seq<Row>, dish: string): (r: Option<nat>)
    ensures r.Some? ==> IsFirstMatch(rows, dish, r.value)
    ensures r.None? ==> forall j :: 0 <= j < |rows| ==> NameOf(rows[j]) != Some(dish)
  {
    if |rows| == 0 then None
    else if NameOf(rows[0]) == Some(dish) then Some(0)
    else
      match FirstMatch(rows[1..], dish)
      case None => None
      case Some(k) => Some(k + 1)
  }

  /** The note shown beside a chosen dish: the `notes` cell of the first row
      named `dish`, or the empty string when there is no such row, the table
      has no `notes` column, or the cell is null. */
  function FindNote(t: Table, dish: string): (note: string)
    ensures (forall j :: 0 <= j < |t.rows| ==> NameOf(t.rows[j]) != Some(dish)) ==> note == ""
    ensures forall k: nat :: IsFirstMatch(t.rows, dish, k) ==>
              note == if NotesColumn in t.columns && Cell(t.rows[k], NotesColumn).Some?
                      then Cell(t.rows[k], NotesColumn).value else ""
  {
    match FirstMatch(t.rows, dish)
    case None => ""
    case Some(k) =>
      var cell := Cell(t.rows[k], NotesColumn);
      if NotesColumn in t.columns && cell.Some? then cell.value else ""
  }
}
