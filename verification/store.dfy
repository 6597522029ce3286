/** The SQLite state behind the dynamic forms, as the statements server.py
    issues change it: form tables (columns, rows and the next AUTOINCREMENT
    id), their order in `sqlite_master`, the registration-limit triggers, and
    the INSERT of one submitted application with SQLite's checks in the order
    SQLite makes them. */
module Store {
  import opened Text
  import opened Naming
  import opened Records
  import opened Schema

  /** The number of applications the registration trigger lets an event table
      hold (server.py:471). */
  const Cap := 3

  /** A stored response: its AUTOINCREMENT id and one value per column after
      `id`, NULL where the submission gave none. */
  datatype Row = Row(id: nat, values: seq<Option<string>>)

  /** A form table; `nextId` is the id AUTOINCREMENT hands out next. */
  datatype Table = Table(columns: seq<Column>, rows: seq<Row>, nextId: nat)

  /** A row fits its table: one value per non-id column, an id below `nextId`,
      and a value in every NOT NULL column. */
  predicate RowFits(t: Table, r: Row) {
    && |r.values| == |t.columns| - 1
    && 0 < r.id < t.nextId
    && forall j | 0 <= j < |r.values| :: t.columns[j + 1].notNull ==> r.values[j].Some?
  }

  predicate WellFormed(t: Table) {
    && |t.columns| >= 1 && t.columns[0] == IdColumn
    && DistinctNames(t.columns)
    && (forall j | 0 <= j < |t.columns| :: NoUpper(t.columns[j].name))
    && t.nextId >= 1
    && (forall i | 0 <= i < |t.rows| :: RowFits(t, t.rows[i]))
    && (forall i, j | 0 <= i < j < |t.rows| :: t.rows[i].id < t.rows[j].id)
  }

  /** The table `CREATE TABLE` makes for `fields`: their columns, no rows, ids
      starting at 1 (a dropped table's AUTOINCREMENT counter goes with it). */
  function NewTable(fields: seq<FieldSpec>): Table {
    Table(Columns(fields), [], 1)
  }

  // ---------------------------------------------------------------------------
  // sqlite_master

  predicate NoDuplicates(names: seq<string>) {
    forall i, j | 0 <= i < j < |names| :: names[i] != names[j]
  }

  /** The catalog with the entry `x` removed. */
  function Without(names: seq<string>, x: string): seq<string> {
    if names == [] then []
    else if names[0] == x then Without(names[1..], x)
    else [names[0]] + Without(names[1..], x)
  }

  /** The invariant of the form tables: every table is well formed and named
      like a slug; an event table never holds more than `Cap` applications;
      the catalog lists each table once and nothing else; triggers sit only
      on existing event tables. */
  ghost predicate TablesValid(tables: map<string, Table>, catalog: seq<string>, triggers: set<string>) {
    && (forall t | t in tables :: WellFormed(tables[t]) && ' ' !in t && NoUpper(t))
    && (forall t | t in tables && EndsWith(t, Suffix(Applications)) :: |tables[t].rows| <= Cap)
    && NoDuplicates(catalog)
    && (forall t :: t in catalog <==> t in tables)
    && (forall t | t in triggers :: t in tables && EndsWith(t, Suffix(Applications)))
  }

  // ---------------------------------------------------------------------------
  // INSERT

  /** `key` names a column of the form other than `id`. */
  predicate IsDataColumn(cols: seq<Column>, key: string) {
    exists j :: 1 <= j < |cols| && cols[j].name == key
  }

  /** The first key that names no column: the one SQLite reports when it
      prepares the statement. */
  function FirstUnknownKey(cols: seq<Column>, keys: seq<string>): (r: Option<string>)
    ensures r.Some? ==> r.value in keys
  {
    if keys == [] then None
    else if !IsDataColumn(cols, keys[0]) then Some(keys[0])
    else FirstUnknownKey(cols, keys[1..])
  }

  /** The first NOT NULL column, from position `j` on, that the submission
      leaves NULL. */
  function FirstMissing(cols: seq<Column>, data: seq<Entry>, j: nat): (r: Option<string>)
    ensures r.Some? ==> exists k :: j <= k < |cols| && cols[k].name == r.value
    decreases |cols| - j
  {
    if j >= |cols| then None
    else if cols[j].notNull && Lookup(data, cols[j].name).None? then Some(cols[j].name)
    else FirstMissing(cols, data, j + 1)
  }

  /** The row an INSERT of `data` adds: the next id, and for every column
      the submitted value of the key of that name. */
  function NewRow(t: Table, data: seq<Entry>): (row: Row)
    requires |t.columns| >= 1
    ensures row.id == t.nextId && |row.values| == |t.columns| - 1
  {
    Row(t.nextId, seq(|t.columns| - 1, j requires 0 <= j < |t.columns| - 1 => Lookup(data, t.columns[j + 1].name)))
  }

  /** The ways an INSERT fails, in the order SQLite detects them. */
  datatype InsertError =
    | EmptyInsert                  // `INSERT INTO t () VALUES ()` does not parse
    | NoSuchColumn(key: string)    // a key names no column
    | LimitReached                 // the registration trigger aborts
    | NotNullFailed(column: string)

  datatype InsertResult = Inserted(table: Table) | Rejected(error: InsertError)

  /** `INSERT INTO t (keys) VALUES (values)` for the submitted object `data`;
      `capped` says whether the registration trigger sits on the table. The
      trigger runs before SQLite checks NOT NULL. */
  function Insert(t: Table, data: seq<Entry>, capped: bool): (r: InsertResult)
    requires |t.columns| >= 1
    ensures data == [] ==> r == Rejected(EmptyInsert)
    ensures capped && |t.rows| >= Cap ==> r.Rejected?
    ensures r.Inserted? ==>
              && r.table.columns == t.columns && r.table.nextId == t.nextId + 1
              && |r.table.rows| == |t.rows| + 1 && r.table.rows[..|t.rows|] == t.rows
  {
    if data == [] then Rejected(EmptyInsert)
    else match FirstUnknownKey(t.columns, Keys(data))
      case Some(k) => Rejected(NoSuchColumn(k))
      case None =>
        if capped && |t.rows| >= Cap then Rejected(LimitReached)
        else match FirstMissing(t.columns, data, 1)
          case Some(c) => Rejected(NotNullFailed(c))
          case None => Inserted(Table(t.columns, t.rows + [NewRow(t, data)], t.nextId + 1))
  }

  /** `str(e)` of the exception SQLite raises for a rejected INSERT into
      `table`. */
  function InsertErrorMessage(table: string, e: InsertError): (message: string)
    ensures message == LimitMessage <==> e.LimitReached?
  {
    assert LimitMessage[0] == 'R';
    match e
    case EmptyInsert => "near \")\": syntax error"
    case NoSuchColumn(k) => "table " + table + " has no column named " + k
    case LimitReached => LimitMessage
    case NotNullFailed(c) => "NOT NULL constraint failed: " + table + "." + c
  }

  /** What server.py:516 looks for in an IntegrityError. */
  const LimitPhrase := "Registration limit reached"

  /** The text of the trigger's RAISE(ABORT, ...) (server.py:472). */
  const LimitMessage := LimitPhrase + ". Maximum 3 applications allowed."

  /** The errors Python's sqlite3 raises as `IntegrityError`. */
  predicate IsIntegrityError(e: InsertError) {
    e.LimitReached? || e.NotNullFailed?
  }

  // ---------------------------------------------------------------------------
  // Reading a table

  /** A JSON value of a response record. */
  datatype Value = Null | Number(n: nat) | Text(s: string)

  /** One `column: value` pair of `dict(zip(column_names, row))`. */
  datatype Cell = Cell(column: string, value: Value)

  function ValueOf(v: Option<string>): Value {
    match v
    case None => Null
    case Some(s) => Text(s)
  }

  /** A response as a record of all columns, `id` first. */
  function Record(cols: seq<Column>, r: Row): (cells: seq<Cell>)
    requires |cols| >= 1 && |r.values| == |cols| - 1
    ensures |cells| == |cols| && forall j | 0 <= j < |cols| :: cells[j].column == cols[j].name
  {
    [Cell(cols[0].name, Number(r.id))]
      + seq(|r.values|, j requires 0 <= j < |r.values| => Cell(cols[j + 1].name, ValueOf(r.values[j])))
  }

  /** Every response of a well-formed table as a record. */
  function ResponseRecords(t: Table): seq<seq<Cell>>
    requires WellFormed(t)
  {
    seq(|t.rows|, i requires 0 <= i < |t.rows| => Record(t.columns, t.rows[i]))
  }

  function ColumnNames(cols: seq<Column>): seq<string> {
    seq(|cols|, j requires 0 <= j < |cols| => cols[j].name)
  }

  /** `csv.writer` renders NULL as the empty field. */
  function Render(v: Option<string>): string {
    match v
    case None => ""
    case Some(s) => s
  }

  /** The fields `writerow(response)` writes for one response. */
  function CsvRecord(r: Row): seq<string> {
    [DecimalString(r.id)] + seq(|r.values|, j requires 0 <= j < |r.values| => Render(r.values[j]))
  }

  /** The rows of a download: the column names, then every response in table
      order. */
  function CsvTable(t: Table): (lines: seq<seq<string>>)
    ensures |lines| == |t.rows| + 1 && lines[0] == ColumnNames(t.columns)
  {
    [ColumnNames(t.columns)] + seq(|t.rows|, i requires 0 <= i < |t.rows| => CsvRecord(t.rows[i]))
  }

  /** The writer loop of server.py:791-796. */
  method WriteCsv(t: Table) returns (out: seq<seq<string>>)
    ensures out == CsvTable(t)
  {
    out := [ColumnNames(t.columns)];
    for i := 0 to |t.rows|
      invariant out == [ColumnNames(t.columns)] + seq(i, k requires 0 <= k < i => CsvRecord(t.rows[k]))
    {
      out := out + [CsvRecord(t.rows[i])];
    }
  }

  // ---------------------------------------------------------------------------
  // Lemmas: the catalog

  lemma {:induction false} WithoutMembers(names: seq<string>, x: string)
    ensures forall y :: y in Without(names, x) <==> y in names && y != x
  {
    if names != [] {
      WithoutMembers(names[1..], x);
    }
  }

  lemma {:induction false} WithoutNoDuplicates(names: seq<string>, x: string)
    requires NoDuplicates(names)
    ensures NoDuplicates(Without(names, x))
  {
    if names != [] {
      WithoutNoDuplicates(names[1..], x);
      WithoutMembers(names[1..], x);
      assert names[0] !in names[1..] by {
        forall k | 0 <= k < |names[1..]| ensures names[1..][k] != names[0] {
          assert names[1..][k] == names[k + 1];
        }
      }
    }
  }

  /** Removing an entry that is not there changes nothing; in particular
      removing twice is removing once. */
  lemma {:induction false} WithoutAbsent(names: seq<string>, x: string)
    requires x !in names
    ensures Without(names, x) == names
  {
    if names != [] {
      WithoutAbsent(names[1..], x);
    }
  }

  lemma WithoutTwice(names: seq<string>, x: string)
    ensures Without(Without(names, x), x) == Without(names, x)
  {
    WithoutMembers(names, x);
    WithoutAbsent(Without(names, x), x);
  }

  /** `DROP TABLE IF EXISTS t` keeps the invariant. */
  lemma DropKeepsValid(tables: map<string, Table>, catalog: seq<string>, triggers: set<string>, t: string)
    requires TablesValid(tables, catalog, triggers)
    ensures TablesValid(tables - {t}, Without(catalog, t), triggers - {t})
  {
    WithoutMembers(catalog, t);
    WithoutNoDuplicates(catalog, t);
  }

  /** `CREATE TABLE t` for fields with distinct column names keeps the
      invariant. */
  lemma CreateKeepsValid(tables: map<string, Table>, catalog: seq<string>, triggers: set<string>,
                         t: string, fields: seq<FieldSpec>)
    requires TablesValid(tables, catalog, triggers)
    requires t !in tables && ' ' !in t && NoUpper(t)
    requires FirstRepeated(Columns(fields), 0).None?
    ensures TablesValid(tables[t := NewTable(fields)], catalog + [t], triggers)
  {
    FirstRepeatedFindsDuplicates(Columns(fields), 0);
    ColumnNamesAreSlugs(fields);
    assert WellFormed(NewTable(fields));
    assert t !in catalog;
  }

  /** Placing the trigger on an existing event table keeps the invariant. */
  lemma TriggerKeepsValid(tables: map<string, Table>, catalog: seq<string>, triggers: set<string>, t: string)
    requires TablesValid(tables, catalog, triggers)
    requires t in tables && EndsWith(t, Suffix(Applications))
    ensures TablesValid(tables, catalog, triggers + {t})
  {
  }

  // ---------------------------------------------------------------------------
  // Lemmas: INSERT

  lemma {:induction false} FirstUnknownKeyNone(cols: seq<Column>, keys: seq<string>)
    ensures FirstUnknownKey(cols, keys).None? <==> forall k | k in keys :: IsDataColumn(cols, k)
  {
    if keys != [] {
      FirstUnknownKeyNone(cols, keys[1..]);
      assert forall k :: k in keys <==> k == keys[0] || k in keys[1..];
    }
  }

  lemma {:induction false} FirstUnknownKeyFound(cols: seq<Column>, keys: seq<string>)
    ensures FirstUnknownKey(cols, keys).Some? ==>
              FirstUnknownKey(cols, keys).value in keys && !IsDataColumn(cols, FirstUnknownKey(cols, keys).value)
  {
    if keys != [] {
      FirstUnknownKeyFound(cols, keys[1..]);
    }
  }

  lemma {:induction false} FirstMissingNone(cols: seq<Column>, data: seq<Entry>, j: nat)
    ensures FirstMissing(cols, data, j).None? <==>
              forall k | j <= k < |cols| :: cols[k].notNull ==> Lookup(data, cols[k].name).Some?
    decreases |cols| - j
  {
    if j < |cols| {
      FirstMissingNone(cols, data, j + 1);
    }
  }

  /** An INSERT succeeds exactly when the submission is non-empty, every key
      names a column, the trigger (if any) finds fewer than `Cap` rows, and
      every NOT NULL column gets a value. */
  lemma InsertSucceedsIff(t: Table, data: seq<Entry>, capped: bool)
    requires |t.columns| >= 1
    ensures Insert(t, data, capped).Inserted? <==>
              && data != []
              && (forall k | k in Keys(data) :: IsDataColumn(t.columns, k))
              && !(capped && |t.rows| >= Cap)
              && (forall j | 1 <= j < |t.columns| :: t.columns[j].notNull ==> Lookup(data, t.columns[j].name).Some?)
  {
    FirstUnknownKeyNone(t.columns, Keys(data));
    FirstMissingNone(t.columns, data, 1);
  }

  /** A rejected INSERT names its cause: an empty submission, a key that is
      no column, a full capped table, or a NOT NULL column the submission
      leaves out. */
  lemma InsertRejection(t: Table, data: seq<Entry>, capped: bool)
    requires |t.columns| >= 1
    requires Insert(t, data, capped).Rejected?
    ensures var e := Insert(t, data, capped).error;
      && (e.EmptyInsert? ==> data == [])
      && (e.NoSuchColumn? ==> data != [] && e.key in Keys(data) && !IsDataColumn(t.columns, e.key))
      && (e.LimitReached? ==> capped && |t.rows| >= Cap)
      && (e.NotNullFailed? ==>
            exists j :: 1 <= j < |t.columns| && t.columns[j].name == e.column && t.columns[j].notNull
                        && Lookup(data, e.column).None?)
  {
    FirstUnknownKeyFound(t.columns, Keys(data));
    FirstMissingFound(t.columns, data, 1);
  }

  lemma {:induction false} FirstMissingFound(cols: seq<Column>, data: seq<Entry>, j: nat)
    ensures FirstMissing(cols, data, j).Some? ==>
              exists k :: j <= k < |cols| && cols[k].name == FirstMissing(cols, data, j).value
                          && cols[k].notNull && Lookup(data, cols[k].name).None?
    decreases |cols| - j
  {
    if j < |cols| {
      FirstMissingFound(cols, data, j + 1);
    }
  }

  /** A successful INSERT appends one row with the next id, puts every
      submitted value in the column of its key, leaves NULL exactly in the
      columns the submission does not name, and keeps the columns and the
      earlier rows. */
  lemma InsertedRow(t: Table, data: seq<Entry>, capped: bool)
    requires WellFormed(t)
    requires Insert(t, data, capped).Inserted?
    ensures var u := Insert(t, data, capped).table;
      && u.columns == t.columns
      && |u.rows| == |t.rows| + 1 && u.rows[..|t.rows|] == t.rows
      && u.rows[|t.rows|].id == t.nextId && u.nextId == t.nextId + 1
      && forall j | 0 <= j < |t.columns| - 1 ::
           && u.rows[|t.rows|].values[j] == Lookup(data, t.columns[j + 1].name)
           && (u.rows[|t.rows|].values[j].Some? <==> t.columns[j + 1].name in Keys(data))
  {
    forall j | 1 <= j < |t.columns|
      ensures Lookup(data, t.columns[j].name).Some? <==> t.columns[j].name in Keys(data)
    {
      LookupFindsKeys(data, t.columns[j].name);
    }
  }

  /** An INSERT keeps a table well formed. */
  lemma InsertKeepsWellFormed(t: Table, data: seq<Entry>, capped: bool)
    requires WellFormed(t)
    requires Insert(t, data, capped).Inserted?
    ensures WellFormed(Insert(t, data, capped).table)
  {
    InsertSucceedsIff(t, data, capped);
    var u := Insert(t, data, capped).table;
    var r := NewRow(t, data);
    assert RowFits(u, r);
    forall i | 0 <= i < |u.rows|
      ensures RowFits(u, u.rows[i])
    {
      if i < |t.rows| {
        assert RowFits(t, t.rows[i]);
      }
    }
  }

  /** A capped INSERT only succeeds on a table holding fewer than `Cap` rows,
      so the table never holds more than `Cap` afterwards. */
  lemma CappedInsertBound(t: Table, data: seq<Entry>)
    requires |t.columns| >= 1
    requires Insert(t, data, true).Inserted?
    ensures |t.rows| < Cap && |Insert(t, data, true).table.rows| <= Cap
  {
  }

  /** Inserting into a table of the invariant keeps the invariant, provided an
      event table carries the trigger. */
  lemma InsertKeepsValid(tables: map<string, Table>, catalog: seq<string>, triggers: set<string>,
                         t: string, data: seq<Entry>)
    requires TablesValid(tables, catalog, triggers)
    requires t in tables && Insert(tables[t], data, t in triggers).Inserted?
    requires EndsWith(t, Suffix(Applications)) ==> t in triggers
    ensures TablesValid(tables[t := Insert(tables[t], data, t in triggers).table], catalog, triggers)
  {
    InsertKeepsWellFormed(tables[t], data, t in triggers);
  }

  /** The server answers 400 exactly for the trigger's abort: no other
      IntegrityError message of a slug-named table mentions the registration
      limit, since all of them lack the capital `R`. */
  lemma LimitMessageIff(table: string, e: InsertError)
    requires NoUpper(table)
    requires e.NotNullFailed? ==> NoUpper(e.column)
    ensures IsIntegrityError(e) && Contains(InsertErrorMessage(table, e), LimitPhrase)
            <==> e.LimitReached?
  {
    if e.LimitReached? {
      LimitMessageMentionsLimit();
    } else if e.NotNullFailed? {
      NotNullMessageLacksR(table, e.column);
      LacksFirstCharacter(InsertErrorMessage(table, e), LimitPhrase);
    }
  }

  lemma LimitMessageMentionsLimit()
    ensures Contains(LimitMessage, LimitPhrase)
  {
    assert OccursAt(LimitMessage, LimitPhrase, 0);
  }

  lemma NotNullMessageLacksR(table: string, column: string)
    requires NoUpper(table) && NoUpper(column)
    ensures 'R' !in InsertErrorMessage(table, NotNullFailed(column))
  {
    var head := "NOT NULL constraint failed: ";
    assert 'R' !in head;
    assert 'R' !in table && 'R' !in column;
    assert InsertErrorMessage(table, NotNullFailed(column)) == head + table + "." + column;
  }

  lemma LacksFirstCharacter(s: string, sub: string)
    requires sub != [] && sub[0] !in s
    ensures !Contains(s, sub)
  {
    forall i | 0 <= i <= |s| - |sub|
      ensures !OccursAt(s, sub, i)
    {
      assert s[i] in s;
      assert s[i..i + |sub|][0] == s[i];
    }
  }

  // ---------------------------------------------------------------------------
  // Lemmas: reading a table

  /** A response record names every column in column order, `id` first
      with the row's id, and the stored value under every other column. */
  lemma RecordShape(cols: seq<Column>, r: Row)
    requires |cols| >= 1 && cols[0] == IdColumn && |r.values| == |cols| - 1
    ensures |Record(cols, r)| == |cols|
    ensures Record(cols, r)[0] == Cell("id", Number(r.id))
    ensures forall j | 0 <= j < |r.values| :: Record(cols, r)[j + 1] == Cell(cols[j + 1].name, ValueOf(r.values[j]))
  {
  }

  /** The responses come back one record per stored row, in table order. */
  lemma RecordsShape(t: Table)
    requires WellFormed(t)
    ensures |ResponseRecords(t)| == |t.rows|
    ensures forall i | 0 <= i < |t.rows| :: ResponseRecords(t)[i] == Record(t.columns, t.rows[i])
  {
  }

  /** A download holds the column names (`id` first), then one line per stored
      response in table order, each with its id and one field per column;
      an empty table gives the header alone. */
  lemma CsvTableShape(t: Table)
    requires WellFormed(t)
    ensures |CsvTable(t)| == |t.rows| + 1
    ensures CsvTable(t)[0] == ColumnNames(t.columns) && CsvTable(t)[0][0] == "id"
    ensures t.rows == [] ==> CsvTable(t) == [ColumnNames(t.columns)]
    ensures forall i | 0 <= i < |t.rows| ::
              && |CsvTable(t)[i + 1]| == |t.columns|
              && CsvTable(t)[i + 1][0] == DecimalString(t.rows[i].id)
              && forall j | 0 <= j < |t.columns| - 1 :: CsvTable(t)[i + 1][j + 1] == Render(t.rows[i].values[j])
  {
    forall i | 0 <= i < |t.rows|
      ensures |CsvRecord(t.rows[i])| == |t.columns|
    {
      assert RowFits(t, t.rows[i]);
    }
  }
}
