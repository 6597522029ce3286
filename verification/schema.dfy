/** The table schema server.py derives from a field list, the CREATE TABLE
    statement it writes for it, and the field lists it reads back from a
    table's columns (server.py:155-165, 256-266, 560-567, 660-674). */
module Schema {
  import opened Text
  import opened Naming
  import opened Records

  /** A field as the admin builder sends it: `{label, type, required}`. */
  datatype FieldSpec = FieldSpec(labelText: string, fieldType: string, required: bool)

  /** A column as `PRAGMA table_info` reports it: name, declared type and the
      NOT NULL flag (which SQLite reports apart from the declared type). */
  datatype Column = Column(name: string, declType: string, notNull: bool)

  /** The first column of every form table. */
  const IdColumn := Column("id", "INTEGER", false)

  /** The declared type of a field's column. server.py's `email` branch
      gives the same type as every other non-number type. */
  function SqlType(fieldType: string): (declared: string)
    ensures declared == "REAL" <==> fieldType == "number"
    ensures declared == "REAL" || declared == "TEXT"
  {
    if fieldType == "number" then "REAL"
    else if fieldType == "email" then "TEXT"
    else "TEXT"
  }

  /** The column created for one field: named by the slugged label, REAL
      exactly for a number field, NOT NULL exactly for a required one. */
  function ColumnOf(f: FieldSpec): (c: Column)
    ensures c.name == Slug(f.labelText) && c.notNull == f.required
    ensures c.declType == "REAL" <==> f.fieldType == "number"
  {
    Column(Slug(f.labelText), SqlType(f.fieldType), f.required)
  }

  /** The columns of the table created for `fields`: `id` first, then one
      column per field in field order, named by the slugged label, `REAL`
      exactly for `number` fields and `TEXT` for all others, NOT NULL exactly
      for required fields. */
  function Columns(fields: seq<FieldSpec>): (cols: seq<Column>)
    ensures |cols| == |fields| + 1 && cols[0] == IdColumn
    ensures forall i :: 0 <= i < |fields| ==>
              && cols[i + 1].name == Slug(fields[i].labelText)
              && (cols[i + 1].declType == "REAL" <==> fields[i].fieldType == "number")
              && (cols[i + 1].declType == "REAL" || cols[i + 1].declType == "TEXT")
              && cols[i + 1].notNull == fields[i].required
  {
    [IdColumn] + seq(|fields|, i requires 0 <= i < |fields| => ColumnOf(fields[i]))
  }

  predicate DistinctNames(cols: seq<Column>) {
    forall i, j :: 0 <= i < j < |cols| ==> cols[i].name != cols[j].name
  }

  /** The first column, from position k on, whose name an earlier column
      already has: the column SQLite reports as a duplicate. */
  function FirstRepeated(cols: seq<Column>, k: nat): Option<string>
    decreases |cols| - k
  {
    if k >= |cols| then None
    else if exists i :: 0 <= i < k && cols[i].name == cols[k].name then Some(cols[k].name)
    else FirstRepeated(cols, k + 1)
  }

  // ---------------------------------------------------------------------------
  // The CREATE TABLE statement

  /** `f", {name} {type} {'NOT NULL' if required else ''}"` */
  function ColumnDefinition(c: Column): string {
    ", " + c.name + " " + c.declType + " " + (if c.notNull then "NOT NULL" else "")
  }

  /** The column definitions of `fields`, in field order. */
  function ColumnDefinitions(fields: seq<FieldSpec>): string {
    if fields == [] then ""
    else ColumnDefinitions(fields[..|fields| - 1]) + ColumnDefinition(ColumnOf(fields[|fields| - 1]))
  }

  /** The definitions of a list of columns, concatenated in order. */
  function DefinitionsOf(cols: seq<Column>): string {
    if cols == [] then ""
    else DefinitionsOf(cols[..|cols| - 1]) + ColumnDefinition(cols[|cols| - 1])
  }

  function CreateTableHead(table: string): string {
    "CREATE TABLE " + table + " (id INTEGER PRIMARY KEY AUTOINCREMENT"
  }

  function CreateTableQuery(table: string, fields: seq<FieldSpec>): string {
    CreateTableHead(table) + ColumnDefinitions(fields) + ")"
  }

  /** The statement-building loop of server.py:155-165: the head, one
      definition appended per field, then the closing parenthesis. */
  method BuildCreateTableQuery(table: string, fields: seq<FieldSpec>) returns (query: string)
    ensures query == CreateTableQuery(table, fields)
  {
    query := CreateTableHead(table);
    ghost var definitions := "";
    assert fields[..0] == [];
    for i := 0 to |fields|
      invariant definitions == ColumnDefinitions(fields[..i])
      invariant query == CreateTableHead(table) + definitions
    {
      var definition := BuildColumnDefinition(fields[i]);
      DefinitionsStep(fields, i);
      AppendAssociates(CreateTableHead(table), definitions, definition);
      query := query + definition;
      definitions := definitions + definition;
    }
    query := query + ")";
    assert fields[..|fields|] == fields;
  }

  /** The loop body: one field's column definition. */
  method BuildColumnDefinition(field: FieldSpec) returns (definition: string)
    ensures definition == ColumnDefinition(ColumnOf(field))
  {
    var fieldType := "TEXT";
    if field.fieldType == "number" {
      fieldType := "REAL";
    } else if field.fieldType == "email" {
      fieldType := "TEXT";
    }
    definition := ", " + Slug(field.labelText) + " " + fieldType + " " + (if field.required then "NOT NULL" else "");
  }

  lemma AppendAssociates(a: string, b: string, c: string)
    ensures (a + b) + c == a + (b + c)
  {
  }

  /** One more field adds its definition at the end. */
  lemma DefinitionsStep(fields: seq<FieldSpec>, i: nat)
    requires i < |fields|
    ensures ColumnDefinitions(fields[..i + 1]) == ColumnDefinitions(fields[..i]) + ColumnDefinition(ColumnOf(fields[i]))
  {
    assert fields[..i + 1][..i] == fields[..i];
  }

  /** The statement defines exactly the columns the table is created with:
      its definitions are those of `Columns(fields)` after `id`, in order. */
  lemma {:induction false} DefinitionsOfColumns(fields: seq<FieldSpec>)
    ensures ColumnDefinitions(fields) == DefinitionsOf(Columns(fields)[1..])
  {
    if fields != [] {
      var init := fields[..|fields| - 1];
      DefinitionsOfColumns(init);
      var cols := Columns(fields)[1..];
      assert cols[..|cols| - 1] == Columns(init)[1..];
      assert cols[|cols| - 1] == ColumnOf(fields[|fields| - 1]);
    }
  }

  // ---------------------------------------------------------------------------
  // Reading a form back from its columns

  /** A field of a club's recruitment form, as get_recruitment_form_details
      reports it. */
  datatype RecruitmentField = RecruitmentField(labelText: string, name: string, fieldType: string, required: bool)

  /** A field of an event's application form, as get_event_details_student
      reports it (it has no `required` entry). */
  datatype ApplicationField = ApplicationField(labelText: string, name: string, fieldType: string)

  /** server.py:662-674: `number` when the declared type contains `real`,
      otherwise `email` when the name contains `email`, otherwise `text`;
      required when the declared type contains `notnull`. */
  function RecruitmentFieldOf(c: Column): (field: RecruitmentField)
    ensures field.name == c.name
    ensures ' ' !in c.name && NoUpper(c.name) ==> Slug(field.labelText) == c.name
    ensures field.fieldType == "number" <==> Contains(Lower(c.declType), "real")
    ensures field.fieldType == "email" <==> !Contains(Lower(c.declType), "real") && Contains(Lower(c.name), "email")
    ensures field.required <==> Contains(Lower(c.declType), "notnull")
  {
    var declared := Lower(c.declType);
    var fieldType :=
      if Contains(declared, "real") then "number"
      else if Contains(Lower(c.name), "email") then "email"
      else "text";
    var field := RecruitmentField(ColumnLabel(c.name), c.name, fieldType, Contains(declared, "notnull"));
    if ' ' !in c.name && NoUpper(c.name) then ColumnLabelRoundTrip(c.name); field else field
  }

  /** One field per column after the first (`columns[1:]`). */
  function RecruitmentFields(cols: seq<Column>): seq<RecruitmentField> {
    if cols == [] then []
    else seq(|cols| - 1, i requires 0 <= i < |cols| - 1 => RecruitmentFieldOf(cols[i + 1]))
  }

  function ApplicationFieldOf(c: Column): ApplicationField {
    ApplicationField(ColumnLabel(c.name), c.name, "text")
  }

  function ApplicationFields(cols: seq<Column>): seq<ApplicationField> {
    if cols == [] then []
    else seq(|cols| - 1, i requires 0 <= i < |cols| - 1 => ApplicationFieldOf(cols[i + 1]))
  }

  // ---------------------------------------------------------------------------
  // Lemmas

  /** SQLite rejects a CREATE TABLE exactly when two columns share a name. */
  lemma {:induction false} FirstRepeatedFindsDuplicates(cols: seq<Column>, k: nat)
    requires k <= |cols|
    ensures FirstRepeated(cols, k).None? <==>
              forall i, j :: 0 <= i < j < |cols| && k <= j ==> cols[i].name != cols[j].name
    decreases |cols| - k
  {
    if k < |cols| {
      FirstRepeatedFindsDuplicates(cols, k + 1);
    }
  }

  /** Every column name of a created table is free of spaces and upper-case
      letters. */
  lemma ColumnNamesAreSlugs(fields: seq<FieldSpec>)
    ensures forall j :: 0 <= j < |Columns(fields)| ==>
              ' ' !in Columns(fields)[j].name && NoUpper(Columns(fields)[j].name)
  {
    forall j | 1 <= j < |Columns(fields)|
      ensures ' ' !in Columns(fields)[j].name && NoUpper(Columns(fields)[j].name)
    {
      SlugShape(fields[j - 1].labelText);
    }
  }

  lemma DeclaredTypes()
    ensures Contains(Lower("REAL"), "real")
    ensures !Contains(Lower("TEXT"), "real")
    ensures !Contains(Lower("REAL"), "notnull") && !Contains(Lower("TEXT"), "notnull")
  {
    assert Lower("REAL") == "real";
    assert OccursAt("real", "real", 0);
    var text := Lower("TEXT");
    forall i | 0 <= i <= |text| - 4
      ensures !OccursAt(text, "real", i)
    {
      assert text[0] == 't';
      assert i == 0 && text[i..i + 4][0] == text[0];
    }
  }

  /** What the server reads back from the column of one created field. */
  lemma RecruitmentFieldOfColumn(f: FieldSpec)
    ensures var back := RecruitmentFieldOf(ColumnOf(f));
      && back.name == Slug(f.labelText)
      && Slug(back.labelText) == back.name
      && (back.fieldType == "number" <==> f.fieldType == "number")
      && (back.fieldType == "email" <==> f.fieldType != "number" && Contains(Slug(f.labelText), "email"))
      && (back.fieldType == "number" || back.fieldType == "email" || back.fieldType == "text")
      && !back.required
  {
    DeclaredTypes();
    SlugShape(f.labelText);
    LowerOfNoUpper(Slug(f.labelText));
    ReadBackLabelKeepsColumn(f.labelText);
  }

  /** Reading back a recruitment form created from `fields` gives one field per
      created field, in order: named by the slugged label, labelled so that
      slugging the label gives the name again, typed `number` exactly for
      number fields, `email` exactly for the other fields whose slug contains
      `email`, and never required (SQLite keeps NOT NULL out of the declared
      type that is examined). */
  lemma RecruitmentReadBack(fields: seq<FieldSpec>)
    ensures var back := RecruitmentFields(Columns(fields));
      && |back| == |fields|
      && forall i :: 0 <= i < |fields| ==>
           && back[i].name == Slug(fields[i].labelText)
           && Slug(back[i].labelText) == back[i].name
           && (back[i].fieldType == "number" <==> fields[i].fieldType == "number")
           && (back[i].fieldType == "email" <==>
                 fields[i].fieldType != "number" && Contains(Slug(fields[i].labelText), "email"))
           && (back[i].fieldType == "number" || back[i].fieldType == "email" || back[i].fieldType == "text")
           && !back[i].required
  {
    var cols := Columns(fields);
    forall i | 0 <= i < |fields|
      ensures RecruitmentFields(cols)[i] == RecruitmentFieldOf(ColumnOf(fields[i]))
    {
    }
    forall i | 0 <= i < |fields|
      ensures var back := RecruitmentFieldOf(ColumnOf(fields[i]));
        && back.name == Slug(fields[i].labelText)
        && Slug(back.labelText) == back.name
        && (back.fieldType == "number" <==> fields[i].fieldType == "number")
        && (back.fieldType == "email" <==>
              fields[i].fieldType != "number" && Contains(Slug(fields[i].labelText), "email"))
        && (back.fieldType == "number" || back.fieldType == "email" || back.fieldType == "text")
        && !back.required
    {
      RecruitmentFieldOfColumn(fields[i]);
    }
  }

  /** Reading back an event form created from `fields` gives one `text` field
      per created field, in order, named by the slugged label. */
  lemma ApplicationReadBack(fields: seq<FieldSpec>)
    ensures var back := ApplicationFields(Columns(fields));
      && |back| == |fields|
      && forall i :: 0 <= i < |fields| ==>
           back[i].name == Slug(fields[i].labelText) && back[i].fieldType == "text"
           && Slug(back[i].labelText) == back[i].name
  {
    forall i | 0 <= i < |fields|
      ensures Slug(ColumnLabel(Slug(fields[i].labelText))) == Slug(fields[i].labelText)
    {
      ReadBackLabelKeepsColumn(fields[i].labelText);
    }
  }
}
