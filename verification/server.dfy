/** The form routes of server.py as methods of one object holding the database
    state they read and write: the clubs, the events (id and name), the form
    tables with their catalog order and triggers. Each method follows its
    route: the 404 for an unknown club or event, the statements in the order
    the route issues them, and the reply built from the outcome. */
module Server {
  import opened Text
  import opened Naming
  import opened Records
  import opened Schema
  import opened Store

  /** A row of the `clubs` table, reduced to what the form routes use. */
  datatype Club = Club(id: int, name: string, logo: string)

  /** What `get_event_details_student` reports: the event and the fields of its
      application form. */
  datatype EventDetails = EventDetails(eventId: nat, eventName: string, applicationFields: seq<ApplicationField>)

  /** A CSV download: its file name and its rows of fields. */
  datatype CsvFile = CsvFile(fileName: string, rows: seq<seq<string>>)

  const ClubNotFound := "Club not found"
  const EventNotFound := "Event not found"
  const NoRecruitmentForm := "No recruitment form found"
  const RecruitmentCreated := "Recruitment form created successfully"
  const ApplicationSubmitted := "Application submitted successfully"
  const RegistrationsClosed := "Event registrations closed successfully"
  const RecruitmentsClosed := "Club recruitments closed successfully"
  /** The 400 reply to a full event (server.py:519); the enforced cap is
      `Cap`, not the 100 this text names. */
  const LimitReply := LimitPhrase + ". Maximum 100 applications allowed."

  /** SQLite's message for a statement on a missing table. */
  function NoSuchTable(t: string): string { "no such table: " + t }

  /** SQLite's message for a CREATE TRIGGER on a missing table. */
  function NoSuchMainTable(t: string): string { "no such table: main." + t }

  function DuplicateColumn(name: string): string { "duplicate column name: " + name }

  function ReservedName(t: string): string { "object name reserved for internal use: " + t }

  /** The name of an event whose form table SQLite can create: create_event
      rolls back every other event, so only such events are stored. */
  predicate EventTableCreatable(eventName: string) {
    var t := TableName(eventName, Applications);
    IsBareIdentifier(t) && !IsReservedName(t)
  }

  /** Stands for the parse error SQLite raises on a statement whose pasted
      table name is not a bare identifier. */
  const UnparsableName := "syntax error"

  /** Why `CREATE TABLE t (...)` for `fields` fails, if it does: a name that
      does not parse, a name SQLite reserves, or two columns with one name,
      in the order SQLite finds them. */
  function CreateTableError(t: string, fields: seq<FieldSpec>): (error: Option<string>)
    ensures error.None? <==> IsBareIdentifier(t) && !IsReservedName(t) && DistinctNames(Columns(fields))
    ensures !IsBareIdentifier(t) ==> error == Some(UnparsableName)
  {
    FirstRepeatedFindsDuplicates(Columns(fields), 0);
    if !IsBareIdentifier(t) then Some(UnparsableName)
    else if IsReservedName(t) then Some(ReservedName(t))
    else match FirstRepeated(Columns(fields), 0)
      case Some(name) => Some(DuplicateColumn(name))
      case None => None
  }

  /** The reply to a submission the event's form table rejected: 400 with the
      limit message for the trigger's abort, 500 with SQLite's message for
      anything else. */
  function RejectionReply(t: string, e: InsertError): (reply: Reply<string>)
    ensures reply.Fail? && (reply.status == 400 <==> e.LimitReached?)
    ensures e.LimitReached? ==> reply.message == LimitReply
    ensures !e.LimitReached? ==> reply.message == InsertErrorMessage(t, e)
  {
    if e.LimitReached? then Fail(400, LimitReply) else Fail(500, InsertErrorMessage(t, e))
  }

  /** `SELECT ... FROM clubs WHERE club_id = ?` with `fetchone()`. */
  function FindClub(clubs: seq<Club>, id: int): Option<Club> {
    if clubs == [] then None
    else if clubs[0].id == id then Some(clubs[0])
    else FindClub(clubs[1..], id)
  }

  /** `SELECT ... FROM clubs WHERE club_name = ?` with `fetchone()`. */
  function ClubNamed(clubs: seq<Club>, name: string): Option<Club> {
    if clubs == [] then None
    else if clubs[0].name == name then Some(clubs[0])
    else ClubNamed(clubs[1..], name)
  }

  /** What the discovery loop appends for one catalog entry: the club whose
      name is read from a recruitment table, when there is one. */
  function ClubFor(table: string, clubs: seq<Club>): (found: seq<Club>)
    ensures forall c | c in found :: c in clubs && c.name == ClubNameOfTable(table)
  {
    if EndsWith(table, Suffix(Recruitments)) then
      ClubNamedFound(clubs, ClubNameOfTable(table));
      match ClubNamed(clubs, ClubNameOfTable(table))
      case Some(c) => [c]
      case None => []
    else []
  }

  /** The clubs the discovery loop lists for the catalog `names`: only clubs
      of the `clubs` table, each read from one of the names. */
  function RecruitingClubsIn(names: seq<string>, clubs: seq<Club>): (listed: seq<Club>)
    ensures forall c | c in listed :: c in clubs
  {
    if names == [] then []
    else RecruitingClubsIn(names[..|names| - 1], clubs) + ClubFor(names[|names| - 1], clubs)
  }

  /** The field-building loop of server.py:660-674. */
  method ReadRecruitmentFields(cols: seq<Column>) returns (fields: seq<RecruitmentField>)
    ensures fields == RecruitmentFields(cols)
  {
    fields := [];
    if cols == [] {
      return;
    }
    for i := 1 to |cols|
      invariant fields == seq(i - 1, k requires 0 <= k < i - 1 => RecruitmentFieldOf(cols[k + 1]))
    {
      var field := ReadRecruitmentField(cols[i]);
      fields := fields + [field];
    }
  }

  /** The body of that loop for one column. */
  method ReadRecruitmentField(column: Column) returns (field: RecruitmentField)
    ensures field == RecruitmentFieldOf(column)
  {
    var fieldType := "text";
    if Contains(Lower(column.declType), "real") {
      fieldType := "number";
    } else if Contains(Lower(column.name), "email") {
      fieldType := "email";
    }
    field := RecruitmentField(ColumnLabel(column.name), column.name, fieldType,
                              Contains(Lower(column.declType), "notnull"));
  }

  /** The field-building loop of server.py:560-567. */
  method ReadApplicationFields(cols: seq<Column>) returns (fields: seq<ApplicationField>)
    ensures fields == ApplicationFields(cols)
  {
    fields := [];
    if cols == [] {
      return;
    }
    for i := 1 to |cols|
      invariant fields == seq(i - 1, k requires 0 <= k < i - 1 => ApplicationFieldOf(cols[k + 1]))
    {
      fields := fields + [ApplicationField(ColumnLabel(cols[i].name), cols[i].name, "text")];
    }
  }

  class FormServer {
    /** The `clubs` table; no modelled route writes it. */
    const clubs: seq<Club>
    /** The `events` table, reduced to each event's id and name. */
    var events: map<nat, string>
    var nextEventId: nat
    /** The form tables, by name. */
    var tables: map<string, Table>
    /** The form tables in `sqlite_master` order. */
    var catalog: seq<string>
    /** The tables carrying the registration-limit trigger. */
    var triggers: set<string>

    ghost predicate Valid()
      reads this
    {
      && TablesValid(tables, catalog, triggers)
      && (forall t | t in tables :: IsBareIdentifier(t) && !IsReservedName(t))
      && nextEventId >= 1
      && (forall id | id in events :: 1 <= id < nextEventId)
      && (forall id | id in events :: EventTableCreatable(events[id]))
    }

    /** A database with the given clubs and no events or forms. */
    constructor(clubs: seq<Club>)
      ensures Valid()
      ensures this.clubs == clubs && events == map[] && nextEventId == 1
      ensures tables == map[] && catalog == [] && triggers == {}
    {
      this.clubs := clubs;
      events := map[];
      nextEventId := 1;
      tables := map[];
      catalog := [];
      triggers := {};
    }

    // -------------------------------------------------------------------------
    // Statements

    /** `DROP TABLE IF EXISTS t`: the table, its catalog entry and its trigger
        go; a name that does not parse changes nothing. */
    method DropTableIfExists(t: string) returns (error: Option<string>)
      requires Valid()
      modifies this
      ensures Valid()
      ensures !IsBareIdentifier(t) ==>
                && error == Some(UnparsableName)
                && tables == old(tables) && catalog == old(catalog) && triggers == old(triggers)
      ensures IsBareIdentifier(t) ==>
                && error == None
                && tables == old(tables) - {t} && catalog == Without(old(catalog), t)
                && triggers == old(triggers) - {t}
      ensures events == old(events) && nextEventId == old(nextEventId)
    {
      if !IsBareIdentifier(t) {
        return Some(UnparsableName);
      }
      DropKeepsValid(tables, catalog, triggers, t);
      tables := tables - {t};
      catalog := Without(catalog, t);
      triggers := triggers - {t};
      error := None;
    }

    /** `CREATE TABLE t (...)` for `fields`, issued right after a DROP of the
        same name parsed: it fails, changing nothing, on a reserved name or
        when two columns share a name. */
    method CreateTable(t: string, fields: seq<FieldSpec>) returns (error: Option<string>)
      requires Valid()
      requires t !in tables && ' ' !in t && NoUpper(t) && IsBareIdentifier(t)
      modifies this
      ensures Valid()
      ensures error == CreateTableError(t, fields)
      ensures error.None? ==> tables == old(tables)[t := NewTable(fields)] && catalog == old(catalog) + [t]
      ensures error.Some? ==> tables == old(tables) && catalog == old(catalog)
      ensures triggers == old(triggers) && events == old(events) && nextEventId == old(nextEventId)
    {
      if IsReservedName(t) {
        return Some(ReservedName(t));
      }
      var duplicate := FirstRepeated(Columns(fields), 0);
      if duplicate.Some? {
        error := Some(DuplicateColumn(duplicate.value));
      } else {
        CreateKeepsValid(tables, catalog, triggers, t, fields);
        tables := tables[t := NewTable(fields)];
        catalog := catalog + [t];
        error := None;
      }
    }

    /** `INSERT INTO t (keys) VALUES (...)` on an existing form table, with
        the trigger when one sits on it (every event table has it by the time
        its route inserts): the row is added, or nothing changes. */
    method InsertRow(t: string, data: seq<Entry>) returns (result: InsertResult)
      requires Valid() && t in tables
      requires EndsWith(t, Suffix(Applications)) ==> t in triggers
      modifies this
      ensures Valid()
      ensures result == Insert(old(tables)[t], data, t in old(triggers))
      ensures result.Inserted? ==> tables == old(tables)[t := result.table]
      ensures result.Rejected? ==> tables == old(tables)
      ensures catalog == old(catalog) && triggers == old(triggers)
      ensures events == old(events) && nextEventId == old(nextEventId)
    {
      result := Insert(tables[t], data, t in triggers);
      if result.Inserted? {
        InsertKeepsValid(tables, catalog, triggers, t, data);
        tables := tables[t := result.table];
      }
    }

    /** `DROP TABLE IF EXISTS t` followed by `CREATE TABLE t (...)` for a
        name that parses: the old table always goes, and the new one is
        created unless the CREATE fails. */
    method ReplaceTable(t: string, fields: seq<FieldSpec>) returns (error: Option<string>)
      requires Valid()
      requires IsBareIdentifier(t) && ' ' !in t && NoUpper(t)
      modifies this
      ensures Valid()
      ensures error == CreateTableError(t, fields)
      ensures triggers == old(triggers) - {t}
      ensures error.None? ==> tables == old(tables)[t := NewTable(fields)] && catalog == Without(old(catalog), t) + [t]
      ensures error.Some? ==> tables == old(tables) - {t} && catalog == Without(old(catalog), t)
      ensures events == old(events) && nextEventId == old(nextEventId)
    {
      error := DropTableIfExists(t);
      error := CreateTable(t, fields);
    }

    // -------------------------------------------------------------------------
    // Club recruitment forms

    /** `POST /api/recruitment/create`: drop the club's form table, then create
        it anew from `fields`. A club name whose table name does not parse
        fails at the DROP and changes nothing. The DROP is committed on its
        own, so a CREATE that fails leaves the club without a form; a CREATE
        that succeeds replaces the columns and discards every earlier
        response. */
    method CreateRecruitmentForm(clubName: string, fields: seq<FieldSpec>) returns (reply: Reply<string>)
      requires Valid()
      modifies this
      ensures Valid()
      ensures events == old(events) && nextEventId == old(nextEventId)
      ensures var t := TableName(clubName, Recruitments);
        && (!IsBareIdentifier(t) ==>
              && reply == Fail(500, UnparsableName)
              && tables == old(tables) && catalog == old(catalog) && triggers == old(triggers))
        && (IsBareIdentifier(t) ==> triggers == old(triggers) - {t})
        && (CreateTableError(t, fields).None? ==>
              && reply == Ok(RecruitmentCreated)
              && tables == old(tables)[t := NewTable(fields)]
              && catalog == Without(old(catalog), t) + [t])
        && (IsBareIdentifier(t) && CreateTableError(t, fields).Some? ==>
              && reply == Fail(500, CreateTableError(t, fields).value)
              && tables == old(tables) - {t}
              && catalog == Without(old(catalog), t))
    {
      var t := TableName(clubName, Recruitments);
      if !IsBareIdentifier(t) {
        return Fail(500, UnparsableName);
      }
      TableNameIsSlug(clubName, Recruitments);
      var error := ReplaceTable(t, fields);
      if error.Some? {
        reply := Fail(500, error.value);
      } else {
        reply := Ok(RecruitmentCreated);
      }
    }

    /** `GET /api/recruitment/status/<club_id>`: whether the club's form table
        exists. */
    method CheckRecruitmentStatus(clubId: int) returns (reply: Reply<bool>)
      ensures FindClub(clubs, clubId).None? ==> reply == Fail(404, ClubNotFound)
      ensures FindClub(clubs, clubId).Some? ==>
                reply == Ok(TableName(FindClub(clubs, clubId).value.name, Recruitments) in tables)
    {
      var club := FindClub(clubs, clubId);
      if club.None? {
        return Fail(404, ClubNotFound);
      }
      var t := TableName(club.value.name, Recruitments);
      reply := Ok(t in tables);
    }

    /** `GET /api/recruitment/responses/<club_id>`: every response as a record,
        or SQLite's error when the club has no form. */
    method GetRecruitmentResponses(clubId: int) returns (reply: Reply<seq<seq<Cell>>>)
      requires Valid()
      ensures FindClub(clubs, clubId).None? ==> reply == Fail(404, ClubNotFound)
      ensures FindClub(clubs, clubId).Some? ==>
                var t := TableName(FindClub(clubs, clubId).value.name, Recruitments);
                reply == if !IsBareIdentifier(t) then Fail(500, UnparsableName)
                         else if t in tables then Ok(ResponseRecords(tables[t]))
                         else Fail(500, NoSuchTable(t))
    {
      var club := FindClub(clubs, clubId);
      if club.None? {
        return Fail(404, ClubNotFound);
      }
      var t := TableName(club.value.name, Recruitments);
      if !IsBareIdentifier(t) {
        return Fail(500, UnparsableName);
      }
      if t !in tables {
        return Fail(500, NoSuchTable(t));
      }
      reply := Ok(ResponseRecords(tables[t]));
    }

    /** `GET /api/recruitment/details/<club_id>`: the form read back from the
        table's columns. */
    method GetRecruitmentFormDetails(clubId: int) returns (reply: Reply<seq<RecruitmentField>>)
      ensures FindClub(clubs, clubId).None? ==> reply == Fail(404, ClubNotFound)
      ensures FindClub(clubs, clubId).Some? ==>
                var t := TableName(FindClub(clubs, clubId).value.name, Recruitments);
                reply == if t in tables then Ok(RecruitmentFields(tables[t].columns)) else Fail(404, NoRecruitmentForm)
    {
      var club := FindClub(clubs, clubId);
      if club.None? {
        return Fail(404, ClubNotFound);
      }
      var t := TableName(club.value.name, Recruitments);
      if t !in tables {
        return Fail(404, NoRecruitmentForm);
      }
      var fields := ReadRecruitmentFields(tables[t].columns);
      reply := Ok(fields);
    }

    /** `POST /api/recruitment/apply/<club_id>`: insert the submission into the
        club's form table. No trigger sits on a recruitment table, so there is
        no cap. */
    method SubmitRecruitmentApplication(clubId: int, data: seq<Entry>) returns (reply: Reply<string>)
      requires Valid()
      modifies this
      ensures Valid()
      ensures catalog == old(catalog) && triggers == old(triggers)
      ensures events == old(events) && nextEventId == old(nextEventId)
      ensures FindClub(clubs, clubId).None? ==> reply == Fail(404, ClubNotFound) && tables == old(tables)
      ensures FindClub(clubs, clubId).Some? ==>
                var t := TableName(FindClub(clubs, clubId).value.name, Recruitments);
                && (!IsBareIdentifier(t) ==> tables == old(tables) && reply == Fail(500, UnparsableName))
                && (IsBareIdentifier(t) && t !in old(tables) ==>
                      && tables == old(tables)
                      && reply == Fail(500, if data == [] then InsertErrorMessage(t, EmptyInsert) else NoSuchTable(t)))
                && (t in old(tables) && Insert(old(tables)[t], data, false).Inserted? ==>
                      && tables == old(tables)[t := Insert(old(tables)[t], data, false).table]
                      && reply == Ok(ApplicationSubmitted))
                && (t in old(tables) && Insert(old(tables)[t], data, false).Rejected? ==>
                      && tables == old(tables)
                      && reply == Fail(500, InsertErrorMessage(t, Insert(old(tables)[t], data, false).error)))
    {
      var club := FindClub(clubs, clubId);
      if club.None? {
        return Fail(404, ClubNotFound);
      }
      var t := TableName(club.value.name, Recruitments);
      if !IsBareIdentifier(t) {
        return Fail(500, UnparsableName);
      }
      if t !in tables {
        return Fail(500, if data == [] then InsertErrorMessage(t, EmptyInsert) else NoSuchTable(t));
      }
      TableKindDetermined(club.value.name, Recruitments, Applications);
      assert t !in triggers;
      var result := InsertRow(t, data);
      if result.Inserted? {
        reply := Ok(ApplicationSubmitted);
      } else {
        reply := Fail(500, InsertErrorMessage(t, result.error));
      }
    }

    /** `POST /api/recruitment/close/<club_id>`: drop the club's form table. */
    method CloseClubRecruitments(clubId: int) returns (reply: Reply<string>)
      requires Valid()
      modifies this
      ensures Valid()
      ensures events == old(events) && nextEventId == old(nextEventId)
      ensures FindClub(clubs, clubId).None? ==>
                reply == Fail(404, ClubNotFound)
                && tables == old(tables) && catalog == old(catalog) && triggers == old(triggers)
      ensures FindClub(clubs, clubId).Some? ==>
                var t := TableName(FindClub(clubs, clubId).value.name, Recruitments);
                && (!IsBareIdentifier(t) ==>
                      && reply == Fail(500, UnparsableName)
                      && tables == old(tables) && catalog == old(catalog) && triggers == old(triggers))
                && (IsBareIdentifier(t) ==>
                      && reply == Ok(RecruitmentsClosed)
                      && tables == old(tables) - {t} && catalog == Without(old(catalog), t)
                      && triggers == old(triggers) - {t})
    {
      var club := FindClub(clubs, clubId);
      if club.None? {
        return Fail(404, ClubNotFound);
      }
      var t := TableName(club.value.name, Recruitments);
      var error := DropTableIfExists(t);
      if error.Some? {
        return Fail(500, error.value);
      }
      reply := Ok(RecruitmentsClosed);
    }

    /** `GET /api/recruitment/download_responses/<club_id>`. */
    method DownloadClubRecruitmentResponses(clubId: int) returns (reply: Reply<CsvFile>)
      ensures FindClub(clubs, clubId).None? ==> reply == Fail(404, ClubNotFound)
      ensures FindClub(clubs, clubId).Some? ==>
                var name := FindClub(clubs, clubId).value.name;
                var t := TableName(name, Recruitments);
                reply == if !IsBareIdentifier(t) then Fail(500, UnparsableName)
                         else if t in tables then Ok(CsvFile(name + "_recruitment_responses.csv", CsvTable(tables[t])))
                         else Fail(500, NoSuchTable(t))
    {
      var club := FindClub(clubs, clubId);
      if club.None? {
        return Fail(404, ClubNotFound);
      }
      var t := TableName(club.value.name, Recruitments);
      if !IsBareIdentifier(t) {
        return Fail(500, UnparsableName);
      }
      if t !in tables {
        return Fail(500, NoSuchTable(t));
      }
      var rows := WriteCsv(tables[t]);
      reply := Ok(CsvFile(club.value.name + "_recruitment_responses.csv", rows));
    }

    /** `GET /api/recruiting-clubs`: for every catalog table ending in
        `_recruitments`, the club named by the title-cased words before the
        suffix, when such a club exists. Every listed club has a form table,
        and every club whose name survives the round trip and that has a form
        is listed. */
    method GetRecruitingClubs() returns (reply: Reply<seq<Club>>)
      requires Valid()
      ensures reply == Ok(RecruitingClubsIn(catalog, clubs))
      ensures forall c | c in reply.value :: c in clubs && TableName(c.name, Recruitments) in tables
      ensures forall c | c in clubs && '_' !in c.name && Title(c.name) == c.name
                         && TableName(c.name, Recruitments) in tables ::
                exists d :: d in reply.value && d.name == c.name
    {
      var recruiting: seq<Club> := [];
      for i := 0 to |catalog|
        invariant recruiting == RecruitingClubsIn(catalog[..i], clubs)
      {
        var table := catalog[i];
        if EndsWith(table, Suffix(Recruitments)) {
          var clubName := ClubNameOfTable(table);
          var club := ClubNamed(clubs, clubName);
          if club.Some? {
            recruiting := recruiting + [club.value];
          }
        }
        assert catalog[..i + 1][..i] == catalog[..i];
      }
      assert catalog[..|catalog|] == catalog;
      reply := Ok(recruiting);
      RecruitingClubsSound(catalog, clubs);
      forall c | c in clubs && '_' !in c.name && Title(c.name) == c.name
                 && TableName(c.name, Recruitments) in tables
        ensures exists d :: d in reply.value && d.name == c.name
      {
        RecruitingClubsComplete(catalog, clubs, c);
      }
    }

    // -------------------------------------------------------------------------
    // Event application forms

    /** `POST /api/events/create`: record the event, drop its form table and
        create it anew. All three statements share one transaction, so a DROP
        or CREATE that fails undoes the INSERT of the event. */
    method CreateEvent(eventName: string, eventFields: seq<FieldSpec>) returns (reply: Reply<nat>)
      requires Valid()
      modifies this
      ensures Valid()
      ensures var t := TableName(eventName, Applications);
              CreateTableError(t, eventFields).Some? ==>
                && reply == Fail(500, CreateTableError(t, eventFields).value)
                && events == old(events) && nextEventId == old(nextEventId)
                && tables == old(tables) && catalog == old(catalog) && triggers == old(triggers)
      ensures var t := TableName(eventName, Applications);
              CreateTableError(t, eventFields).None? ==>
                && reply == Ok(old(nextEventId))
                && old(nextEventId) !in old(events)
                && events == old(events)[old(nextEventId) := eventName]
                && nextEventId == old(nextEventId) + 1
                && tables == old(tables)[t := NewTable(eventFields)]
                && catalog == Without(old(catalog), t) + [t]
                && triggers == old(triggers) - {t}
    {
      var t := TableName(eventName, Applications);
      var failure := CreateTableError(t, eventFields);
      if failure.Some? {
        return Fail(500, failure.value);
      }
      var eventId := RecordEvent(eventName, eventFields);
      reply := Ok(eventId);
    }

    /** The statements of create_event when none of them fails: the INSERT
        of the event, the DROP and the CREATE of its form table. */
    method RecordEvent(eventName: string, eventFields: seq<FieldSpec>) returns (eventId: nat)
      requires Valid()
      requires CreateTableError(TableName(eventName, Applications), eventFields).None?
      modifies this
      ensures Valid()
      ensures var t := TableName(eventName, Applications);
                && eventId == old(nextEventId) && eventId !in old(events)
                && events == old(events)[eventId := eventName]
                && nextEventId == old(nextEventId) + 1
                && tables == old(tables)[t := NewTable(eventFields)]
                && catalog == Without(old(catalog), t) + [t]
                && triggers == old(triggers) - {t}
    {
      var t := TableName(eventName, Applications);
      eventId := InsertEvent(eventName);
      TableNameIsSlug(eventName, Applications);
      var error := ReplaceTable(t, eventFields);
    }

    /** `INSERT INTO events ...`: the event gets the next id. */
    method InsertEvent(eventName: string) returns (eventId: nat)
      requires Valid() && EventTableCreatable(eventName)
      modifies this
      ensures Valid()
      ensures eventId == old(nextEventId) && eventId !in old(events)
      ensures events == old(events)[eventId := eventName] && nextEventId == old(nextEventId) + 1
      ensures tables == old(tables) && catalog == old(catalog) && triggers == old(triggers)
    {
      eventId := nextEventId;
      events := events[eventId := eventName];
      nextEventId := nextEventId + 1;
    }

    /** `GET /api/events/application/<event_id>`: whether the event's form
        table exists. */
    method GetEventApplicationStatus(eventId: nat) returns (reply: Reply<bool>)
      ensures eventId !in events ==> reply == Fail(404, EventNotFound)
      ensures eventId in events ==> reply == Ok(TableName(events[eventId], Applications) in tables)
    {
      if eventId !in events {
        return Fail(404, EventNotFound);
      }
      var t := TableName(events[eventId], Applications);
      reply := Ok(t in tables);
    }

    /** `GET /api/events/application/responses/<event_id>`. */
    method GetEventApplicationResponses(eventId: nat) returns (reply: Reply<seq<seq<Cell>>>)
      requires Valid()
      ensures eventId !in events ==> reply == Fail(404, EventNotFound)
      ensures eventId in events ==>
                var t := TableName(events[eventId], Applications);
                reply == if t in tables then Ok(ResponseRecords(tables[t])) else Fail(500, NoSuchTable(t))
    {
      if eventId !in events {
        return Fail(404, EventNotFound);
      }
      var t := TableName(events[eventId], Applications);
      if t !in tables {
        return Fail(500, NoSuchTable(t));
      }
      reply := Ok(ResponseRecords(tables[t]));
    }

    /** `GET /api/events_student/details/<event_id>`: the event and its
        application fields; an event without a form table has none (the
        PRAGMA on a missing table reports no columns). */
    method GetEventDetailsStudent(eventId: nat) returns (reply: Reply<EventDetails>)
      requires Valid()
      ensures eventId !in events ==> reply == Fail(404, EventNotFound)
      ensures eventId in events ==>
                var t := TableName(events[eventId], Applications);
                reply == Ok(EventDetails(eventId, events[eventId],
                                         if t in tables then ApplicationFields(tables[t].columns) else []))
    {
      if eventId !in events {
        return Fail(404, EventNotFound);
      }
      var t := TableName(events[eventId], Applications);
      var columns := if t in tables then tables[t].columns else [];
      var fields := ReadApplicationFields(columns);
      reply := Ok(EventDetails(eventId, events[eventId], fields));
    }

    /** `POST /api/events/apply/<event_id>`: put the registration trigger on
        the event's form table (committed on its own), then insert the
        submission. The trigger's abort is answered with 400, every other
        failure with 500 and SQLite's message. */
    method SubmitEventApplication(eventId: nat, data: seq<Entry>) returns (reply: Reply<string>)
      requires Valid()
      modifies this
      ensures Valid()
      ensures catalog == old(catalog) && events == old(events) && nextEventId == old(nextEventId)
      ensures eventId !in events ==>
                reply == Fail(404, EventNotFound) && tables == old(tables) && triggers == old(triggers)
      ensures eventId in events ==>
                var t := TableName(events[eventId], Applications);
                && (t !in old(tables) ==>
                      reply == Fail(500, NoSuchMainTable(t)) && tables == old(tables) && triggers == old(triggers))
                && (t in old(tables) ==> triggers == old(triggers) + {t})
                && (t in old(tables) && Insert(old(tables)[t], data, true).Inserted? ==>
                      && tables == old(tables)[t := Insert(old(tables)[t], data, true).table]
                      && reply == Ok(ApplicationSubmitted))
                && (t in old(tables) && Insert(old(tables)[t], data, true).Rejected? ==>
                      var e := Insert(old(tables)[t], data, true).error;
                      && tables == old(tables)
                      && reply == RejectionReply(t, e))
    {
      if eventId !in events {
        return Fail(404, EventNotFound);
      }
      var t := TableName(events[eventId], Applications);
      if t !in tables {
        return Fail(500, NoSuchMainTable(t));
      }
      TableNameShape(events[eventId], Applications);
      TriggerKeepsValid(tables, catalog, triggers, t);
      triggers := triggers + {t};
      var result := InsertRow(t, data);
      if result.Inserted? {
        reply := Ok(ApplicationSubmitted);
      } else {
        var message := InsertErrorMessage(t, result.error);
        RejectionMessageNamesCause(tables[t], data, t);
        if IsIntegrityError(result.error) && Contains(message, LimitPhrase) {
          reply := Fail(400, LimitReply);
        } else {
          reply := Fail(500, message);
        }
      }
    }

    /** `POST /api/events/close_registrations/<event_id>`: drop the event's
        form table. */
    method CloseEventRegistrations(eventId: nat) returns (reply: Reply<string>)
      requires Valid()
      modifies this
      ensures Valid()
      ensures events == old(events) && nextEventId == old(nextEventId)
      ensures eventId !in events ==>
                reply == Fail(404, EventNotFound)
                && tables == old(tables) && catalog == old(catalog) && triggers == old(triggers)
      ensures eventId in events ==>
                var t := TableName(events[eventId], Applications);
                && reply == Ok(RegistrationsClosed)
                && tables == old(tables) - {t} && catalog == Without(old(catalog), t)
                && triggers == old(triggers) - {t}
    {
      if eventId !in events {
        return Fail(404, EventNotFound);
      }
      var t := TableName(events[eventId], Applications);
      var error := DropTableIfExists(t);
      reply := Ok(RegistrationsClosed);
    }

    /** `GET /api/events/download_responses/<event_id>`. */
    method DownloadEventResponses(eventId: nat) returns (reply: Reply<CsvFile>)
      requires Valid()
      ensures eventId !in events ==> reply == Fail(404, EventNotFound)
      ensures eventId in events ==>
                var t := TableName(events[eventId], Applications);
                reply == if t in tables then Ok(CsvFile(events[eventId] + "_responses.csv", CsvTable(tables[t])))
                         else Fail(500, NoSuchTable(t))
    {
      if eventId !in events {
        return Fail(404, EventNotFound);
      }
      var t := TableName(events[eventId], Applications);
      if t !in tables {
        return Fail(500, NoSuchTable(t));
      }
      var rows := WriteCsv(tables[t]);
      reply := Ok(CsvFile(events[eventId] + "_responses.csv", rows));
    }
  }

  // ---------------------------------------------------------------------------
  // Lemmas

  /** The message of a rejected INSERT into a slug-named, well-formed table
      mentions the registration limit only when the trigger aborted. */
  lemma RejectionMessageNamesCause(table: Table, data: seq<Entry>, t: string)
    requires WellFormed(table) && NoUpper(t)
    requires Insert(table, data, true).Rejected?
    ensures var e := Insert(table, data, true).error;
            IsIntegrityError(e) && Contains(InsertErrorMessage(t, e), LimitPhrase) <==> e.LimitReached?
  {
    var e := Insert(table, data, true).error;
    InsertRejection(table, data, true);
    if e.NotNullFailed? {
      var j :| 1 <= j < |table.columns| && table.columns[j].name == e.column;
      assert NoUpper(table.columns[j].name);
    }
    LimitMessageIff(t, e);
  }

  /** The 400 reply itself names the registration limit. */
  lemma LimitReplyMentionsLimit()
    ensures Contains(LimitReply, LimitPhrase)
  {
    assert OccursAt(LimitReply, LimitPhrase, 0);
  }

  /** The club lookup finds a club of that id exactly when there is one. */
  lemma {:induction false} FindClubFound(clubs: seq<Club>, id: int)
    ensures FindClub(clubs, id).Some? <==> exists c :: c in clubs && c.id == id
    ensures FindClub(clubs, id).Some? ==> FindClub(clubs, id).value in clubs && FindClub(clubs, id).value.id == id
  {
    if clubs != [] {
      FindClubFound(clubs[1..], id);
      if clubs[0].id != id {
        assert forall c :: c in clubs <==> c == clubs[0] || c in clubs[1..];
      }
    }
  }

  lemma {:induction false} ClubNamedFound(clubs: seq<Club>, name: string)
    ensures ClubNamed(clubs, name).Some? <==> exists c :: c in clubs && c.name == name
    ensures ClubNamed(clubs, name).Some? ==> ClubNamed(clubs, name).value in clubs && ClubNamed(clubs, name).value.name == name
  {
    if clubs != [] {
      ClubNamedFound(clubs[1..], name);
      if clubs[0].name != name {
        assert forall c :: c in clubs <==> c == clubs[0] || c in clubs[1..];
      }
    }
  }

  /** Every club discovery lists is a club whose recruitment table is in the
      catalog, provided the catalog holds only slug-shaped names. */
  lemma {:induction false} RecruitingClubsSound(names: seq<string>, clubs: seq<Club>)
    requires forall n | n in names :: ' ' !in n && NoUpper(n)
    ensures forall c | c in RecruitingClubsIn(names, clubs) :: c in clubs && TableName(c.name, Recruitments) in names
  {
    if names != [] {
      var init := names[..|names| - 1];
      var last := names[|names| - 1];
      assert forall n | n in init :: n in names;
      RecruitingClubsSound(init, clubs);
      if EndsWith(last, Suffix(Recruitments)) {
        ClubNamedFound(clubs, ClubNameOfTable(last));
        TableNameOfClubName(last);
      }
    }
  }

  /** A club whose name has no underscore and is its own title case is listed
      by discovery as soon as its recruitment table is in the catalog. */
  lemma {:induction false} RecruitingClubsComplete(names: seq<string>, clubs: seq<Club>, c: Club)
    requires c in clubs && '_' !in c.name && Title(c.name) == c.name
    requires TableName(c.name, Recruitments) in names
    ensures exists d :: d in RecruitingClubsIn(names, clubs) && d.name == c.name
  {
    var t := TableName(c.name, Recruitments);
    var init := names[..|names| - 1];
    var last := names[|names| - 1];
    assert names == init + [last];
    if last == t {
      ListedForOwnTable(init, clubs, c);
    } else {
      assert t in init;
      RecruitingClubsComplete(init, clubs, c);
      var d :| d in RecruitingClubsIn(init, clubs) && d.name == c.name;
      assert RecruitingClubsIn(names, clubs) == RecruitingClubsIn(init, clubs) + ClubFor(last, clubs);
    }
  }

  /** The club is listed for its own recruitment table at the end of the
      catalog. */
  lemma ListedForOwnTable(init: seq<string>, clubs: seq<Club>, c: Club)
    requires c in clubs && '_' !in c.name && Title(c.name) == c.name
    ensures exists d :: d in RecruitingClubsIn(init + [TableName(c.name, Recruitments)], clubs) && d.name == c.name
  {
    var t := TableName(c.name, Recruitments);
    var names := init + [t];
    assert names[..|names| - 1] == init;
    TableNameShape(c.name, Recruitments);
    ClubNameRoundTrip(c.name);
    ClubNamedFound(clubs, c.name);
    var d := ClubNamed(clubs, c.name).value;
    assert ClubFor(t, clubs) == [d];
    assert RecruitingClubsIn(names, clubs) == RecruitingClubsIn(init, clubs) + [d];
  }
}
