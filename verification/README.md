# Dynamic club and event forms, modelled in Dafny

This project models the dynamic-form lifecycle of the club portal. It covers three places.

- **The form store on the Flask server.** A club's recruitment form, or an event's application form, is one SQLite table. The table is named after the owner: lower-cased, spaces turned into `_`, then `_recruitments` or `_applications` appended. Its columns come from the field list the admin built: `id` first, then one column per field. An applicant's submission becomes one row.
  - Routes create forms, report whether a form exists, read a form back as field descriptions, insert applications, list and download responses, close forms, and list the clubs that are recruiting.
  - A trigger limits event applications to three rows.
- **The admin field builder.** It lives on the dashboard (recruitment form) and on the event-creation page (application form). It holds a draft field and a list of fields. A draft is appended only when its label is not blank; a field is removed by position with `splice`. The dashboard also tracks whether a recruitment form exists and whether its editor is open.
- **The applicant pages.**
  - The event page loads the event and its fields, keeps the answers typed so far, and turns the submission's outcome into a message. One of those messages says that registrations are full.
  - The club application page loads the club and its recruitment form, picks an input type per field, keeps the answers, and reports the outcome.

Files:

- `text.dfy` holds the string operations of Python and JavaScript that the code relies on: `lower`, `replace`, `split`, `join`, `capitalize`, `title`, `endswith`, `in`, `trim`.
- `naming.dfy` holds the table-name and label derivations.
- `records.dfy` holds JSON objects (insertion-ordered), route replies and fetch outcomes.
- `schema.dfy` holds columns, the CREATE TABLE statement, and the read-back of fields.
- `store.dfy` holds tables, the catalog invariant, INSERT, records and CSV.
- `server.dfy` holds the routes, as methods of the class `FormServer`.
- `fields.dfy` holds the field builder.
- `dashboard.dfy`, `createevent.dfy`, `viewevent.dfy` and `clubapplication.dfy` hold the pages.
- `flows.dfy` holds properties that span the pages and the server.

Where the server's behaviour depends on SQLite or on Python's `sqlite3` module, the model follows what those do:

- DDL outside a transaction is committed at once. A failed CREATE after the DROP in `create_recruitment_form` therefore leaves the club with no form. In `create_event`, the preceding INSERT opens a transaction, so a failed CREATE rolls everything back.
- An INSERT fails on the first problem SQLite meets, in this order:
  1. an empty column list is a syntax error;
  2. a key that names no column;
  3. the BEFORE trigger;
  4. the first NOT NULL column left out.
- A table name is pasted into each statement unquoted. It parses only as a bare identifier: ASCII letters, digits, `_`, `$` and non-ASCII characters, not starting with a digit or `$`. A name that fails this makes every statement on it a syntax error. A name starting with `sqlite_` in any case parses, but CREATE refuses it as reserved. Because `create_event`'s transaction rolls back on either failure, every stored event's name gives a table name that can be created. The store keeps that fact as part of its invariant.
- `PRAGMA table_info` reports the declared type apart from NOT NULL. The read-back `required` flag, which tests the declared type for `notnull`, is therefore always false.
- The limit reply's text says 100, while the trigger stops a fourth application.

## Model

| member | source | states |
|---|---|---|
| Naming.Slug | server.py:151 | the slug has the name's length (`SlugShape` states where its `_` fall) |
| Naming.TableName | server.py:151 | the table name is as long as the owner name plus its suffix and ends with that suffix |
| Naming.ClubNameOfTable | server.py:604 | no contract of its own; `ClubNameRoundTrip` and `TableNameOfClubName` state that it inverts `TableName` on title-case names without `_` |
| Naming.ColumnLabel | server.py:670 | no contract of its own; `ColumnLabelRoundTrip` states that slugging its label gives the column name back |
| Naming.BareTableName | server.py:151-152 | a table name can be pasted into SQL unquoted exactly when every owner character is a space or an identifier character and the owner starts with a space, a letter, `_` or a non-ASCII character |
| Naming.ReservedTableName | server.py:151-152 | a table name is one SQLite reserves (`sqlite_` in any case) exactly when the owner name starts with `sqlite` in any case followed by nothing, a space or `_` |
| Naming.UnquotableOwnerNames | server.py:151-152 | names with an apostrophe, an `&` or a leading digit give table names that do not parse |
| Naming.ParsableOwnerNames | server.py:151-152 | `Coding Club` gives a usable table name; `SQLite` gives one that parses but is reserved |
| Naming.TableNameShape | server.py:151 | the table name ends with its suffix, has the owner name's length plus the suffix's, and starts with the slug of the owner name, which has no spaces and no upper-case letters |
| Naming.TableNameIsSlug | server.py:252 | a whole table name has no spaces and no upper-case letters |
| Naming.SlugShape | server.py:151 | a slug keeps the name's length, has no spaces or capitals, and holds `_` exactly where the name has a space or `_` |
| Naming.SlugAppend | server.py:252 | slugging distributes over concatenation |
| Naming.TableKindDetermined | server.py:602 | a table name ends in `_recruitments` or `_applications` exactly according to the kind it was made for |
| Naming.SuffixesExclusive | server.py:602 | no name ends in both suffixes |
| Naming.ClubNameRoundTrip | server.py:604 | for a club name without `_` that equals its own title case, recovering the name from its recruitment table gives the name back |
| Naming.TableNameOfClubName | server.py:604 | for every slug-shaped recruitment table name, the table name derived from the recovered club name is the same table |
| Naming.LowerTitle | server.py:604 | title-casing changes only case |
| Naming.RecruitmentTableParts | server.py:604 | dropping the last `_` piece of a recruitment table name leaves the pieces of its slug |
| Naming.UnderscoresBackToSpaces | server.py:604 | for a name without `_`, turning the slug's `_` back into spaces gives the lower-cased name |
| Naming.ColumnLabelRoundTrip | server.py:670 | slugging the label read back from a slug-shaped column name gives the column name again |
| Naming.ReadBackLabelKeepsColumn | server.py:564 | slugging the read-back label of a field's column gives that column's name |
| Naming.SlugJoinCapitalized | server.py:670 | slugging capitalised words joined by spaces gives the original words joined by `_` |
| Naming.SlugCapitalize | server.py:670 | slugging a capitalised lower-case word gives the word back |
| Text.JoinSplit | server.py:670 | joining the pieces of a split by the separator gives the string back |
| Text.SplitPieces | server.py:670 | no piece of a split contains the separator |
| Text.TitleOfLower | server.py:604 | title-casing ignores the input's case |
| Text.TrimEmptyIffBlank | app2/src/Dashboard.js:75 | a string trims to the empty string exactly when every character is JavaScript whitespace |
| Text.LowerIdempotent | server.py:151 | lower-casing twice is lower-casing once |
| Records.Put | app/src/viewevent.js:49-52 | no contract of its own; `PutLookup` and `PutKeys` state what setting a key does |
| Records.LookupFindsKeys | app/src/viewevent.js:47-53 | a key is found exactly when it is one of the object's keys |
| Records.PutLookup | app/src/viewevent.js:49-52 | after setting a key, it holds the new value and every other key keeps its value |
| Records.PutKeys | app/src/clubapplication.js:39-42 | setting a key keeps keys distinct; an existing key keeps its place and a new key goes last |
| Records.LookupAt | server.py:503 | with distinct keys, the value at a position is what a lookup of its key finds |
| Schema.SqlType | server.py:157-162 | the declared type is `REAL` exactly for `number`, `TEXT` otherwise; `email` adds nothing |
| Schema.ColumnOf | server.py:157-163 | a field's column is named by the slug of its label, is `REAL` exactly for `number`, and is NOT NULL exactly when the field is required |
| Schema.RecruitmentFieldOf | server.py:662-673 | the field keeps the column's name; its label slugs back to that name; `number` exactly when the declared type contains `real`; `email` exactly when not that and the name contains `email`; required exactly when the type contains `notnull` |
| Schema.DefinitionsOfColumns | server.py:155-165 | the definitions pasted into CREATE TABLE are those of the columns stored after `id`, in order |
| Schema.Columns | server.py:155-165 | `id` first, then one column per field in field order: the slugged label, `REAL` exactly for `number`, `TEXT` otherwise, NOT NULL exactly when required |
| Schema.BuildCreateTableQuery | server.py:155-165 | the loop builds exactly the head, one definition per field in order, and the closing parenthesis |
| Schema.BuildColumnDefinition | server.py:157-163 | the loop body gives each field its column definition: slugged name, `REAL` exactly for number, NOT NULL exactly when required |
| Schema.FirstRepeatedFindsDuplicates | server.py:167 | CREATE TABLE reports a duplicate exactly when two columns share a name |
| Schema.ColumnNamesAreSlugs | server.py:163 | every column name is free of spaces and capitals |
| Schema.DeclaredTypes | server.py:664-673 | `REAL` contains `real`; neither declared type contains `notnull` |
| Schema.RecruitmentFieldOfColumn | server.py:660-674 | one field's read-back: name is the slug, label slugs back to it, `number` iff number, `email` iff a non-number whose slug contains `email`, never required |
| Schema.RecruitmentReadBack | server.py:660-674 | reading back a form built from a field list gives one field per built field, in order, with the facts above |
| Schema.ApplicationReadBack | server.py:560-567 | the event variant gives one `text` field per built field, in order, named by the slug |
| Store.WithoutMembers | server.py:750 | removing a name from the catalog removes exactly that name |
| Store.WithoutNoDuplicates | server.py:828 | removing a name keeps the catalog free of duplicates |
| Store.WithoutAbsent | server.py:828 | removing an absent name changes nothing |
| Store.WithoutTwice | server.py:747-750 | dropping a table twice leaves the same catalog as dropping it once |
| Store.DropKeepsValid | server.py:152 | DROP TABLE IF EXISTS keeps the store invariant (well-formed slug-named tables, at most 3 rows in event tables, catalog lists exactly the tables once, triggers only on event tables) |
| Store.CreateKeepsValid | server.py:167 | creating a table with distinct column names keeps the invariant |
| Store.TriggerKeepsValid | server.py:454-475 | putting the trigger on an existing event table keeps the invariant |
| Store.Insert | server.py:501-507 | an empty submission is a syntax error; a capped table with 3 rows refuses; a stored row goes after the unchanged earlier rows, with the columns kept and the next id advanced |
| Store.NewRow | server.py:501-507 | the new row takes the table's next id and has one value per column after `id` |
| Store.FirstUnknownKey | server.py:505 | a key reported unknown is one of the submitted keys |
| Store.FirstMissing | server.py:507 | a reported NOT NULL failure names a column at or after the position searched from |
| Store.InsertErrorMessage | server.py:515-516 | the message is the trigger's limit text exactly when the trigger aborted |
| Store.InsertSucceedsIff | server.py:501-507 | an INSERT succeeds exactly when the submission is non-empty, every key is a column, the trigger (if present) finds fewer than 3 rows, and every NOT NULL column gets a value |
| Store.InsertRejection | server.py:501-507 | a rejected INSERT names its cause, and that cause holds |
| Store.FirstUnknownKeyNone | server.py:505 | no key is reported unknown exactly when every key is a data column |
| Store.FirstUnknownKeyFound | server.py:505 | a reported unknown key is one of the submitted keys and no column |
| Store.FirstMissingNone | server.py:506 | no NOT NULL failure exactly when every NOT NULL column gets a value |
| Store.FirstMissingFound | server.py:506 | a reported NOT NULL failure names a NOT NULL column the submission leaves out |
| Store.InsertedRow | server.py:501-507 | the new row goes last with the next id; its value for each column is the submitted value for that key, present exactly for the submitted keys; earlier rows are unchanged |
| Store.InsertKeepsWellFormed | server.py:506 | a successful INSERT keeps the table well formed |
| Store.CappedInsertBound | server.py:471-472 | a successful capped INSERT found fewer than 3 rows and leaves at most 3 |
| Store.InsertKeepsValid | server.py:494 | with the trigger on every event table it inserts into, an INSERT keeps the invariant, including the 3-row bound |
| Store.LimitMessageIff | server.py:515-516 | on slug-named tables, an error is an IntegrityError mentioning the registration limit exactly when the trigger aborted |
| Store.LimitMessageMentionsLimit | server.py:472 | the trigger's message mentions the registration limit |
| Store.NotNullMessageLacksR | server.py:515 | a NOT NULL message on a slug-named table has no capital `R` |
| Store.WriteCsv | server.py:791-796 | the writer loop produces exactly the header row followed by one row per response |
| Store.CsvTableShape | server.py:782-796 | the download has one row more than the table: the column names with `id` first, then each response's id and values in table order; no responses gives the header alone |
| Store.Record | server.py:219-221 | one cell per column, in column order, each named by its column |
| Store.CsvTable | server.py:782-796 | one line more than the table has rows; the first line is the column names |
| Store.RecordShape | server.py:217-223 | a response record has every column, `id` first, each paired with its value |
| Store.RecordsShape | server.py:217-223 | one record per row, in table order |
| Server.RejectionReply | server.py:515-524 | a rejected event submission is answered 400 exactly for the trigger's abort (with the limit text), 500 with SQLite's message otherwise |
| Server.RejectionMessageNamesCause | server.py:515-520 | the server's test on the message picks out exactly the trigger's abort |
| Server.LimitReplyMentionsLimit | server.py:519 | the 400 reply mentions the registration limit |
| Server.CreateTableError | server.py:155-167 | CREATE TABLE succeeds exactly when the table name is a bare identifier, is not reserved, and the column names are distinct; an unparsable name is a syntax error |
| Server.FindClubFound | server.py:181-186 | the club lookup finds a club exactly when one has that id, and finds one with that id |
| Server.ClubNamedFound | server.py:608-614 | the lookup by name finds a club exactly when one has that name |
| Server.ClubFor | server.py:602-618 | a club found for a table is one of the clubs, and its name is the one recovered from the table name |
| Server.RecruitingClubsIn | server.py:600-618 | every listed club is one of the clubs |
| Server.ListedForOwnTable | server.py:600-618 | a club whose name survives the round trip is listed when its own recruitment table comes last |
| Server.RecruitingClubsSound | server.py:600-618 | every listed club exists and its recruitment table is in the catalog |
| Server.RecruitingClubsComplete | server.py:600-618 | every club whose name survives the round trip and that has a recruitment table is listed |
| Server.ReadRecruitmentFields | server.py:660-674 | the loop produces the read-back fields of the columns after `id` |
| Server.ReadRecruitmentField | server.py:662-674 | the loop body gives the read-back field of one column |
| Server.ReadApplicationFields | server.py:560-567 | the loop produces the event form's read-back fields |
| Server.FormServer.DropTableIfExists | server.py:152 | an unparsable name is a syntax error and changes nothing; otherwise the table, its catalog entry and its trigger go; events are unchanged; the invariant holds |
| Server.FormServer.CreateTable | server.py:167 | the error is `CreateTableError`: a reserved name or a duplicate column is reported and nothing changes; otherwise the new empty table joins the tables and the end of the catalog |
| Server.FormServer.ReplaceTable | server.py:151-167 | DROP then CREATE: the old table, its responses and its trigger go whatever happens; the new empty table is added exactly when `CreateTableError` reports nothing |
| Server.FormServer.InsertRow | server.py:505-507 | the result is the INSERT on the table as it was; the row is stored exactly when it is inserted, and otherwise nothing changes |
| Server.FormServer.CreateRecruitmentForm | server.py:139-173 | a club name whose table name does not parse gives a 500 and changes nothing; otherwise the old table and its responses are gone; when CREATE succeeds the new empty table replaces it; a reserved name or a duplicate column leaves the club with no form and a 500 |
| Server.FormServer.CheckRecruitmentStatus | server.py:175-197 | 404 for an unknown club, otherwise whether the club's table exists |
| Server.FormServer.GetRecruitmentResponses | server.py:199-226 | 404 for an unknown club, a syntax error for an unparsable table name, the records of every response, or SQLite's no-such-table error |
| Server.FormServer.GetRecruitmentFormDetails | server.py:633-686 | 404 for an unknown club or a missing form, otherwise the fields read back from the columns |
| Server.FormServer.SubmitRecruitmentApplication | server.py:689-724 | an unparsable table name is a 500 syntax error; the row is stored exactly when the uncapped INSERT succeeds; otherwise nothing changes and the reply is 500 with SQLite's message |
| Server.FormServer.CloseClubRecruitments | server.py:811-837 | an unparsable table name is a 500 syntax error and changes nothing; otherwise drops the club's table (whether or not it exists) and replies success |
| Server.FormServer.DownloadClubRecruitmentResponses | server.py:839-887 | the CSV rows of the club's table under the club's file name, a syntax error for an unparsable table name, or SQLite's error |
| Server.FormServer.GetRecruitingClubs | server.py:589-630 | the loop lists exactly the discovered clubs; every listed club has a form; every round-trippable club with a form is listed |
| Server.FormServer.CreateEvent | server.py:228-278 | when `CreateTableError` reports nothing: a new event id, the old table and its responses and trigger gone, a new empty table; otherwise (unparsable or reserved table name, duplicate column) a 500 and nothing changed, since the transaction rolls back |
| Server.FormServer.RecordEvent | server.py:245-270 | the event gets the next id and the name; its old table, responses and trigger go; a new empty table built from the fields takes their place |
| Server.FormServer.InsertEvent | server.py:245-249 | the event gets the next id, which no earlier event has |
| Server.FormServer.GetEventApplicationStatus | server.py:280-302 | 404 for an unknown event, otherwise whether its table exists |
| Server.FormServer.GetEventApplicationResponses | server.py:304-331 | 404, the records of every response, or SQLite's error |
| Server.FormServer.GetEventDetailsStudent | server.py:529-587 | 404, or the event with its read-back fields, none when its table is missing |
| Server.FormServer.SubmitEventApplication | server.py:477-527 | the trigger is put on the table (or 500 when it is missing); the row is stored exactly when the capped INSERT succeeds; a rejection leaves the table unchanged and is answered as `RejectionReply` says |
| Server.FormServer.CloseEventRegistrations | server.py:733-759 | drops the event's table and its trigger and replies success |
| Server.FormServer.DownloadEventResponses | server.py:761-809 | the CSV rows of the event's table, or SQLite's error |
| FormFields.SpliceOne | app2/src/Dashboard.js:83 | no contract of its own; `SpliceInRange`, `SplicePastEnd` and `SpliceNegative` state what one `splice` removes |
| FormFields.SpliceStart | app2/src/Dashboard.js:83 | `splice` starts at an in-range index, counts a negative index from the end clamped at 0, and clamps a large index to the length |
| FormFields.SpliceInRange | app2/src/Dashboard.js:81-85 | an in-range removal deletes exactly that element: length one less, earlier elements in place, later ones shifted down, the multiset less that element |
| FormFields.SplicePastEnd | app2/src/createevent.js:26-30 | an index at or past the end removes nothing |
| FormFields.SpliceNegative | app2/src/createevent.js:28 | a negative index removes the element it counts to from the end, or the first |
| FormFields.SpliceKeepsElements | app2/src/Dashboard.js:82-84 | removal never introduces an element |
| FormFields.LabelledFieldsHaveNames | app2/src/Dashboard.js:75 | built fields always give non-empty column names |
| FormFields.FieldBuilder.constructor | app2/src/createevent.js:16-17 | no fields and the empty draft `{'', text, false}` |
| FormFields.FieldBuilder.SetLabel | app2/src/Dashboard.js:296 | only the draft's label changes |
| FormFields.FieldBuilder.SetType | app2/src/Dashboard.js:301 | only the draft's type changes |
| FormFields.FieldBuilder.SetRequired | app2/src/Dashboard.js:312 | only the draft's required flag changes |
| FormFields.FieldBuilder.AddField | app2/src/Dashboard.js:74-79 | a blank label changes nothing; otherwise the untrimmed draft is appended after the unchanged fields and the draft resets; every field keeps a non-blank label |
| FormFields.FieldBuilder.RemoveField | app2/src/Dashboard.js:81-85 | the list becomes the `splice` result; the draft is unchanged; labels stay non-blank |
| DashboardPage.Dashboard.constructor | app2/src/Dashboard.js:10-13 | empty builder, no recruitment form known, editor closed |
| DashboardPage.Dashboard.ApplyRecruitmentStatus | app2/src/Dashboard.js:64-72 | the flag becomes the reported `exists`; false for a reply without it; unchanged when the fetch throws |
| DashboardPage.Dashboard.OpenRegistrationModal | app2/src/Dashboard.js:210 | opens the editor and nothing else |
| DashboardPage.Dashboard.CloseRegistrationModal | app2/src/Dashboard.js:327 | closes the editor and nothing else |
| DashboardPage.Dashboard.HandleCreateRecruitment | app2/src/Dashboard.js:87-106 | success sets the flag and closes the editor, keeping the fields; anything else changes nothing |
| DashboardPage.Dashboard.HandleCloseRecruitments | app2/src/Dashboard.js:145-161 | success clears the flag and alerts; anything else changes nothing |
| CreateEventPage.CreateEvent.constructor | app2/src/createevent.js:9-17 | empty name, no fields, the empty draft |
| CreateEventPage.CreateEvent.SetEventName | app2/src/createevent.js:74 | only the name changes |
| CreateEventPage.CreateEvent.Request | app2/src/createevent.js:37-46 | the request carries the name and the builder's fields in their current order |
| CreateEventPage.CreateEvent.HandleCreateEvent | app2/src/createevent.js:49-57 | success goes to the dashboard; an unsuccessful reply alerts the server's message; a thrown fetch does neither; page state untouched |
| EventPage.FieldsOf | app/src/viewevent.js:27 | an event reply without an array of fields gives no fields; an array is kept as sent, in order |
| EventPage.IsLimitRejection | app/src/viewevent.js:76 | no contract of its own; `SubmitFeedback` and `Flows.FullOnlyWhenCapped` state that the "full" text is shown exactly for this reply, and that the server sends it exactly when the trigger aborts |
| EventPage.SubmitFeedback | app/src/viewevent.js:70-84 | success text exactly on success; "full" text exactly for a 400 whose message mentions the limit; generic text exactly when the fetch throws; `Error: ` plus the server message otherwise |
| EventPage.ErrorLineDiffers | app/src/viewevent.js:79 | an `Error: ` line is none of the fixed messages |
| EventPage.ViewEvent.constructor | app/src/viewevent.js:9-15 | loading, no event, no fields, no answers, no message |
| EventPage.ViewEvent.Screen | app/src/viewevent.js:89-184 | the event is shown exactly when loading is over with no error and an event; its form is offered exactly when it has fields; the error screen exactly when loading is over with an error |
| EventPage.ViewEvent.FinishLoad | app/src/viewevent.js:17-41 | success stores the event and the array or nothing; a failed reply or fetch stores no event, no fields and its error text; loading ends; the screen follows |
| EventPage.ViewEvent.HandleInputChange | app/src/viewevent.js:47-53 | the named answer takes the value; every other answer keeps its value; keys stay distinct |
| EventPage.ViewEvent.BeginSubmit | app/src/viewevent.js:56-67 | marks the submission in flight, clears the message, sends the answers as they stand |
| EventPage.ViewEvent.FinishSubmit | app/src/viewevent.js:69-86 | the message for the outcome; the answers cleared only on success; not in flight |
| ClubApplicationPage.InputType | app/src/clubapplication.js:101-102 | `email` iff email, `number` iff number, `text` for every other type |
| ClubApplicationPage.PromptFor | app/src/clubapplication.js:95-106 | the asterisk and the `required` attribute both equal the field's flag; name and input type follow the field |
| ClubApplicationPage.Prompts | app/src/clubapplication.js:92-110 | one prompt per field, in field order; each keeps the field's name, takes its input type from `InputType`, and is starred and marked `required` exactly when the field is required |
| ClubApplicationPage.ClubApplication.Screen | app/src/clubapplication.js:70-110 | `Loading...` exactly while no club is known; otherwise the club with one prompt per recruitment field |
| ClubApplicationPage.ClubApplication.constructor | app/src/clubapplication.js:8-10 | no club, no fields, no answers |
| ClubApplicationPage.ClubApplication.FinishLoad | app/src/clubapplication.js:13-34 | club and fields stored together only when both replies succeed; otherwise nothing changes and a page without a club stays at `Loading...` |
| ClubApplicationPage.ClubApplication.HandleInputChange | app/src/clubapplication.js:37-43 | the named answer takes the value; every other answer keeps its value |
| ClubApplicationPage.ClubApplication.HandleSubmit | app/src/clubapplication.js:46-68 | success alerts and goes home; an unsuccessful reply and a thrown fetch alert their own texts and stay; answers kept |
| Flows.BuiltFormAsApplicantSeesIt | app/src/clubapplication.js:95-106 | an admin's fields reach the applicant in order, named by slug, as `number`/`email`/`text` inputs by the read-back rule, never marked required |
| Flows.ClubApplicationAccepted | server.py:709-715 | a submission whose keys come from the read-back form is stored exactly when it is non-empty and answers every field the admin made required |
| Flows.FullOnlyWhenCapped | app/src/viewevent.js:75-80 | the page says registrations are full exactly when the trigger stopped the INSERT; a stored application gets the success text |
| Flows.RegistrationOfferedIff | app/src/viewevent.js:180-184 | the event page offers its form exactly when the event's table exists and was built from at least one field |

## Left out

- HTTP and JSON. Flask routing, CORS, JSON encoding and every `fetch` are left out. Request bodies are parameters; replies are `Reply` values; a `fetch` that throws is the `Threw` outcome.
- Malformed request bodies. These are a missing `clubName`, `eventName` or `fields` key, a JSON `null` body, and non-string values.
- SQLite identifier syntax for columns. The slug of each label is pasted into CREATE TABLE as is (server.py:163), and the model creates one column per field, named by that slug, whatever the slug holds. SQLite does not. SQLite reads a column definition as a name followed by a type made of any further words, so a slug that is not a bare identifier either fails with a syntax error, and the route answers 500, or makes a column named by its leading identifier with the rest taken into the declared type. `e-mail`, `why_join?`, `student's_name`, `year_(1-4)` and `2nd_choice` fail. `student's_father's_name` makes a column `student` of type `'s_father' s_name TEXT`, and `phone_[optional]` a column `phone_` of type `[optional] TEXT`; the read-back form then shows those leading names, and two such labels with the same leading word fail as a duplicate column. So does a keyword SQLite will not take as a name, such as `order`, `group`, `select` or `default`. Keywords it falls back on as names, such as `key`, `action`, `replace`, `view` or `row`, are accepted. A comma splits a label into several columns: `Name, Age` gives the columns `name` and `_age`, so the read-back form has two fields where `Schema.Columns` has one. A submitted key that is not a bare identifier makes the INSERT a syntax error (server.py:505, 713); the model reports it as no such column. The model rejects a CREATE only for an unparsable table name, a reserved table name or a duplicate column name.
- The text of SQLite's parse errors. Every statement whose pasted table name is not a bare identifier fails with the one message `UnparsableName`; SQLite's message names the offending token.
- Table names that parse as something else. An owner name whose slug holds `--` or `/*` after a bare prefix, or the shape `main.x`, would make SQLite act on another table. The model treats every name that is not a bare identifier as a syntax error that changes nothing.
- Case-insensitive identifiers. SQLite matches column names case-insensitively, and the model compares them exactly. Built columns are lower-case, so only a submitted key with capitals is affected.
- An explicit `id` key in a submission. SQLite would accept it as the row id. The model reports it as no such column.
- Type affinity. A `REAL` column stores a numeric string as a number; the model stores every value as the submitted string, and CSV shows it as sent.
- Character-level CSV quoting and file delivery. Python's `csv.writer` quoting, `send_file`, the in-memory buffers and UTF-8 encoding are out. The model stops at the rows written.
- Event metadata. The description, image, date, time, venue and club id are stored and returned by the server but play no part in the forms. The `events` table is reduced to id and name.
- The `sqlite_master` order. It is modelled as creation order, with a dropped table's entry removed.
- Concurrency. Two applicants racing past the trigger's count are not modelled; the model is sequential.
- Non-ASCII case mapping. `lower`, `capitalize` and `title` map only ASCII letters.
- Login, sessions and `localStorage`. So are the dashboard's event list, club details and response views, the pages that only fetch and render, rendering and animation.
- Browser validation. The `required` attribute on the event page's inputs and the browser's check of `email` and `number` inputs are out. The model lets any answers through to the server.
- `GET /api/club/<club_id>`. The club application page's club lookup is an input to the page model.
- EventPage.ViewEvent.FinishLoad: an event object that is not itself well formed is stored as received. The page renders whatever it gets.
