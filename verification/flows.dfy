/** How the pages and the form store fit together: what an applicant sees of a
    form an admin built, what a submission from that form meets in the
    table, and how the event page reads the server's replies. */
module Flows {
  import opened Text
  import opened Naming
  import opened Records
  import opened Schema
  import opened Store
  import opened Server
  import opened EventPage
  import opened ClubApplicationPage

  /** The applicant's inputs for a recruitment form built from `fields`: one
      per built field, in order, named by the slugged label; a `number` input
      exactly for number fields, an `email` input exactly for the other fields
      whose slug contains `email`, a `text` input otherwise; and neither the
      asterisk nor the `required` attribute, whatever the admin chose. */
  lemma BuiltFormAsApplicantSeesIt(fields: seq<FieldSpec>)
    ensures |Prompts(RecruitmentFields(Columns(fields)))| == |fields|
    ensures forall i | 0 <= i < |fields| ::
              var prompt := Prompts(RecruitmentFields(Columns(fields)))[i];
              && prompt.name == Slug(fields[i].labelText)
              && (prompt.inputType == "number" <==> fields[i].fieldType == "number")
              && (prompt.inputType == "email" <==>
                    fields[i].fieldType != "number" && Contains(Slug(fields[i].labelText), "email"))
              && (prompt.inputType == "text" <==>
                    fields[i].fieldType != "number" && !Contains(Slug(fields[i].labelText), "email"))
              && !prompt.marked && !prompt.required
  {
    RecruitmentReadBack(fields);
  }

  /** A club application whose keys all come from the inputs of the form read
      back from the table is stored exactly when it is not empty and answers
      every field the admin made required: the page does not insist on those
      fields, but the table's NOT NULL columns do. */
  lemma ClubApplicationAccepted(fields: seq<FieldSpec>, t: Table, data: seq<Entry>)
    requires WellFormed(t) && t.columns == Columns(fields)
    requires forall k | k in Keys(data) ::
               exists i :: 0 <= i < |fields| && RecruitmentFields(Columns(fields))[i].name == k
    ensures Insert(t, data, false).Inserted? <==>
              data != [] &&
              forall i | 0 <= i < |fields| :: fields[i].required ==> Slug(fields[i].labelText) in Keys(data)
  {
    RecruitmentReadBack(fields);
    InsertSucceedsIff(t, data, false);
    forall k | k in Keys(data)
      ensures IsDataColumn(t.columns, k)
    {
      var i :| 0 <= i < |fields| && RecruitmentFields(Columns(fields))[i].name == k;
      assert t.columns[i + 1].name == k;
    }
    forall j | 1 <= j < |t.columns|
      ensures Lookup(data, t.columns[j].name).Some? <==> Slug(fields[j - 1].labelText) in Keys(data)
    {
      LookupFindsKeys(data, t.columns[j].name);
    }
    if forall i | 0 <= i < |fields| :: fields[i].required ==> Slug(fields[i].labelText) in Keys(data) {
      forall j | 1 <= j < |t.columns|
        ensures t.columns[j].notNull ==> Lookup(data, t.columns[j].name).Some?
      {
        assert fields[j - 1].required == t.columns[j].notNull;
      }
    } else {
      var i :| 0 <= i < |fields| && fields[i].required && Slug(fields[i].labelText) !in Keys(data);
      assert t.columns[i + 1].notNull && Lookup(data, t.columns[i + 1].name).None?;
    }
  }

  /** The event page tells the applicant that registrations are full exactly
      when the server's INSERT was stopped by the registration trigger, and
      never for any other rejection; a stored application gets the success
      text. */
  lemma FullOnlyWhenCapped(t: string, e: InsertError)
    ensures SubmitFeedback(Received(RejectionReply(t, e))) == FullMessage <==> e.LimitReached?
    ensures SubmitFeedback(Received(Ok(ApplicationSubmitted))) == SubmittedMessage
  {
    if e.LimitReached? {
      LimitReplyMentionsLimit();
    }
  }

  /** An event page offers its registration form exactly when the event's
      form table exists and was created from at least one field: a closed
      event, or one created without fields, shows "Registration is not
      available". */
  lemma RegistrationOfferedIff(info: EventInfo, tables: map<string, Table>, t: string, eventFields: seq<FieldSpec>)
    requires t in tables ==> tables[t].columns == Columns(eventFields)
    ensures var fields := if t in tables then ApplicationFields(tables[t].columns) else [];
            |FieldsOf(EventPayload(info, Some(fields)))| > 0 <==> t in tables && eventFields != []
  {
    if t in tables {
      ApplicationReadBack(eventFields);
    }
  }
}
