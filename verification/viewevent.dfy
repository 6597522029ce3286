/** The student's event page (app/src/viewevent.js): loading the event and its
    application fields, the answers typed so far, and the message shown after
    a submission. */
module EventPage {
  import opened Text
  import opened Records
  import opened Schema
  import opened Store

  /** The `event` object of the details reply (the parts the form uses). */
  datatype EventInfo = EventInfo(eventId: nat, eventName: string)

  /** A successful details reply. `applicationFields` is `None` when the reply
      carries something other than an array there. */
  datatype EventPayload = EventPayload(event: EventInfo, applicationFields: Option<seq<ApplicationField>>)

  const SubmittedMessage := "Application submitted successfully!"
  const FullMessage := "Sorry, " + "registrations are full for this event. Maximum limit of participants reached."
  const SubmitErrorMessage := "An error " + "occurred while submitting the application"
  const LoadFailedMessage := "Failed to fetch event details"
  const LoadErrorMessage := "An error occurred while fetching event details"

  /** `Array.isArray(data.applicationFields) ? data.applicationFields : []` */
  function FieldsOf(payload: EventPayload): (fields: seq<ApplicationField>)
    ensures payload.applicationFields.None? ==> fields == []
    ensures payload.applicationFields.Some? ==> fields == payload.applicationFields.value
  {
    if payload.applicationFields.Some? then payload.applicationFields.value else []
  }

  /** The reply the page reads as "registrations are full": status 400 with a
      message that mentions the registration limit. */
  predicate IsLimitRejection(reply: Reply<string>) {
    reply.Fail? && reply.status == 400 && Contains(reply.message, LimitPhrase)
  }

  /** The message shown after a submission. Each outcome has its own message:
      the success text exactly for a successful reply, the "full" text exactly
      for the limit rejection, the generic text exactly for a failed fetch,
      and the server's message after "Error: " for every other reply. */
  function SubmitFeedback(outcome: Outcome<string>): (message: string)
    ensures message == SubmittedMessage <==> outcome.Received? && outcome.reply.Ok?
    ensures message == FullMessage <==> outcome.Received? && IsLimitRejection(outcome.reply)
    ensures message == SubmitErrorMessage <==> outcome.Threw?
    ensures outcome.Received? && outcome.reply.Fail? && !IsLimitRejection(outcome.reply) ==>
              message == "Error: " + outcome.reply.message
  {
    match outcome
    case Received(Ok(_)) => SubmittedMessage
    case Received(Fail(status, m)) =>
      if status == 400 && Contains(m, LimitPhrase) then FullMessage
      else ErrorLineDiffers(m); "Error: " + m
    case Threw => SubmitErrorMessage
  }

  /** What the page renders, in the order the component tests its state. */
  datatype Screen = Spinner | ErrorScreen(message: string) | NoEventScreen | EventScreen(registrationOpen: bool)

  class ViewEvent {
    var event: Option<EventInfo>
    var applicationFields: seq<ApplicationField>
    var formData: seq<Entry>
    var isSubmitting: bool
    var submitMessage: string
    var isLoading: bool
    var error: Option<string>

    ghost predicate Valid()
      reads this
    {
      DistinctKeys(formData)
    }

    /** The page opens loading, with no event, no fields and no answers. */
    constructor()
      ensures Valid()
      ensures event.None? && applicationFields == [] && formData == []
      ensures !isSubmitting && submitMessage == "" && isLoading && error.None?
    {
      event := None;
      applicationFields := [];
      formData := [];
      isSubmitting := false;
      submitMessage := "";
      isLoading := true;
      error := None;
    }

    /** The spinner while loading, then the error, then "No event found", then
        the event with its registration form when there are fields to fill
        in. */
    function Screen(): (screen: Screen)
      reads this
      ensures screen.EventScreen? <==> !isLoading && error.None? && event.Some?
      ensures screen.EventScreen? ==> (screen.registrationOpen <==> |applicationFields| > 0)
      ensures screen.ErrorScreen? <==> !isLoading && error.Some?
    {
      if isLoading then Spinner
      else if error.Some? then ErrorScreen(error.value)
      else if event.None? then NoEventScreen
      else EventScreen(|applicationFields| > 0)
    }

    /** The details reply arrives. Success stores the event and the
        normalised fields and clears the error; an unsuccessful reply or a
        failed fetch stores no event, no fields and its own error text.
        Loading ends in every case. */
    method FinishLoad(outcome: Outcome<EventPayload>)
      modifies this
      ensures !isLoading
      ensures outcome.Received? && outcome.reply.Ok? ==>
                && event == Some(outcome.reply.value.event) && error.None?
                && applicationFields == FieldsOf(outcome.reply.value)
                && Screen() == EventScreen(|FieldsOf(outcome.reply.value)| > 0)
      ensures outcome.Received? && outcome.reply.Fail? ==>
                event.None? && applicationFields == [] && Screen() == ErrorScreen(LoadFailedMessage)
      ensures outcome.Threw? ==>
                event.None? && applicationFields == [] && Screen() == ErrorScreen(LoadErrorMessage)
      ensures formData == old(formData) && isSubmitting == old(isSubmitting) && submitMessage == old(submitMessage)
    {
      match outcome {
        case Received(Ok(payload)) =>
          event := Some(payload.event);
          applicationFields := FieldsOf(payload);
          error := None;
        case Received(Fail(_, _)) =>
          error := Some(LoadFailedMessage);
          event := None;
          applicationFields := [];
        case Threw =>
          error := Some(LoadErrorMessage);
          event := None;
          applicationFields := [];
      }
      isLoading := false;
    }

    /** `handleInputChange`: the named answer takes the new value; every other
        answer keeps its value. */
    method HandleInputChange(name: string, value: string)
      requires Valid()
      modifies this
      ensures Valid()
      ensures formData == Put(old(formData), name, value)
      ensures Lookup(formData, name) == Some(value)
      ensures forall other | other != name :: Lookup(formData, other) == Lookup(old(formData), other)
    {
      PutKeys(formData, name, value);
      forall other | other != name
        ensures Lookup(Put(formData, name, value), other) == Lookup(formData, other)
      {
        PutLookup(formData, name, value, other);
      }
      PutLookup(formData, name, value, name);
      formData := Put(formData, name, value);
    }

    /** The start of `handleSubmit`: mark the submission in flight, clear the
        message, and send the answers as they stand. */
    method BeginSubmit() returns (body: seq<Entry>)
      modifies this
      ensures isSubmitting && submitMessage == ""
      ensures body == formData && formData == old(formData)
      ensures applicationFields == old(applicationFields) && event == old(event)
    {
      isSubmitting := true;
      submitMessage := "";
      body := formData;
    }

    /** The end of `handleSubmit`: the message for the outcome, the answers
        cleared only after a success, and the submission no longer in
        flight. */
    method FinishSubmit(outcome: Outcome<string>)
      requires Valid()
      modifies this
      ensures Valid()
      ensures !isSubmitting && submitMessage == SubmitFeedback(outcome)
      ensures outcome.Received? && outcome.reply.Ok? ==> formData == []
      ensures !(outcome.Received? && outcome.reply.Ok?) ==> formData == old(formData)
      ensures applicationFields == old(applicationFields) && event == old(event)
    {
      match outcome {
        case Received(Ok(_)) =>
          submitMessage := SubmittedMessage;
          formData := [];
        case Received(Fail(status, message)) =>
          if status == 400 && Contains(message, LimitPhrase) {
            submitMessage := FullMessage;
          } else {
            submitMessage := "Error: " + message;
          }
        case Threw =>
          submitMessage := SubmitErrorMessage;
      }
      isSubmitting := false;
    }
  }

  // ---------------------------------------------------------------------------
  // Lemmas

  /** An "Error: " line is none of the page's fixed messages: it starts with
      a different letter. */
  lemma ErrorLineDiffers(m: string)
    ensures "Error: " + m != SubmittedMessage
    ensures "Error: " + m != FullMessage
    ensures "Error: " + m != SubmitErrorMessage
  {
    assert ("Error: " + m)[0] == 'E';
    assert SubmittedMessage[0] == 'A';
  }
}
