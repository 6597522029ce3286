/** The event-creation page (app2/src/createevent.js): the event name, the
    application-form builder, the request it sends and what it does with the
    reply. */
module CreateEventPage {
  import opened Records
  import opened Schema
  import opened FormFields

  /** The parts of the create request the form store uses. */
  datatype EventRequest = EventRequest(eventName: string, eventFields: seq<FieldSpec>)

  /** Where the page goes and what it alerts after the create request. */
  datatype Response = Response(navigateTo: Option<string>, alert: Option<string>)

  class CreateEvent {
    /** `eventFields` and `newField`. */
    const eventFields: FieldBuilder
    var eventName: string

    ghost predicate Valid()
      reads this, eventFields
    {
      eventFields.Valid()
    }

    /** The page opens with no fields, the empty draft and an empty name. */
    constructor()
      ensures fresh(eventFields) && Valid()
      ensures eventFields.fields == [] && eventFields.draft == EmptyDraft && eventName == ""
    {
      eventFields := new FieldBuilder();
      eventName := "";
    }

    method SetEventName(name: string)
      modifies this
      ensures eventName == name
    {
      eventName := name;
    }

    /** The request body: the name and the builder's fields, in their current
        order. */
    method Request() returns (request: EventRequest)
      ensures request.eventName == eventName
      ensures |request.eventFields| == |eventFields.fields|
      ensures forall i | 0 <= i < |request.eventFields| :: request.eventFields[i] == eventFields.fields[i]
    {
      request := EventRequest(eventName, eventFields.fields);
    }

    /** `handleCreateEvent`'s reply handling: success goes to the dashboard,
        an unsuccessful reply alerts the server's message, a failed fetch does
        neither; the page's own state is never touched. */
    method HandleCreateEvent(outcome: Outcome<nat>) returns (response: Response)
      ensures outcome.Received? && outcome.reply.Ok? ==> response == Response(Some("/dashboard"), None)
      ensures outcome.Received? && outcome.reply.Fail? ==> response == Response(None, Some(outcome.reply.message))
      ensures outcome.Threw? ==> response == Response(None, None)
    {
      match outcome {
        case Received(Ok(_)) => response := Response(Some("/dashboard"), None);
        case Received(Fail(_, message)) => response := Response(None, Some(message));
        case Threw => response := Response(None, None);
      }
    }
  }
}
