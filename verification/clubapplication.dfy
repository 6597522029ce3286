/** The student's club application page (app/src/clubapplication.js): it
    loads the club and its recruitment form, shows one input per field, keeps
    the answers typed so far and reports the submission's outcome. */
module ClubApplicationPage {
  import opened Records
  import opened Schema
  import Server

  /** The input type for a field: `email` and `number` pass through, and every
      other type, known or not, falls back to `text`. */
  function InputType(fieldType: string): (inputType: string)
    ensures inputType == "email" <==> fieldType == "email"
    ensures inputType == "number" <==> fieldType == "number"
    ensures inputType == "text" <==> fieldType != "email" && fieldType != "number"
  {
    if fieldType == "email" then "email"
    else if fieldType == "number" then "number"
    else "text"
  }

  /** One rendered field: the label, whether the label carries the red
      asterisk, and the input's name, type and `required` attribute. */
  datatype Prompt = Prompt(caption: string, marked: bool, name: string, inputType: string, required: bool)

  /** The asterisk and the `required` attribute are both the field's own
      `required` flag, so a field is marked exactly when the browser insists
      on it. */
  function PromptFor(field: RecruitmentField): (prompt: Prompt)
    ensures prompt.marked == prompt.required == field.required
    ensures prompt.name == field.name && prompt.inputType == InputType(field.fieldType)
  {
    Prompt(field.labelText, field.required, field.name, InputType(field.fieldType), field.required)
  }

  /** One prompt per field, in field order. */
  function Prompts(fields: seq<RecruitmentField>): (prompts: seq<Prompt>)
    ensures |prompts| == |fields|
    ensures forall i | 0 <= i < |fields| ::
              && prompts[i].name == fields[i].name
              && prompts[i].marked == fields[i].required && prompts[i].required == fields[i].required
              && prompts[i].inputType == InputType(fields[i].fieldType)
  {
    seq(|fields|, i requires 0 <= i < |fields| => PromptFor(fields[i]))
  }

  /** `Loading...` until the club is known, then the club and its form. */
  datatype Screen = Loading | FormScreen(club: Server.Club, prompts: seq<Prompt>)

  /** What the page does after a submission: the alert, and whether it goes
      back to the home page. */
  datatype Response = Response(alert: string, goHome: bool)

  const SubmittedAlert := "Application submitted successfully!"
  const FailedAlert := "Application submission failed."
  const ErrorAlert := "Error submitting application."

  class ClubApplication {
    var clubDetails: Option<Server.Club>
    var recruitmentFields: seq<RecruitmentField>
    var formData: seq<Entry>

    ghost predicate Valid()
      reads this
    {
      DistinctKeys(formData)
    }

    /** The page opens with no club, no fields and no answers. */
    constructor()
      ensures Valid()
      ensures clubDetails.None? && recruitmentFields == [] && formData == []
    {
      clubDetails := None;
      recruitmentFields := [];
      formData := [];
    }

    /** `Loading...` exactly while no club is known; otherwise one prompt per
        recruitment field. */
    function Screen(): (screen: Screen)
      reads this
      ensures screen.Loading? <==> clubDetails.None?
      ensures screen.FormScreen? ==> screen.club == clubDetails.value && |screen.prompts| == |recruitmentFields|
    {
      if clubDetails.None? then Loading
      else FormScreen(clubDetails.value, Prompts(recruitmentFields))
    }

    /** Both lookups have returned (the form lookup is made only when the club
        lookup did not throw). The club and its fields are stored together,
        and only when both replies succeeded; otherwise the page keeps what it
        had, so a page that had nothing stays at `Loading...`. */
    method FinishLoad(club: Outcome<Server.Club>, fields: Outcome<seq<RecruitmentField>>)
      modifies this
      ensures club.Received? && club.reply.Ok? && fields.Received? && fields.reply.Ok? ==>
                clubDetails == Some(club.reply.value) && recruitmentFields == fields.reply.value
      ensures !(club.Received? && club.reply.Ok? && fields.Received? && fields.reply.Ok?) ==>
                clubDetails == old(clubDetails) && recruitmentFields == old(recruitmentFields)
      ensures old(clubDetails).None? && !(club.Received? && club.reply.Ok? && fields.Received? && fields.reply.Ok?) ==>
                Screen() == Loading
      ensures formData == old(formData)
    {
      if club.Received? && club.reply.Ok? && fields.Received? && fields.reply.Ok? {
        clubDetails := Some(club.reply.value);
        recruitmentFields := fields.reply.value;
      }
    }

    /** `handleInputChange`: the named answer takes the new value; every other
        answer keeps its value. */
    method HandleInputChange(name: string, value: string)
      requires Valid()
      modifies this
      ensures Valid()
      ensures formData == Put(old(formData), name, value)
      ensures Lookup(formData, name) == Some(value)
      ensures forall other | other != name :: Lookup(formData, other) == Lookup(old(formData), other)
      ensures clubDetails == old(clubDetails) && recruitmentFields == old(recruitmentFields)
    {
      PutKeys(formData, name, value);
      forall other | other != name
        ensures Lookup(Put(formData, name, value), other) == Lookup(formData, other)
      {
        PutLookup(formData, name, value, other);
      }
      PutLookup(formData, name, value, name);
      formData := Put(formData, name, value);
    }

    /** `handleSubmit`'s reply handling, after sending `formData`: success
        alerts and goes home, an unsuccessful reply and a failed fetch each
        alert their own text and stay. The answers are kept in every case. */
    method HandleSubmit(outcome: Outcome<string>) returns (response: Response)
      ensures response.goHome <==> outcome.Received? && outcome.reply.Ok?
      ensures outcome.Received? && outcome.reply.Ok? ==> response.alert == SubmittedAlert
      ensures outcome.Received? && outcome.reply.Fail? ==> response.alert == FailedAlert
      ensures outcome.Threw? ==> response.alert == ErrorAlert
    {
      match outcome {
        case Received(Ok(_)) => response := Response(SubmittedAlert, true);
        case Received(Fail(_, _)) => response := Response(FailedAlert, false);
        case Threw => response := Response(ErrorAlert, false);
      }
    }
  }
}
