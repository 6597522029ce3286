/** The recruitment part of the club dashboard (app2/src/Dashboard.js): the
    recruitment-form builder, whether the club has a recruitment form, and
    whether the form editor is open. */
module DashboardPage {
  import opened Records
  import opened FormFields

  class Dashboard {
    /** `registrationFields` and `newField`. */
    const registration: FieldBuilder
    var recruitmentExists: bool
    var showRegistrationModal: bool

    ghost predicate Valid()
      reads this, registration
    {
      registration.Valid()
    }

    /** The dashboard opens with an empty builder, no recruitment form known
        and the editor closed. */
    constructor()
      ensures fresh(registration) && Valid()
      ensures registration.fields == [] && registration.draft == EmptyDraft
      ensures !recruitmentExists && !showRegistrationModal
    {
      registration := new FieldBuilder();
      recruitmentExists := false;
      showRegistrationModal := false;
    }

    /** `checkRecruitmentStatus`: the flag becomes the reply's `exists`. A
        reply without it (the 404 for an unknown club) leaves `undefined`,
        which the page treats as false; a failed fetch changes nothing. */
    method ApplyRecruitmentStatus(outcome: Outcome<bool>)
      modifies this
      ensures outcome.Received? && outcome.reply.Ok? ==> recruitmentExists == outcome.reply.value
      ensures outcome.Received? && outcome.reply.Fail? ==> !recruitmentExists
      ensures outcome.Threw? ==> recruitmentExists == old(recruitmentExists)
      ensures showRegistrationModal == old(showRegistrationModal)
    {
      match outcome {
        case Received(Ok(found)) => recruitmentExists := found;
        case Received(Fail(_, _)) => recruitmentExists := false;
        case Threw =>
      }
    }

    /** The button that opens the form editor. */
    method OpenRegistrationModal()
      modifies this
      ensures showRegistrationModal && recruitmentExists == old(recruitmentExists)
    {
      showRegistrationModal := true;
    }

    /** The editor's Cancel button. */
    method CloseRegistrationModal()
      modifies this
      ensures !showRegistrationModal && recruitmentExists == old(recruitmentExists)
    {
      showRegistrationModal := false;
    }

    /** `handleCreateRecruitment`, after the request carrying the builder's
        fields: success records that the form exists and closes the editor,
        keeping the fields; anything else changes nothing. */
    method HandleCreateRecruitment(outcome: Outcome<string>)
      modifies this
      ensures outcome.Received? && outcome.reply.Ok? ==> recruitmentExists && !showRegistrationModal
      ensures !(outcome.Received? && outcome.reply.Ok?) ==>
                recruitmentExists == old(recruitmentExists) && showRegistrationModal == old(showRegistrationModal)
      ensures registration.fields == old(registration.fields) && registration.draft == old(registration.draft)
    {
      if outcome.Received? && outcome.reply.Ok? {
        recruitmentExists := true;
        showRegistrationModal := false;
      }
    }

    /** `handleCloseRecruitments`: success clears the flag and alerts;
        anything else changes nothing and alerts nothing. */
    method HandleCloseRecruitments(outcome: Outcome<string>) returns (alert: Option<string>)
      modifies this
      ensures outcome.Received? && outcome.reply.Ok? ==>
                !recruitmentExists && alert == Some("Recruitment closed successfully")
      ensures !(outcome.Received? && outcome.reply.Ok?) ==>
                recruitmentExists == old(recruitmentExists) && alert == None
      ensures showRegistrationModal == old(showRegistrationModal)
    {
      alert := None;
      if outcome.Received? && outcome.reply.Ok? {
        recruitmentExists := false;
        alert := Some("Recruitment closed successfully");
      }
    }
  }
}
