/**
  `handleSubmit` of `CreateChoreForm` in App.tsx: the entered fields become
  the creation payload `{ name, description?, frequency, dueDate }`. The
  due date is the instant the form's date normalisation produced for the
  chosen calendar day; that conversion is not part of this model.
 */
module CreateForm {
  import opened Wrappers

  datatype Payload = Payload(name: string, description: Option<string>, frequency: int, dueDate: string)

  /** `text || undefined`: the empty string, the only falsy string, becomes absent. */
  function Optional(text: string): (r: Option<string>)
    ensures r == None <==> text == ""
    ensures r.Some? ==> r.value == text
  {
    if text == "" then None else Some(text)
  }

  /** The reading that undoes `Optional`: an absent text is the empty string. */
  function Entered(d: Option<string>): string {
    match d
    case None => ""
    case Some(text) => text
  }

  /** `Entered` undoes `Optional`: the description typed is recovered from the payload. */
  lemma EnteredOptional(text: string)
    ensures Entered(Optional(text)) == text
  {
  }

  /**
    The payload of a submission: name and frequency pass through, the
    description is absent exactly when it was left empty, and the due date
    is the normalised instant.
   */
  function SubmitPayload(name: string, description: string, frequency: int, dueInstant: string): (p: Payload)
    ensures p.name == name && p.frequency == frequency && p.dueDate == dueInstant
    ensures p.description == None <==> description == ""
    ensures Entered(p.description) == description
  {
    Payload(name, Optional(description), frequency, dueInstant)
  }
}
