/** The suggestion form: a text field capped at 30 characters whose content
    is trimmed and handed on only when something is left. */
module Input {
  import opened BotNames
  import opened StringOps

  /** The field's `maxLength`. */
  const MaxLength: nat := 30

  /** What a submit hands to the callback: the trimmed field, unless nothing
      but whitespace was typed. */
  function Submission(field: string): (r: Option<string>)
    ensures r.Some? <==> !AllWhitespace(field)
    ensures r.Some? ==> r.value != "" && |r.value| <= |field|
  {
    if Trim(field) != "" then Some(Trim(field)) else None
  }

  /** A submission happens exactly when the field holds a non-whitespace
      character; what is submitted is non-empty, starts and ends with a
      non-whitespace character, is what is left of the field once a
      whitespace-only prefix and suffix are cut off, and so fits the cap when
      the field does. */
  lemma SubmissionGate(field: string)
    ensures Submission(field).Some? <==> !AllWhitespace(field)
    ensures Submission(field).Some? ==>
      var t := Submission(field).value;
      t != "" && !IsWhitespace(t[0]) && !IsWhitespace(t[|t| - 1]) &&
      (exists k :: WhitespaceAround(field, k, t)) &&
      (|field| <= MaxLength ==> |t| <= MaxLength)
  {
    var t := Trim(field);
    assert Submission(field) == if t != "" then Some(t) else None;
  }

  /** The field's state. */
  class NameField {
    var name: string

    ghost predicate Valid()
      reads this
    {
      |name| <= MaxLength
    }

    constructor ()
      ensures Valid() && name == ""
    {
      name := "";
    }

    /** Typing or pasting: `setName` with the edited value, capped by the
        browser's `maxLength`. The browser refuses or clips an over-long
        edit; this is abstracted as keeping the first `MaxLength` characters
        of the would-be value. */
    method Change(input: string)
      modifies this
      ensures Valid()
      ensures name == if |input| <= MaxLength then input else input[..MaxLength]
    {
      name := if |input| <= MaxLength then input else input[..MaxLength];
    }

    /** `handleSubmit`: returns what is passed to `onSubmit`, if anything; the
        field is emptied after a submission and kept otherwise. */
    method HandleSubmit() returns (submitted: Option<string>)
      requires Valid()
      modifies this
      ensures Valid()
      ensures submitted == Submission(old(name))
      ensures submitted.Some? ==> name == "" && 0 < |submitted.value| <= MaxLength
      ensures submitted.None? ==> name == old(name)
    {
      var trimmed := Trim(name);
      if trimmed != "" {
        submitted := Some(trimmed);
        name := "";
      } else {
        submitted := None;
      }
    }
  }
}
