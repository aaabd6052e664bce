/** The thrown JavaScript errors the pipeline inspects, and the test that
    recognises a rate-limit error by its message. */
module Errors {
  import opened Text

  /** A thrown error: its `message` (an absent message reads as "") and
      whether it is a `SyntaxError`. */
  datatype Thrown = Thrown(message: string, syntax: bool)

  /** The message names quota exhaustion or HTTP 429. */
  predicate IsRateLimited(message: string) {
    Contains(message, "RESOURCE_EXHAUSTED") || Contains(message, "429")
  }

  /** The rejection of a failed file read: an event with no message. */
  const ReadFailure: Thrown := Thrown("", false)

  /** The `TypeError` thrown by calling `.trim()` on an absent `text`.
      Written in four pieces so that `MissingTextLetters` can check each. */
  const MissingTextMessage: string :=
    "Cannot read " + "properties of " + "undefined " + "(reading 'trim')"
  const MissingTextFailure: Thrown := Thrown(MissingTextMessage, false)

  lemma MissingTextLetters()
    ensures '4' !in MissingTextMessage && 'R' !in MissingTextMessage
  {
    assert '4' !in "Cannot read " && '4' !in "properties of ";
    assert '4' !in "undefined " && '4' !in "(reading 'trim')";
    assert 'R' !in "Cannot read " && 'R' !in "properties of ";
    assert 'R' !in "undefined " && 'R' !in "(reading 'trim')";
  }

  /** Neither the failed read nor the missing-text `TypeError` looks like a
      rate limit. */
  lemma LocalFailuresNotRateLimited()
    ensures !IsRateLimited(ReadFailure.message)
    ensures !IsRateLimited(MissingTextFailure.message)
  {
    MissingTextLetters();
    MissingFirstCharNotContained(MissingTextMessage, "429");
    MissingFirstCharNotContained(MissingTextMessage, "RESOURCE_EXHAUSTED");
  }
}
