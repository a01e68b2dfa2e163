/** The password-hashing library, kept abstract: the model is handed the two
    calls the service makes and assumes nothing about them except, where a
    property needs it, that a hash verifies against the password it came from. */
module Bcrypt {
  import opened Wrappers
  import opened Errors
  import opened Models

  /** `generate` is `bcrypt.GenerateFromPassword` at the default cost (salt
      included, so each use of the model may be handed a different one);
      `compare` is "`bcrypt.CompareHashAndPassword` returned nil". */
  datatype Hasher = Hasher(generate: string -> Result<Bytes, Error>, compare: (Bytes, string) -> bool)

  /** A freshly generated hash verifies against its own password. */
  ghost predicate Sound(h: Hasher)
  {
    forall password :: h.generate(password).Ok? ==> h.compare(h.generate(password).value, password)
  }
}
