/**
 * `BookNotFoundException`: the service's one domain error, carrying the id
 * that was looked up. Its message is a fixed prefix followed by the id in
 * decimal.
 */
module BookNotFound {
  import DecimalText

  const MessagePrefix: string := "Book not found with id: "

  datatype BookNotFoundException = BookNotFoundException(id: int)

  /** The exception's message, as its constructor builds it from the id. */
  function NotFoundMessage(id: int): (m: string)
    ensures |MessagePrefix| < |m| && m[..|MessagePrefix|] == MessagePrefix
    ensures m[|MessagePrefix|..] == DecimalText.IntToString(id)
  {
    MessagePrefix + DecimalText.IntToString(id)
  }

  /** The message determines the id: distinct ids give distinct messages. */
  lemma MessageInjective(a: int, b: int)
    requires NotFoundMessage(a) == NotFoundMessage(b)
    ensures a == b
  {
    assert NotFoundMessage(a)[|MessagePrefix|..] == NotFoundMessage(b)[|MessagePrefix|..];
    DecimalText.IntToStringInjective(a, b);
  }

  /** The message for id 2, as the controller tests expect it. */
  lemma MessageForTwo()
    ensures NotFoundMessage(2) == "Book not found with id: 2"
  {
  }
}
