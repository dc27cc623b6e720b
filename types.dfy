/** The records of the flag explorer and the shapes of the values its
    asynchronous calls settle with. */
module Types {

  /** A value or its absence (a TypeScript `T | null`). */
  datatype Option<+T> = None | Some(value: T)

  /** One entry of the fixed country catalog. */
  datatype Country = Country(name: string, code: string)

  /** One generated quiz question. Nothing checks that `options` has four
      entries or holds `correctAnswer`, so neither is assumed. */
  datatype QuizQuestion = QuizQuestion(
    countryName: string,
    countryCode: string,
    options: seq<string>,
    correctAnswer: string)

  /** What a `catch (err)` clause receives: an `Error` object with its
      message, or any other thrown value. */
  datatype Thrown = ErrorInstance(message: string) | OtherValue

  /** How an awaited call settled: with a value, or by throwing. */
  datatype Settled<+T> = Resolved(value: T) | Rejected(reason: Thrown)
}
