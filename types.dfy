/** The quiz's value types (types.ts) and the optional-value wrapper that stands
    for TypeScript's `T | null`. */
module Types {

  /** `null` is None; any other value is Some. */
  datatype Option<+T> = None | Some(value: T)

  /** Which of the three screens is shown. */
  datatype GameState = Start | Playing | Finished

  /** Whether the current letter has been answered, and how. */
  datatype AnswerState = Unanswered | Correct | Incorrect

  /** A generated example: a word (`mot`) and a short sentence using it (`phrase`). */
  datatype ExampleWord = ExampleWord(mot: string, phrase: string)
}
