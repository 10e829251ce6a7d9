# French alphabet quiz: a verified model of the session state machine

The application drills a learner on the French alphabet. A session shows the
26 letters in a shuffled order. For each letter the learner types a guess,
which is compared case-insensitively and without surrounding whitespace. A
correct guess scores a point and starts fetching an example word. The learner
then moves on, and after the last letter the final score is shown as a
percentage. The Enter key drives the whole quiz.

This project models that core: the eight session fields of the `App`
component and the handlers that change them.

| file | module | models |
|---|---|---|
| `types.dfy` | `Types` | the enums and record of types.ts (`GameState`, `AnswerState`, `ExampleWord`) and `Option` for `T \| null` |
| `constants.dfy` | `Constants` | `ALPHABET_FR` and `ALPHABET_PRONUNCIATIONS`, with the facts the quiz relies on |
| `jsstring.dfy` | `JsString` | `String.prototype.trim` and `toLowerCase` as the answer check uses them |
| `shuffle.dfy` | `Shuffle` | `shuffleArray` |
| `quiz.dfy` | `Quiz` | the session as a value: one transition function per handler, the derived values, and the lemmas |
| `session.dfy` | `SessionMachine` | class `Session`, with one mutable field per `useState` hook and one method per handler |

Each handler method of `Session` (`StartQuiz`, `NextLetter`, `CheckAnswer`,
`ExampleArrived`, `TypeGuess`, `OnEnter`) makes the handler's setter calls on
the fields. Its postcondition says the new state is the matching `Quiz`
transition applied to the old state (`StartStep`, `NextStep`, `CheckStep`,
`ArriveStep`, `TypeStep`, `EnterStep`), and that the session invariant
`Valid()` still holds. Two methods are different:
- `Mark` is the part of `CheckAnswer` that records a verdict. Its
  postcondition gives the field updates directly.
- `Pronounce` changes no state. It returns the text that would be spoken.

The invariant `Quiz.Invariant` has two parts:
- either no quiz was ever started (no letter order and an empty guess), or the
  letter order is a permutation of the alphabet and `currentIndex <= 25`;
- the score is at most one point per letter reached.

From the invariant, the current letter is always defined while a quiz is
shown, and it always has a pronunciation.

Inputs from outside the program are parameters of the events:
- the random choices of the shuffle are an index permutation `order`;
- the result of the example fetch is an `Option<ExampleWord>` passed to
  `ExampleArrived`;
- the text typed into the guess input is passed to `TypeGuess`.

How the model follows the code:
- The example continuation (App.tsx:54-56) has no stale-result guard. An
  example fetched for a correctly answered letter can land after the learner
  has moved on. It is then stored as the `exampleWord` of the next, still
  unanswered letter (`Quiz.LateExampleLands`). The page renders the example
  only once that letter is answered correctly (App.tsx:169-185). The visible
  case is when the next letter is also answered correctly before the first
  fetch resolves: the earlier letter's word is then shown under the later
  letter's "Correct !" banner, with loading finished
  (`Quiz.StaleExampleShown`). So the code does not keep "an example is present
  only after a Correct answer", nor "the example shown is for the current
  letter". The model follows the code and does not claim either property.
- `shuffleArray` sorts a copy with a random comparator. The model states only
  that the result is a rearrangement of the alphabet. It makes no claim about
  uniformity or that every order is reachable.
- Each handler requires what its callers guarantee. `NextLetter`,
  `CheckAnswer` and `TypeGuess` are only reachable while a letter is shown:
  from the buttons and input rendered on the Playing screen (App.tsx:141-198),
  and from the Enter key (App.tsx:75-84). `CheckAnswer` and `TypeGuess` are
  also reachable only while the letter is unanswered. The transition
  functions carry the same conditions where they need them:
  - `StartStep` needs `order` to be an index permutation;
  - `CheckStep` needs the letter order to be valid;
  - `TypeStep` needs a shown, unanswered letter;
  - `EnterStep` needs both a valid state and an index permutation.
  `NextStep` and `ArriveStep` are total.
- Marking an already answered letter again would score twice. The score
  bound therefore holds for `CheckStep` only from an unanswered letter
  (`Quiz.CheckKeepsInvariant`), which both callers ensure.
- `trim` is modelled with the full set of characters that ECMA-262 strips:
  the WhiteSpace characters (tab, vertical tab, form feed,
  space, no-break space, byte order mark, Unicode category Zs) and the
  LineTerminator characters.
- The ALPHABET_FR constant is written as a comprehension (position i holds
  the i-th Latin capital). `Constants.AlphabetIsListed` proves that it equals
  the literal list of constants.ts.

## Model

| member | source | states |
|---|---|---|
| `Constants.Alphabet` | constants.ts:2-5 | `ALPHABET_FR`, as the i-th capital at position i; `AlphabetIsListed` proves it is the literal list |
| `Constants.LatinLetter` | constants.ts:2-5 | the letter named for position i is a one-character capital whose offset from 'A' is i |
| `Constants.AlphabetIsListed` | constants.ts:2-5 | the alphabet is exactly the list "A" … "Z" of constants.ts |
| `Constants.AlphabetInOrder` | constants.ts:2-5 | the alphabet has 26 entries and position i holds the i-th capital, so A..Z in order |
| `Constants.AlphabetMembers` | constants.ts:2-5 | a string is in the alphabet exactly when it is one capital letter A-Z |
| `Constants.AlphabetDistinct` | constants.ts:2-5 | no two positions of the alphabet hold the same letter |
| `Constants.PronunciationKeysAreAlphabet` | constants.ts:2-13 | the pronunciation table's keys are exactly the alphabet's letters, with no extra key |
| `Constants.PronunciationsNonEmpty` | constants.ts:7-13 | every pronunciation is non-empty; W is "double vé" and Y is "i grec" |
| `JsString.Trim` | App.tsx:48 | `trim`: trailing whitespace removed from the result of removing leading whitespace; `TrimIsSlice`, `TrimCutsOnlyTrimmable` and `TrimLeavesNoTrimmableEnds` state its properties |
| `JsString.IsTrimmable` | App.tsx:48 | the characters `trim` strips: ECMA-262 WhiteSpace (tab, VT, FF, space, NBSP, BOM, category Zs) and LineTerminator (LF, CR, LS, PS) |
| `JsString.TrimStart` | App.tsx:48 | the result is the suffix of the input that starts at its first non-whitespace character, and everything cut off is whitespace |
| `JsString.TrimEnd` | App.tsx:48 | the result is the prefix of the input that ends at its last non-whitespace character, and everything cut off is whitespace |
| `JsString.TrimIsSlice` | App.tsx:48-50 | `trim` keeps one contiguous slice of its input |
| `JsString.TrimCutsOnlyTrimmable` | App.tsx:48-50 | every character `trim` cuts from either end is whitespace or a line terminator |
| `JsString.TrimLeavesNoTrimmableEnds` | App.tsx:48-50 | a trimmed string neither starts nor ends with whitespace or a line terminator |
| `JsString.TrimEmptyIffBlank` | App.tsx:48 | a string trims to "" exactly when all of its characters are whitespace (both directions) |
| `JsString.TrimKeepsUntrimmed` | App.tsx:50 | a string with no whitespace at its ends trims to itself |
| `JsString.LowerChar` | App.tsx:50 | capitals A-Z map to the small letter 32 code points up; every other character is kept |
| `JsString.ToLower` | App.tsx:50 | lower-casing keeps the length and lower-cases each character in place |
| `JsString.LowerCharEqualIff` | App.tsx:50 | a character lower-cases like a capital exactly when it is that capital or its small form |
| `Shuffle.ShuffleArray` | App.tsx:9-11 | the shuffled copy has the input's length and the same multiset of elements |
| `Shuffle.RearrangePermutes` | App.tsx:10 | rearranging by any index permutation keeps the multiset of elements |
| `Quiz.CurrentLetter` | App.tsx:23 | there is a current letter exactly when the index is inside the letter order, and then it is the entry at the index; over a permutation of the alphabet with an index below 26 it is always one of the 26 letters |
| `Quiz.Matches` | App.tsx:50 | the answer test: the trimmed, lower-cased guess equals the lower-cased letter; `MatchesIffSameLetter` says which guesses pass |
| `Quiz.StartStep` | App.tsx:25-34 | the state after `handleStartQuiz`; `StartStepResets` and `StartKeepsInvariant` state its effect |
| `Quiz.NextStep` | App.tsx:36-45 | the state after `handleNextLetter`; `NextStepEffect` and `NextKeepsInvariant` state its effect |
| `Quiz.CheckStep` | App.tsx:47-53 | the state after the synchronous part of `handleCheckAnswer`; `BlankGuessIgnored`, `CheckStepEffect`, `CheckStepCases` and `CheckKeepsInvariant` state its effect |
| `Quiz.ArriveStep` | App.tsx:54-56 | the state after the example fetch resolves; `ArriveStepEffect` and `ArriveKeepsInvariant` state its effect |
| `Quiz.TypeStep` | App.tsx:154 | the state after the guess input's `onChange`; `TypeKeepsInvariant` states its effect |
| `Quiz.EnterStep` | App.tsx:74-85 | the state after the Enter key's dispatch; `EnterKeepsInvariant` states its effect |
| `Quiz.PronunciationOf` | App.tsx:62-65 | the text spoken, when there is one, is the table's non-empty entry for the current letter |
| `Quiz.RoundHalfUp` | App.tsx:111 | `Math.round` on an exact value: floor(x + 0.5), so halves round up |
| `Quiz.Percentage` | App.tsx:111 | the percentage is the integer strictly nearer than a half to 100·score/26 |
| `Quiz.PercentageIsRounded` | App.tsx:111 | the percentage equals `Math.round(score / 26 * 100)` computed on the exact quotient |
| `Quiz.PercentageExamples` | App.tsx:111 | 26 gives 100, 13 gives 50, 0 gives 0, and no reachable score gives more than 100 |
| `Quiz.InitialSatisfiesInvariant` | App.tsx:14-23 | the initial state satisfies the invariant and has no current letter |
| `Quiz.PronounceableIffLetter` | App.tsx:62-65 | a letter has something to speak exactly when it is one of the alphabet's letters |
| `Quiz.PermutationLetters` | App.tsx:23-26 | a letter order built from the alphabet has 26 entries, each of them a letter of the alphabet |
| `Quiz.PlayingLetterDefined` | App.tsx:62-65 | while a quiz is shown, the current letter is defined and in the alphabet, and its pronunciation exists |
| `Quiz.StartStepResets` | App.tsx:25-34 | starting gives a permutation of the alphabet, index 0, score 0, empty guess, Unanswered, no example and Playing; the loading flag is unchanged |
| `Quiz.NextStepEffect` | App.tsx:36-45 | before the last letter, the index goes up by one and guess, answer and example are cleared; at the last letter only the screen becomes Finished; either way progress is made |
| `Quiz.BlankGuessIgnored` | App.tsx:48 | an empty or whitespace-only guess changes no field at all |
| `Quiz.CheckStepEffect` | App.tsx:47-59 | a match adds exactly 1 to the score, sets Correct and starts loading; a mismatch sets Incorrect and keeps the score; nothing else changes |
| `Quiz.MatchesIffSameLetter` | App.tsx:50 | a guess matches a capital letter exactly when it trims to that letter in capital or small form |
| `Quiz.LongGuessNeverMatches` | App.tsx:50 | a guess that trims to two or more characters never matches a letter |
| `Quiz.CheckStepMarks` | App.tsx:48-53 | once the trimmed guess is non-empty there is a current letter, and the check marks it Correct (one more point, loading) or Incorrect by the answer test |
| `Quiz.GuessEMatches` | App.tsx:48-50 | the guess "e" survives the blank test and passes the answer test against E |
| `Quiz.GuessZMisses` | App.tsx:48-50 | the guess "z" survives the blank test and fails the answer test against E |
| `Quiz.CheckExampleCorrect` | App.tsx:50-53 | with E shown, "e" is Correct and scores exactly one point, and the example is unchanged |
| `Quiz.CheckExampleIncorrect` | App.tsx:57-58 | with E shown, "z" is Incorrect, the score is unchanged and the example is unchanged |
| `Quiz.ArriveStepEffect` | App.tsx:54-56 | the continuation stores the fetched example, or none after a failed fetch, ends loading, and changes nothing else |
| `Quiz.LateExampleLands` | App.tsx:54-56 | with no guard, an example that arrives after moving on is stored as the `exampleWord` of the next, unanswered letter |
| `Quiz.StaleExampleShown` | App.tsx:36-56 | when the next letter is answered correctly before the earlier fetch resolves, the state ends Correct on the next letter, not loading, holding the earlier letter's example |
| `Quiz.NextThenType` | App.tsx:36-45 | moving on and typing shows the next letter unanswered, with the typed guess and the same letter order |
| `Quiz.MatchThenArrive` | App.tsx:48-56 | a matching guess is marked Correct, and the example that arrives is stored with loading finished |
| `Quiz.MatchedGuessNotBlank` | App.tsx:48-50 | a guess that passes the answer test against a non-empty letter is not blank |
| `Quiz.CheckStepCases` | App.tsx:47-59 | marking either changes nothing, scores a Correct, or records Incorrect |
| `Quiz.StartKeepsInvariant` | App.tsx:25-34 | after starting, the invariant holds whatever the state before |
| `Quiz.NextKeepsInvariant` | App.tsx:36-45 | once a quiz is started, moving on keeps the index within 0..25 and the score bound |
| `Quiz.CheckKeepsInvariant` | App.tsx:47-59 | marking keeps the letter order valid; from an unanswered letter it keeps the score bound |
| `Quiz.ArriveKeepsInvariant` | App.tsx:55-56 | the example continuation keeps the invariant |
| `Quiz.TypeKeepsInvariant` | App.tsx:151-155 | typing a guess keeps the invariant |
| `Quiz.EnterKeepsInvariant` | App.tsx:75-84 | under the Enter dispatch the invariant is kept, including score ≤ index + 1, and while playing neither score nor index decreases |
| `SessionMachine.Session.constructor` | App.tsx:14-21 | a new session holds the initial `useState` values and satisfies the invariant |
| `SessionMachine.Session.StartQuiz` | App.tsx:25-34 | the fields become `StartStep` of the old fields, and the invariant holds |
| `SessionMachine.Session.NextLetter` | App.tsx:36-45 | the fields become `NextStep` of the old fields, and the invariant is kept |
| `SessionMachine.Session.CheckAnswer` | App.tsx:47-59 | the fields become `CheckStep` of the old fields, and the invariant is kept |
| `SessionMachine.Session.Mark` | App.tsx:51-53 | a verdict is recorded; a correct one also adds one to the score and starts loading the example, and nothing else changes |
| `SessionMachine.Session.ExampleArrived` | App.tsx:55-56 | the fields become `ArriveStep` of the old fields and the fetch result, with no staleness check |
| `SessionMachine.Session.TypeGuess` | App.tsx:151-155 | only the guess changes, to the typed text |
| `SessionMachine.Session.Pronounce` | App.tsx:62-65 | it returns the text to speak for the current letter, and while a quiz is shown there is always a non-empty text |
| `SessionMachine.Session.OnEnter` | App.tsx:75-84 | Enter marks an unanswered letter, moves on from an answered one, and starts from the Start or Finished screen; the invariant is kept |

Two constants have no row because they are not functions:
- `Quiz.Initial` holds the `useState` initial values of App.tsx:14-21. `Quiz.InitialSatisfiesInvariant` and `SessionMachine.Session.constructor` state its properties.
- `Constants.Pronunciations` is the table of constants.ts:7-13. `Constants.PronunciationKeysAreAlphabet` and `Constants.PronunciationsNonEmpty` state its properties.

## Left out

- The example fetch (services/geminiService.ts) is a request to an external generative-language service. Only its result is modelled: `Some(example)`, or `None` for the `null` the service returns on any failure, as the argument of `ExampleArrived`.
- Asynchrony: the fetch and its continuation are two separate events. Any number of other events may come between them. How many fetches are outstanding is not tracked.
- React's rendering and batching: the handlers see the state of the last render, and the model applies events one at a time to the current fields.
- Speech synthesis (App.tsx:66-69): the `SpeechSynthesisUtterance`, its `fr-FR` locale and 0.9 rate, and `speechSynthesis.speak` are a browser API. `Pronounce` returns the text that would be spoken.
- Rendering (App.tsx:95-214), registering and removing the keydown listener (App.tsx:88-91), keys other than Enter, the progress-bar width (App.tsx:126, floating point) and the input's `maxLength={1}` (App.tsx:155). `TypeGuess` accepts any string.
- Shuffle.ShuffleArray: the random comparator's answers are represented only by the permutation they produce. The model does not say how likely each order is, nor that every order is reachable.
- JsString.LowerChar: lower-cases only the ASCII capitals. Guesses with other characters that JavaScript would map to an ASCII letter (such as U+212A KELVIN SIGN, which becomes "k") are not recognised as matches.
- Quiz.Percentage: computed exactly on integers. The IEEE double rounding of `score / 26 * 100` is not modelled.
- Lookups in `ALPHABET_PRONUNCIATIONS` with keys that are properties of JavaScript's `Object.prototype` are not modelled. The key is always a letter of the alphabet or absent.
- No lemma states that the final score equals the number of letters answered correctly over a whole playthrough. Only each step's effect on the score is proved.
