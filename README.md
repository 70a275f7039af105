# 1A2B (Bulls and Cows) engine in Dafny

This project models the engine of a 1A2B guessing game. A code is four
distinct decimal digits. A guess scored against a secret gives `a`, the
digits in the right place, and `b`, the digits that occur in the secret but
elsewhere. The game has two modes:

- **Computer guesses.** The program keeps a pool of every code that agrees
  with the feedback so far. It guesses one of them and narrows the pool with
  each answer the player gives. This continues until the player says 4A or no
  code is left.
- **Player guesses.** The program draws a secret and scores the player's
  guesses against it until one scores 4A.

Modules, one per component of `index.js`:

- `Codes`: `isValidNumber`, the zero-padded rendering of 0..9999, and `generateAllPossibilities`.
- `Scoring`: `calculateAB` and the score it computes.
- `Secret`: `generateSecretNumber`.
- `Solver`: the state and the two handlers of `ComputerGuessingGame`, as a class.
- `Player`: the state and the handlers of `UserGuessingGame`, as a class.
- `Play`: a whole computer-guesses game against a truthful player. This states the solver's termination guarantee; it is a client of the model, not a model of a source function.
- `Wrappers`: the `Option` type used for the error messages.

Modelling choices:

- Every `Math.random()` draw becomes a parameter. `Init(idx)` takes the index of the first guess. `SubmitFeedback(a, b, idx)` takes the index of the next guess, which must be below the size of the narrowed pool whenever that pick happens. `GenerateSecretNumber(choices)` takes the four indices into the shrinking digit list, with `choices[i] < 10 - i`.
- A React state setter becomes a field assignment. A mount effect becomes an explicit `Init` method.
- The A and B selector buttons become the `a` and `b` arguments of `SubmitFeedback`. The method first stores them in `feedbackA` and `feedbackB`, as the clicks do.
- The `null` initial `currentGuess` is the empty string. The source's guard `!currentGuess` is true for both.
- The error strings are the constructors of a `Message` datatype, one per string.
- The regular expression `/^\d{4}$/` becomes the predicate `FourDigits`. `new Set(...).size === 4` becomes the size of `CharSet`. `padStart` becomes explicit digit extraction.

Behaviour of `index.js` that the model keeps as written:

- On a contradiction, `handleSubmitFeedback` stores the empty filtered pool before it checks for emptiness (`index.js:148-150`). So `candidates` becomes `[]`; the old pool is not kept.
- The only feedback the handler rejects is `a + b > 4` (`index.js:121-124`). The selectors offer only 0..4 (`index.js:227`, `index.js:245`), so `SubmitFeedback` requires `0 <= a <= 4 && 0 <= b <= 4`.
- There is no separate game-phase variable. A solved game is `gameOver` with no error, and a contradiction is `gameOver` with the `Impossible` error, which is how the component renders them.
- `handleSubmitFeedback` has no `gameOver` guard; only the view hides the Confirm button once the game is over. The model keeps the handler as written, and its invariant holds even when it is called after the game ended.
- `handleGuess` compares `input.length` with 4, which counts UTF-16 code units (`index.js:290`). The model computes that length with `Utf16Length`, from the string's characters.

## Model

| member | source | states |
|---|---|---|
| Codes.IsValidNumber | index.js:9-13 | The regex-and-set check accepts exactly the strings of four decimal digits that are pairwise distinct. |
| Codes.CharSetSize | index.js:11-12 | A string has as many distinct characters as its length exactly when no character repeats, and never more. |
| Codes.Pad4 | index.js:19 | The padded rendering of n < 10000 is four digits that read back as n. |
| Codes.ValuePad | index.js:19 | Every four-digit string is the padded rendering of the number it spells. |
| Codes.CodesInStep | index.js:18-22 | One more round of the loop appends the padding of the counter value exactly when it is a valid code. |
| Codes.CodesBelowSound | index.js:16-25 | After n rounds, every kept string is a valid code with value below n, and the kept strings are strictly ascending. |
| Codes.CodesBelowComplete | index.js:16-25 | After n rounds, every valid code with value below n has been kept. |
| Codes.AllCodes | index.js:16-25 | The full enumeration holds only valid codes, is strictly ascending and has no duplicates. |
| Codes.AllCodesComplete | index.js:16-25 | Every valid code is in the enumeration. |
| Codes.GenerateAllPossibilities | index.js:16-25 | The loop over 0..9999 returns the enumeration: valid codes only, ascending, and each valid code present. |
| Scoring.Score | index.js:28-39 | `a + b <= 4`, and `a == 4` holds exactly when the guess is the secret, as does the score (4, 0). |
| Scoring.CalculateAB | index.js:28-39 | The counting loop returns, as `a`, the number of positions where guess and secret agree, and, as `b`, the number of other positions whose guess digit occurs in the secret. |
| Scoring.ScoreByPosition | index.js:31-37 | The score is the sum over the four positions of an exact match for `a`, or of a non-exact digit found in the secret for `b`. |
| Scoring.ScoreSymmetric | index.js:28-39 | For two valid codes, swapping secret and guess gives the same `a` and the same `b`. |
| Scoring.ScoreExamples | index.js:28-39 | "1243" against "1234" scores (2, 2) and "4567" against "0123" scores (0, 0). |
| Secret.Splice | index.js:48 | The spliced list is one shorter and holds no character the list did not. |
| Secret.SpliceDistinct | index.js:48 | Removing one digit from a repeat-free list leaves a repeat-free list without that digit and with every other. |
| Secret.DrawStateStep | index.js:45-49 | One round keeps the remaining list and the result repeat-free, all digits and disjoint. |
| Secret.Draw | index.js:42-51 | A draw has one character per index. |
| Secret.DrawFirst | index.js:45-49 | One round takes the digit at the round's index and draws the remaining rounds from the spliced list. |
| Secret.GenerateSecretNumber | index.js:42-51 | For any in-range indices, the loop returns a valid code: the one those indices draw. |
| Secret.DrawShape | index.js:42-51 | A draw from a repeat-free list repeats no character and takes every character from the list. |
| Secret.DrawValid | index.js:42-51 | Every draw of four in-range indices is a valid code. |
| Secret.DrawInjective | index.js:42-51 | Different index sequences draw different strings. |
| Secret.ChoicesFor | index.js:42-51 | For a repeat-free target drawn from the list, it gives in-range indices that draw exactly that target. |
| Secret.SecretDrawBijective | index.js:42-51 | Every valid code is drawn by exactly one in-range index sequence, so uniform indices give uniform codes. |
| Solver.Matches | index.js:144-145 | A code matches only feedback with a + b <= 4, and a code matches itself exactly under (4, 0). |
| Solver.Filter | index.js:141-146 | The narrowed pool holds exactly the pool's codes that would have scored the guess as (a, b), and is no longer than the pool. |
| Solver.FilterAscending | index.js:141-146 | Filtering an ascending pool gives an ascending pool. |
| Solver.FilterCharacterized | index.js:141-146 | An ascending pool with those members is the filter result, so the new pool is the order-preserving subsequence of the old one. |
| Solver.AscendingUnique | index.js:141-146 | Two strictly ascending sequences with the same members are equal. |
| Solver.FilterShrinks | index.js:141-146 | A guess in the pool that does not match its own feedback is filtered out, so the pool gets strictly smaller. |
| Solver.ConsistentAppend | index.js:134-136 | Agreeing with a history extended by one row means agreeing with the old history and, unless the row is 4A, with the new row. |
| Solver.InitEstablishes | index.js:109-115 | After the mount effect, the pool is every code in ascending order, the guess is in it, and the pool is exactly the codes consistent with the empty history. |
| Solver.WellFormedAppend | index.js:130-135 | Recording a row that holds a code and in-range feedback keeps every row of the history well formed. |
| Solver.SolvedKeeps | index.js:128-132 | Recording a 4A row keeps the solver invariant: the pool still is exactly the codes consistent with the non-4A rows. |
| Solver.NarrowKeeps | index.js:134-165 | Recording a row and filtering keeps the invariant, with the next guess from the new pool. A non-empty pool strictly shrinks, and an empty result means no valid code fits the history. |
| Solver.SecretSurvives | index.js:141-146 | A code consistent with the history is in the pool, is kept by its own truthful feedback, and is the guess when it is the only code left. |
| Solver.ComputerGuessingGame.constructor | index.js:100-106 | The component starts with empty history and pool, no guess, no game over, zero feedback and no error. |
| Solver.ComputerGuessingGame.Init | index.js:109-115 | The pool becomes every code and the guess the code at the picked index; nothing else changes. |
| Solver.ComputerGuessingGame.SubmitFeedback | index.js:117-166 | With no guess, nothing but the selectors changes. For a + b > 4, only the error is set. For 4A, the game ends with one (guess, 4, 0) row and the pool untouched. Otherwise the row is recorded and the pool filtered; an empty pool sets game over and the Impossible error, and a non-empty one picks the guess at `idx` from it and resets the selectors. The pool never grows and, on a narrowing round, shrinks strictly when it was not empty. |
| Player.Utf16Length | index.js:290 | The JavaScript length of a string lies between its number of characters and twice that, and equals the number of characters exactly when none lies outside the Basic Multilingual Plane. |
| Player.UserGuessingGame.constructor | index.js:277-282 | The component starts with no secret, no guesses, empty input, not won and no error. |
| Player.UserGuessingGame.Init | index.js:284-286 | The secret becomes the valid code the indices draw. |
| Player.UserGuessingGame.SetInput | index.js:354-357 | The input takes the typed text and the error is cleared. |
| Player.UserGuessingGame.HandleGuess | index.js:288-306 | A guess that is not four UTF-16 code units long is ignored. Four code units that are not a code set the error. A code is scored against the secret and recorded, the input is cleared, and the game is won exactly when the guess is the secret. The game stays won exactly when some recorded guess was the secret. |
| Play.TruthfulRound | index.js:128-154 | Against a truthful player, a 4A means the guess is the secret. Any other answer keeps the secret in the narrowed pool and makes the pool smaller. |
| Play.PlayTruthfully | index.js:109-166 | With truthful feedback, and whatever indices are picked, the game ends with a (secret, 4, 0) row after at most as many rounds as there are codes. |

## Left out

- Rendering: the menu, the JSX of both game components, `App`, and the root's `createRoot`/`render`. These are view code with no logic.
- The React lifecycle. State setters are plain assignments and each mount effect is an explicit `Init`.
- `Math.random` and `Math.floor`: every random index is a parameter in its range. Uniformity is stated only through `Secret.SecretDrawBijective`.
- Input events in `handleGuess` (`e.preventDefault`). The change handler is `SetInput` with the typed text as its argument.
- Solver.ComputerGuessingGame.Init: requires an empty history, because the mount effect runs exactly once, before any feedback.
- Player.UserGuessingGame.HandleGuess: requires the secret to be drawn. The mount effect runs before the player can type, and scoring against the empty initial secret is not modelled.
- Scoring.CalculateAB: requires both strings to have length 4, which every caller ensures. Indexing past the end of a shorter string, which JavaScript allows, is not modelled.
- The number of codes, 5040, is not computed. Bounds are stated as `|AllCodes()|`.
