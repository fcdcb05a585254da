# Mastermind in Dafny

This project models the game logic of a small Java Swing Mastermind game,
`Mastermind.java`. The player sets a code length (1 to 6) and a number of
attempts (1 to 10). The game draws a secret code of digits. Each guess of the
right length is scored with black pegs (right symbol, right position) and
white pegs (right symbol, wrong position) until the code is found or the
attempts run out.

There are two modules:

- `Scoring` (`scoring.dfy`) holds the `Feedback` pair and `EvaluateGuess`. It
  is the game's two-pass algorithm over two boolean "used" arrays:
  - Pass one marks exact matches.
  - Pass two gives each unused secret position the first unused guess
    position that holds the same symbol.

  Pass two is the method `WhitePass`, and its inner search is the method
  `TakeUnused`. Together with `EvaluateGuess` they are the one Java method's
  nested loops, with the same arrays, reads, writes and `break`.

  It is proved equal to a reference definition, `Score`:
  - the black pegs are the positions where secret and guess agree;
  - black plus white is the size of the multiset intersection of the two
    codes, that is, the sum over all symbols of the smaller of the two counts.

  Symmetry, the winning condition and three worked cases are proved about
  `Score`.
- `Mastermind` (`mastermind.dfy`) holds the pieces of the game itself:
  - `GenerateCode` draws the secret.
  - `Split` and `Join` model how the game turns the typed guess into
    one-character symbols and how it turns the secret back into text.
  - The class `Session` holds the fields `secretCode`, `codeLength`,
    `maxAttempts` and `currentAttempt`, plus `active`, which stands for the
    "Submit Guess" button being enabled.
  - `Start` is "Start Game" and `CheckGuess` is "Submit Guess".

  `Consistent()` states that, while a game is on, the settings agree with the
  secret and attempts remain. `CheckGuess` and `StartChecked` preserve it, and
  an accepted `Start` establishes it.

The window is not modelled. Button presses are method calls. Text-field
contents are parameters: a field that does not parse as an integer arrives as
`None`. The messages the game writes become the outcome values the methods
return:
- `StartResult`: `Started`, `BadNumber` or `BadRange`.
- `GuessOutcome`: `WrongLength`, `IndexOutOfBounds`, or `Scored` with a status
  of `Playing`, `Won` or `Lost` (a loss carries the revealed secret).

Some behaviour of the code is worth stating outright, and the model follows
it:

- **Settings are stored before they are checked.** A refused start still
  stores the settings it parsed (lines 63-64), because the range is checked
  only afterwards (line 65). `Session.Start` does the same. See Findings
  below.
- **Guess length.** `evaluateGuess` only needs the guess to be no shorter
  than the secret, since it indexes `guess[i]` only for `i` below the
  secret's length (line 116). So:
  - a longer guess is scored;
  - a shorter one raises an index error after the attempt has been counted
    (line 84).

  `EvaluateGuess` therefore requires `|secret| <= |guess|`. `CheckGuess`
  returns `IndexOutOfBounds` for the shorter case.
- **Finished games.** Guesses cannot arrive after a game ends, because the
  button is disabled then (lines 92 and 95). `CheckGuess` therefore requires
  `active`.
- **Guess characters.** Guess characters are arbitrary; nothing checks that
  they are digits.

## Model

| member | source | states |
|---|---|---|
| `Scoring.EvaluateGuess` | Mastermind.java:108-137 | The two-pass count returns exactly `Score(secret, guess)`. The black pegs are the number of positions where secret and guess agree. Black plus white is the size of the multiset intersection of the two codes. Both counts are non-negative and their sum is at most the secret's length. Needs only that the guess is not shorter than the secret. |
| `Scoring.WhitePass` | Mastermind.java:123-134 | Given the used flags exactly as pass one leaves them, pass two's white pegs are the size of the intersection of the symbols the two codes still have unused. |
| `Scoring.TakeUnused` | Mastermind.java:126-132 | The inner search finds the first unused guess position holding the symbol and marks only that position used. When there is none, it reports so and changes no flag. |
| `Scoring.Score` | Mastermind.java:108-137 | The reference score has non-negative black and white counts whose sum is at most the secret's length. |
| `Scoring.BlackCount` | Mastermind.java:115-121 | The black pegs are at most the secret's length. |
| `Scoring.Common` | Mastermind.java:123-134 | The number of pegs of either colour is at most the length of either code. |
| `Scoring.ScoreSymmetric` | Mastermind.java:108-137 | For codes of equal length, swapping secret and guess gives the same score. |
| `Scoring.AllBlackIffEqual` | Mastermind.java:115-121 | All positions are black exactly when the guess starts with the secret. This is the winning condition, in both directions. |
| `Scoring.ScoreOfSecret` | Mastermind.java:108-137 | Guessing the secret scores all black and no white. |
| `Scoring.ScoreExampleDistinct` | Mastermind.java:108-137 | Secret 1234 against guess 1325 scores one black and two white. |
| `Scoring.ScoreExampleDuplicates` | Mastermind.java:108-137 | Secret 5522 against guess 5222 scores three black and no white: the leftover 5 finds no unused 5. |
| `Mastermind.GenerateCode` | Mastermind.java:99-106 | The drawn code has exactly `length` symbols, each taken from `numbers`, whatever the random choices. |
| `Mastermind.DrawnFromDigits` | Mastermind.java:10 | Every symbol taken from the ten-string digit alphabet is a one-character decimal digit. |
| `Mastermind.Split` | Mastermind.java:85 | Splitting the guess gives one one-character piece per character. The empty string gives a single empty piece. |
| `Mastermind.Join` | Mastermind.java:94 | Joining one-character pieces gives a string with one character per piece. |
| `Mastermind.JoinSplit` | Mastermind.java:85 | Joining the pieces of any string gives that string back. |
| `Mastermind.SplitJoin` | Mastermind.java:94 | Splitting the joined text of a non-empty sequence of one-character strings gives the sequence back. So the revealed secret determines the secret. |
| `Mastermind.Session.constructor` | Mastermind.java:11-14 | The window opens with no secret, all counters 0 and guessing disabled (line 58). The session invariants hold. |
| `Mastermind.Session.Start` | Mastermind.java:61-76 | Each parsed value fits a 32-bit `int`, as `parseInt` returns. An unparsable length changes nothing. A parsed length is stored even if the attempts then fail to parse or the range check refuses. `BadNumber` is returned exactly when a field does not parse, and `Started` exactly when both parse and are in range. A refused start leaves the secret, the attempt counter and the enabled flag as they were. An accepted start draws a digit secret of `codeLength` symbols, resets the counter to 0, enables guessing and establishes `Consistent()`. |
| `Mastermind.Session.StartChecked` | Mastermind.java:61-76 | This is the corrected start. It accepts and refuses exactly as `Start` does, but a refused start changes nothing, so `Consistent()` is preserved. |
| `Mastermind.Session.CheckGuess` | Mastermind.java:78-97 | A guess whose length is not `codeLength` changes nothing. Otherwise the counter rises by exactly one, and the secret and the settings are never changed. The guess is scored as `Score(secret, Split(guess))`. All black wins and disables guessing, even on the last attempt. Otherwise reaching `maxAttempts` loses, reveals `Join(secretCode)` and disables guessing. Otherwise guessing stays enabled. A split guess shorter than the secret ends in the index error. Under `Consistent()`: that error cannot happen, `Consistent()` is kept, a win happens exactly when the split guess is the secret, and the revealed text splits back into the secret. |
| `Mastermind.RefusedRestartLetsEmptyGuessWin` | Mastermind.java:63-68 | With the code as written, a one-symbol game followed by a refused restart with length 0 accepts the empty guess and scores it as a win with no black pegs. |
| `Mastermind.CheckedRestartRefusesEmptyGuess` | Mastermind.java:63-68 | With the corrected start, the same sequence leaves the game as it was, and the empty guess is refused as the wrong length. |

## Left out

- The Swing window is not modelled. This covers its layout, listeners, `main` and the event thread. Presses of "Start Game" and "Submit Guess" are direct calls of `Session.Start` and `Session.CheckGuess`.
- Dialogs and the feedback-area text are replaced by the returned outcome values. The loss message becomes the revealed string carried by `Lost`.
- `Integer.parseInt` is not modelled. Its result arrives as `Option<int>`, with `None` for a number-format failure. `Start` and `StartChecked` require each parsed value to fit a 32-bit `int` (`ParsedInt`), since text naming a larger number fails to parse and arrives as `None`.
- `java.util.Random` is not modelled. Each symbol of the secret is an unconstrained choice among the alphabet's indices. Uniformity cannot be stated, so what is proved holds for every draw.
- Java strings count UTF-16 code units, while the model counts characters. A guess containing characters outside the Basic Multilingual Plane would be measured and split differently.
- `currentAttempt` is an unbounded integer, while the code's is a 32-bit `int`. Scored guesses cannot make it wrap: `maxAttempts` is at most 2^31-1, and the check at line 93 disables guessing once the counter reaches it. Only guesses that end in the index error can push it further, because line 84 counts them and line 116 throws before line 93 is reached. The model does not wrap the counter after 2^31-1 such guesses, which needs a game whose settings a refused restart corrupted.
- `Mastermind.Session.CheckGuess`: the index error is decided before scoring, by comparing the split guess's length with the secret's. In the code it is thrown from inside the scorer. Scoring changes nothing outside itself, so the state afterwards is the same.
- `secretCode` is held as the sequence of the array that `GenerateCode` returns. That array is never written after it is drawn, so no aliasing is lost. The `null` before the first game is the empty sequence, and no guess can be submitted then because the button starts disabled.
- `Scoring.EvaluateGuess` takes the secret and the guess as sequences. The code's untouched input arrays are therefore unmodified by construction, and the used flags remain local arrays.

## Findings

| source | as written | input that shows it | evidently intended | confidence | as-written member | corrected member |
|---|---|---|---|---|---|---|
| Mastermind.java:63-68 | `codeLength` and `maxAttempts` are stored before the range check, so a refused "Start Game" during a running game changes that game's settings. | Start with length 1 and 5 attempts, then press "Start Game" with length 0 and 5 attempts (refused), then submit the empty guess. The guess passes the length check, splits into one empty piece and scores 0 black pegs, which equals the code length 0, so the game is won. A smaller stored length instead makes a valid guess raise the index error, and a larger one makes the game unwinnable. | A refused start leaves the running game untouched. | high, not executed | `Mastermind.RefusedRestartLetsEmptyGuessWin` | `Mastermind.Session.StartChecked` |
