# Hangman game engine, in Dafny

This project models the game engine of a desktop Hangman game, the class
`HangmanGame` of `main.py`, together with the two pieces of logic in its
Tkinter front end (`HangmanGUI`): the input check that decides whether typed
text is handed to the engine, and the spaced-out layout of the word display.

- `ascii.dfy` (module `Ascii`): `str.lower`, `str.isalpha`, `str.isspace` and
  `str.strip`, restricted to ASCII.
- `hangman.dfy` (module `Hangman`): the game state as a value (`GameState`);
  the state a new game starts in (`NewGame`); one guess as a transition on
  values (`Guess`), and a run of guesses (`Play`). Lemmas state what one
  guess does in each case and what every game keeps invariant. The state is:
  the secret word, the display (`'_'` for a hidden position), the set of
  guessed letters, the budget and the remaining wrong guesses. The class
  `HangmanGame` holds the same state in fields and updates it in place: the
  display is an array written position by position in a loop. Its methods
  are proved to perform exactly the `Guess` transition.
- `gui.dfy` (module `HangmanGui`): reading a guess from the entry box
  (strip, lower-case, accept exactly one letter), `format_word_display`, and
  starting a new game with the defaults.

The engine invariant `Inv` says two things:
- the display is the mask of the guessed letters: a position shows its letter
  exactly when that letter has been guessed, and `'_'` otherwise;
- the remaining attempts are the budget minus the number of guessed letters
  that are not in the word.

It holds for a new game and after every guess, whatever the word and whatever
the guessed character.

The engine itself does not stop guesses after a game has ended. The GUI
disables its Guess button once a guess reports game over (main.py:178). The
class mirrors that button in a ghost field, `gameOverReported`, and
`GuessLetter` requires it to be false. Under that precondition, and with a
budget of at least one, the counter never goes below zero.

## Model

| member | source | states |
|---|---|---|
| Ascii.LowerChar | main.py:39 | upper-case ASCII letters map to their lower-case letter, every other character is unchanged, letters stay letters, no upper-case letter is left |
| Ascii.LowerIdempotent | main.py:39 | lower-casing twice is lower-casing once, and leaves no upper-case letter: the guess lower-cased by the GUI (main.py:149) is unchanged by the engine's own lower-casing |
| Ascii.Strip | main.py:149 | the result is the input with its leading and then its trailing whitespace removed: a contiguous slice that begins and ends with non-whitespace, and only whitespace lies outside it |
| Ascii.StripNoSpaces | main.py:149 | text without surrounding whitespace is unchanged by stripping |
| Hangman.NewGame | main.py:14-29 | a new game's secret is entry k, lower-cased, of the given list, or of the default list when none is given (`WordsOrDefault`, main.py:14-18); the display has one `'_'` per letter; nothing is guessed; the counter equals the budget; the invariant holds |
| Hangman.HangmanGame.constructor | main.py:6-29 | the object's state is `NewGame` of the same arguments, with the default list and a budget of 6 when they are omitted; the display array is fresh; no game over has been reported |
| Hangman.Guess | main.py:31-68 | a guess never changes the secret, the budget or the length of the display. A correct guess updates the display with `Reveal` (main.py:51-53), which writes the letter at every position holding it |
| Hangman.GuessDuplicate | main.py:39-43 | a letter whose lower-case form was already guessed returns (False, False, None) and leaves the state unchanged |
| Hangman.GuessRecordsLetter | main.py:46 | after a guess the guessed set is the old set plus the lower-cased letter, and nothing else: the set only grows |
| Hangman.GuessCorrect | main.py:49-59 | a correct new guess writes the letter at exactly the positions that hold it and keeps every other position and the counter; it returns (True, True, "win") when no `'_'` remains and (True, False, None) otherwise |
| Hangman.GuessWrong | main.py:61-68 | a wrong new guess leaves the display unchanged and lowers the counter by exactly one; it returns (False, True, "lose") when the counter becomes 0 and (False, False, None) otherwise |
| Hangman.RevealMask | main.py:51-53 | revealing a new letter in a masked display gives the mask of the enlarged guessed set |
| Hangman.GuessPreservesInv | main.py:31-68 | every guess keeps the invariant: the display is the mask of the guessed letters, and the counter is the budget minus the wrong guesses |
| Hangman.GuessMonotone | main.py:42-62 | in a consistent state a guess never removes a guessed letter, never hides a revealed position and never raises the counter |
| Hangman.DisplayShowsWordOrPlaceholder | main.py:51-53 | every display position is `'_'` or the secret's letter there; for a secret letter other than `'_'`, it shows the letter exactly when that letter has been guessed |
| Hangman.CompleteIffAllGuessed | main.py:56 | for a secret without underscores, no `'_'` is left exactly when every letter of the secret has been guessed |
| Hangman.PlayPreservesInv | main.py:31-68 | any run of guesses from a consistent state ends in a consistent state |
| Hangman.PlayMonotone | main.py:42-62 | over any run of guesses the guessed set only grows, revealed positions stay revealed and the counter never rises |
| Hangman.MissesCostOneEach | main.py:61-62 | a run of distinct, new, lower-case letters absent from the secret lowers the counter by the run's length, reveals nothing, and adds exactly those letters to the guessed set |
| Hangman.MissStep | main.py:61-68 | in a run of fresh misses from a new game, guess j finds budget - j attempts left and reports (False, True, "lose") exactly when that was the last attempt, (False, False, None) otherwise |
| Hangman.LostAfterMaxAttemptsMisses | main.py:62-66 | with a budget of n >= 1, none of the first n - 1 distinct wrong letters reports game over, they leave one attempt, and the n-th returns (False, True, "lose") |
| Hangman.PlayRecordsLetters | main.py:46 | after any run of guesses the guessed set is the old set plus exactly the lower-cased letters played |
| Hangman.HitPrefix | main.py:46-53 | when the secret's letters are played once each from a fresh state, after the first j guesses exactly those letters are guessed, the invariant holds and no attempt is spent |
| Hangman.HitStep | main.py:49-59 | in such a run every guess is correct, and it reports (True, True, "win") exactly when it is the last one, (True, False, None) otherwise |
| Hangman.WonAfterAllLetters | main.py:46-59 | for a secret without underscores, playing each of its letters once in any order from a new game costs no attempt, no guess before the last reports game over, and the last returns (True, True, "win") |
| Hangman.GuessReportsGameOver | main.py:55-68 | from a running game (a `'_'` shown, at least one attempt left) the guess reports game over exactly when the new state has no `'_'` or a zero counter; the result is "win" exactly for a correct game-ending guess and "lose" exactly for a wrong one; the counter stays non-negative |
| Hangman.HangmanGame.GuessLetter | main.py:31-68 | the in-place update performs exactly the `Guess` transition: a duplicate changes nothing; a new letter is added to the set; a correct one overwrites exactly its positions of the display array and keeps the counter; a wrong one keeps the display and decrements the counter; the returned triple is as in `guess_letter`; the invariant is kept |
| Hangman.HangmanGame.GetCurrentState | main.py:76 | returns the display joined into one string, which is the mask of the guessed letters, and the counter, which is the budget minus the wrong guesses; reads the state without changing it |
| Hangman.CatIsWonInThreeGuesses | main.py:39-57 | list entry "Cat", so secret "cat", with budget 6: guesses c, A, t show "c__", "ca_", "cat", the last reports a win, and no attempt is lost |
| HangmanGui.ValidityIgnoresCase | main.py:149-153 | lower-casing the text before the single-letter test never changes the verdict: the text is accepted after lower-casing exactly when it would be before |
| HangmanGui.ReadGuess | main.py:149-155 | the typed text is handed to the engine exactly when, once stripped, it is a single letter; what is handed over is that letter lower-cased, on which the engine's own lower-casing is the identity |
| HangmanGui.ReadGuessSurroundedLetter | main.py:149-153 | a letter with any whitespace before and after it is read as that letter, lower-cased |
| HangmanGui.RejectsEmptyAndLongInput | main.py:153-155 | empty text, two letters, and a digit between spaces are all rejected |
| HangmanGui.FormatWordDisplay | main.py:142 | the layout puts entry i at position 2i and a space at every odd position, so its length is 2n - 1 for n > 0 entries |
| HangmanGui.FormatWordDisplayRoundTrip | main.py:142 | taking every other character of the layout gives back the display entries |
| HangmanGui.WordLabelShowsMask | main.py:142 | in the word label of a consistent game, position 2i shows the secret's letter i when it has been guessed and `'_'` otherwise |
| HangmanGui.StartNewGame | main.py:185 | "New Game" builds an engine whose state is `NewGame` on the default list with the default budget: the secret is one of the default words, nothing is guessed, the budget is 6, every position is hidden, six attempts remain, no game over is reported |

## Left out

- Random choice of the word (`random.choice`, main.py:21): the index is a parameter `k` and must be in range. An empty word list raises inside the library; the code has no handling of its own for it.
- Non-ASCII text: `str.lower`, `str.isalpha` and `str.strip` are modelled on ASCII only. A Unicode lower-case mapping that yields several characters is not modelled.
- Hangman.Guess: takes a single character, like Hangman.HangmanGame.GuessLetter below, for the same reason.
- Hangman.HangmanGame.GuessLetter: takes a single character, not an arbitrary string. The source tests `letter in self.word` as a substring test. That test gives odd results for "" or "ab", but only single letters reach it from the GUI.
- Hangman.HangmanGame.GuessLetter: requires that no earlier guess reported game over. The engine has no such check; the GUI's disabled button (main.py:178) provides it. After a loss the source would let the counter go below zero.
- Configuration is never validated (main.py:25): a budget of 0 or below is accepted as in the source. The non-negativity results assume a budget of at least one.
- Tkinter widgets, labels, dialogs, the entry box's `get`/`delete`, button enabling and disabling, and `main`/`mainloop` (main.py:78-206): presentation and event plumbing.
- The sorted, space-joined list of guessed letters shown by the GUI (main.py:167): presentation only.
