/** The two pieces of logic in class HangmanGUI: reading a guess from the
    entry box, and laying out the display with spaces between positions. */
module HangmanGui {
  import opened Ascii
  import opened Hangman

  /** The acceptance test of process_guess: exactly one alphabetic character. */
  predicate IsValidGuess(guess: string)
  {
    |guess| == 1 && IsAlphaString(guess)
  }

  /** The text is lower-cased before it is tested, and that does not change the
      verdict: a guess is accepted before lower-casing exactly when it is after. */
  lemma ValidityIgnoresCase(guess: string)
    ensures IsValidGuess(Lower(guess)) <==> IsValidGuess(guess)
  {
    if |guess| == 1 {
      assert Lower(guess)[0] == LowerChar(guess[0]);
    }
  }

  /** The text typed into the entry box, stripped and lower-cased, is handed to
      the engine when it is a single letter; otherwise the GUI warns and the
      engine is not called (None). */
  function ReadGuess(raw: string): (r: Option<char>)
    ensures r.Some? <==> |Strip(raw)| == 1 && IsAlpha(Strip(raw)[0])
    ensures r.Some? ==> IsLower(r.value) && r.value == LowerChar(Strip(raw)[0])
    ensures r.Some? ==> LowerChar(r.value) == r.value
  {
    var guess := Lower(Strip(raw));
    if IsValidGuess(guess) then Some(guess[0]) else None
  }

  /** A letter surrounded by any whitespace is read as that letter, lower-cased. */
  lemma ReadGuessSurroundedLetter(before: string, c: char, after: string)
    requires forall j :: 0 <= j < |before| ==> IsSpace(before[j])
    requires forall j :: 0 <= j < |after| ==> IsSpace(after[j])
    requires IsAlpha(c)
    ensures ReadGuess(before + [c] + after) == Some(LowerChar(c))
  {
    var raw := before + [c] + after;
    LeadingSpacesOf(before, [c] + after);
    assert raw == before + ([c] + after);
    var t := raw[|before|..];
    assert t == [c] + after;
    TrailingSpacesOf([c], after);
    assert Strip(raw) == [c];
  }

  lemma {:induction false} LeadingSpacesOf(spaces: string, rest: string)
    requires forall j :: 0 <= j < |spaces| ==> IsSpace(spaces[j])
    requires rest != [] && !IsSpace(rest[0])
    ensures LeadingSpaces(spaces + rest) == |spaces|
  {
    if spaces != [] {
      assert (spaces + rest)[1..] == spaces[1..] + rest;
      LeadingSpacesOf(spaces[1..], rest);
    }
  }

  lemma {:induction false} TrailingSpacesOf(rest: string, spaces: string)
    requires forall j :: 0 <= j < |spaces| ==> IsSpace(spaces[j])
    requires rest != [] && !IsSpace(rest[|rest| - 1])
    ensures TrailingSpaces(rest + spaces) == |spaces|
  {
    if spaces != [] {
      var front := spaces[..|spaces| - 1];
      assert (rest + spaces)[..|rest + spaces| - 1] == rest + front;
      TrailingSpacesOf(rest, front);
    }
  }

  /** Three entries that are never handed to the engine: an empty entry, two
      letters, and a digit between spaces. */
  lemma RejectsEmptyAndLongInput()
    ensures ReadGuess("") == None && ReadGuess("ab") == None && ReadGuess(" 1 ") == None
  {
  }

  /** format_word_display: the display entries joined with single spaces. */
  function FormatWordDisplay(display: seq<char>): (r: string)
    ensures |r| == if display == [] then 0 else 2 * |display| - 1
    ensures forall i :: 0 <= i < |display| ==> r[2 * i] == display[i]
    ensures forall i :: 0 <= i < |r| && i % 2 == 1 ==> r[i] == ' '
  {
    if |display| <= 1 then display
    else [display[0], ' '] + FormatWordDisplay(display[1..])
  }

  /** The characters at even positions: undoes the spacing. */
  function EvenPositions(r: string): seq<char>
  {
    if |r| <= 1 then r else [r[0]] + EvenPositions(r[2..])
  }

  /** The entries can be read back from the formatted text. */
  lemma {:induction false} FormatWordDisplayRoundTrip(display: seq<char>)
    ensures EvenPositions(FormatWordDisplay(display)) == display
  {
    if |display| > 1 {
      var r := FormatWordDisplay(display);
      assert r[2..] == FormatWordDisplay(display[1..]);
      FormatWordDisplayRoundTrip(display[1..]);
    }
  }

  /** What the word label shows for a game: the mask of the guessed letters, spaced out. */
  lemma WordLabelShowsMask(game: HangmanGame, i: int)
    requires game.Valid() && 0 <= i < |game.word|
    ensures FormatWordDisplay(game.GetCurrentState().0)[2 * i]
            == if game.word[i] in game.guessedLetters then game.word[i] else Placeholder
  {
  }

  /** What the GUI does on "New Game": a game on the default list with the
      default budget, every position hidden and six attempts left. */
  method StartNewGame(k: nat) returns (game: HangmanGame)
    requires k < |DefaultWords|
    ensures fresh(game) && game.Valid() && !game.gameOverReported
    ensures game.State() == NewGame(None, k, DefaultMaxAttempts)
    ensures game.guessedLetters == {} && game.maxAttempts == 6
    ensures game.GetCurrentState() == (seq(|game.word|, _ => Placeholder), 6)
    ensures game.word in DefaultWords
  {
    game := new HangmanGame(k);
    assert Lower(DefaultWords[k]) == DefaultWords[k];
  }
}
