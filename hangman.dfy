/** The Hangman game engine (class HangmanGame of main.py).

    The state is a secret word, a per-position display of revealed letters
    ('_' for a hidden position), the set of letters guessed so far and a
    counter of remaining wrong guesses. GameState and Guess give the
    transition as values; the class HangmanGame performs it in place and is
    proved to follow them. */
module Hangman {
  import opened Ascii

  datatype Option<T> = None | Some(value: T)

  /** The third component of guess_letter's result: None, "win" or "lose". */
  datatype GameResult = Win | Lose

  /** The triple (is_correct_guess, is_game_over, game_result). */
  datatype Outcome = Outcome(isCorrect: bool, isGameOver: bool, result: Option<GameResult>)

  const Placeholder: char := '_'

  /** The word list used when the caller supplies none. */
  const DefaultWords: seq<string> :=
    ["python", "programming", "computer", "game", "hangman", "challenge", "coding", "learning"]

  /** The default budget of wrong guesses; also the only budget the GUI uses. */
  const DefaultMaxAttempts: int := 6

  datatype GameState = GameState(
    word: string,
    wordDisplay: seq<char>,
    guessedLetters: set<char>,
    maxAttempts: int,
    remainingAttempts: int)

  /** The display a word should show once the letters in `guessed` have been tried:
      a position is revealed exactly when its letter was guessed. */
  function Mask(word: string, guessed: set<char>): seq<char>
  {
    seq(|word|, i requires 0 <= i < |word| => if word[i] in guessed then word[i] else Placeholder)
  }

  /** The guessed letters that are not in the word: the wrong guesses. */
  function Misses(word: string, guessed: set<char>): set<char>
  {
    set g | g in guessed && g !in word
  }

  /** The state invariant: the display is the mask of the guessed letters, and
      every wrong guess has cost exactly one attempt. */
  ghost predicate Inv(s: GameState)
  {
    s.wordDisplay == Mask(s.word, s.guessedLetters)
    && s.remainingAttempts == s.maxAttempts - |Misses(s.word, s.guessedLetters)|
  }

  /** The list the constructor chooses from: the given one, or the default list. */
  function WordsOrDefault(wordList: Option<seq<string>>): seq<string>
  {
    match wordList
    case None => DefaultWords
    case Some(ws) => ws
  }

  /** A fresh game. The random choice of the source is the injected index k. */
  function NewGame(wordList: Option<seq<string>>, k: nat, maxAttempts: int): (s: GameState)
    requires k < |WordsOrDefault(wordList)|
    ensures s.word == Lower(WordsOrDefault(wordList)[k])
    ensures forall i :: 0 <= i < |s.word| ==> !IsUpper(s.word[i])
    ensures |s.wordDisplay| == |s.word|
    ensures forall i :: 0 <= i < |s.wordDisplay| ==> s.wordDisplay[i] == Placeholder
    ensures s.guessedLetters == {}
    ensures s.maxAttempts == maxAttempts && s.remainingAttempts == maxAttempts
    ensures Inv(s)
  {
    var w := Lower(WordsOrDefault(wordList)[k]);
    var s := GameState(w, seq(|w|, _ => Placeholder), {}, maxAttempts, maxAttempts);
    assert Misses(w, {}) == {};
    s
  }

  /** The display after revealing every position of `word` that holds c. */
  function Reveal(word: string, display: seq<char>, c: char): seq<char>
    requires |display| == |word|
  {
    seq(|word|, i requires 0 <= i < |word| => if word[i] == c then c else display[i])
  }

  /** One call of guess_letter, as a transition on values. */
  function Guess(s: GameState, letter: char): (r: (GameState, Outcome))
    requires |s.wordDisplay| == |s.word|
    ensures r.0.word == s.word && r.0.maxAttempts == s.maxAttempts
    ensures |r.0.wordDisplay| == |s.wordDisplay|
  {
    var c := LowerChar(letter);
    if c in s.guessedLetters then
      (s, Outcome(false, false, None))
    else
      var guessed := s.guessedLetters + {c};
      if c in s.word then
        var display := Reveal(s.word, s.wordDisplay, c);
        (s.(wordDisplay := display, guessedLetters := guessed),
         if Placeholder !in display then Outcome(true, true, Some(Win)) else Outcome(true, false, None))
      else
        var remaining := s.remainingAttempts - 1;
        (s.(guessedLetters := guessed, remainingAttempts := remaining),
         if remaining == 0 then Outcome(false, true, Some(Lose)) else Outcome(false, false, None))
  }

  /** A run of guesses, applied left to right. */
  function Play(s: GameState, letters: seq<char>): (t: GameState)
    requires |s.wordDisplay| == |s.word|
    ensures t.word == s.word && t.maxAttempts == s.maxAttempts
    ensures |t.wordDisplay| == |s.wordDisplay|
    decreases |letters|
  {
    if letters == [] then s else Play(Guess(s, letters[0]).0, letters[1..])
  }

  /** The distinct characters of a string. */
  function Letters(w: seq<char>): set<char>
  {
    set i | 0 <= i < |w| :: w[i]
  }

  // ---------------------------------------------------------------------
  // Properties of one guess

  /** A letter already guessed (after lower-casing) changes nothing and
      reports (False, False, None). */
  lemma GuessDuplicate(s: GameState, letter: char)
    requires |s.wordDisplay| == |s.word|
    requires LowerChar(letter) in s.guessedLetters
    ensures Guess(s, letter) == (s, Outcome(false, false, None))
  {
  }

  /** A new letter is recorded, lower-cased, and nothing else joins the set. */
  lemma GuessRecordsLetter(s: GameState, letter: char)
    requires |s.wordDisplay| == |s.word|
    ensures Guess(s, letter).0.guessedLetters == s.guessedLetters + {LowerChar(letter)}
    ensures s.guessedLetters <= Guess(s, letter).0.guessedLetters
  {
  }

  /** A correct guess reveals the letter exactly where the word holds it, keeps
      every other position and the counter, and reports a win exactly when no
      placeholder is left. */
  lemma GuessCorrect(s: GameState, letter: char)
    requires |s.wordDisplay| == |s.word|
    requires LowerChar(letter) !in s.guessedLetters && LowerChar(letter) in s.word
    ensures var (t, o) := Guess(s, letter);
      var c := LowerChar(letter);
      && (forall i :: 0 <= i < |s.word| && s.word[i] == c ==> t.wordDisplay[i] == c)
      && (forall i :: 0 <= i < |s.word| && s.word[i] != c ==> t.wordDisplay[i] == s.wordDisplay[i])
      && t.remainingAttempts == s.remainingAttempts
      && o.isCorrect
      && (o.isGameOver <==> Placeholder !in t.wordDisplay)
      && o.result == (if Placeholder !in t.wordDisplay then Some(Win) else None)
  {
  }

  /** A wrong guess costs one attempt, leaves the display alone, and reports a
      loss exactly when the counter reaches zero. */
  lemma GuessWrong(s: GameState, letter: char)
    requires |s.wordDisplay| == |s.word|
    requires LowerChar(letter) !in s.guessedLetters && LowerChar(letter) !in s.word
    ensures var (t, o) := Guess(s, letter);
      && t.wordDisplay == s.wordDisplay
      && t.remainingAttempts == s.remainingAttempts - 1
      && !o.isCorrect
      && (o.isGameOver <==> t.remainingAttempts == 0)
      && o.result == (if t.remainingAttempts == 0 then Some(Lose) else None)
  {
  }

  /** Revealing a new letter in a masked display gives the mask of the enlarged set. */
  lemma RevealMask(word: string, guessed: set<char>, c: char)
    ensures Reveal(word, Mask(word, guessed), c) == Mask(word, guessed + {c})
  {
  }

  /** Every guess preserves the invariant. */
  lemma GuessPreservesInv(s: GameState, letter: char)
    requires |s.wordDisplay| == |s.word|
    requires Inv(s)
    ensures Inv(Guess(s, letter).0)
  {
    var c := LowerChar(letter);
    if c !in s.guessedLetters {
      var guessed := s.guessedLetters + {c};
      if c in s.word {
        RevealMask(s.word, s.guessedLetters, c);
        assert Misses(s.word, guessed) == Misses(s.word, s.guessedLetters);
      } else {
        assert Misses(s.word, guessed) == Misses(s.word, s.guessedLetters) + {c};
        assert Mask(s.word, guessed) == Mask(s.word, s.guessedLetters);
      }
    }
  }

  /** Guessing never un-guesses a letter, never hides a revealed position and
      never gives an attempt back. */
  lemma GuessMonotone(s: GameState, letter: char)
    requires |s.wordDisplay| == |s.word| && Inv(s)
    ensures var t := Guess(s, letter).0;
      && s.guessedLetters <= t.guessedLetters
      && t.remainingAttempts <= s.remainingAttempts
      && forall i :: 0 <= i < |s.wordDisplay| && s.wordDisplay[i] != Placeholder ==>
           t.wordDisplay[i] == s.wordDisplay[i]
  {
  }

  // ---------------------------------------------------------------------
  // Properties of the whole game

  /** In a consistent state each position shows the placeholder or the secret's letter. */
  lemma DisplayShowsWordOrPlaceholder(s: GameState, i: int)
    requires Inv(s) && 0 <= i < |s.word|
    ensures s.wordDisplay[i] == Placeholder || s.wordDisplay[i] == s.word[i]
    ensures s.word[i] != Placeholder ==> (s.wordDisplay[i] == s.word[i] <==> s.word[i] in s.guessedLetters)
  {
  }

  /** For a secret without underscores, the display is complete exactly when
      every letter of the secret has been guessed. */
  lemma CompleteIffAllGuessed(s: GameState)
    requires Inv(s) && Placeholder !in s.word
    ensures Placeholder !in s.wordDisplay <==> forall i :: 0 <= i < |s.word| ==> s.word[i] in s.guessedLetters
  {
    if Placeholder !in s.wordDisplay {
      forall i | 0 <= i < |s.word| ensures s.word[i] in s.guessedLetters {
        assert s.wordDisplay[i] != Placeholder;
      }
    }
  }

  /** Any run of guesses from a consistent state ends in a consistent state. */
  lemma {:induction false} PlayPreservesInv(s: GameState, letters: seq<char>)
    requires |s.wordDisplay| == |s.word| && Inv(s)
    ensures Inv(Play(s, letters))
    decreases |letters|
  {
    if letters != [] {
      GuessPreservesInv(s, letters[0]);
      PlayPreservesInv(Guess(s, letters[0]).0, letters[1..]);
    }
  }

  /** Over any run of guesses the guessed set only grows, revealed positions stay
      revealed and the counter never increases. */
  lemma {:induction false} PlayMonotone(s: GameState, letters: seq<char>)
    requires |s.wordDisplay| == |s.word| && Inv(s)
    ensures var t := Play(s, letters);
      && s.guessedLetters <= t.guessedLetters
      && t.remainingAttempts <= s.remainingAttempts
      && forall i :: 0 <= i < |s.wordDisplay| && s.wordDisplay[i] != Placeholder ==>
           t.wordDisplay[i] == s.wordDisplay[i]
    decreases |letters|
  {
    if letters != [] {
      GuessMonotone(s, letters[0]);
      GuessPreservesInv(s, letters[0]);
      PlayMonotone(Guess(s, letters[0]).0, letters[1..]);
    }
  }

  /** Lower-case letters, pairwise distinct, none in the word and none guessed yet. */
  ghost predicate FreshMisses(s: GameState, letters: seq<char>)
  {
    && (forall j :: 0 <= j < |letters| ==> LowerChar(letters[j]) == letters[j])
    && (forall j :: 0 <= j < |letters| ==> letters[j] !in s.word && letters[j] !in s.guessedLetters)
    && (forall j, k :: 0 <= j < k < |letters| ==> letters[j] != letters[k])
  }

  /** A run of new wrong guesses costs one attempt each and reveals nothing. */
  lemma {:induction false} MissesCostOneEach(s: GameState, letters: seq<char>)
    requires |s.wordDisplay| == |s.word|
    requires FreshMisses(s, letters)
    ensures var t := Play(s, letters);
      && t.remainingAttempts == s.remainingAttempts - |letters|
      && t.wordDisplay == s.wordDisplay
      && t.guessedLetters == s.guessedLetters + set j | 0 <= j < |letters| :: letters[j]
    decreases |letters|
  {
    if letters != [] {
      var c := letters[0];
      var t := Guess(s, c).0;
      assert t.guessedLetters == s.guessedLetters + {c};
      var rest := letters[1..];
      assert FreshMisses(t, rest) by {
        forall j | 0 <= j < |rest| ensures rest[j] !in t.guessedLetters {
          assert rest[j] == letters[j + 1];
        }
      }
      MissesCostOneEach(t, rest);
      assert (set j | 0 <= j < |letters| :: letters[j])
          == {c} + set j | 0 <= j < |rest| :: rest[j]
      by {
        forall j | 0 <= j < |letters| ensures letters[j] in {c} + set j | 0 <= j < |rest| :: rest[j] {
          if j > 0 { assert letters[j] == rest[j - 1]; }
        }
        forall j | 0 <= j < |rest| ensures rest[j] in set j | 0 <= j < |letters| :: letters[j] {
          assert rest[j] == letters[j + 1];
        }
      }
    }
  }

  /** The j-th guess of a run of fresh misses from a new game: it finds a counter
      of budget - j and reports game over only when that was the last attempt. */
  lemma MissStep(wordList: Option<seq<string>>, k: nat, maxAttempts: int, letters: seq<char>, j: nat)
    requires k < |WordsOrDefault(wordList)|
    requires FreshMisses(NewGame(wordList, k, maxAttempts), letters)
    requires j < |letters|
    ensures var s := Play(NewGame(wordList, k, maxAttempts), letters[..j]);
      && s.remainingAttempts == maxAttempts - j
      && Guess(s, letters[j]).1
         == if maxAttempts - j == 1 then Outcome(false, true, Some(Lose)) else Outcome(false, false, None)
  {
    var s0 := NewGame(wordList, k, maxAttempts);
    var front := letters[..j];
    assert FreshMisses(s0, front);
    MissesCostOneEach(s0, front);
    var s := Play(s0, front);
    var c := letters[j];
    assert c !in s.guessedLetters by {
      forall i | 0 <= i < |front| ensures front[i] != c {
        assert front[i] == letters[i];
      }
    }
  }

  /** A game with a budget of n >= 1 is lost on the n-th distinct wrong letter:
      none of the first n - 1 reports game over, they leave one attempt, and the
      last reports (False, True, "lose"). */
  lemma LostAfterMaxAttemptsMisses(wordList: Option<seq<string>>, k: nat, maxAttempts: int, letters: seq<char>)
    requires k < |WordsOrDefault(wordList)|
    requires maxAttempts >= 1 && |letters| == maxAttempts
    requires FreshMisses(NewGame(wordList, k, maxAttempts), letters)
    ensures var s0 := NewGame(wordList, k, maxAttempts);
      && (forall j :: 0 <= j < maxAttempts - 1 ==>
            Guess(Play(s0, letters[..j]), letters[j]).1 == Outcome(false, false, None))
      && Play(s0, letters[..maxAttempts - 1]).remainingAttempts == 1
      && Guess(Play(s0, letters[..maxAttempts - 1]), letters[maxAttempts - 1]).1
         == Outcome(false, true, Some(Lose))
  {
    forall j | 0 <= j < maxAttempts - 1
      ensures Guess(Play(NewGame(wordList, k, maxAttempts), letters[..j]), letters[j]).1
              == Outcome(false, false, None)
    {
      MissStep(wordList, k, maxAttempts, letters, j);
    }
    MissStep(wordList, k, maxAttempts, letters, maxAttempts - 1);
  }

  /** A run of guesses records exactly the lower-cased letters played. */
  lemma {:induction false} PlayRecordsLetters(s: GameState, letters: seq<char>)
    requires |s.wordDisplay| == |s.word|
    ensures Play(s, letters).guessedLetters
            == s.guessedLetters + set j | 0 <= j < |letters| :: LowerChar(letters[j])
    decreases |letters|
  {
    if letters != [] {
      var rest := letters[1..];
      PlayRecordsLetters(Guess(s, letters[0]).0, rest);
      assert (set j | 0 <= j < |letters| :: LowerChar(letters[j]))
          == {LowerChar(letters[0])} + set j | 0 <= j < |rest| :: LowerChar(rest[j])
      by {
        forall j | 0 <= j < |letters|
          ensures LowerChar(letters[j]) in {LowerChar(letters[0])} + set j | 0 <= j < |rest| :: LowerChar(rest[j])
        {
          if j > 0 { assert letters[j] == rest[j - 1]; }
        }
        forall j | 0 <= j < |rest|
          ensures LowerChar(rest[j]) in set j | 0 <= j < |letters| :: LowerChar(letters[j])
        {
          assert rest[j] == letters[j + 1];
        }
      }
    }
  }

  /** Lower-case letters, pairwise distinct, that are exactly the letters of the word. */
  ghost predicate AllLettersOnce(w: string, letters: seq<char>)
  {
    && (forall j :: 0 <= j < |letters| ==> LowerChar(letters[j]) == letters[j])
    && (forall j, k :: 0 <= j < k < |letters| ==> letters[j] != letters[k])
    && Letters(letters) == Letters(w)
  }

  /** After the first j guesses of such a run from a fresh state, exactly those
      letters are guessed, the invariant holds and no attempt has been spent. */
  lemma HitPrefix(s0: GameState, letters: seq<char>, j: nat)
    requires |s0.wordDisplay| == |s0.word| && Inv(s0) && s0.guessedLetters == {}
    requires AllLettersOnce(s0.word, letters)
    requires j <= |letters|
    ensures var s := Play(s0, letters[..j]);
      && Inv(s)
      && s.guessedLetters == Letters(letters[..j])
      && s.remainingAttempts == s0.maxAttempts
  {
    var front := letters[..j];
    var s := Play(s0, front);
    PlayPreservesInv(s0, front);
    PlayRecordsLetters(s0, front);
    assert s.guessedLetters == Letters(front) by {
      forall i | 0 <= i < |front| ensures LowerChar(front[i]) == front[i] {
        assert front[i] == letters[i];
      }
    }
    assert Misses(s0.word, s.guessedLetters) == {} by {
      forall g | g in s.guessedLetters ensures g in s0.word {
        var i :| 0 <= i < |front| && front[i] == g;
        assert letters[i] in Letters(letters);
        var m :| 0 <= m < |s0.word| && s0.word[m] == g;
      }
    }
    assert Misses(s0.word, s0.guessedLetters) == {};
  }

  /** The j-th guess of a run that plays each letter of the secret once, from a
      fresh state: it is correct, and ends the game exactly when it is the last. */
  lemma HitStep(s0: GameState, letters: seq<char>, j: nat)
    requires |s0.wordDisplay| == |s0.word| && Inv(s0) && s0.guessedLetters == {}
    requires Placeholder !in s0.word
    requires AllLettersOnce(s0.word, letters)
    requires j < |letters|
    ensures Guess(Play(s0, letters[..j]), letters[j]).1
            == if j == |letters| - 1 then Outcome(true, true, Some(Win)) else Outcome(true, false, None)
  {
    var w := s0.word;
    var front := letters[..j];
    var s := Play(s0, front);
    HitPrefix(s0, letters, j);
    var c := letters[j];
    assert c !in s.guessedLetters by {
      forall i | 0 <= i < |front| ensures front[i] != c {
        assert front[i] == letters[i];
      }
    }
    assert c in w by {
      assert c in Letters(letters);
      var m :| 0 <= m < |w| && w[m] == c;
    }
    var t := Guess(s, c).0;
    GuessPreservesInv(s, c);
    CompleteIffAllGuessed(t);
    assert t.guessedLetters == Letters(front) + {c};
    if j == |letters| - 1 {
      forall m | 0 <= m < |w| ensures w[m] in t.guessedLetters {
        assert w[m] in Letters(letters);
        var i :| 0 <= i < |letters| && letters[i] == w[m];
        if i < j { assert front[i] == letters[i]; }
      }
    } else {
      var last := letters[|letters| - 1];
      assert last in Letters(w);
      var m :| 0 <= m < |w| && w[m] == last;
      assert last !in t.guessedLetters by {
        forall i | 0 <= i < |front| ensures front[i] != last {
          assert front[i] == letters[i];
        }
      }
    }
  }

  /** Playing every letter of an underscore-free secret once, in any order, wins:
      no guess costs an attempt, none before the last reports game over, and the
      last reports (True, True, "win"). */
  lemma WonAfterAllLetters(wordList: Option<seq<string>>, k: nat, maxAttempts: int, letters: seq<char>)
    requires k < |WordsOrDefault(wordList)|
    requires Placeholder !in NewGame(wordList, k, maxAttempts).word
    requires AllLettersOnce(NewGame(wordList, k, maxAttempts).word, letters)
    requires letters != []
    ensures var s0 := NewGame(wordList, k, maxAttempts);
      var n := |letters|;
      && (forall j :: 0 <= j < n - 1 ==>
            Guess(Play(s0, letters[..j]), letters[j]).1 == Outcome(true, false, None))
      && Play(s0, letters[..n - 1]).remainingAttempts == maxAttempts
      && Guess(Play(s0, letters[..n - 1]), letters[n - 1]).1 == Outcome(true, true, Some(Win))
  {
    var s0 := NewGame(wordList, k, maxAttempts);
    var n := |letters|;
    forall j | 0 <= j < n - 1
      ensures Guess(Play(s0, letters[..j]), letters[j]).1 == Outcome(true, false, None)
    {
      HitStep(s0, letters, j);
    }
    HitStep(s0, letters, n - 1);
    HitPrefix(s0, letters, n - 1);
  }

  /** Starting from a running game (a placeholder shown, attempts left), the
      outcome reports game over exactly when the new state is finished: no
      placeholder left, or the counter at zero. With a positive counter the
      counter stays non-negative. */
  lemma GuessReportsGameOver(s: GameState, letter: char)
    requires |s.wordDisplay| == |s.word|
    requires Placeholder in s.wordDisplay && s.remainingAttempts >= 1
    ensures var (t, o) := Guess(s, letter);
      && t.remainingAttempts >= 0
      && (o.isGameOver <==> Placeholder !in t.wordDisplay || t.remainingAttempts == 0)
      && (o.result == Some(Win) <==> o.isGameOver && o.isCorrect)
      && (o.result == Some(Lose) <==> o.isGameOver && !o.isCorrect)
  {
  }

  // ---------------------------------------------------------------------
  // The engine object

  /** class HangmanGame: the word and the display list are fixed at construction;
      the display's entries, the guessed set and the counter change in place. */
  class HangmanGame {
    const word: string
    const wordDisplay: array<char>
    var guessedLetters: set<char>
    const maxAttempts: int
    var remainingAttempts: int

    /** True once a guess has reported game over. The engine never looks at it:
        the GUI disables its Guess button at that point, so no further guess
        reaches the engine. */
    ghost var gameOverReported: bool

    /** The state as a value. */
    function State(): GameState
      reads this, wordDisplay
    {
      GameState(word, wordDisplay[..], guessedLetters, maxAttempts, remainingAttempts)
    }

    ghost predicate Valid()
      reads this, wordDisplay
    {
      && wordDisplay.Length == |word|
      && Inv(State())
      && (!gameOverReported ==> |word| == 0 || Placeholder in wordDisplay[..])
      && (!gameOverReported && maxAttempts >= 1 ==> remainingAttempts >= 1)
      && (maxAttempts >= 1 ==> remainingAttempts >= 0)
    }

    /** __init__: picks word k of the list (the default list when none is given),
        lower-cases it and shows one placeholder per letter. */
    constructor (k: nat, wordList: Option<seq<string>> := None, maxAttempts: int := DefaultMaxAttempts)
      requires k < |WordsOrDefault(wordList)|
      ensures Valid() && fresh(wordDisplay) && !gameOverReported
      ensures State() == NewGame(wordList, k, maxAttempts)
    {
      var w := Lower(WordsOrDefault(wordList)[k]);
      word := w;
      guessedLetters := {};
      this.maxAttempts := maxAttempts;
      remainingAttempts := maxAttempts;
      wordDisplay := new char[|w|](_ => Placeholder);
      gameOverReported := false;
      new;
      assert wordDisplay[..] == NewGame(wordList, k, maxAttempts).wordDisplay;
      assert |w| > 0 ==> wordDisplay[..][0] == Placeholder;
    }

    /** guess_letter: applies one guess in place and reports the outcome. */
    method GuessLetter(letter: char) returns (o: Outcome)
      requires Valid() && !gameOverReported
      modifies this, wordDisplay
      ensures Valid()
      ensures (State(), o) == Guess(old(State()), letter)
      ensures gameOverReported == o.isGameOver
      ensures var c := LowerChar(letter);
        && (c in old(guessedLetters) ==>
              o == Outcome(false, false, None) && State() == old(State()))
        && (c !in old(guessedLetters) ==> guessedLetters == old(guessedLetters) + {c})
        && (c !in old(guessedLetters) && c in word ==>
              && remainingAttempts == old(remainingAttempts)
              && (forall i :: 0 <= i < |word| ==>
                    wordDisplay[i] == if word[i] == c then c else old(wordDisplay[i]))
              && o == if Placeholder in wordDisplay[..] then Outcome(true, false, None)
                      else Outcome(true, true, Some(Win)))
        && (c !in old(guessedLetters) && c !in word ==>
              && wordDisplay[..] == old(wordDisplay[..])
              && remainingAttempts == old(remainingAttempts) - 1
              && o == if remainingAttempts == 0 then Outcome(false, true, Some(Lose))
                      else Outcome(false, false, None))
    {
      ghost var before := State();
      GuessPreservesInv(before, letter);
      var c := LowerChar(letter);
      if c in guessedLetters {
        return Outcome(false, false, None);
      }
      guessedLetters := guessedLetters + {c};
      if c in word {
        for i := 0 to |word|
          modifies wordDisplay
          invariant forall j :: 0 <= j < i ==>
            wordDisplay[j] == if word[j] == c then c else before.wordDisplay[j]
          invariant forall j :: i <= j < |word| ==> wordDisplay[j] == before.wordDisplay[j]
        {
          if word[i] == c {
            wordDisplay[i] := c;
          }
        }
        assert wordDisplay[..] == Reveal(word, before.wordDisplay, c);
        assert State() == Guess(before, letter).0;
        if Placeholder !in wordDisplay[..] {
          gameOverReported := true;
          return Outcome(true, true, Some(Win));
        }
        return Outcome(true, false, None);
      }
      remainingAttempts := remainingAttempts - 1;
      assert State() == Guess(before, letter).0;
      if remainingAttempts == 0 {
        gameOverReported := true;
        return Outcome(false, true, Some(Lose));
      }
      return Outcome(false, false, None);
    }

    /** get_current_state: the display joined into one string, and the counter.
        In a consistent game the string is the mask of the guessed letters and
        the counter is the budget less the wrong guesses. */
    function GetCurrentState(): (r: (string, int))
      reads this, wordDisplay
      requires Valid()
      ensures r.0 == Mask(word, guessedLetters)
      ensures r.1 == maxAttempts - |Misses(word, guessedLetters)|
    {
      (wordDisplay[..], remainingAttempts)
    }
  }

  /** The worked example: secret "cat" with six attempts, guessing c, a, t. */
  lemma CatIsWonInThreeGuesses()
    ensures var s0 := NewGame(Some(["Cat"]), 0, 6);
      var (s1, o1) := Guess(s0, 'c');
      var (s2, o2) := Guess(s1, 'A');
      var (s3, o3) := Guess(s2, 't');
      && s1.wordDisplay == "c__" && o1 == Outcome(true, false, None)
      && s2.wordDisplay == "ca_" && o2 == Outcome(true, false, None)
      && s3.wordDisplay == "cat" && o3 == Outcome(true, true, Some(Win))
      && s3.remainingAttempts == 6
  {
    var s0 := NewGame(Some(["Cat"]), 0, 6);
    assert s0.word == "cat" && s0.wordDisplay == "___";
    var s1 := Guess(s0, 'c').0;
    assert s1.wordDisplay == "c__";
    var s2 := Guess(s1, 'A').0;
    assert s2.wordDisplay == "ca_";
    var s3 := Guess(s2, 't').0;
    assert s3.wordDisplay == "cat";
  }
}
