/** The console game loop of gallows/ver_0.1/game.py: start_game, which
    lets the player guess until the word is found or six wrong guesses have
    been made, and the decision rule of play_again.

    The module `logic` that start_game consults is not part of this model:
    its two predicates, is_valid_guess(letter, word, guessed_letters) and
    has_won(word, guessed_letters), are parameters of arbitrary function type.
    The lines typed by the player are a sequence of strings; running out of
    them is where input() would raise EOFError. */
module Game {
  import Graphic

  /** The number of wrong guesses a game allows. */
  const MaxAttempts: nat := 6

  /** The logic module's judgement whether a letter is an acceptable guess
      for the word, given the letters guessed so far. */
  type GuessCheck = (string, string, seq<string>) -> bool

  /** The logic module's judgement whether the guessed letters complete the
      word. */
  type WinCheck = (string, seq<string>) -> bool

  // ---------------------------------------------------------------------
  // The game as a function of the letters read so far
  // ---------------------------------------------------------------------

  /** The guessed-letters list after the loop has processed `history`. */
  function GuessedAfter(isValid: GuessCheck, word: string, history: seq<string>): seq<string>
    decreases |history|
  {
    if history == [] then []
    else
      var before := GuessedAfter(isValid, word, history[..|history| - 1]);
      var letter := history[|history| - 1];
      if isValid(letter, word, before) then before + [letter] else before
  }

  /** The number of guesses in `history` that is_valid_guess rejected. */
  function MissesAfter(isValid: GuessCheck, word: string, history: seq<string>): nat
    decreases |history|
  {
    if history == [] then 0
    else
      var before := GuessedAfter(isValid, word, history[..|history| - 1]);
      var letter := history[|history| - 1];
      MissesAfter(isValid, word, history[..|history| - 1]) + if isValid(letter, word, before) then 0 else 1
  }

  /** Whether guess i of `history` was accepted, judged against the
      guessed letters at the moment it was made. */
  predicate AcceptedAt(isValid: GuessCheck, word: string, history: seq<string>, i: nat)
    requires i < |history|
  {
    isValid(history[i], word, GuessedAfter(isValid, word, history[..i]))
  }

  /** Whether the loop stops after `history`: the last guess was accepted
      and has_won holds, or no attempts are left. */
  predicate Finished(isValid: GuessCheck, hasWon: WinCheck, word: string, history: seq<string>)
  {
    MissesAfter(isValid, word, history) >= MaxAttempts ||
    (history != [] && AcceptedAt(isValid, word, history, |history| - 1) &&
     hasWon(word, GuessedAfter(isValid, word, history)))
  }

  /** Every guess is either accepted or rejected: the accepted ones are the
      guessed-letters list, the rejected ones the misses. */
  lemma {:induction false} GuessesArePartitioned(isValid: GuessCheck, word: string, history: seq<string>)
    ensures |GuessedAfter(isValid, word, history)| + MissesAfter(isValid, word, history) == |history|
    decreases |history|
  {
    if history != [] {
      GuessesArePartitioned(isValid, word, history[..|history| - 1]);
    }
  }

  /** Every entry of the guessed-letters list is one of the letters read. */
  lemma {:induction false} GuessedWereRead(isValid: GuessCheck, word: string, history: seq<string>)
    ensures forall s :: s in GuessedAfter(isValid, word, history) ==> s in history
    decreases |history|
  {
    if history != [] {
      var init := history[..|history| - 1];
      GuessedWereRead(isValid, word, init);
      assert forall s :: s in init ==> s in history;
    }
  }

  /** Along a game the guessed-letters list only grows at its end and the
      misses never decrease, so the attempts left never increase. */
  lemma {:induction false} PrefixMonotone(isValid: GuessCheck, word: string, history: seq<string>, k: nat)
    requires k <= |history|
    ensures GuessedAfter(isValid, word, history[..k]) <= GuessedAfter(isValid, word, history)
    ensures MissesAfter(isValid, word, history[..k]) <= MissesAfter(isValid, word, history)
    decreases |history|
  {
    if k < |history| {
      var init := history[..|history| - 1];
      assert history[..k] == init[..k];
      PrefixMonotone(isValid, word, init, k);
    } else {
      assert history[..k] == history;
    }
  }

  // ---------------------------------------------------------------------
  // The loop's state
  // ---------------------------------------------------------------------

  /** The local state of one start_game call: the word, the two predicates of
      the logic module, the attempts left and the guessed-letters list. */
  class GameState {
    const word: string
    const isValid: GuessCheck
    const hasWon: WinCheck
    var attempts: int
    var guessedLetters: seq<string>
    /** The letters read so far, in order. */
    ghost var history: seq<string>

    /** attempts is six minus the rejected guesses, and guessedLetters the
        accepted ones, in order. */
    ghost predicate Valid()
      reads this
    {
      0 <= attempts <= MaxAttempts &&
      attempts == MaxAttempts - MissesAfter(isValid, word, history) &&
      guessedLetters == GuessedAfter(isValid, word, history)
    }

    /** A new game: six attempts, no guessed letters and nothing read. */
    constructor (word: string, isValid: GuessCheck, hasWon: WinCheck)
      ensures Valid()
      ensures this.word == word && this.isValid == isValid && this.hasWon == hasWon
      ensures attempts == MaxAttempts && guessedLetters == [] && history == []
    {
      this.word := word;
      this.isValid := isValid;
      this.hasWon := hasWon;
      attempts := MaxAttempts;
      guessedLetters := [];
      history := [];
    }

    /** One pass of the loop body after the letter has been read. The result
        tells whether the loop breaks because the player has won. */
    method Guess(letter: string) returns (won: bool)
      requires Valid() && attempts > 0
      modifies this
      ensures Valid()
      ensures history == old(history) + [letter]
      ensures isValid(letter, word, old(guessedLetters)) ==>
                guessedLetters == old(guessedLetters) + [letter] && attempts == old(attempts)
      ensures !isValid(letter, word, old(guessedLetters)) ==>
                guessedLetters == old(guessedLetters) && attempts == old(attempts) - 1
      ensures won <==> isValid(letter, word, old(guessedLetters)) && hasWon(word, guessedLetters)
      ensures Finished(isValid, hasWon, word, history) <==> won || attempts == 0
    {
      history := history + [letter];
      if isValid(letter, word, guessedLetters) {
        guessedLetters := guessedLetters + [letter];
        won := hasWon(word, guessedLetters);
      } else {
        attempts := attempts - 1;
        won := false;
      }
    }
  }

  // ---------------------------------------------------------------------
  // start_game
  // ---------------------------------------------------------------------

  /** Frame k is the masked word after the first k letters were read. */
  ghost predicate ShowsProgress(isValid: GuessCheck, word: string, inputs: seq<string>, frames: seq<string>)
  {
    |frames| <= |inputs| + 1 &&
    forall k :: 0 <= k < |frames| ==>
      frames[k] == Graphic.Masked(word, GuessedAfter(isValid, word, inputs[..k]))
  }

  lemma ShowsOneMore(isValid: GuessCheck, word: string, inputs: seq<string>, frames: seq<string>, shown: string)
    requires ShowsProgress(isValid, word, inputs, frames) && |frames| <= |inputs|
    requires shown == Graphic.Masked(word, GuessedAfter(isValid, word, inputs[..|frames|]))
    ensures ShowsProgress(isValid, word, inputs, frames + [shown])
  {
  }

  /** The game was not over after any of the first `read` inputs, so none of
      the first `read` inputs came after the end. */
  ghost predicate RanOnUntil(isValid: GuessCheck, hasWon: WinCheck, word: string, inputs: seq<string>, read: nat)
  {
    read <= |inputs| &&
    forall k :: 0 <= k < read ==> !Finished(isValid, hasWon, word, inputs[..k])
  }

  lemma RanOnOneMore(isValid: GuessCheck, hasWon: WinCheck, word: string, inputs: seq<string>, read: nat)
    requires RanOnUntil(isValid, hasWon, word, inputs, read) && read < |inputs|
    requires !Finished(isValid, hasWon, word, inputs[..read])
    ensures RanOnUntil(isValid, hasWon, word, inputs, read + 1)
  {
  }

  /** How start_game ends: with the win message, with the loss message, or
      because input() found no more lines (EOFError). */
  datatype Outcome = Won | Lost | NoMoreInput

  /** start_game on a given word and the player's lines `inputs`. It returns
      the final state, how many lines were read, the masked words shown
      before each read (display_word's output) and how the game ended. */
  method StartGame(word: string, isValid: GuessCheck, hasWon: WinCheck, inputs: seq<string>)
    returns (game: GameState, read: nat, frames: seq<string>, outcome: Outcome)
    ensures fresh(game) && game.Valid()
    ensures game.word == word && game.isValid == isValid && game.hasWon == hasWon
    ensures read <= |inputs| && game.history == inputs[..read]
    // the loop does not stop before it has to ...
    ensures RanOnUntil(isValid, hasWon, word, inputs, read)
    // ... and stops exactly on a win or when the attempts run out
    ensures outcome != NoMoreInput <==> Finished(isValid, hasWon, word, inputs[..read])
    ensures outcome == NoMoreInput ==> read == |inputs| && game.attempts > 0
    ensures outcome == Lost <==> game.attempts == 0
    ensures outcome == Won ==>
              read > 0 && game.attempts > 0 && AcceptedAt(isValid, word, inputs[..read], read - 1) &&
              hasWon(word, game.guessedLetters)
    ensures |frames| == if outcome == NoMoreInput then read + 1 else read
    ensures ShowsProgress(isValid, word, inputs, frames)
  {
    game := new GameState(word, isValid, hasWon);
    read, frames, outcome := 0, [], Lost;
    while game.attempts > 0
      invariant game.Valid()
      invariant game.word == word && game.isValid == isValid && game.hasWon == hasWon
      invariant read <= |inputs| && game.history == inputs[..read]
      invariant RanOnUntil(isValid, hasWon, word, inputs, read)
      invariant Finished(isValid, hasWon, word, inputs[..read]) <==> game.attempts == 0
      invariant |frames| == read
      invariant ShowsProgress(isValid, word, inputs, frames)
      decreases |inputs| - read
    {
      ghost var before := inputs[..read];
      assert !Finished(isValid, hasWon, word, before);
      var shown := Graphic.DisplayWord(word, game.guessedLetters);
      ShowsOneMore(isValid, word, inputs, frames, shown);
      frames := frames + [shown];
      if read == |inputs| {
        outcome := NoMoreInput;
        break;
      }
      var letter := inputs[read];
      assert inputs[..read + 1] == before + [letter];
      RanOnOneMore(isValid, hasWon, word, inputs, read);
      read := read + 1;
      var won := game.Guess(letter);
      if won {
        outcome := Won;
        break;
      }
    }
  }

  // ---------------------------------------------------------------------
  // play_again
  // ---------------------------------------------------------------------

  /** What play_again does with the player's answer. */
  datatype Decision = Restart | Goodbye

  /** str.lower() on one character, for the Latin letters A to Z. */
  function LowerChar(c: char): char
  {
    if 'A' <= c <= 'Z' then (c as int - 'A' as int + 'a' as int) as char else c
  }

  /** str.lower(), character by character. */
  function Lower(s: string): string
  {
    seq(|s|, i requires 0 <= i < |s| => LowerChar(s[i]))
  }

  /** The decision rule of play_again: restart when the lower-cased answer
      is "y", which are exactly the answers "y" and "Y". */
  function PlayAgain(response: string): (d: Decision)
    ensures d == Restart <==> response == "y" || response == "Y"
  {
    if Lower(response) == "y" then Restart else Goodbye
  }
}
