# Gallows (hangman) — a Dafny model

A model of the console hangman game in `gallows/`: the masked word shown to
the player, the guessing loop with its six attempts, the play-again rule,
the small English–Russian dictionary, and the table of words by category and
language from which a word is drawn. Everything is in four modules, one per
source file:

- `graphic.dfy`, module `Graphic`: `display_word`, returning the string it
  builds. The loop over the word is a method whose result is proved equal to
  a specification function `Masked`; the lemmas state its length, what each
  position holds, and how it reacts to more guesses.
- `game.dfy`, module `Game`: `start_game` as a `GameState` class (attempts
  and guessed-letters list, updated in place by `Guess`) driven by the
  `StartGame` method over a given sequence of input lines; the predicates of
  the logic module are function-typed parameters. `PlayAgain` is the
  decision rule of `play_again`.
- `translation.dfy`, module `Translation`: the `Dictionary` class and its
  lookup with a default.
- `words.dfy`, module `Words`: the constant word table and
  `get_random_word`, with Python's exceptions as a `Result`.

## Model

| member | source | states |
|---|---|---|
| `Graphic.DisplayWord` | gallows/ver_0.1/graphic.py:1-7 | the string built has two characters per letter; position 2i is letter i when the one-letter string is among the guessed entries and `_` otherwise; position 2i+1 is a space; it equals `Masked` |
| `Graphic.MaskedLength` | gallows/ver_0.1/graphic.py:2-7 | the masked word is exactly twice as long as the word |
| `Graphic.MaskedAt` | gallows/ver_0.1/graphic.py:3-7 | position 2i shows letter i or `_` according to whether it was guessed, position 2i+1 is a space |
| `Graphic.PointwiseMasked` | gallows/ver_0.1/graphic.py:3-7 | the length and per-position description determine the masked word uniquely |
| `Graphic.NothingGuessed` | gallows/ver_0.1/graphic.py:2-7 | with no guesses the output is `"_ "` once per letter |
| `Graphic.OnlyTheSetMatters` | gallows/ver_0.1/graphic.py:4 | two guess lists with the same elements, in any order and with any repetition, give the same output |
| `Graphic.MoreGuessesUncover` | gallows/ver_0.1/graphic.py:4-7 | with more guesses every shown letter stays shown, and a position can only change from `_` to the word's letter |
| `Graphic.AllGuessedSpellsWord` | gallows/ver_0.1/graphic.py:3-5 | when every letter is guessed, the even positions of the output spell the word |
| `Game.GuessesArePartitioned` | gallows/ver_0.1/game.py:12-18 | accepted guesses (the list) plus rejected guesses (the misses) are all the inputs read |
| `Game.GuessedWereRead` | gallows/ver_0.1/game.py:11-13 | every entry of the guessed list is one of the lines read |
| `Game.PrefixMonotone` | gallows/ver_0.1/game.py:9-18 | over a game the guessed list only grows at its end and the misses never decrease, so attempts never increase |
| `Game.GameState.constructor` | gallows/ver_0.1/game.py:7-8 | a game starts with 6 attempts, an empty guessed list and nothing read |
| `Game.GameState.Guess` | gallows/ver_0.1/game.py:12-18 | an accepted guess appends exactly that letter and keeps attempts, a rejected one decrements attempts by 1 and keeps the list; it reports a win exactly when the guess was accepted and has_won holds; attempts stay in [0, 6] and equal 6 minus the rejected guesses |
| `Game.StartGame` | gallows/ver_0.1/game.py:5-21 | the loop reads until a win or until attempts reach 0 and never stops earlier; the loss is reported exactly when attempts are 0; a win follows an accepted guess with has_won true; the masked word shown before read k reflects the first k inputs; running out of input ends the game only while attempts remain |
| `Game.PlayAgain` | gallows/ver_0.1/game.py:23-28 | play_again restarts exactly on the answers `y` and `Y`, and says goodbye to any other |
| `Translation.Dictionary.constructor` | gallows/ver_0.1/Dictionary.py:2-3 | the new dictionary holds the fixed table |
| `Translation.Dictionary.GetTranslation` | gallows/ver_0.1/Dictionary.py:5-6 | a stored word gives its translation, any other word `Перевод не найден`; the table is only read |
| `Translation.InitialTableContents` | gallows/ver_0.1/Dictionary.py:3 | the table holds exactly apple→яблоко, banana→банан, cherry→вишня |
| `Translation.NotFoundOnlyForMissing` | gallows/ver_0.1/Dictionary.py:3-6 | on the initial table the lookup answers `Перевод не найден` exactly for words it does not hold |
| `Words.Choice` | gallows/ver_0.5/words.py:27 | random.choice gives an element of a non-empty list and IndexError on an empty one |
| `Words.GetRandomWord` | gallows/ver_0.5/words.py:19-27 | a missing category or language is a KeyError naming that key; otherwise the result is a word of that category's list in that language |
| `Words.TableShape` | gallows/ver_0.5/words.py:4-17 | the categories are exactly animals, fruits and cities, each with exactly the languages Русский and English, each list of 5 words |
| `Words.DefinedExactlyOnKeys` | gallows/ver_0.5/words.py:27 | get_random_word succeeds exactly when category and language both exist |
| `Words.EveryWordCanBeDrawn` | gallows/ver_0.5/words.py:27 | every word of a list is the result of some draw |

## Left out

- Console output: the `print` calls of `display_word`, `display_attempts`, `display_win`, `display_loss` and `play_again`; `display_word` returns its string, and `StartGame` returns the masked words it would have shown.
- Console input: `input()` is replaced by a sequence of lines; running out of lines stands for `EOFError`.
- The `logic` module (`is_valid_guess`, `has_won`) is not part of this model; both are arbitrary total, pure function parameters. The model therefore assumes that neither changes the guessed-letters list it is handed nor raises an exception.
- `words.get_random_word()` with no arguments, called by `start_game` in gallows/ver_0.1/game.py:6, belongs to a `words` module that is not part of this model; the word is a parameter of `StartGame`.
- The restart of `play_again` by calling `start_game` again: only the decision is modelled.
- Randomness of `random.choice`: the drawn index is the argument `pick`, reduced modulo the list length.
- gallows/ver_0.5/main.py: the Tkinter window and the `Game` class it uses, which is not part of this model.
- Lower-casing in `play_again`: `Game.Lower` models `str.lower()` for the letters A to Z only; other characters keep their case. No other character lower-cases to `y`, so the play-again decision is unaffected.
