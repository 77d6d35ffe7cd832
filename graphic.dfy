/** The masked word the hangman game shows before every guess
    (gallows/ver_0.1/graphic.py, display_word). Every letter of the word is
    shown either as itself, when it has been guessed, or as '_', and each is
    followed by a space. The guessed letters are the game's list of input
    strings, so a letter counts as guessed when the one-character string made
    of it is an element of that list. */
module Graphic {

  /** The two characters shown for one letter of the word. */
  function Cell(letter: char, guessed: seq<string>): string
  {
    if [letter] in guessed then [letter, ' '] else "_ "
  }

  /** What display_word shows, as a specification: the cells of all letters
      of the word, left to right. */
  function Masked(word: string, guessed: seq<string>): string
    decreases |word|
  {
    if word == [] then ""
    else Masked(word[..|word| - 1], guessed) + Cell(word[|word| - 1], guessed)
  }

  /** The character shown in place of letter i of the word. */
  function Shown(word: string, guessed: seq<string>, i: nat): char
    requires i < |word|
  {
    if [word[i]] in guessed then word[i] else '_'
  }

  /** `s` repeated n times. */
  function Repeat(s: string, n: nat): string
  {
    if n == 0 then "" else Repeat(s, n - 1) + s
  }

  /** The characters of s at even positions 0, 2, 4, ... */
  function EvenPositions(s: string): string
    decreases |s|
  {
    if |s| < 2 then s[..|s|] else [s[0]] + EvenPositions(s[2..])
  }

  /** display_word, returning the string it builds instead of printing it. */
  method DisplayWord(word: string, guessed: seq<string>) returns (display: string)
    ensures display == Masked(word, guessed)
    ensures |display| == 2 * |word|
    ensures forall i :: 0 <= i < |word| ==>
              display[2 * i] == Shown(word, guessed, i) && display[2 * i + 1] == ' '
  {
    display := "";
    var i := 0;
    while i < |word|
      invariant 0 <= i <= |word|
      invariant display == Masked(word[..i], guessed)
    {
      assert word[..i + 1][..i] == word[..i];
      if [word[i]] in guessed {
        display := display + [word[i]] + " ";
      } else {
        display := display + "_ ";
      }
      i := i + 1;
    }
    assert word[..i] == word;
    MaskedLength(word, guessed);
    forall i | 0 <= i < |word|
      ensures display[2 * i] == Shown(word, guessed, i) && display[2 * i + 1] == ' '
    {
      MaskedAt(word, guessed, i);
    }
  }

  /** The shown string has two characters per letter of the word. */
  lemma {:induction false} MaskedLength(word: string, guessed: seq<string>)
    ensures |Masked(word, guessed)| == 2 * |word|
    decreases |word|
  {
    if word != [] {
      MaskedLength(word[..|word| - 1], guessed);
    }
  }

  /** Position 2i shows letter i or '_', position 2i+1 is a space. */
  lemma {:induction false} MaskedAt(word: string, guessed: seq<string>, i: nat)
    requires i < |word|
    ensures |Masked(word, guessed)| == 2 * |word|
    ensures Masked(word, guessed)[2 * i] == Shown(word, guessed, i)
    ensures Masked(word, guessed)[2 * i + 1] == ' '
    decreases |word|
  {
    MaskedLength(word, guessed);
    var init := word[..|word| - 1];
    MaskedLength(init, guessed);
    if i < |word| - 1 {
      MaskedAt(init, guessed, i);
      assert Shown(init, guessed, i) == Shown(word, guessed, i);
    }
  }

  /** Two strings of the same length that agree with Shown at every position
      are the shown string. */
  lemma PointwiseMasked(word: string, guessed: seq<string>, s: string)
    requires |s| == 2 * |word|
    requires forall i :: 0 <= i < |word| ==> s[2 * i] == Shown(word, guessed, i) && s[2 * i + 1] == ' '
    ensures s == Masked(word, guessed)
  {
    MaskedLength(word, guessed);
    forall j | 0 <= j < |s|
      ensures s[j] == Masked(word, guessed)[j]
    {
      MaskedAt(word, guessed, j / 2);
      assert j == 2 * (j / 2) || j == 2 * (j / 2) + 1;
    }
  }

  /** Before any guess every letter is hidden: "_ " once per letter. */
  lemma {:induction false} NothingGuessed(word: string)
    ensures Masked(word, []) == Repeat("_ ", |word|)
    decreases |word|
  {
    if word != [] {
      NothingGuessed(word[..|word| - 1]);
    }
  }

  /** Only which strings were guessed matters, not their order or how often
      each was entered. */
  lemma {:induction false} OnlyTheSetMatters(word: string, g1: seq<string>, g2: seq<string>)
    requires forall s :: s in g1 <==> s in g2
    ensures Masked(word, g1) == Masked(word, g2)
    decreases |word|
  {
    if word != [] {
      OnlyTheSetMatters(word[..|word| - 1], g1, g2);
      assert Cell(word[|word| - 1], g1) == Cell(word[|word| - 1], g2);
    }
  }

  /** Guessing more only uncovers letters: a position shown under fewer
      guesses is shown the same under more, and any position that changes
      was '_' and becomes the letter of the word there. */
  lemma MoreGuessesUncover(word: string, g1: seq<string>, g2: seq<string>, j: nat)
    requires forall s :: s in g1 ==> s in g2
    requires j < 2 * |word|
    ensures |Masked(word, g1)| == |Masked(word, g2)| == 2 * |word|
    ensures Masked(word, g1)[j] != '_' ==> Masked(word, g2)[j] == Masked(word, g1)[j]
    ensures Masked(word, g2)[j] == Masked(word, g1)[j] ||
            (j % 2 == 0 && Masked(word, g1)[j] == '_' && Masked(word, g2)[j] == word[j / 2])
  {
    MaskedAt(word, g1, j / 2);
    MaskedAt(word, g2, j / 2);
    assert j == 2 * (j / 2) || j == 2 * (j / 2) + 1;
  }

  /** Once every letter has been guessed, the even positions spell the word. */
  lemma AllGuessedSpellsWord(word: string, guessed: seq<string>)
    requires forall i :: 0 <= i < |word| ==> [word[i]] in guessed
    ensures EvenPositions(Masked(word, guessed)) == word
  {
    var m := Masked(word, guessed);
    MaskedLength(word, guessed);
    forall i | 0 <= i < |word|
      ensures m[2 * i] == word[i]
    {
      MaskedAt(word, guessed, i);
    }
    EvenPositionsAt(m, word);
  }

  /** Helper: a string of even length 2n whose even positions are the
      characters of w has w as its even positions. */
  lemma {:induction false} EvenPositionsAt(s: string, w: string)
    requires |s| == 2 * |w|
    requires forall i :: 0 <= i < |w| ==> s[2 * i] == w[i]
    ensures EvenPositions(s) == w
    decreases |w|
  {
    if w != [] {
      var s', w' := s[2..], w[1..];
      forall i | 0 <= i < |w'|
        ensures s'[2 * i] == w'[i]
      {
        assert s'[2 * i] == s[2 * (i + 1)];
      }
      EvenPositionsAt(s', w');
      assert EvenPositions(s) == [s[0]] + EvenPositions(s');
      assert s[0] == w[0];
    }
  }
}
