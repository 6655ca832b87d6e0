# Evil Hangman in Dafny

A model of the console game in `evilHangman/main.cpp`. The computer plays
hangman without committing to a word. It keeps a pool of every dictionary word
that still matches what the player has seen. For each guessed letter it groups
the pool into word families. A word's family key shows the letter where the
word has it and `_` everywhere else. The computer keeps the largest family.
When families tie, it keeps the one that comes first in the map's ascending
key order. The revealed pattern, the guessed letters and the guess counter are
then updated from the first word of the kept family.

The model has three modules:

- `StringOrder` (StringOrder.dfy) defines the order in which `std::set<string>`
  and `std::map<string, ...>` iterate. That is `std::string`'s `operator<`:
  lexicographic by character code, with a proper prefix first. It proves this
  order is a strict total order. `Least` is what `begin()` points to, and the
  method `Begin` computes it.
- `WordFamilies` (WordFamilies.dfy) models `MakeWordFamilyMap`,
  `CountLargestFamily` and `FindLargestWordFamily` as methods with their
  loops. Each loop visits its set or map in ascending order.
  - `FamilyMap` specifies them as a fold that files the words one by one. It
    is shown to be the unique exact partition of the pool by key.
  - `LargestFamily` specifies the kept family. It is the family that
    `IsFirstLargest` picks: the largest, and the first in key order among
    equals.
- `HangmanGame` (HangmanGame.dfy) models the game state. `main()` keeps that
  state in local variables and passes it by reference; here it is one `Game`
  object.
  - The state is the pool, the pattern `guessedWord`, `charactersGuessed`,
    `guessesRemaining` and `gameCompleted`.
  - The methods are the initialisation, the two update steps, `PlayTurn`,
    `EndTurn`, one round of the main loop (`Round`: a turn, then its end) and
    the main loop `Play`.
  - `State` is the part of the session a turn changes, as a value.
    `AfterTurn` is the state one turn with a letter produces, and
    `AfterTurns` is the state after a sequence of letters. `Over` holds when
    the pattern is complete or no guesses are left, and `Verdict` is what the
    end of a turn announces for a state. `PlayTurn`, `Round` and `Play` are
    proved to move the session exactly as these functions say.
  - `Valid()` is the game invariant. The pool is exactly the dictionary
    words of the chosen length that agree with the pattern and the guessed
    letters, so the computer never drops a word the player could still be
    facing. The pattern reveals only guessed letters. The counter is not
    negative.
  - `Progress()` (blanks plus guesses left) drops on every turn. So the game
    ends within `Progress() - 1` turns, given that many new letters to guess.

Console input is outside the model. The value a prompt would return is a
parameter, and what the prompt guarantees about it is a precondition. What
`EndTurn` announces is returned as an `Outcome`.

## Model

| member | source | states |
|---|---|---|
| StringOrder.LessIrreflexive | evilHangman/main.cpp:398-401 | no string sorts before itself under the order the set iterates in |
| StringOrder.LessAsymmetric | evilHangman/main.cpp:398-401 | if a sorts before b, b does not sort before a |
| StringOrder.LessTransitive | evilHangman/main.cpp:398-401 | the iteration order is transitive |
| StringOrder.LessTotal | evilHangman/main.cpp:398-401 | any two distinct strings are ordered one way or the other |
| StringOrder.LeastExists | evilHangman/main.cpp:442 | a non-empty set of strings has a least element, so begin() is defined |
| StringOrder.LeastUnique | evilHangman/main.cpp:442 | that least element is unique |
| StringOrder.Least | evilHangman/main.cpp:497 | begin() of a non-empty set is in the set and precedes every other element |
| StringOrder.Begin | evilHangman/main.cpp:458 | dereferencing begin() yields the least element |
| WordFamilies.FamilyKeyShape | evilHangman/main.cpp:371-378 | the key has the word's length, with the letter exactly where the word has it and `_` elsewhere |
| WordFamilies.SameFamilyIff | evilHangman/main.cpp:371-378 | two words share a key iff they have equal length and the letter at exactly the same positions |
| WordFamilies.KeyBlankIff | evilHangman/main.cpp:371-378 | a word's key is all `_` iff the word lacks the letter |
| WordFamilies.AllBlankSortsFirst | evilHangman/main.cpp:371-378 | for a letter above `_`, the all-blank key sorts before every other key of its length |
| WordFamilies.GroupKeepsGrouping | evilHangman/main.cpp:379-386 | filing one more word, into a new family or an existing one, keeps the map an exact grouping |
| WordFamilies.GroupAllGroups | evilHangman/main.cpp:370-387 | filing every remaining word in ascending order yields an exact grouping of all the words |
| WordFamilies.GroupingUnique | evilHangman/main.cpp:368-389 | two exact groupings of the same words are the same map, so the filing order does not matter |
| WordFamilies.FamilyMapPartition | evilHangman/main.cpp:368-389 | the families are non-empty and pairwise disjoint; together they hold exactly the pool; each word sits under its own key |
| WordFamilies.FamilyMapEmptyIff | evilHangman/main.cpp:368-389 | the map is empty iff the pool is |
| WordFamilies.MakeWordFamilyMap | evilHangman/main.cpp:368-389 | the nested loops build exactly the specified family map |
| WordFamilies.LargestSizeExists | evilHangman/main.cpp:396-403 | among any non-empty set of keys, some family is at least as large as every other |
| WordFamilies.FirstLargestExists | evilHangman/main.cpp:396-403 | every non-empty map has a largest family that no earlier key ties |
| WordFamilies.FirstLargestUnique | evilHangman/main.cpp:396-403 | the tie-break leaves exactly one such key |
| WordFamilies.FirstLargestKey | evilHangman/main.cpp:396-403 | the chosen key is the first largest one |
| WordFamilies.ScanStep | evilHangman/main.cpp:398-401 | one step of the ascending scan with strict `>` keeps the running family the first largest seen so far |
| WordFamilies.ScanDone | evilHangman/main.cpp:396-403 | a finished scan holds the first largest family, or the empty set for an empty map |
| WordFamilies.CountLargestFamily | evilHangman/main.cpp:396-403 | returns the first largest family; the empty set for an empty map; the result is empty iff the map is (for non-empty families) |
| WordFamilies.FindLargestWordFamily | evilHangman/main.cpp:414-417 | returns the kept family: part of the pool; a whole family (one key, and every pool word with that key); empty iff the pool is empty |
| WordFamilies.LargestFamilyNarrows | evilHangman/main.cpp:414-417 | the kept family is a subset of the pool and a whole family of it; no family is larger; it is empty only for an empty pool |
| WordFamilies.AbsentFamilyWinsTies | evilHangman/main.cpp:396-403 | if the family lacking the letter is among the largest, it is kept, and none of its words holds the letter |
| WordFamilies.TieExampleFamilies | evilHangman/main.cpp:368-389 | guessing 'a' against {"ab", "ba"} yields the families "a_" -> {"ab"} and "_a" -> {"ba"} |
| WordFamilies.TieGoesToFirstKey | evilHangman/main.cpp:414-417 | of those two equal families the one under "_a" (first in key order) is kept |
| HangmanGame.InitializeGuessedWord | evilHangman/main.cpp:199-206 | the initial pattern has the chosen length and is all `_` |
| HangmanGame.InitializePossibleWords | evilHangman/main.cpp:214-220 | a word is in the result iff it was there before or is a dictionary word of the chosen length |
| HangmanGame.IsWordGuessed | evilHangman/main.cpp:474-480 | true iff the pattern holds no `_` (corrected loop, index from 0) |
| HangmanGame.IsWordGuessedFrom | evilHangman/main.cpp:474-480 | the loop as written: true iff there is no `_` from the uninitialised start index on; a negative start checks nothing |
| HangmanGame.UninitialisedIndexMissesBlank | evilHangman/main.cpp:476 | a start of 1 reports "_a" complete, and a start of -1 reports "_" complete |
| HangmanGame.NoBlankFromZero | evilHangman/main.cpp:476 | scanning from 0 is exact: no `_` from 0 on iff no `_` at all |
| HangmanGame.BlankCountZeroIff | evilHangman/main.cpp:490 | a pattern has zero blanks iff it is complete |
| HangmanGame.BlankCountDrops | evilHangman/main.cpp:460-464 | revealing letters never adds blanks, and revealing one blank slot strictly lowers the count |
| HangmanGame.Game.constructor | evilHangman/main.cpp:294-304 | a new session: the pool is the dictionary words of the chosen length (non-empty); the pattern is all `_`; nothing is guessed; the counter is the chosen number; the invariant, exact pool included, holds |
| HangmanGame.Game.UpdateGuessesRemaining | evilHangman/main.cpp:441-449 | the counter drops by one exactly when the kept family's first word lacks the letter, and is unchanged otherwise |
| HangmanGame.Game.UpdateGuessedWordAndCharactersGuessed | evilHangman/main.cpp:457-466 | every slot where the first word has the letter shows it; every other slot keeps its old value; for any letter other than `_` no revealed slot becomes blank again; the letter is appended |
| HangmanGame.Game.PlayTurn | evilHangman/main.cpp:505-519 | after a turn the pool is the kept family of the old pool (a subset); the counter and pattern follow the first word; the letter is recorded; the new state is exactly `AfterTurn` of the old state and the letter; the invariant holds, so the new pool is again exactly the dictionary words consistent with what the player has seen; Progress() drops |
| HangmanGame.Game.EndTurn | evilHangman/main.cpp:489-503 | a complete pattern wins (checked first); otherwise no guesses left loses and exposes the least pool word; otherwise the game goes on |
| HangmanGame.Game.Round | evilHangman/main.cpp:543-544 | one pass of the loop body: the new state is `AfterTurn` of the old state and the letter; the letter is recorded and nothing else is added to the guessed letters; the invariant holds; Progress() drops; the game is completed exactly when the new state is over, and the outcome is the new state's `Verdict` |
| HangmanGame.Game.Play | evilHangman/main.cpp:541-545 | the turn loop keeps the invariant; it ends when the game completes or the letters run out; it completes within Progress() - 1 letters; the final state is `AfterTurns` of the starting state and the letters played; no state before the last turn played was over; the game is completed exactly when the final state is over; a `Won` outcome carries the complete pattern; a `Lost` outcome means a blank remains, no guesses are left, and it carries the least pool word |
| HangmanGame.PlayStep | evilHangman/main.cpp:542-545 | if the state after n letters is not over, one more turn gives the state after n + 1 letters, and no state so far was over |
| HangmanGame.TurnKeepsInvariant | evilHangman/main.cpp:513-518 | a turn built from a family of the pool keeps the invariant; all family words agree on the letter; blanks plus guesses strictly drop |
| HangmanGame.PoolStaysExact | evilHangman/main.cpp:513-518 | if the pool was exactly the consistent dictionary words and the turn keeps a whole family, the family is exactly the dictionary words consistent with the new pattern and guessed letters |
| HangmanGame.TurnKeepsValid | evilHangman/main.cpp:513-518 | keeping the first largest family, with the counter and pattern derived from its first word, yields a valid state again (exact pool included), and blanks plus guesses strictly drop |

## Left out

- Console input (`GetLine`, `GetAlphabetCharacter`, `GetInteger`, `GetPositiveInteger`, main.cpp:67-141) is not modelled. A value read from the console is a parameter. What the prompt guarantees is a precondition: a lowercase letter, or a positive integer.
- `OpenFile` and `ReadDictionary` (main.cpp:149-172) read the dictionary file; the model does not do file I/O. The dictionary is a parameter. The set of word lengths is `WordLengths`. An empty last line, which the eof-driven read loop may insert, is not modelled separately.
- `PromptForWordLength` (main.cpp:181-191) becomes the constructor's precondition: the length is positive and some dictionary word has it.
- `PromptForGuessesRemaining` (main.cpp:228-241) becomes a precondition that the number of guesses is positive. Its check that guesses are at least the word length is commented out in the source, so the model does not require it.
- `PromptForDisplayOfNumberOfWordsRemaining`, `PromptForYesOrNo` and the display flag (main.cpp:249-287) only affect printing and are not modelled.
- Printing (`PrintWordSpaceDelinated`, `PrintGuessesRemaining`, `PrintWordsRemaining` and every message) is not modelled. `EndTurn` returns the word it would print as its `Outcome`.
- `PromptForCharacterGuess` (main.cpp:349-359) is modelled as `PlayTurn`'s precondition (a lowercase letter not guessed before) plus its append to `charactersGuessed`. The update step appends the letter a second time, so `charactersGuessed` holds each letter twice; the model keeps that.
- HangmanGame.Game.Play: takes the accepted letters as a sequence and stops when they run out. The source's loop prompts forever instead.
- HangmanGame.Game.Play: the bound of `Progress() - 1` turns assumes that many new letters exist. A word with a character that is not a lowercase letter (an uppercase letter, or the `'\r'` of a CRLF dictionary file) leaves a blank no guess can fill. If the counter has not reached zero once all 26 letters are guessed, the source's prompt asks forever. The model only plays letters it is given.
- Characters are compared by code point (`char` in Dafny), like `std::string` on ASCII input. Locale and signed-`char` effects are not modelled.
- `guessesRemaining` is an unbounded integer. It starts positive and never goes below zero, so 32-bit overflow cannot arise.

## Findings

| source | as written | input that shows it | evidently intended | confidence | as-written member | corrected member |
|---|---|---|---|---|---|---|
| evilHangman/main.cpp:476 | the loop index of `IsWordGuessed` is declared as `int i` with no initial value, so the scan starts wherever that garbage value points (and a negative value, converted to unsigned in `i < size()`, skips the loop and reports a win) | pattern "_a" with the index at 1, or "_" with the index at -1: both are reported complete | the index starts at 0 and every slot is checked | not executed; reading an uninitialised local is undefined behaviour, and the outcome depends on the compiler | HangmanGame.IsWordGuessedFrom, HangmanGame.UninitialisedIndexMissesBlank | HangmanGame.IsWordGuessed, HangmanGame.NoBlankFromZero |
