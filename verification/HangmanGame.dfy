/**
 The game's state and its per-turn transition. The state that main() keeps in
 local variables and threads through free functions by reference is one Game
 object here: the pool of possible words, the revealed pattern (guessedWord),
 the letters guessed so far, the remaining-guess counter and the completion
 flag. Console prompts and printing are outside the model; a letter the prompt
 would return is a parameter, and what EndTurn prints is its result.
 */
module HangmanGame {
  import opened StringOrder
  import opened WordFamilies

  /** What EndTurn announces: nothing yet, a win (with the pattern), or a loss (with the word it exposes). */
  datatype Outcome = Continue | Won(word: string) | Lost(word: string)

  /** The word lengths a dictionary offers, as ReadDictionary collects them. */
  function WordLengths(dictionarySet: set<string>): set<int>
  {
    set w | w in dictionarySet :: |w|
  }

  /** Builds the pattern of wordLength blanks, one character at a time. */
  method InitializeGuessedWord(wordLength: nat) returns (guessedWord: string)
    ensures |guessedWord| == wordLength
    ensures forall i :: 0 <= i < |guessedWord| ==> guessedWord[i] == Blank
  {
    var result := "";
    for i := 0 to wordLength
      invariant |result| == i
      invariant forall j :: 0 <= j < i ==> result[j] == Blank
    {
      result := result + "_";
    }
    guessedWord := result;
  }

  /** Inserts into possibleWords every dictionary word of length wordLength, visiting the dictionary in order. */
  method InitializePossibleWords(wordLength: int, dictionarySet: set<string>, possibleWords: set<string>)
    returns (result: set<string>)
    ensures forall w :: w in result <==> w in possibleWords || (w in dictionarySet && |w| == wordLength)
  {
    result := possibleWords;
    var rest := dictionarySet;
    while rest != {}
      invariant rest <= dictionarySet
      invariant forall w :: w in result <==>
        w in possibleWords || (w in dictionarySet - rest && |w| == wordLength)
      decreases rest
    {
      var word := Begin(rest);
      if |word| == wordLength {
        result := result + {word};
      }
      rest := rest - {word};
    }
  }

  /** The pattern is complete when it holds no blank. */
  method IsWordGuessed(guessedWord: string) returns (guessed: bool)
    ensures guessed <==> Blank !in guessedWord
  {
    var i := 0;
    while i < |guessedWord|
      invariant 0 <= i <= |guessedWord|
      invariant Blank !in guessedWord[..i]
    {
      if guessedWord[i] == Blank {
        return false;
      }
      i := i + 1;
    }
    assert guessedWord[..i] == guessedWord;
    return true;
  }

  /** No blank among the slots from `start` on; a negative start scans nothing. */
  predicate NoBlankFrom(guessedWord: string, start: int)
  {
    forall j :: 0 <= start <= j < |guessedWord| ==> guessedWord[j] != Blank
  }

  /**
   The completeness check as written, whose loop index is declared without an
   initial value: start is whatever that index holds. The loop test compares
   the int index with the unsigned size, so a negative index converts to a
   huge unsigned value and the loop body never runs.
   */
  method IsWordGuessedFrom(guessedWord: string, start: int) returns (guessed: bool)
    ensures guessed <==> NoBlankFrom(guessedWord, start)
  {
    var i := start;
    while 0 <= i < |guessedWord|
      invariant i == start || 0 <= start <= i <= |guessedWord|
      invariant forall j :: 0 <= start <= j < i && j < |guessedWord| ==> guessedWord[j] != Blank
      decreases |guessedWord| - i
    {
      if guessedWord[i] == Blank {
        return false;
      }
      i := i + 1;
    }
    return true;
  }

  /**
   An index that does not start at 0 lets a blank through: the pattern "_a"
   reads as complete when the scan starts at 1, and "_" when it starts at -1.
   */
  lemma UninitialisedIndexMissesBlank()
    ensures Blank in "_a" && NoBlankFrom("_a", 1)
    ensures Blank in "_" && NoBlankFrom("_", -1)
  {
  }

  /** With the index at 0 the check is exact. */
  lemma NoBlankFromZero(guessedWord: string)
    ensures NoBlankFrom(guessedWord, 0) <==> Blank !in guessedWord
  {
  }

  /** The number of blank slots in a pattern. */
  function BlankCount(pattern: string): nat
  {
    if pattern == [] then 0
    else (if pattern[0] == Blank then 1 else 0) + BlankCount(pattern[1..])
  }

  lemma {:induction false} BlankCountZeroIff(pattern: string)
    ensures BlankCount(pattern) == 0 <==> Blank !in pattern
    decreases |pattern|
  {
    if pattern != [] {
      BlankCountZeroIff(pattern[1..]);
      assert pattern == [pattern[0]] + pattern[1..];
    }
  }

  /**
   Filling blanks never adds any: if every blank of `after` was already a blank
   of `before`, `after` has at most as many, and strictly fewer when some slot
   j that was blank is now filled.
   */
  lemma {:induction false} BlankCountDrops(before: string, after: string, j: int)
    requires |before| == |after|
    requires forall i :: 0 <= i < |after| && after[i] == Blank ==> before[i] == Blank
    ensures BlankCount(after) <= BlankCount(before)
    ensures 0 <= j < |before| && before[j] == Blank && after[j] != Blank ==>
      BlankCount(after) < BlankCount(before)
    decreases |before|
  {
    if before != [] {
      BlankCountDrops(before[1..], after[1..], j - 1);
    }
  }

  /**
   A pool word agrees with the pattern: it has the pattern's letter in every
   revealed slot, and every slot where it has an already guessed letter is
   revealed.
   */
  ghost predicate Consistent(word: string, guessedWord: string, charactersGuessed: string)
  {
    && |word| == |guessedWord|
    && forall i :: 0 <= i < |word| ==>
         (guessedWord[i] != Blank ==> word[i] == guessedWord[i]) &&
         (word[i] in charactersGuessed ==> guessedWord[i] == word[i])
  }

  /**
   The game invariant over the four values of the state: a non-empty pool of
   words consistent with the pattern, a pattern that reveals only guessed
   letters, guessed letters that are lowercase, and a counter that is not
   negative.
   */
  ghost predicate GameInvariant(pool: set<string>, pattern: string, guessed: string, counter: int)
  {
    && pool != {}
    && (forall w :: w in pool ==> Consistent(w, pattern, guessed))
    && (forall i :: 0 <= i < |pattern| && pattern[i] != Blank ==> pattern[i] in guessed)
    && (forall i :: 0 <= i < |guessed| ==> 'a' <= guessed[i] <= 'z')
    && counter >= 0
  }

  /**
   The pool is exact: it holds every dictionary word of length n that agrees
   with the pattern and the guessed letters, and nothing else. The adversary
   never drops a word the player could still be facing.
   */
  ghost predicate PoolExact(pool: set<string>, dictionary: set<string>, n: nat, pattern: string, guessed: string)
  {
    forall w :: w in pool <==> w in dictionary && |w| == n && Consistent(w, pattern, guessed)
  }

  /** The whole game invariant over the values of a session's state. */
  ghost predicate ValidState(dictionary: set<string>, n: nat, pool: set<string>, pattern: string,
                             guessed: string, counter: int)
  {
    && |pattern| == n
    && GameInvariant(pool, pattern, guessed, counter)
    && PoolExact(pool, dictionary, n, pattern, guessed)
  }

  /** The values a turn changes: pool, pattern, guessed letters and counter. */
  datatype State = State(pool: set<string>, pattern: string, guessed: string, counter: int)

  /** The pattern with guessChar shown in every slot where `first` has it. */
  function Reveal(pattern: string, first: string, guessChar: char): (r: string)
    ensures |r| == |pattern|
    ensures forall i :: 0 <= i < |pattern| ==>
      r[i] == if i < |first| && first[i] == guessChar then guessChar else pattern[i]
  {
    seq(|pattern|, i requires 0 <= i < |pattern| =>
      if i < |first| && first[i] == guessChar then guessChar else pattern[i])
  }

  /**
   The state after one turn with guessChar: the first largest family is kept,
   the pattern shows the letter where its first word has it, the letter is
   recorded twice, and a guess is spent when that word lacks it.
   */
  ghost function AfterTurn(s: State, guessChar: char): State
  {
    var family := LargestFamily(s.pool, guessChar);
    if family == {} then State(family, s.pattern, s.guessed + [guessChar, guessChar], s.counter)
    else
      var first := Least(family);
      State(family, Reveal(s.pattern, first, guessChar), s.guessed + [guessChar, guessChar],
            if guessChar in first then s.counter else s.counter - 1)
  }

  /** The state after a turn for each letter of `letters`, in order. */
  ghost function AfterTurns(s: State, letters: seq<char>): State
    decreases |letters|
  {
    if letters == [] then s
    else AfterTurn(AfterTurns(s, letters[..|letters| - 1]), letters[|letters| - 1])
  }

  /** The game is over in this state: the pattern is complete or no guesses are left. */
  /**
   What the end of a turn announces for a state: won once the pattern has no
   blank, lost with the pool's first word once the counter is zero, and
   otherwise nothing.
   */
  ghost function Verdict(s: State): Outcome
    requires s.pool != {}
  {
    if Blank !in s.pattern then Won(s.pattern)
    else if s.counter == 0 then Lost(Least(s.pool))
    else Continue
  }

  ghost predicate Over(s: State)
  {
    Blank !in s.pattern || s.counter == 0
  }

  class Game {
    ghost const dictionary: set<string>
    const wordLength: nat
    var possibleWords: set<string>
    var guessedWord: string
    var charactersGuessed: string
    var guessesRemaining: int
    var gameCompleted: bool

    /** The game invariant. */
    ghost predicate Valid()
      reads this
    {
      ValidState(dictionary, wordLength, possibleWords, guessedWord, charactersGuessed, guessesRemaining)
    }

    /** The part of the session a turn changes, as a value. */
    function St(): State
      reads this
    {
      State(possibleWords, guessedWord, charactersGuessed, guessesRemaining)
    }

    /** Blanks plus remaining guesses: every turn lowers it. */
    ghost function Progress(): int
      reads this
    {
      BlankCount(guessedWord) + guessesRemaining
    }

    /**
     A new session: the non-interactive part of InitializeHangmanGame, given
     the dictionary, the chosen word length (positive, and the length of some
     dictionary word) and the chosen number of guesses (positive).
     */
    constructor (dictionarySet: set<string>, wordLength: nat, guesses: int)
      requires wordLength > 0 && wordLength in WordLengths(dictionarySet)
      requires guesses > 0
      ensures Valid()
      ensures this.dictionary == dictionarySet && this.wordLength == wordLength
      ensures forall w :: w in possibleWords <==> w in dictionarySet && |w| == wordLength
      ensures forall i :: 0 <= i < |guessedWord| ==> guessedWord[i] == Blank
      ensures charactersGuessed == "" && guessesRemaining == guesses && !gameCompleted
      ensures Blank in guessedWord
    {
      this.dictionary := dictionarySet;
      this.wordLength := wordLength;
      var pattern := InitializeGuessedWord(wordLength);
      var pool := InitializePossibleWords(wordLength, dictionarySet, {});
      var w :| w in dictionarySet && |w| == wordLength;
      assert w in pool;
      guessedWord := pattern;
      possibleWords := pool;
      charactersGuessed := "";
      guessesRemaining := guesses;
      gameCompleted := false;
      new;
      assert guessedWord[0] == Blank;
      forall w | w in dictionarySet && |w| == wordLength
        ensures Consistent(w, guessedWord, charactersGuessed)
      {
      }
    }

    /** A guess costs one only when the kept family's first word lacks the letter. */
    method UpdateGuessesRemaining(newPossibleWords: set<string>, guessChar: char)
      requires newPossibleWords != {}
      modifies this`guessesRemaining
      ensures guessChar in Least(newPossibleWords) ==> guessesRemaining == old(guessesRemaining)
      ensures guessChar !in Least(newPossibleWords) ==> guessesRemaining == old(guessesRemaining) - 1
    {
      var word := Begin(newPossibleWords);
      if guessChar !in word {
        guessesRemaining := guessesRemaining - 1;
      }
    }

    /**
     Reveals the letter in every slot where the kept family's first word has
     it, leaving every other slot as it was, and records the letter.
     */
    method UpdateGuessedWordAndCharactersGuessed(newPossibleWords: set<string>, guessChar: char)
      requires newPossibleWords != {}
      requires |Least(newPossibleWords)| == |guessedWord|
      modifies this`guessedWord, this`charactersGuessed
      ensures |guessedWord| == |old(guessedWord)|
      ensures forall i :: 0 <= i < |guessedWord| ==>
        guessedWord[i] == if Least(newPossibleWords)[i] == guessChar then guessChar else old(guessedWord)[i]
      ensures guessChar != Blank ==>
        forall i :: 0 <= i < |guessedWord| && old(guessedWord)[i] != Blank ==> guessedWord[i] != Blank
      ensures charactersGuessed == old(charactersGuessed) + [guessChar]
    {
      var word := Begin(newPossibleWords);
      for i := 0 to |word|
        invariant |guessedWord| == |old(guessedWord)|
        invariant forall j :: 0 <= j < i ==>
          guessedWord[j] == if word[j] == guessChar then guessChar else old(guessedWord)[j]
        invariant forall j :: i <= j < |guessedWord| ==> guessedWord[j] == old(guessedWord)[j]
        invariant charactersGuessed == old(charactersGuessed)
      {
        if word[i] == guessChar {
          guessedWord := guessedWord[i := guessChar];
        }
      }
      charactersGuessed := charactersGuessed + [guessChar];
    }

    /**
     One turn, given the letter the prompt accepted (a lowercase letter not
     guessed before; the prompt itself appends it to charactersGuessed, and
     the update appends it once more). The pool becomes the kept family, the
     counter drops by one exactly when that family lacks the letter, the
     pattern gains the letter where the family has it, and Progress() drops.
     */
    method PlayTurn(guessChar: char)
      requires Valid() && guessesRemaining > 0
      requires 'a' <= guessChar <= 'z' && guessChar !in charactersGuessed
      modifies this`possibleWords, this`guessedWord, this`charactersGuessed, this`guessesRemaining
      ensures Valid()
      ensures gameCompleted == old(gameCompleted)
      ensures possibleWords == LargestFamily(old(possibleWords), guessChar)
      ensures possibleWords <= old(possibleWords)
      ensures forall w :: w in possibleWords ==> (guessChar in w <==> guessChar in Least(possibleWords))
      ensures guessChar in Least(possibleWords) ==> guessesRemaining == old(guessesRemaining)
      ensures guessChar !in Least(possibleWords) ==> guessesRemaining == old(guessesRemaining) - 1
      ensures forall i :: 0 <= i < wordLength ==>
        guessedWord[i] == if Least(possibleWords)[i] == guessChar then guessChar else old(guessedWord)[i]
      ensures charactersGuessed == old(charactersGuessed) + [guessChar, guessChar]
      ensures St() == AfterTurn(old(St()), guessChar)
      ensures Progress() < old(Progress())
    {
      ghost var pool, pattern, guessed, counter := possibleWords, guessedWord, charactersGuessed, guessesRemaining;
      charactersGuessed := charactersGuessed + [guessChar];
      var newPossibleWords := FindLargestWordFamily(guessChar, possibleWords);
      UpdateGuessesRemaining(newPossibleWords, guessChar);
      UpdateGuessedWordAndCharactersGuessed(newPossibleWords, guessChar);
      possibleWords := newPossibleWords;
      assert charactersGuessed == guessed + [guessChar, guessChar];
      TurnKeepsValid(dictionary, wordLength, pool, pattern, guessed, counter,
                     possibleWords, guessedWord, guessesRemaining, guessChar);
      assert guessedWord == Reveal(pattern, Least(possibleWords), guessChar);
    }

    /**
     Decides whether the game is over: a complete pattern wins (checked
     first); otherwise no guesses left loses and exposes the least word of the
     pool; otherwise the game goes on and gameCompleted is left as it was.
     */
    method EndTurn() returns (outcome: Outcome)
      requires possibleWords != {}
      modifies this`gameCompleted
      ensures Blank !in guessedWord ==> gameCompleted && outcome == Won(guessedWord)
      ensures Blank in guessedWord && guessesRemaining == 0 ==>
        gameCompleted && outcome == Lost(Least(possibleWords))
      ensures Blank in guessedWord && guessesRemaining != 0 ==>
        gameCompleted == old(gameCompleted) && outcome == Continue
    {
      var guessed := IsWordGuessed(guessedWord);
      if guessed {
        gameCompleted := true;
        outcome := Won(guessedWord);
      } else if guessesRemaining == 0 {
        var word := Begin(possibleWords);
        gameCompleted := true;
        outcome := Lost(word);
      } else {
        outcome := Continue;
      }
    }

    /**
     One round of the main loop: a turn with the accepted letter, then the
     end-of-turn decision. The state moves by one AfterTurn; the game is
     completed exactly when that state is over, and the outcome is announced
     as EndTurn announces it.
     */
    method Round(guessChar: char) returns (outcome: Outcome)
      requires Valid() && !gameCompleted && guessesRemaining > 0
      requires 'a' <= guessChar <= 'z' && guessChar !in charactersGuessed
      modifies this
      ensures Valid()
      ensures St() == AfterTurn(old(St()), guessChar)
      ensures charactersGuessed == old(charactersGuessed) + [guessChar, guessChar]
      ensures forall x :: x in charactersGuessed <==> x in old(charactersGuessed) || x == guessChar
      ensures Progress() < old(Progress())
      ensures gameCompleted <==> Over(St())
      ensures outcome == Verdict(St())
    {
      PlayTurn(guessChar);
      outcome := EndTurn();
    }

    /**
     The main loop: play turns with the letters the prompt accepts, in order,
     until the game is completed or the letters run out. The game is over
     within Progress() - 1 turns of a session in play.
     */
    method Play(letters: seq<char>) returns (turns: nat, outcome: Outcome)
      requires Valid() && !gameCompleted && guessesRemaining > 0 && Blank in guessedWord
      requires forall i :: 0 <= i < |letters| ==> 'a' <= letters[i] <= 'z' && letters[i] !in charactersGuessed
      requires forall i, j :: 0 <= i < j < |letters| ==> letters[i] != letters[j]
      modifies this
      ensures Valid()
      ensures turns <= |letters|
      ensures gameCompleted || turns == |letters|
      ensures gameCompleted <==> outcome != Continue
      ensures outcome.Won? ==> Blank !in guessedWord && outcome.word == guessedWord
      ensures outcome.Lost? ==>
        Blank in guessedWord && guessesRemaining == 0 && outcome.word == Least(possibleWords)
      ensures turns + Progress() <= old(Progress())
      ensures |letters| >= old(Progress()) - 1 ==> gameCompleted
      ensures St() == AfterTurns(old(St()), letters[..turns])
      ensures forall t :: 0 <= t < turns ==> !Over(AfterTurns(old(St()), letters[..t]))
      ensures gameCompleted <==> Over(St())
    {
      turns, outcome := 0, Continue;
      ghost var s0 := St();
      while !gameCompleted && turns < |letters|
        invariant Valid()
        invariant turns <= |letters|
        invariant gameCompleted <==> Over(St())
        invariant outcome == Verdict(St())
        invariant forall i :: turns <= i < |letters| ==> letters[i] !in charactersGuessed
        invariant turns + Progress() <= old(Progress())
        invariant s0 == old(St())
        invariant St() == AfterTurns(s0, letters[..turns])
        invariant NoneOver(s0, letters, turns)
        decreases |letters| - turns
      {
        ghost var before := St();
        outcome := Round(letters[turns]);
        PlayStep(s0, letters, turns, before, St());
        turns := turns + 1;
      }
      if !gameCompleted {
        BlankCountZeroIff(guessedWord);
      }
    }
  }

  /**
   The invariant survives a turn. Given a state that satisfies it, a new
   lowercase letter, a non-empty family of pool words that share one key, and
   the state the turn builds from that family (the
   counter one lower exactly when the family's first word lacks the letter,
   the pattern showing the letter where that word has it), the new state
   satisfies it too; all words of the family agree on whether they hold the
   letter; and blanks plus counter drop.
   */
  lemma TurnKeepsInvariant(pool: set<string>, pattern: string, guessed: string, counter: int,
                           family: set<string>, newPattern: string, newCounter: int, guessChar: char)
    requires GameInvariant(pool, pattern, guessed, counter) && counter > 0
    requires 'a' <= guessChar <= 'z' && guessChar !in guessed
    requires family <= pool && family != {}
    requires forall u, w :: u in family && w in family ==> FamilyKey(u, guessChar) == FamilyKey(w, guessChar)
    requires newCounter == if guessChar in Least(family) then counter else counter - 1
    requires |newPattern| == |pattern| == |Least(family)|
    requires forall i :: 0 <= i < |newPattern| ==>
      newPattern[i] == if Least(family)[i] == guessChar then guessChar else pattern[i]
    ensures GameInvariant(family, newPattern, guessed + [guessChar, guessChar], newCounter)
    ensures forall w :: w in family ==> (guessChar in w <==> guessChar in Least(family))
    ensures BlankCount(newPattern) + newCounter < BlankCount(pattern) + counter
  {
    var first := Least(family);
    var guessed' := guessed + [guessChar, guessChar];
    forall w | w in family
      ensures |w| == |first| && forall i :: 0 <= i < |w| ==> (w[i] == guessChar <==> first[i] == guessChar)
    {
      SameFamilyIff(w, first, guessChar);
    }
    forall w | w in family
      ensures Consistent(w, newPattern, guessed')
    {
      assert Consistent(w, pattern, guessed);
    }
    forall w | w in family
      ensures guessChar in w <==> guessChar in first
    {
      if guessChar in w {
        var i :| 0 <= i < |w| && w[i] == guessChar;
        assert first[i] == guessChar;
      }
      if guessChar in first {
        var i :| 0 <= i < |first| && first[i] == guessChar;
        assert w[i] == guessChar;
      }
    }
    assert Consistent(first, pattern, guessed);
    BlankCountDrops(pattern, newPattern, -1);
    if guessChar in first {
      var j :| 0 <= j < |first| && first[j] == guessChar;
      assert pattern[j] == Blank;
      BlankCountDrops(pattern, newPattern, j);
    } else {
      assert newPattern == pattern;
    }
  }

  /**
   The pool stays exact across a turn. If the pool held exactly the
   dictionary words consistent with the old state, and the turn keeps a whole
   family of it (every pool word with the family's key), then the family holds
   exactly the dictionary words consistent with the new pattern and the
   letters guessed so far.
   */
  lemma {:induction false} PoolStaysExact(pool: set<string>, dictionary: set<string>, n: nat, pattern: string,
                                          guessed: string, counter: int, family: set<string>,
                                          newPattern: string, guessChar: char)
    requires GameInvariant(pool, pattern, guessed, counter) && |pattern| == n
    requires PoolExact(pool, dictionary, n, pattern, guessed)
    requires 'a' <= guessChar <= 'z' && guessChar !in guessed
    requires family <= pool && family != {}
    requires forall w :: w in pool && FamilyKey(w, guessChar) == FamilyKey(Least(family), guessChar) ==> w in family
    requires forall u, w :: u in family && w in family ==> FamilyKey(u, guessChar) == FamilyKey(w, guessChar)
    requires |newPattern| == n && |Least(family)| == n
    requires forall i :: 0 <= i < |newPattern| ==>
      newPattern[i] == if Least(family)[i] == guessChar then guessChar else pattern[i]
    ensures PoolExact(family, dictionary, n, newPattern, guessed + [guessChar, guessChar])
  {
    var first := Least(family);
    var guessed' := guessed + [guessChar, guessChar];
    assert Consistent(first, pattern, guessed);
    forall w | w in family
      ensures Consistent(w, newPattern, guessed')
    {
      assert Consistent(w, pattern, guessed);
      SameFamilyIff(w, first, guessChar);
    }
    forall w | w in dictionary && |w| == n && Consistent(w, newPattern, guessed')
      ensures w in family
    {
      forall i | 0 <= i < n
        ensures (pattern[i] != Blank ==> w[i] == pattern[i]) && (w[i] in guessed ==> pattern[i] == w[i])
        ensures w[i] == guessChar <==> first[i] == guessChar
      {
        if pattern[i] != Blank {
          assert pattern[i] in guessed;
        }
        if w[i] in guessed {
          assert w[i] in guessed';
        }
        if w[i] == guessChar {
          assert w[i] in guessed';
        }
      }
      assert Consistent(w, pattern, guessed);
      assert w in pool;
      SameFamilyIff(w, first, guessChar);
    }
  }

  /**
   A whole turn keeps the session valid: the kept family of the pool, with the
   counter and pattern the turn derives from its first word, is again a valid
   state; all its words agree on the letter; and blanks plus counter drop.
   */
  lemma TurnKeepsValid(dictionary: set<string>, n: nat, pool: set<string>, pattern: string, guessed: string,
                       counter: int, family: set<string>, newPattern: string, newCounter: int, guessChar: char)
    requires ValidState(dictionary, n, pool, pattern, guessed, counter) && counter > 0
    requires 'a' <= guessChar <= 'z' && guessChar !in guessed
    requires family == LargestFamily(pool, guessChar)
    requires family != {} ==> newCounter == if guessChar in Least(family) then counter else counter - 1
    requires |newPattern| == n
    requires family != {} ==> |Least(family)| == n && forall i :: 0 <= i < |newPattern| ==>
      newPattern[i] == if Least(family)[i] == guessChar then guessChar else pattern[i]
    ensures family != {}
    ensures ValidState(dictionary, n, family, newPattern, guessed + [guessChar, guessChar], newCounter)
    ensures forall w :: w in family ==> (guessChar in w <==> guessChar in Least(family))
    ensures BlankCount(newPattern) + newCounter < BlankCount(pattern) + counter
  {
    LargestFamilyNarrows(pool, guessChar);
    var first := Least(family);
    assert family <= pool;
    TurnKeepsInvariant(pool, pattern, guessed, counter, family, newPattern, newCounter, guessChar);
    forall w | w in pool && FamilyKey(w, guessChar) == FamilyKey(first, guessChar)
      ensures w in family
    {
    }
    forall u, w | u in family && w in family
      ensures FamilyKey(u, guessChar) == FamilyKey(w, guessChar)
    {
    }
    PoolStaysExact(pool, dictionary, n, pattern, guessed, counter, family, newPattern, guessChar);
  }

  /**
   One more turn of the main loop: if the state after n letters is not over,
   the state after its turn with letter n is the state after n + 1 letters,
   and no state so far was over.
   */
  lemma PlayStep(s0: State, letters: seq<char>, n: nat, before: State, after: State)
    requires n < |letters|
    requires before == AfterTurns(s0, letters[..n]) && NoneOver(s0, letters, n) && !Over(before)
    requires after == AfterTurn(before, letters[n])
    ensures after == AfterTurns(s0, letters[..n + 1]) && NoneOver(s0, letters, n + 1)
  {
    assert letters[..n + 1][..n] == letters[..n];
  }

  /** No state before any of the first n turns of `letters` from s0 is over. */
  ghost predicate NoneOver(s0: State, letters: seq<char>, n: nat)
    requires n <= |letters|
  {
    forall t :: 0 <= t < n ==> !Over(AfterTurns(s0, letters[..t]))
  }
}
