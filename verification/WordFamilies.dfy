/**
 The adversarial engine: partition the candidate words by where the guessed
 letter occurs in them (a word's "family key"), then keep the largest family,
 breaking ties by the map's ascending key order.
 */
module WordFamilies {
  import opened StringOrder

  /** The marker for a slot the guessed letter does not occupy. */
  const Blank: char := '_'

  /** The key of a word's family: the guessed letter where the word has it, Blank elsewhere. */
  function FamilyKey(word: string, guessChar: char): string
  {
    seq(|word|, i requires 0 <= i < |word| => if word[i] == guessChar then guessChar else Blank)
  }

  /** Files one word under its key: a new singleton family, or added to the existing one. */
  ghost function Group(m: map<string, set<string>>, word: string, guessChar: char): map<string, set<string>>
  {
    var key := FamilyKey(word, guessChar);
    if key in m then m[key := m[key] + {word}] else m[key := {word}]
  }

  /** Files the words of `rest` into m one at a time, in ascending order. */
  ghost function GroupAll(m: map<string, set<string>>, rest: set<string>, guessChar: char): map<string, set<string>>
    decreases rest
  {
    if rest == {} then m
    else
      var word := Least(rest);
      GroupAll(Group(m, word, guessChar), rest - {word}, guessChar)
  }

  /** The map<string, set<string>> that MakeWordFamilyMap builds: every word filed under its key. */
  ghost function FamilyMap(words: set<string>, guessChar: char): map<string, set<string>>
  {
    GroupAll(map[], words, guessChar)
  }

  /**
   m groups exactly the words of `words` by key: each family is non-empty and
   holds words of its own key only, and every word sits in the family of its key.
   */
  ghost predicate IsGrouping(m: map<string, set<string>>, words: set<string>, guessChar: char)
  {
    && (forall k :: k in m ==> m[k] != {})
    && (forall k, w :: k in m && w in m[k] ==> w in words && FamilyKey(w, guessChar) == k)
    && (forall w :: w in words ==> FamilyKey(w, guessChar) in m && w in m[FamilyKey(w, guessChar)])
  }

  /** Everything that lies in some family of m. */
  ghost function Members(m: map<string, set<string>>): set<string>
  {
    set k, w | k in m && w in m[k] :: w
  }

  /** The all-blank key of length n: the family of words lacking the letter. */
  function AllBlank(n: nat): (key: string)
    ensures |key| == n && forall i :: 0 <= i < n ==> key[i] == Blank
  {
    seq(n, _ => Blank)
  }

  // ---------------------------------------------------------------------
  // Family keys

  /** The key has the word's length, and holds the letter exactly where the word does. */
  lemma FamilyKeyShape(word: string, guessChar: char)
    requires guessChar != Blank
    ensures |FamilyKey(word, guessChar)| == |word|
    ensures forall i :: 0 <= i < |word| ==>
      (FamilyKey(word, guessChar)[i] == guessChar <==> word[i] == guessChar) &&
      (FamilyKey(word, guessChar)[i] == Blank <==> word[i] != guessChar)
  {
  }

  /** Two words are in one family exactly when they have the letter at the same positions. */
  lemma SameFamilyIff(u: string, w: string, guessChar: char)
    requires guessChar != Blank
    ensures FamilyKey(u, guessChar) == FamilyKey(w, guessChar) <==>
      |u| == |w| && forall i :: 0 <= i < |u| ==> (u[i] == guessChar <==> w[i] == guessChar)
  {
    var ku, kw := FamilyKey(u, guessChar), FamilyKey(w, guessChar);
    if ku == kw {
      forall i | 0 <= i < |u|
        ensures u[i] == guessChar <==> w[i] == guessChar
      {
        assert ku[i] == kw[i];
      }
    }
  }

  /** A word's key is all-blank exactly when the word lacks the letter. */
  lemma KeyBlankIff(word: string, guessChar: char)
    requires guessChar != Blank
    ensures FamilyKey(word, guessChar) == AllBlank(|word|) <==> guessChar !in word
  {
    var k := FamilyKey(word, guessChar);
    if guessChar in word {
      var i :| 0 <= i < |word| && word[i] == guessChar;
      assert k[i] != AllBlank(|word|)[i];
    }
  }

  /** Among keys built from one letter above Blank, the all-blank key sorts first. */
  lemma {:induction false} AllBlankSortsFirst(key: string, guessChar: char)
    requires Blank < guessChar
    requires forall i :: 0 <= i < |key| ==> key[i] == guessChar || key[i] == Blank
    ensures key == AllBlank(|key|) || Less(AllBlank(|key|), key)
    decreases |key|
  {
    if |key| > 0 && key[0] == Blank {
      AllBlankSortsFirst(key[1..], guessChar);
      assert AllBlank(|key|)[1..] == AllBlank(|key| - 1);
      if key[1..] == AllBlank(|key| - 1) {
        assert key == [key[0]] + key[1..];
      }
    }
  }

  // ---------------------------------------------------------------------
  // Partition

  /** Filing one new word keeps a grouping a grouping, of one more word. */
  lemma GroupKeepsGrouping(m: map<string, set<string>>, words: set<string>, word: string, guessChar: char)
    requires IsGrouping(m, words, guessChar) && word !in words
    ensures IsGrouping(Group(m, word, guessChar), words + {word}, guessChar)
  {
  }

  /** Filing all of rest into a grouping of `words` yields a grouping of both. */
  lemma {:induction false} GroupAllGroups(m: map<string, set<string>>, words: set<string>, rest: set<string>, guessChar: char)
    requires IsGrouping(m, words, guessChar) && words !! rest
    ensures IsGrouping(GroupAll(m, rest, guessChar), words + rest, guessChar)
    decreases rest
  {
    if rest != {} {
      var word := Least(rest);
      GroupKeepsGrouping(m, words, word, guessChar);
      GroupAllGroups(Group(m, word, guessChar), words + {word}, rest - {word}, guessChar);
      assert words + {word} + (rest - {word}) == words + rest;
    }
  }

  /** A grouping is determined by the words: whatever the order of filing, the map is the same. */
  lemma GroupingUnique(m1: map<string, set<string>>, m2: map<string, set<string>>, words: set<string>, guessChar: char)
    requires IsGrouping(m1, words, guessChar) && IsGrouping(m2, words, guessChar)
    ensures m1 == m2
  {
    forall k | k in m1
      ensures k in m2 && m1[k] == m2[k]
    {
      var w :| w in m1[k];
      assert w in words && FamilyKey(w, guessChar) == k;
      forall x | x in m2[k]
        ensures x in m1[k]
      {
        assert x in words && FamilyKey(x, guessChar) == k;
      }
      forall x | x in m1[k]
        ensures x in m2[k]
      {
        assert x in words && FamilyKey(x, guessChar) == k;
      }
    }
    forall k | k in m2
      ensures k in m1
    {
      var w :| w in m2[k];
      assert w in words && FamilyKey(w, guessChar) == k;
    }
  }

  /**
   The families form an exact partition of the words: non-empty, pairwise
   disjoint, covering the words, each word in the family of its own key.
   */
  lemma FamilyMapPartition(words: set<string>, guessChar: char)
    ensures IsGrouping(FamilyMap(words, guessChar), words, guessChar)
    ensures forall k1, k2 :: k1 in FamilyMap(words, guessChar) && k2 in FamilyMap(words, guessChar) && k1 != k2 ==>
      FamilyMap(words, guessChar)[k1] !! FamilyMap(words, guessChar)[k2]
    ensures Members(FamilyMap(words, guessChar)) == words
  {
    var m := FamilyMap(words, guessChar);
    GroupAllGroups(map[], {}, words, guessChar);
    assert {} + words == words;
    forall k1, k2 | k1 in m && k2 in m && k1 != k2
      ensures m[k1] !! m[k2]
    {
      forall x | x in m[k1]
        ensures x !in m[k2]
      {
        assert FamilyKey(x, guessChar) == k1;
      }
    }
    forall w | w in words
      ensures w in Members(m)
    {
      assert FamilyKey(w, guessChar) in m && w in m[FamilyKey(w, guessChar)];
    }
  }

  /** There are no families exactly when there are no words. */
  lemma FamilyMapEmptyIff(words: set<string>, guessChar: char)
    ensures FamilyMap(words, guessChar) == map[] <==> words == {}
  {
    FamilyMapPartition(words, guessChar);
    if words != {} {
      var w :| w in words;
      assert FamilyKey(w, guessChar) in FamilyMap(words, guessChar);
    }
  }

  /**
   Builds the map from family key to family, visiting the words in ascending
   order and growing each key one character at a time.
   */
  method MakeWordFamilyMap(possibleWords: set<string>, guessChar: char)
    returns (wordFamilyMap: map<string, set<string>>)
    ensures wordFamilyMap == FamilyMap(possibleWords, guessChar)
  {
    wordFamilyMap := map[];
    var rest := possibleWords;
    while rest != {}
      invariant GroupAll(wordFamilyMap, rest, guessChar) == FamilyMap(possibleWords, guessChar)
      decreases rest
    {
      var word := Begin(rest);
      var familyType := "";
      var i := 0;
      while i < |word|
        invariant 0 <= i <= |word|
        invariant |familyType| == i
        invariant forall j :: 0 <= j < i ==>
          familyType[j] == if word[j] == guessChar then guessChar else Blank
      {
        if word[i] == guessChar {
          familyType := familyType + [guessChar];
        } else {
          familyType := familyType + [Blank];
        }
        i := i + 1;
      }
      assert familyType == FamilyKey(word, guessChar);
      if familyType in wordFamilyMap {
        wordFamilyMap := wordFamilyMap[familyType := wordFamilyMap[familyType] + {word}];
      } else {
        wordFamilyMap := wordFamilyMap[familyType := {word}];
      }
      rest := rest - {word};
    }
  }

  // ---------------------------------------------------------------------
  // Selection

  /**
   key names a largest family of m, and every family whose key sorts before
   key is strictly smaller: the one a scan in ascending key order that only
   replaces its running maximum on a strictly larger size ends with.
   */
  ghost predicate IsFirstLargest(m: map<string, set<string>>, key: string)
  {
    && key in m
    && (forall k :: k in m ==> |m[k]| <= |m[key]|)
    && (forall k :: k in m && Less(k, key) ==> |m[k]| < |m[key]|)
  }

  /** key's family is at least as large as that of every key in keys. */
  ghost predicate IsLargestIn(m: map<string, set<string>>, keys: set<string>, key: string)
    requires keys <= m.Keys
  {
    key in keys && forall k :: k in keys ==> |m[k]| <= |m[key]|
  }

  lemma {:induction false} LargestSizeExists(m: map<string, set<string>>, keys: set<string>)
    requires keys != {} && keys <= m.Keys
    ensures exists key :: IsLargestIn(m, keys, key)
    decreases keys
  {
    var x :| x in keys;
    if keys == {x} {
      assert IsLargestIn(m, keys, x);
    } else {
      LargestSizeExists(m, keys - {x});
      var y :| IsLargestIn(m, keys - {x}, y);
      var top := if |m[x]| >= |m[y]| then x else y;
      forall k | k in keys
        ensures |m[k]| <= |m[top]|
      {
        if k != x {
          assert k in keys - {x};
        }
      }
      assert IsLargestIn(m, keys, top);
    }
  }

  /** Every non-empty map has a first largest family. */
  lemma FirstLargestExists(m: map<string, set<string>>)
    requires m != map[]
    ensures exists key :: IsFirstLargest(m, key)
  {
    LargestSizeExists(m, m.Keys);
    var top :| IsLargestIn(m, m.Keys, top);
    var tied := set k | k in m && |m[k]| == |m[top]|;
    assert top in tied;
    LeastExists(tied);
    var key :| IsLeast(key, tied);
    forall k | k in m && Less(k, key)
      ensures |m[k]| < |m[key]|
    {
      if |m[k]| == |m[top]| {
        LessIrreflexive(k);
        LessAsymmetric(key, k);
      }
    }
    assert IsFirstLargest(m, key);
  }

  /** The first largest family is unique: the tie-break leaves no choice. */
  lemma FirstLargestUnique(m: map<string, set<string>>, k1: string, k2: string)
    requires IsFirstLargest(m, k1) && IsFirstLargest(m, k2)
    ensures k1 == k2
  {
    LessTotal(k1, k2);
  }

  ghost function FirstLargestKey(m: map<string, set<string>>): (key: string)
    requires m != map[]
    ensures IsFirstLargest(m, key)
  {
    FirstLargestExists(m);
    var key :| IsFirstLargest(m, key);
    key
  }

  /** Every string of `before` sorts below every string of `after`. */
  ghost predicate AllBefore(before: set<string>, after: set<string>)
  {
    forall v, r :: v in before && r in after ==> Less(v, r)
  }

  /**
   The state of an ascending scan over m: the keys in visited have been seen,
   those in rest (all larger) have not, and largest is the first largest family
   seen so far (named by best), or empty before any.
   */
  ghost predicate Scanned(m: map<string, set<string>>, visited: set<string>, rest: set<string>,
                          largest: set<string>, best: string)
  {
    && visited <= m.Keys
    && rest == m.Keys - visited
    && AllBefore(visited, rest)
    && (visited == {} ==> largest == {})
    && (visited != {} ==> best in visited && largest == m[best])
    && (forall v :: v in visited ==> |m[v]| <= |largest|)
    && (forall v :: v in visited && Less(v, best) ==> |m[v]| < |largest|)
  }

  /** One step of the scan: the least unseen key is compared with a strict >. */
  lemma ScanStep(m: map<string, set<string>>, visited: set<string>, rest: set<string>,
                 largest: set<string>, best: string, key: string)
    requires Scanned(m, visited, rest, largest, best)
    requires IsLeast(key, rest)
    ensures |m[key]| > |largest| ==>
      Scanned(m, visited + {key}, rest - {key}, m[key], key)
    ensures |m[key]| <= |largest| && visited == {} ==>
      Scanned(m, visited + {key}, rest - {key}, largest, key)
    ensures |m[key]| <= |largest| && visited != {} ==>
      Scanned(m, visited + {key}, rest - {key}, largest, best)
  {
    LessIrreflexive(key);
    if visited != {} {
      LessAsymmetric(best, key);
    }
    assert rest - {key} == m.Keys - (visited + {key});
  }

  /** A scan that has visited every key holds the first largest family. */
  lemma ScanDone(m: map<string, set<string>>, largest: set<string>, best: string)
    requires Scanned(m, m.Keys, {}, largest, best)
    ensures m == map[] ==> largest == {}
    ensures m != map[] ==> largest == m[FirstLargestKey(m)]
    ensures (forall k :: k in m ==> m[k] != {}) ==> (largest == {} <==> m == map[])
  {
    if m != map[] {
      assert IsFirstLargest(m, best);
      FirstLargestUnique(m, best, FirstLargestKey(m));
    }
  }

  /**
   Scans the families in ascending key order, keeping a running largest family
   that is replaced only by a strictly larger one.
   */
  method CountLargestFamily(wordFamilyMap: map<string, set<string>>) returns (largestWordFamily: set<string>)
    ensures wordFamilyMap == map[] ==> largestWordFamily == {}
    ensures wordFamilyMap != map[] ==> largestWordFamily == wordFamilyMap[FirstLargestKey(wordFamilyMap)]
    ensures (forall k :: k in wordFamilyMap ==> wordFamilyMap[k] != {}) ==>
      (largestWordFamily == {} <==> wordFamilyMap == map[])
  {
    largestWordFamily := {};
    var rest := wordFamilyMap.Keys;
    ghost var visited: set<string> := {};
    ghost var best: string := "";
    while rest != {}
      invariant Scanned(wordFamilyMap, visited, rest, largestWordFamily, best)
      decreases rest
    {
      var key := Begin(rest);
      ScanStep(wordFamilyMap, visited, rest, largestWordFamily, best, key);
      if |wordFamilyMap[key]| > |largestWordFamily| {
        largestWordFamily := wordFamilyMap[key];
        best := key;
      } else if visited == {} {
        best := key;
      }
      visited := visited + {key};
      rest := rest - {key};
    }
    assert visited == wordFamilyMap.Keys;
    ScanDone(wordFamilyMap, largestWordFamily, best);
  }

  /** The family the engine keeps for guessChar: the first largest one. */
  ghost function LargestFamily(possibleWords: set<string>, guessChar: char): set<string>
  {
    var m := FamilyMap(possibleWords, guessChar);
    if m == map[] then {} else m[FirstLargestKey(m)]
  }

  /**
   The engine's move: group the pool by key and keep the first largest family.
   The kept family is part of the pool, one family, and empty only for an
   empty pool.
   */
  method FindLargestWordFamily(guessChar: char, possibleWords: set<string>) returns (family: set<string>)
    ensures family == LargestFamily(possibleWords, guessChar)
    ensures family <= possibleWords
    ensures family == {} <==> possibleWords == {}
    ensures forall u, w :: u in family && w in family ==> FamilyKey(u, guessChar) == FamilyKey(w, guessChar)
    ensures forall u, w :: u in family && w in possibleWords && FamilyKey(w, guessChar) == FamilyKey(u, guessChar) ==>
      w in family
  {
    var wordFamilyMap := MakeWordFamilyMap(possibleWords, guessChar);
    family := CountLargestFamily(wordFamilyMap);
    LargestFamilyNarrows(possibleWords, guessChar);
  }

  /**
   The kept family narrows the pool: it is a whole family of possibleWords (all
   its words share one key, and every word with that key is in it), it is empty
   only when the pool is, and no family is larger.
   */
  lemma LargestFamilyNarrows(possibleWords: set<string>, guessChar: char)
    ensures LargestFamily(possibleWords, guessChar) <= possibleWords
    ensures LargestFamily(possibleWords, guessChar) == {} <==> possibleWords == {}
    ensures forall u, w :: u in LargestFamily(possibleWords, guessChar) && w in possibleWords ==>
      (w in LargestFamily(possibleWords, guessChar) <==> FamilyKey(w, guessChar) == FamilyKey(u, guessChar))
    ensures forall k :: k in FamilyMap(possibleWords, guessChar) ==>
      |FamilyMap(possibleWords, guessChar)[k]| <= |LargestFamily(possibleWords, guessChar)|
  {
    FamilyMapPartition(possibleWords, guessChar);
    FamilyMapEmptyIff(possibleWords, guessChar);
  }

  /**
   The family of words lacking the letter wins every tie it takes part in:
   when all words have one length and no family is larger than the all-blank
   one, the all-blank family is kept.
   */
  lemma AbsentFamilyWinsTies(possibleWords: set<string>, guessChar: char, n: nat)
    requires Blank < guessChar
    requires forall w :: w in possibleWords ==> |w| == n
    requires AllBlank(n) in FamilyMap(possibleWords, guessChar)
    requires forall k :: k in FamilyMap(possibleWords, guessChar) ==>
      |FamilyMap(possibleWords, guessChar)[k]| <= |FamilyMap(possibleWords, guessChar)[AllBlank(n)]|
    ensures LargestFamily(possibleWords, guessChar) == FamilyMap(possibleWords, guessChar)[AllBlank(n)]
    ensures forall w :: w in LargestFamily(possibleWords, guessChar) ==> guessChar !in w
  {
    var m := FamilyMap(possibleWords, guessChar);
    FamilyMapPartition(possibleWords, guessChar);
    forall k | k in m
      ensures !Less(k, AllBlank(n))
    {
      var w :| w in m[k];
      assert w in possibleWords && FamilyKey(w, guessChar) == k;
      assert |k| == n;
      AllBlankSortsFirst(k, guessChar);
      if k == AllBlank(n) {
        LessIrreflexive(k);
      } else {
        LessAsymmetric(AllBlank(n), k);
      }
    }
    assert IsFirstLargest(m, AllBlank(n));
    FirstLargestUnique(m, AllBlank(n), FirstLargestKey(m));
    forall w | w in m[AllBlank(n)]
      ensures guessChar !in w
    {
      KeyBlankIff(w, guessChar);
    }
  }

  /** The families of {"ab", "ba"} under 'a': "a_" holds "ab" and "_a" holds "ba". */
  lemma TieExampleFamilies()
    ensures FamilyMap({"ab", "ba"}, 'a') == map["a_" := {"ab"}, "_a" := {"ba"}]
  {
    var words := {"ab", "ba"};
    var m := map["a_" := {"ab"}, "_a" := {"ba"}];
    assert FamilyKey("ab", 'a') == "a_";
    assert FamilyKey("ba", 'a') == "_a";
    assert IsGrouping(m, words, 'a');
    FamilyMapPartition(words, 'a');
    GroupingUnique(FamilyMap(words, 'a'), m, words, 'a');
  }

  /**
   A tie decided by key order: guessing 'a' against {"ab", "ba"} gives two
   families of one word each, and since '_' sorts below 'a' the family "_a"
   comes first in the map and is kept.
   */
  lemma TieGoesToFirstKey()
    ensures LargestFamily({"ab", "ba"}, 'a') == {"ba"}
  {
    var m := map["a_" := {"ab"}, "_a" := {"ba"}];
    TieExampleFamilies();
    assert |m["a_"]| == 1 && |m["_a"]| == 1;
    forall k | k in m
      ensures !Less(k, "_a")
    {
      if k == "_a" {
        LessIrreflexive(k);
      }
    }
    assert IsFirstLargest(m, "_a");
    FirstLargestUnique(m, "_a", FirstLargestKey(m));
  }
}
