/**
  The "evil hangman" manager. It never fixes a secret word; it keeps the set
  of dictionary words still consistent with the pattern shown and, on each
  guess, splits that set by the pattern each word would produce and keeps the
  largest part.

  The Java class mutates four fields and throws exceptions. Here a manager is
  an immutable value, and each call returns the state after the call together
  with the value it returned or the exception it threw.
 */
module Hangman {
  import Lex
  import opened Patterns

  /** Why a call was refused. */
  datatype Cause =
    | LengthBelowOne
    | NegativeMax
    | NoGuessesLeft
    | NoWords
    | AlreadyGuessed(letter: char)

  /** The Java exception classes the manager throws. */
  datatype Exception =
    | IllegalArgument(cause: Cause)
    | IllegalState(cause: Cause)

  /** A call either returns a value or throws. */
  datatype Outcome<+T> = Returned(value: T) | Threw(exception: Exception)

  /** The manager after a call, with the call's outcome. */
  datatype Transition<+T> = Transition(state: Manager, outcome: Outcome<T>)

  /** The four fields of HangmanManager. The getters words(), guessesLeft()
      and guesses() return wordSet, guessCount and guessedLetters. */
  datatype Manager = Manager(
    guessCount: int,
    currentPattern: string,
    guessedLetters: set<char>,
    wordSet: set<string>)

  /** Every live word fits the pattern (2 * |w| - 1 characters), so the
      substrings taken by createPattern stay in range. */
  predicate Shaped(m: Manager) {
    forall w :: w in m.wordSet ==> |m.currentPattern| == 2 * |w| - 1
  }

  /** The class invariant: the budget is not negative, and every live word is
      consistent with the guesses so far, i.e. it shows exactly the current
      pattern once the guessed letters are revealed in it. */
  ghost predicate Valid(m: Manager) {
    && m.guessCount >= 0
    && forall w :: w in m.wordSet ==>
         |m.currentPattern| == 2 * |w| - 1 && Render(w, m.guessedLetters) == m.currentPattern
  }

  /** The dictionary loop of the constructor: the words of the given length. */
  function WordsOfLength(dictionary: seq<string>, length: int): (words: set<string>)
    ensures forall w :: w in words <==> w in dictionary && |w| == length
    decreases |dictionary|
  {
    if |dictionary| == 0 then {}
    else
      var last := dictionary[|dictionary| - 1];
      assert dictionary == dictionary[..|dictionary| - 1] + [last];
      WordsOfLength(dictionary[..|dictionary| - 1], length) + (if |last| == length then {last} else {})
  }

  /** The constructor: rejects a length below 1, then a negative budget;
      otherwise starts with budget `max`, no guesses, a pattern of `length`
      blank cells and the dictionary's words of that length. */
  function New(dictionary: seq<string>, length: int, max: int): (r: Outcome<Manager>)
    ensures length < 1 ==> r == Threw(IllegalArgument(LengthBelowOne))
    ensures length >= 1 && max < 0 ==> r == Threw(IllegalArgument(NegativeMax))
    ensures r.Returned? <==> length >= 1 && max >= 0
    ensures r.Returned? ==> r.value.guessCount == max && r.value.guessedLetters == {}
    ensures r.Returned? ==>
              && |r.value.currentPattern| == 2 * length - 1
              && forall k :: 0 <= k < |r.value.currentPattern| ==>
                   r.value.currentPattern[k] == (if k % 2 == 0 then Blank else Separator)
    ensures r.Returned? ==>
              forall w :: w in r.value.wordSet <==> w in dictionary && |w| == length
  {
    if length < 1 then Threw(IllegalArgument(LengthBelowOne))
    else if max < 0 then Threw(IllegalArgument(NegativeMax))
    else Returned(Manager(max, InitialPattern(length), {}, WordsOfLength(dictionary, length)))
  }

  /** pattern(): the current pattern, or IllegalStateException when no word
      is left. */
  function Pattern(m: Manager): (r: Outcome<string>)
    ensures r.Threw? <==> m.wordSet == {}
    ensures r.Threw? ==> r.exception == IllegalState(NoWords)
    ensures r.Returned? ==> r.value == m.currentPattern
  {
    if m.wordSet == {} then Threw(IllegalState(NoWords)) else Returned(m.currentPattern)
  }

  /** The TreeMap built by record: each pattern a live word produces for g,
      mapped to the live words producing it. */
  function Partition(p: string, words: set<string>, g: char): (families: map<string, set<string>>)
    requires forall w :: w in words ==> |p| == 2 * |w| - 1
    ensures forall w :: w in words ==> CreatePattern(p, w, g) in families
    ensures forall key :: key in families ==> families[key] != {}
    ensures forall key, w :: key in families ==>
              (w in families[key] <==> w in words && CreatePattern(p, w, g) == key)
  {
    var keys := set w | w in words :: CreatePattern(p, w, g);
    var families := map key | key in keys :: set w | w in words && CreatePattern(p, w, g) == key;
    forall key | key in families
      ensures families[key] != {}
    {
      var w :| w in words && CreatePattern(p, w, g) == key;
      assert w in families[key];
    }
    families
  }

  /** The families cover the live words, so there is one whenever a word is
      left. */
  lemma PartitionCoversWords(p: string, words: set<string>, g: char)
    requires forall w :: w in words ==> |p| == 2 * |w| - 1
    ensures words != {} ==> Partition(p, words, g).Keys != {}
  {
    if words != {} {
      var w :| w in words;
      assert CreatePattern(p, w, g) in Partition(p, words, g);
    }
  }

  /** The family sizeCheck commits to: no family is larger, and among
      families of the same size its key comes first in TreeMap order. */
  ghost predicate IsLargestFirst(families: map<string, set<string>>, key: string) {
    && key in families
    && forall k :: k in families ==>
         || |families[k]| < |families[key]|
         || (|families[k]| == |families[key]| && Lex.LessEq(key, k))
  }

  /** Part way through sizeCheck's loop: the keys already visited all precede
      the pending ones, and `best` is the first visited key of largest size
      (`bestSize` is 0 before any key was visited). */
  ghost predicate ScanState(families: map<string, set<string>>, pending: set<string>, best: string, bestSize: nat) {
    && pending <= families.Keys
    && (forall v, u :: v in families && v !in pending && u in pending ==> Lex.Less(v, u))
    && (bestSize == 0 ==> families.Keys <= pending)
    && (bestSize > 0 ==>
          && best in families && best !in pending && |families[best]| == bestSize
          && forall v :: v in families && v !in pending ==>
               || |families[v]| < bestSize
               || (|families[v]| == bestSize && Lex.LessEq(best, v)))
  }

  /** sizeCheck's loop over the keys in ascending order: a key replaces the
      current choice only when its family is strictly larger. */
  function Scan(families: map<string, set<string>>, pending: set<string>, best: string, bestSize: nat): (r: string)
    requires forall k :: k in families ==> families[k] != {}
    requires ScanState(families, pending, best, bestSize)
    ensures families.Keys != {} ==> IsLargestFirst(families, r)
    ensures families.Keys == {} ==> r == best
    decreases pending
  {
    if pending == {} then best
    else
      var key := Lex.Min(pending);
      var size := |families[key]|;
      // after the minimum, every pending key is strictly greater
      forall u | u in pending - {key}
        ensures Lex.Less(key, u)
      {
      }
      if size > bestSize then Scan(families, pending - {key}, key, size)
      else Scan(families, pending - {key}, best, bestSize)
  }

  /** The key sizeCheck leaves in currentPattern: the scan starts from the
      current pattern with size 0. */
  function ChooseFamily(families: map<string, set<string>>, current: string): (key: string)
    requires forall k :: k in families ==> families[k] != {}
    ensures families.Keys != {} ==> IsLargestFirst(families, key)
    ensures families.Keys == {} ==> key == current
  {
    Scan(families, families.Keys, current, 0)
  }

  /** sizeCheck: commit to the chosen family and record g; an unchanged
      pattern costs a guess and returns 0, a changed one returns how often g
      occurs in the new pattern. */
  function SizeCheck(m: Manager, families: map<string, set<string>>, g: char): (r: Transition<int>)
    requires families.Keys != {}
    requires forall k :: k in families ==> families[k] != {}
    ensures r.outcome.Returned?
    ensures IsLargestFirst(families, r.state.currentPattern)
    ensures r.state.wordSet == families[r.state.currentPattern]
    ensures r.state.guessedLetters == m.guessedLetters + {g}
    ensures r.state.currentPattern == m.currentPattern ==>
              r.state.guessCount == m.guessCount - 1 && r.outcome.value == 0
    ensures r.state.currentPattern != m.currentPattern ==>
              r.state.guessCount == m.guessCount && r.outcome.value == multiset(r.state.currentPattern)[g]
  {
    var key := ChooseFamily(families, m.currentPattern);
    var next := m.(currentPattern := key, wordSet := families[key], guessedLetters := m.guessedLetters + {g});
    if key == m.currentPattern then Transition(next.(guessCount := m.guessCount - 1), Returned(0))
    else Transition(next, Returned(Occurrences(key, g)))
  }

  /** The three checks record makes before partitioning all pass. */
  predicate CanRecord(m: Manager, g: char) {
    m.guessCount >= 1 && m.wordSet != {} && g !in m.guessedLetters
  }

  /** record(g): refuses, in this order, an exhausted budget, an empty word
      set and a repeated letter, leaving the manager as it was; otherwise
      partitions the live words and lets sizeCheck commit. */
  function Record(m: Manager, g: char): (r: Transition<int>)
    requires Shaped(m)
    ensures r.outcome.Threw? ==> r.state == m
    ensures m.guessCount < 1 ==> r.outcome == Threw(IllegalState(NoGuessesLeft))
    ensures m.guessCount >= 1 && m.wordSet == {} ==> r.outcome == Threw(IllegalState(NoWords))
    ensures m.guessCount >= 1 && m.wordSet != {} && g in m.guessedLetters ==>
              r.outcome == Threw(IllegalArgument(AlreadyGuessed(g)))
    ensures r.outcome.Returned? <==> CanRecord(m, g)
    ensures r.outcome.Returned? ==> r.state.guessedLetters == m.guessedLetters + {g}
    ensures r.outcome.Returned? ==> r.state.guessCount >= 0
  {
    if m.guessCount < 1 then Transition(m, Threw(IllegalState(NoGuessesLeft)))
    else if m.wordSet == {} then Transition(m, Threw(IllegalState(NoWords)))
    else if g in m.guessedLetters then Transition(m, Threw(IllegalArgument(AlreadyGuessed(g))))
    else
      PartitionCoversWords(m.currentPattern, m.wordSet, g);
      SizeCheck(m, Partition(m.currentPattern, m.wordSet, g), g)
  }
}
