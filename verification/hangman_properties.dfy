/**
  Properties of the manager that relate several definitions: the constructor
  establishes the class invariant, record preserves it, narrows the word set
  to the chosen family, picks that family by size and TreeMap order, and
  charges a guess exactly when the letter is absent from every remaining word.
 */
module HangmanProperties {
  import Lex
  import opened Patterns
  import opened Hangman

  /** A successfully constructed manager satisfies the class invariant. */
  lemma NewIsValid(dictionary: seq<string>, length: int, max: int)
    requires length >= 1 && max >= 0
    ensures Valid(New(dictionary, length, max).value)
  {
    var m := New(dictionary, length, max).value;
    forall w | w in m.wordSet
      ensures Render(w, m.guessedLetters) == m.currentPattern
    {
      InitialIsRender(w);
    }
  }

  /** The sizeCheck choice is determined by the sizes and the key order: at
      most one key of a partition is the first of largest size. */
  lemma LargestFirstIsUnique(families: map<string, set<string>>, k1: string, k2: string)
    requires IsLargestFirst(families, k1) && IsLargestFirst(families, k2)
    ensures k1 == k2
  {
    Lex.LessEqAntisymmetric(k1, k2);
  }

  /** After a successful record the word set is the non-empty family of the
      old words that produce the new pattern for the guess. */
  lemma RecordNarrowsWords(m: Manager, g: char)
    requires Shaped(m)
    requires CanRecord(m, g)
    ensures var m' := Record(m, g).state;
      && m'.wordSet != {}
      && m'.wordSet <= m.wordSet
      && |m'.wordSet| <= |m.wordSet|
      && |m'.currentPattern| == |m.currentPattern|
      && (forall w :: w in m'.wordSet <==>
            w in m.wordSet && CreatePattern(m.currentPattern, w, g) == m'.currentPattern)
      && Shaped(m')
  {
    var m' := Record(m, g).state;
    var families := Partition(m.currentPattern, m.wordSet, g);
    assert m'.wordSet == families[m'.currentPattern];
    var w :| w in m'.wordSet;
    assert |CreatePattern(m.currentPattern, w, g)| == |m.currentPattern|;
    SubsetSize(m'.wordSet, m.wordSet);
  }

  lemma {:induction false} SubsetSize<T>(a: set<T>, b: set<T>)
    requires a <= b
    ensures |a| <= |b|
    decreases b
  {
    if a != {} {
      var x :| x in a;
      SubsetSize(a - {x}, b - {x});
    }
  }

  /** record commits to the largest family, and to the first in key order
      among families of that size; no other key has both properties. */
  lemma RecordChoosesLargestFamily(m: Manager, g: char)
    requires Shaped(m)
    requires CanRecord(m, g)
    ensures var m' := Record(m, g).state;
            var families := Partition(m.currentPattern, m.wordSet, g);
      && m'.currentPattern in families
      && m'.wordSet == families[m'.currentPattern]
      && (forall key :: key in families ==> |families[key]| <= |m'.wordSet|)
      && (forall key :: key in families && |families[key]| == |m'.wordSet| ==>
            Lex.LessEq(m'.currentPattern, key))
      && (forall key :: IsLargestFirst(families, key) <==> key == m'.currentPattern)
  {
    var m' := Record(m, g).state;
    var families := Partition(m.currentPattern, m.wordSet, g);
    forall key | IsLargestFirst(families, key)
      ensures key == m'.currentPattern
    {
      LargestFirstIsUnique(families, key, m'.currentPattern);
    }
  }

  /** Guess accounting: an unchanged pattern costs exactly one guess and
      returns 0; a changed one keeps the budget and returns the (positive)
      number of occurrences of g in the new pattern. */
  lemma RecordAccounting(m: Manager, g: char)
    requires Shaped(m)
    requires CanRecord(m, g)
    ensures var r := Record(m, g);
      && r.state.guessedLetters == m.guessedLetters + {g}
      && r.state.guessCount >= 0
      && (r.state.currentPattern == m.currentPattern ==>
            r.state.guessCount == m.guessCount - 1 && r.outcome.value == 0)
      && (r.state.currentPattern != m.currentPattern ==>
            && r.state.guessCount == m.guessCount
            && r.outcome.value == multiset(r.state.currentPattern)[g]
            && r.outcome.value >= 1)
  {
    var r := Record(m, g);
    if r.state.currentPattern != m.currentPattern {
      RecordNarrowsWords(m, g);
      var w :| w in r.state.wordSet;
      ChangeShowsLetter(m.currentPattern, w, g);
    }
  }

  /** A pattern that createPattern changed shows the guessed letter. */
  lemma ChangeShowsLetter(p: string, word: string, g: char)
    requires |p| == 2 * |word| - 1
    requires CreatePattern(p, word, g) != p
    ensures g in CreatePattern(p, word, g)
  {
    var r := CreatePattern(p, word, g);
    assert |r| == |p|;
    var k :| 0 <= k < |p| && r[k] != p[k];
    var i := k / 2;
    assert k == 2 * i;
    assert r[k] == g;
  }

  /** record preserves the class invariant: every remaining word still shows
      exactly the new pattern once the new guess is revealed in it. */
  lemma RecordPreservesValid(m: Manager, g: char)
    requires Valid(m)
    requires CanRecord(m, g)
    ensures Valid(Record(m, g).state)
  {
    var m' := Record(m, g).state;
    RecordNarrowsWords(m, g);
    forall w | w in m'.wordSet
      ensures Render(w, m'.guessedLetters) == m'.currentPattern
    {
      RevealRender(w, m.guessedLetters, g);
    }
  }

  /** For any letter but the dash, record charges a guess exactly when none
      of the remaining words contains the letter. */
  lemma PenaltyIffAbsent(m: Manager, g: char)
    requires Valid(m)
    requires g != Blank
    requires CanRecord(m, g)
    ensures var m' := Record(m, g).state;
      m'.guessCount == m.guessCount - 1 <==> forall w :: w in m'.wordSet ==> g !in w
  {
    var m' := Record(m, g).state;
    RecordNarrowsWords(m, g);
    if m'.currentPattern == m.currentPattern {
      forall w | w in m'.wordSet
        ensures g !in w
      {
        UnchangedIffAbsent(w, m.guessedLetters, g);
      }
    } else {
      var w :| w in m'.wordSet;
      UnchangedIffAbsent(w, m.guessedLetters, g);
    }
  }

  /** Revealing the dash never changes a pattern, because an unrevealed cell
      already shows a dash; so guessing '-' always costs a turn and returns 0. */
  lemma DashAlwaysCharged(m: Manager)
    requires Valid(m)
    requires CanRecord(m, Blank)
    ensures Record(m, Blank).outcome == Returned(0)
    ensures Record(m, Blank).state.guessCount == m.guessCount - 1
  {
    RecordNarrowsWords(m, Blank);
    RecordAccounting(m, Blank);
    var w :| w in Record(m, Blank).state.wordSet;
    RevealRender(w, m.guessedLetters, Blank);
    DashRevealsNothing(w, m.guessedLetters);
  }

  lemma CellIgnoresDash(c: char, guessed: set<char>)
    ensures Cell(c, guessed + {Blank}) == Cell(c, guessed)
  {
  }

  /** A word shows the same pattern whether or not the dash was guessed. */
  lemma DashRevealsNothing(word: string, guessed: set<char>)
    requires |word| >= 1
    ensures Render(word, guessed + {Blank}) == Render(word, guessed)
  {
    var p, q := Render(word, guessed), Render(word, guessed + {Blank});
    forall k | 0 <= k < |p|
      ensures p[k] == q[k]
    {
      if k % 2 == 0 {
        CellIgnoresDash(word[k / 2], guessed);
      }
    }
  }

  /** For a guess that is neither a dash nor a space, record returns how
      often the letter occurs in each remaining word. */
  lemma RecordReturnsLetterCount(m: Manager, g: char)
    requires Valid(m)
    requires g != Blank && g != Separator
    requires CanRecord(m, g)
    ensures forall w :: w in Record(m, g).state.wordSet ==> Record(m, g).outcome.value == multiset(w)[g]
  {
    var r := Record(m, g);
    RecordNarrowsWords(m, g);
    PenaltyIffAbsent(m, g);
    forall w | w in r.state.wordSet
      ensures r.outcome.value == multiset(w)[g]
    {
      if r.state.currentPattern == m.currentPattern {
        assert g !in w;
      } else {
        RevealRender(w, m.guessedLetters, g);
        RenderCount(w, m.guessedLetters + {g}, g);
      }
    }
  }

  /** A caller recording the guesses in turn, stopping at the first one that
      is refused. */
  function Play(m: Manager, guesses: seq<char>): Manager
    requires Valid(m)
    decreases |guesses|
  {
    if |guesses| == 0 then m
    else
      var r := Record(m, guesses[0]);
      if r.outcome.Threw? then m
      else
        RecordPreservesValid(m, guesses[0]);
        Play(r.state, guesses[1..])
  }

  /** Over any sequence of guesses the invariant holds, the word set only
      shrinks, the budget only drops, guessed letters are never forgotten and
      the pattern keeps its length. Play stops at the first refused guess, but
      a refusal leaves the manager unchanged, so the state a caller reaches by
      catching the exception and going on is Play of the accepted guesses:
      every reachable state is covered. */
  lemma {:induction false} PlayKeepsInvariant(m: Manager, guesses: seq<char>)
    requires Valid(m)
    ensures var f := Play(m, guesses);
      && Valid(f)
      && f.wordSet <= m.wordSet
      && 0 <= f.guessCount <= m.guessCount
      && m.guessedLetters <= f.guessedLetters
      && |f.currentPattern| == |m.currentPattern|
    decreases |guesses|
  {
    if |guesses| > 0 {
      var r := Record(m, guesses[0]);
      if r.outcome.Returned? {
        RecordPreservesValid(m, guesses[0]);
        RecordNarrowsWords(m, guesses[0]);
        RecordAccounting(m, guesses[0]);
        PlayKeepsInvariant(r.state, guesses[1..]);
      }
    }
  }
}
