/**
  Concrete games: the tie-break on equal family sizes, a zero budget and a
  dictionary without words of the requested length.
 */
module Scenarios {
  import Lex
  import opened Patterns
  import opened Hangman
  import opened HangmanProperties

  /** Dictionary {"aa", "ab", "bb"}, length 2, budget 3, guess 'a': the three
      families "a a", "a -" and "- -" have one word each, so the first key in
      TreeMap order, "- -", wins; the pattern is unchanged, which costs a guess
      and returns 0. */
  // The example's strings are parameters pinned by `requires` rather than
  // literals in the lemma's body: with literal arguments the verifier unfolds
  // the recursive definitions on them eagerly and the proof becomes too slow.
  lemma TieGoesToFirstKey(dictionary: seq<string>)
    requires dictionary == ["aa", "ab", "bb"]
    ensures var m := New(dictionary, 2, 3).value;
            var r := Record(m, 'a');
      && r.outcome == Returned(0)
      && r.state.currentPattern == "- -"
      && r.state.wordSet == {"bb"}
      && r.state.guessCount == 2
      && r.state.guessedLetters == {'a'}
  {
    ExampleStart(dictionary);
    ExampleRecord(New(dictionary, 2, 3).value);
  }

  lemma ExampleRecord(m: Manager)
    requires m.currentPattern == "- -" && m.wordSet == {"aa", "ab", "bb"}
    requires m.guessCount == 3 && m.guessedLetters == {}
    ensures Shaped(m)
    ensures var r := Record(m, 'a');
      && r.outcome == Returned(0)
      && r.state.currentPattern == "- -"
      && r.state.wordSet == {"bb"}
      && r.state.guessCount == 2
      && r.state.guessedLetters == {'a'}
  {
    ExampleShaped(m);
    var families := Partition(m.currentPattern, m.wordSet, 'a');
    ExamplePartition(m.currentPattern, m.wordSet, families);
    ExampleFirstKey(families);
    var r := Record(m, 'a');
    RecordChoosesLargestFamily(m, 'a');
    assert r.state.currentPattern == "- -";
    assert r.state.wordSet == {"bb"};
    RecordAccounting(m, 'a');
  }

  lemma ExampleShaped(m: Manager)
    requires m.currentPattern == "- -" && m.wordSet == {"aa", "ab", "bb"}
    ensures Shaped(m)
  {
    forall w | w in m.wordSet
      ensures |w| == 2
    {
      OneOfThree(w, m.wordSet);
    }
  }

  lemma ExampleFirstKey(families: map<string, set<string>>)
    requires families == map["a a" := {"aa"}, "a -" := {"ab"}, "- -" := {"bb"}]
    ensures IsLargestFirst(families, "- -")
  {
    assert Lex.Less("- -", "a -") && Lex.Less("- -", "a a");
  }

  lemma ExampleStart(dictionary: seq<string>)
    requires dictionary == ["aa", "ab", "bb"]
    ensures var m := New(dictionary, 2, 3).value;
      && m.currentPattern == "- -"
      && m.wordSet == {"aa", "ab", "bb"}
      && m.guessCount == 3
      && m.guessedLetters == {}
      && Shaped(m)
  {
    var m := New(dictionary, 2, 3).value;
    assert m.currentPattern == "- -";
    assert m.wordSet == {"aa", "ab", "bb"};
  }

  lemma ExamplePartition(p: string, words: set<string>, families: map<string, set<string>>)
    requires p == "- -" && words == {"aa", "ab", "bb"}
    requires families == Partition(p, words, 'a')
    ensures families == map["a a" := {"aa"}, "a -" := {"ab"}, "- -" := {"bb"}]
  {
    ExamplePatterns(p, "aa", "ab", "bb");
    forall k | k in families
      ensures k in {"a a", "a -", "- -"}
    {
      var w :| w in families[k];
      OneOfThree(w, words);
    }
    assert families["a a"] == {"aa"};
    assert families["a -"] == {"ab"};
    assert families["- -"] == {"bb"};
  }

  lemma OneOfThree(w: string, words: set<string>)
    requires words == {"aa", "ab", "bb"} && w in words
    ensures w == "aa" || w == "ab" || w == "bb"
  {
  }

  lemma ExamplePatterns(p: string, aa: string, ab: string, bb: string)
    requires p == "- -" && aa == "aa" && ab == "ab" && bb == "bb"
    ensures CreatePattern(p, aa, 'a') == "a a"
    ensures CreatePattern(p, ab, 'a') == "a -"
    ensures CreatePattern(p, bb, 'a') == "- -"
  {
    ShowsCells(p, aa, 'a', "a a");
    ShowsCells(p, ab, 'a', "a -");
    ShowsCells(p, bb, 'a', "- -");
  }

  /** createPattern's result for a two-letter word, cell by cell. */
  lemma ShowsCells(p: string, word: string, g: char, q: string)
    requires |word| == 2 && |p| == 3 && |q| == 3
    requires q[0] == (if word[0] == g then g else p[0])
    requires q[1] == p[1]
    requires q[2] == (if word[1] == g then g else p[2])
    ensures CreatePattern(p, word, g) == q
  {
    var r := CreatePattern(p, word, g);
    assert r[0] == q[0] && r[1] == q[1] && r[2] == q[2];
  }

  /** A budget of 0 is accepted, but the first guess is refused. */
  lemma ZeroBudgetRefusesGuess(dictionary: seq<string>, length: int, g: char)
    requires length >= 1
    ensures var m := New(dictionary, length, 0).value;
            Record(m, g) == Transition(m, Threw(IllegalState(NoGuessesLeft)))
  {
    NewIsValid(dictionary, length, 0);
  }

  /** With no dictionary word of the requested length, both pattern() and
      record() report the empty word set, whatever the budget and the guess;
      with a zero budget record() reports the exhausted budget first. */
  lemma NoWordsOfLength(dictionary: seq<string>, length: int, max: int, g: char)
    requires length >= 1 && max >= 0
    requires forall w :: w in dictionary ==> |w| != length
    ensures var m := New(dictionary, length, max).value;
      && m.wordSet == {}
      && Pattern(m) == Threw(IllegalState(NoWords))
      && (max >= 1 ==> Record(m, g) == Transition(m, Threw(IllegalState(NoWords))))
  {
  }
}
