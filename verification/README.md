# Evil hangman manager in Dafny

This project models `HangmanManager`, the engine of an adversarial ("evil")
hangman game. The manager never commits to a secret word. It keeps the set
of dictionary words that are still consistent with the pattern it has shown.
On each guess it splits that set into families, keyed by the pattern each word
would produce for the guessed letter. It then keeps the largest family. A guess
costs the player a turn only when the kept family's pattern is unchanged.

The Java class has four mutable fields: `guessCount`, `currentPattern`,
`guessedLetters` and `wordSet`. Here they form an immutable `Manager` value.
The Java exceptions become an `Outcome` datatype: `Returned(value)` or
`Threw(IllegalArgument(..) | IllegalState(..))`. `record` returns a
`Transition`, which is the state after the call together with its outcome. So
"a refused call leaves the manager as it was" is a property stated and proved
about `Record`. The getters `words()`, `guessesLeft()` and `guesses()` are
the fields `wordSet`, `guessCount` and `guessedLetters` of `Manager`.

Files:

- `lex.dfy`, module `Lex`: the lexicographic order of Java's
  `String.compareTo`. It is the order in which a `TreeMap` visits its keys.
  The module proves the order is a strict total order, gives a position-based
  characterisation of it, and defines `Min` of a non-empty set of strings.
- `patterns.dfy`, module `Patterns`: the pattern string. The pattern is kept
  literally, with a space between cells: letter `i` of a word shows at index
  `2 * i` and the odd indexes hold spaces. The module has the initial pattern,
  `createPattern` (its loop written as recursion over the letter index, with
  both substring branches) and the counting loop of `sizeCheck`. It also has
  `Render(w, G)`, the pattern word `w` shows once the letters in `G` have been
  guessed. `Render` is the reference that the consistency invariant is stated
  against.
- `hangman.dfy`, module `Hangman`: the constructor, `pattern()`, `record`,
  the family map `record` builds, and `sizeCheck`. The `TreeMap` traversal of
  `sizeCheck` is `Scan`. At each step it takes the smallest pending key and
  replaces the current choice only when the new family is strictly larger.
- `hangman_properties.dfy`, module `HangmanProperties`: the class invariant
  is established by the constructor and preserved by `record`. The file also
  covers narrowing to the chosen family, the size and tie-break rule, guess
  accounting, and the invariants over any sequence of guesses.
- `scenarios.dfy`, module `Scenarios`: the tie-break example (dictionary
  `{"aa", "ab", "bb"}`, guess `'a'`, key `"- -"` wins), a zero budget, and a
  dictionary with no word of the requested length.

Three behaviours of the code are easy to misread. The model follows the code
each time:

- The pattern is the literal string with spaces, not a sequence of cells.
- Letters are compared as raw characters. Nothing is lower-cased, although
  comments at HangmanManager.java:62 and :91 say "case insensitive".
- Ties between families of equal size go to the key that comes first in
  `TreeMap` order. In this order `' '` < `'-'` < letters.

The literal encoding has two visible consequences, and the model states them
exactly:

- A dash can be a guessed letter, but revealing it never changes the pattern.
  So guessing `'-'` always costs a turn and returns 0 (`DashAlwaysCharged`).
  For this reason `PenaltyIffAbsent` assumes `g != '-'`.
- A space can be a guessed letter too. After a space is revealed, the returned
  count also includes the separators. For this reason `RecordReturnsLetterCount`
  assumes `g` is neither a dash nor a space. For every guess, `RecordAccounting`
  states the value as written: the number of occurrences in the new pattern.

## Model

| member | source | states |
|---|---|---|
| Lex.LessIffFirstDifference | HangmanManager.java:116 | the key order is compareTo's: a proper prefix, or a common prefix followed by a smaller character |
| Lex.Transitive | HangmanManager.java:116 | the key order is transitive |
| Lex.Total | HangmanManager.java:116 | any two distinct keys are ordered one way or the other |
| Lex.Asymmetric | HangmanManager.java:116 | no two keys precede each other |
| Lex.Min | HangmanManager.java:116 | the first key a TreeMap visits is a member of the key set and precedes or equals every key |
| Patterns.InitialPattern | HangmanManager.java:25-29 | the fresh pattern has 2 * length - 1 characters, dashes at even and spaces at odd indexes |
| Patterns.Substitute | HangmanManager.java:97-101 | both substring branches put g at index 2 * i, keep the length and keep every other character |
| Patterns.RevealFrom | HangmanManager.java:95-103 | the loop from letter i on writes g into the cell of every later letter equal to g and leaves every other index alone |
| Patterns.CreatePattern | HangmanManager.java:93-105 | createPattern keeps the length, shows g in every cell whose letter is g, and keeps the current pattern's character everywhere else |
| Patterns.Render | HangmanManager.java:93-105 | the pattern a word shows once a set of letters was guessed: the letter if guessed, else a dash, spaces between |
| Patterns.Occurrences | HangmanManager.java:129-135 | the counting loop returns the multiplicity of g in the pattern |
| Patterns.InitialIsRender | HangmanManager.java:25-29 | before any guess every word shows the initial pattern |
| Patterns.RevealRender | HangmanManager.java:93-105 | createPattern on a word's own rendering equals the rendering with g added to the guesses |
| Patterns.UnchangedIffAbsent | HangmanManager.java:125-127 | for a fresh letter other than the dash, a word's pattern is unchanged exactly when the word lacks the letter |
| Patterns.RenderCount | HangmanManager.java:129-136 | for a guessed letter other than dash or space, a word's pattern shows it as often as the word contains it |
| Hangman.WordsOfLength | HangmanManager.java:30-35 | the dictionary loop keeps exactly the dictionary's words of the requested length |
| Hangman.New | HangmanManager.java:18-36 | length < 1 throws first, then max < 0; otherwise budget max, no guesses, the blank pattern and exactly the words of that length |
| Hangman.Pattern | HangmanManager.java:55-60 | throws IllegalState exactly when the word set is empty, otherwise returns the current pattern |
| Hangman.Partition | HangmanManager.java:78-86 | every live word lands in the family of its createPattern key, every family is non-empty and holds exactly the live words producing its key |
| Hangman.PartitionCoversWords | HangmanManager.java:78-86 | a non-empty word set yields at least one family |
| Hangman.Scan | HangmanManager.java:116-122 | visiting keys in ascending order and replacing only on a strictly larger family ends on the largest family, the first one in key order among equals |
| Hangman.ChooseFamily | HangmanManager.java:114-122 | the chosen key has a family of maximum size and precedes every other key of that size; with no families the pattern stays |
| Hangman.SizeCheck | HangmanManager.java:113-138 | commits to the chosen family, adds g to the guesses, an unchanged pattern costs one guess and returns 0, a changed one returns g's count in the new pattern |
| Hangman.Record | HangmanManager.java:70-88 | refusals in order (no guesses left, empty word set, repeated letter), each leaving the state unchanged; success exactly otherwise, with g recorded and the budget not negative |
| HangmanProperties.NewIsValid | HangmanManager.java:18-36 | a constructed manager is consistent: every word shows the current pattern under the (empty) guesses |
| HangmanProperties.LargestFirstIsUnique | HangmanManager.java:116-122 | at most one key is the first of largest size, so the choice is determined |
| HangmanProperties.RecordNarrowsWords | HangmanManager.java:78-123 | the new word set is a non-empty subset of the old one, exactly the old words producing the new pattern, and the pattern keeps its length |
| HangmanProperties.RecordChoosesLargestFamily | HangmanManager.java:113-123 | no family is larger than the kept one, equal-size families have keys no smaller, and the kept key is the only one with both properties |
| HangmanProperties.RecordAccounting | HangmanManager.java:124-137 | g is recorded; unchanged pattern: budget drops by exactly 1 and result 0; changed: budget kept, result is g's positive count in the new pattern; budget never negative |
| HangmanProperties.RecordPreservesValid | HangmanManager.java:78-124 | after a successful record every remaining word shows exactly the new pattern under the new guesses |
| HangmanProperties.DashAlwaysCharged | HangmanManager.java:123-127 | guessing the dash never changes the pattern, so it always costs exactly one guess and returns 0 |
| HangmanProperties.PenaltyIffAbsent | HangmanManager.java:125-127 | for any letter but the dash, a guess is charged exactly when no remaining word contains it |
| HangmanProperties.RecordReturnsLetterCount | HangmanManager.java:128-136 | for a letter other than dash or space, the result is the letter's count in every remaining word |
| HangmanProperties.PlayKeepsInvariant | HangmanManager.java:70-88 | over any sequence of accepted guesses (a refusal changes nothing, so this covers every reachable state) the state stays consistent, words only shrink, the budget only drops and stays non-negative, guesses are kept |
| Scenarios.TieGoesToFirstKey | HangmanManager.java:116-127 | {"aa","ab","bb"}, length 2, budget 3, guess 'a': key "- -" wins the three-way tie, words {"bb"}, budget 2, result 0 |
| Scenarios.ZeroBudgetRefusesGuess | HangmanManager.java:71-72 | a budget of 0 is accepted and the first guess throws IllegalState with the state unchanged |
| Scenarios.NoWordsOfLength | HangmanManager.java:55-74 | for every dictionary without a word of the requested length and every budget and guess, the word set is empty, pattern() throws IllegalState, and record() with a budget of at least 1 throws IllegalState for the empty word set with the state unchanged |

## Left out

- Case normalisation: the comments promise case insensitivity, but the code compares raw `char`s. The model compares raw characters too.
- Reference aliasing: `words()` and `guesses()` return the internal mutable sets. Here they are value fields of an immutable manager.
- Java integer width: `length`, `max` and `guessCount` are 32-bit `int`s, modelled as unbounded integers. `guessCount` is only decremented from at least 1, so it cannot wrap. Java strings cannot be long enough for a `length` near 2^31, and the model does not cover that limit.
- Java `char` is a UTF-16 code unit, while Dafny's `char` is a Unicode scalar value. Key order agrees for characters of the Basic Multilingual Plane, but surrogate pairs are not modelled.
- A `null` dictionary or `null` words (NullPointerException) are not modelled. The dictionary is a sequence of strings, and its order does not affect the result.
- Hangman.Record: requires `Shaped`. This is the class invariant that every live word has half the pattern's length, rounded up. createPattern's substrings need it, and `RecordNarrowsWords` and `NewIsValid` show that it always holds.
- Hangman.SizeCheck: requires a non-empty map of non-empty families. `record` always passes one. With an empty map, Java would set `wordSet` to `null`, and that case is unreachable.
- The unused local `patternCount` (HangmanManager.java:130) has no behaviour and is omitted.
- The console driver and dictionary-file loading are not part of this model.
- TreeSet ordering of `wordSet` and `guessedLetters` is not modelled. The sets are Dafny sets; only the TreeMap key order affects behaviour.
