/**
  The game's pattern string. A word of length L is shown as 2 * L - 1
  characters: the cell of letter i sits at index 2 * i and holds either the
  letter or a dash, and the odd indexes hold single spaces ("- a - -").
 */
module Patterns {

  const Blank: char := '-'
  const Separator: char := ' '

  /** The pattern of a fresh game: `length` dashes separated by single spaces,
      built as "-" followed by `length - 1` copies of " -". */
  function InitialPattern(length: nat): (p: string)
    requires length >= 1
    ensures |p| == 2 * length - 1
    ensures forall k :: 0 <= k < |p| ==> p[k] == (if k % 2 == 0 then Blank else Separator)
  {
    if length == 1 then [Blank] else InitialPattern(length - 1) + [Separator, Blank]
  }

  /** One revealing step of createPattern: the cell of letter i becomes g. At
      the last letter the source keeps only the prefix before the cell, which
      is the same string because nothing follows that cell. */
  function Substitute(p: string, i: nat, g: char, last: bool): (r: string)
    requires 2 * i < |p|
    requires last ==> 2 * i + 1 == |p|
    ensures |r| == |p|
    ensures r[2 * i] == g
    ensures forall k :: 0 <= k < |p| && k != 2 * i ==> r[k] == p[k]
  {
    if last then p[..2 * i] + [g] else p[..2 * i] + [g] + p[2 * i + 1..]
  }

  /** The loop of createPattern from letter i onwards: every later letter of
      `word` equal to g is written into its cell, every other index keeps p's
      character. */
  function RevealFrom(p: string, word: string, g: char, i: nat): (r: string)
    requires |p| == 2 * |word| - 1
    requires i <= |word|
    ensures |r| == |p|
    ensures forall k :: 0 <= k < |r| ==>
              r[k] == (if k % 2 == 0 && i <= k / 2 && word[k / 2] == g then g else p[k])
    decreases |word| - i
  {
    if i == |word| then p
    else if word[i] == g then RevealFrom(Substitute(p, i, g, i == |word| - 1), word, g, i + 1)
    else RevealFrom(p, word, g, i + 1)
  }

  /** The pattern `word` would produce for guess g, starting from pattern p:
      every cell where the word has g shows g, every other index is p's. */
  function CreatePattern(p: string, word: string, g: char): (r: string)
    requires |p| == 2 * |word| - 1
    ensures |r| == |p|
    ensures forall k :: 0 <= k < |r| ==>
              r[k] == (if k % 2 == 0 && word[k / 2] == g then g else p[k])
  {
    RevealFrom(p, word, g, 0)
  }

  /** What a cell shows for letter c once the letters in `guessed` were tried. */
  function Cell(c: char, guessed: set<char>): char {
    if c in guessed then c else Blank
  }

  /** The pattern a word shows when exactly the letters in `guessed` have been
      tried: the reference against which the live words and the current
      pattern are kept consistent. */
  function Render(word: string, guessed: set<char>): (p: string)
    requires |word| >= 1
    ensures |p| == 2 * |word| - 1
    ensures forall k :: 0 <= k < |p| ==>
              p[k] == (if k % 2 == 0 then Cell(word[k / 2], guessed) else Separator)
    decreases |word|
  {
    if |word| == 1 then [Cell(word[0], guessed)]
    else [Cell(word[0], guessed), Separator] + Render(word[1..], guessed)
  }

  /** The counting loop of sizeCheck: how many characters of p equal g. */
  function Occurrences(p: string, g: char): (n: nat)
    ensures n == multiset(p)[g]
    decreases |p|
  {
    if |p| == 0 then 0
    else
      assert p == p[..|p| - 1] + [p[|p| - 1]];
      Occurrences(p[..|p| - 1], g) + (if p[|p| - 1] == g then 1 else 0)
  }

  /** Before any guess every word shows the initial pattern. */
  lemma InitialIsRender(word: string)
    requires |word| >= 1
    ensures Render(word, {}) == InitialPattern(|word|)
  {
    var p, q := Render(word, {}), InitialPattern(|word|);
    assert forall k :: 0 <= k < |p| ==> p[k] == q[k];
  }

  /** createPattern applied to a word's own rendering reveals exactly the
      guessed letter: the result is the rendering with g added to the guesses. */
  lemma RevealRender(word: string, guessed: set<char>, g: char)
    requires |word| >= 1
    ensures CreatePattern(Render(word, guessed), word, g) == Render(word, guessed + {g})
  {
    var p := Render(word, guessed);
    var r, q := CreatePattern(p, word, g), Render(word, guessed + {g});
    assert forall k :: 0 <= k < |r| ==> r[k] == q[k];
  }

  /** A fresh letter other than the dash leaves a word's pattern unchanged
      exactly when the word does not contain it. */
  lemma UnchangedIffAbsent(word: string, guessed: set<char>, g: char)
    requires |word| >= 1
    requires g !in guessed && g != Blank
    ensures CreatePattern(Render(word, guessed), word, g) == Render(word, guessed) <==> g !in word
  {
    RevealRender(word, guessed, g);
    if g in word {
      RevealsPresent(word, guessed, g);
    } else {
      KeepsAbsent(word, guessed, g);
    }
  }

  lemma RevealsPresent(word: string, guessed: set<char>, g: char)
    requires |word| >= 1
    requires g !in guessed && g != Blank && g in word
    ensures Render(word, guessed + {g}) != Render(word, guessed)
  {
    var i :| 0 <= i < |word| && word[i] == g;
    var p, q := Render(word, guessed), Render(word, guessed + {g});
    assert (2 * i) / 2 == i;
    assert q[2 * i] == g;
    assert p[2 * i] == Blank;
  }

  lemma KeepsAbsent(word: string, guessed: set<char>, g: char)
    requires |word| >= 1
    requires g !in word
    ensures Render(word, guessed + {g}) == Render(word, guessed)
  {
    var p, q := Render(word, guessed), Render(word, guessed + {g});
    forall k | 0 <= k < |p|
      ensures p[k] == q[k]
    {
      if k % 2 == 0 {
        assert word[k / 2] != g;
      }
    }
  }

  /** When g is neither a separator nor a dash and has been guessed, a word's
      pattern shows g exactly as often as the word contains it. */
  lemma {:induction false} RenderCount(word: string, guessed: set<char>, g: char)
    requires |word| >= 1
    requires g in guessed && g != Blank && g != Separator
    ensures multiset(Render(word, guessed))[g] == multiset(word)[g]
    decreases |word|
  {
    assert word == [word[0]] + word[1..];
    if |word| > 1 {
      RenderCount(word[1..], guessed, g);
      assert Render(word, guessed) == [Cell(word[0], guessed), Separator] + Render(word[1..], guessed);
    }
  }
}
