/**
  Lexicographic order on strings, as Java's String.compareTo defines it: the
  first position where the strings differ decides by character value; when one
  string is a prefix of the other, the shorter one is smaller. A TreeMap keyed
  by strings visits its keys in this order.
 */
module Lex {

  /** Strict lexicographic order. */
  predicate Less(a: string, b: string)
    decreases |a|
  {
    if |a| == 0 then |b| > 0
    else if |b| == 0 then false
    else if a[0] != b[0] then a[0] < b[0]
    else Less(a[1..], b[1..])
  }

  predicate LessEq(a: string, b: string) {
    a == b || Less(a, b)
  }

  /** The position-based reading of compareTo: either a proper prefix, or a
      common prefix followed by a smaller character. */
  ghost predicate DiffersFirstAt(a: string, b: string, i: nat) {
    i < |a| && i < |b| && a[..i] == b[..i] && a[i] < b[i]
  }

  ghost predicate IsProperPrefix(a: string, b: string) {
    |a| < |b| && a == b[..|a|]
  }

  lemma {:induction false} LessIffFirstDifference(a: string, b: string)
    ensures Less(a, b) <==> IsProperPrefix(a, b) || exists i :: DiffersFirstAt(a, b, i)
    decreases |a|
  {
    if |a| == 0 || |b| == 0 {
    } else if a[0] != b[0] {
      if |a| < |b| {
        assert b[..|a|][0] == b[0];
      }
      forall i: nat | 0 < i < |a| && i < |b|
        ensures a[..i] != b[..i]
      {
        assert a[..i][0] == a[0] && b[..i][0] == b[0];
      }
      if a[0] < b[0] {
        assert DiffersFirstAt(a, b, 0);
      }
    } else {
      var a', b' := a[1..], b[1..];
      LessIffFirstDifference(a', b');
      if IsProperPrefix(a, b) {
        assert b'[..|a'|] == b[..|a|][1..];
      }
      if IsProperPrefix(a', b') {
        assert b[..|a|] == [b[0]] + b'[..|a'|];
      }
      forall i: nat | DiffersFirstAt(a, b, i) && i > 0
        ensures DiffersFirstAt(a', b', i - 1)
      {
        assert a'[..i - 1] == a[..i][1..] && b'[..i - 1] == b[..i][1..];
      }
      forall i: nat | DiffersFirstAt(a', b', i)
        ensures DiffersFirstAt(a, b, i + 1)
      {
        assert a[..i + 1] == [a[0]] + a'[..i] && b[..i + 1] == [b[0]] + b'[..i];
      }
    }
  }

  lemma {:induction false} Irreflexive(a: string)
    ensures !Less(a, a)
    decreases |a|
  {
    if |a| > 0 {
      Irreflexive(a[1..]);
    }
  }

  lemma {:induction false} Asymmetric(a: string, b: string)
    ensures Less(a, b) ==> !Less(b, a)
    decreases |a|
  {
    if |a| > 0 && |b| > 0 && a[0] == b[0] {
      Asymmetric(a[1..], b[1..]);
    }
  }

  lemma {:induction false} Transitive(a: string, b: string, c: string)
    requires Less(a, b) && Less(b, c)
    ensures Less(a, c)
    decreases |a|
  {
    if |a| > 0 && a[0] == b[0] && b[0] == c[0] {
      Transitive(a[1..], b[1..], c[1..]);
    }
  }

  lemma {:induction false} Total(a: string, b: string)
    ensures a == b || Less(a, b) || Less(b, a)
    decreases |a|
  {
    if |a| > 0 && |b| > 0 && a[0] == b[0] {
      Total(a[1..], b[1..]);
      if a[1..] == b[1..] {
        assert a == [a[0]] + a[1..] && b == [b[0]] + b[1..];
      }
    }
  }

  lemma LessEqTransitive(a: string, b: string, c: string)
    requires LessEq(a, b) && LessEq(b, c)
    ensures LessEq(a, c)
  {
    if a != b && b != c {
      Transitive(a, b, c);
    }
  }

  lemma LessEqAntisymmetric(a: string, b: string)
    requires LessEq(a, b) && LessEq(b, a)
    ensures a == b
  {
    Asymmetric(a, b);
  }

  predicate IsLeast(m: string, s: set<string>) {
    m in s && forall k :: k in s ==> LessEq(m, k)
  }

  lemma {:induction false} LeastExists(s: set<string>)
    requires s != {}
    ensures exists m :: IsLeast(m, s)
    decreases s
  {
    var x :| x in s;
    if s != {x} {
      LeastExists(s - {x});
      var m :| IsLeast(m, s - {x});
      Total(x, m);
      if Less(x, m) {
        forall k | k in s
          ensures LessEq(x, k)
        {
          if k != x {
            LessEqTransitive(x, m, k);
          }
        }
        assert IsLeast(x, s);
      } else {
        assert IsLeast(m, s);
      }
    } else {
      assert IsLeast(x, s);
    }
  }

  lemma LeastIsUnique(s: set<string>)
    ensures forall m, m' :: IsLeast(m, s) && IsLeast(m', s) ==> m == m'
  {
    forall m, m' | IsLeast(m, s) && IsLeast(m', s)
      ensures m == m'
    {
      LessEqAntisymmetric(m, m');
    }
  }

  /** The smallest string of a non-empty set: the key a TreeMap visits first. */
  function Min(s: set<string>): (m: string)
    requires s != {}
    ensures m in s
    ensures forall k :: k in s ==> LessEq(m, k)
  {
    LeastExists(s);
    LeastIsUnique(s);
    var m :| IsLeast(m, s);
    m
  }
}
