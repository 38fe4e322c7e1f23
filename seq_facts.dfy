/** Facts about sequences of identifiers used by the solver's proofs. */
module SeqFacts {

  /** No element occurs twice. */
  ghost predicate Distinct<T>(s: seq<T>)
  {
    forall i, j :: 0 <= i < j < |s| ==> s[i] != s[j]
  }

  function SetOf<T>(s: seq<T>): set<T>
  {
    set x | x in s
  }

  /** Removing one position of a repetition-free sequence removes exactly
      that element, and repeats nothing. */
  lemma RemoveAt<T>(a: seq<T>, j: nat)
    requires Distinct(a) && j < |a|
    ensures var a' := a[..j] + a[j + 1..];
      Distinct(a') && SetOf(a') == SetOf(a) - {a[j]}
  {
    var a' := a[..j] + a[j + 1..];
    forall u, v | 0 <= u < v < |a'| ensures a'[u] != a'[v] {
      var u' := if u < j then u else u + 1;
      var v' := if v < j then v else v + 1;
      assert a'[u] == a[u'] && a'[v] == a[v'];
    }
    forall y | y in a' ensures y in a && y != a[j] {
      var u :| 0 <= u < |a'| && a'[u] == y;
      var u' := if u < j then u else u + 1;
      assert a'[u] == a[u'];
    }
    forall y | y in a && y != a[j] ensures y in a' {
      var u :| 0 <= u < |a| && a[u] == y;
      if u < j {
        assert a'[u] == y;
      } else {
        assert a'[u - 1] == y;
      }
    }
  }

  /** A sequence has at least as many positions as distinct elements, and
      exactly as many only when it repeats nothing. */
  lemma {:induction false} CardSetOf<T>(s: seq<T>)
    ensures |SetOf(s)| <= |s|
    ensures |SetOf(s)| == |s| ==> Distinct(s)
  {
    if s != [] {
      var t := s[1..];
      CardSetOf(t);
      assert SetOf(s) == {s[0]} + SetOf(t);
      if s[0] in t {
        assert SetOf(s) == SetOf(t);
      } else {
        assert s[0] !in SetOf(t);
        if |SetOf(s)| == |s| {
          forall i, j | 0 <= i < j < |s| ensures s[i] != s[j] {
            if i > 0 {
              assert s[i] == t[i - 1] && s[j] == t[j - 1];
            } else {
              assert s[j] in t;
            }
          }
        }
      }
    }
  }

  /** A repetition-free sequence has as many positions as elements. */
  lemma {:induction false} DistinctCard<T>(s: seq<T>)
    requires Distinct(s)
    ensures |SetOf(s)| == |s|
  {
    if s != [] {
      var t := s[1..];
      assert Distinct(t) by {
        forall i, j | 0 <= i < j < |t| ensures t[i] != t[j] {
          assert t[i] == s[i + 1] && t[j] == s[j + 1];
        }
      }
      DistinctCard(t);
      assert SetOf(s) == {s[0]} + SetOf(t);
      assert s[0] !in SetOf(t);
    }
  }

  /** In a repetition-free sequence every element occurs exactly once. */
  lemma {:induction false} DistinctMultiplicity<T>(s: seq<T>, x: T)
    requires Distinct(s)
    ensures multiset(s)[x] == if x in s then 1 else 0
  {
    if s != [] {
      var t := s[1..];
      assert s == [s[0]] + t;
      assert Distinct(t) by {
        forall i, j | 0 <= i < j < |t| ensures t[i] != t[j] {
          assert t[i] == s[i + 1] && t[j] == s[j + 1];
        }
      }
      DistinctMultiplicity(t, x);
      assert s[0] !in t;
      assert multiset(s) == multiset{s[0]} + multiset(t);
    }
  }

  /** Two repetition-free sequences with the same elements are permutations
      of each other. */
  lemma DistinctSameSetPermutation<T>(a: seq<T>, b: seq<T>)
    requires Distinct(a) && Distinct(b) && SetOf(a) == SetOf(b)
    ensures multiset(a) == multiset(b)
  {
    forall x ensures multiset(a)[x] == multiset(b)[x] {
      DistinctMultiplicity(a, x);
      DistinctMultiplicity(b, x);
      assert x in a <==> x in SetOf(a);
      assert x in b <==> x in SetOf(b);
    }
  }

  /** A permutation of a repetition-free sequence repeats nothing either and
      has the same elements. */
  lemma PermutationOfDistinct<T>(a: seq<T>, b: seq<T>)
    requires Distinct(a) && multiset(a) == multiset(b)
    ensures Distinct(b) && SetOf(b) == SetOf(a)
  {
    forall x ensures x in b <==> x in a {
      assert x in multiset(b) <==> x in b;
      assert x in multiset(a) <==> x in a;
    }
    forall i, j | 0 <= i < j < |b| ensures b[i] != b[j] {
      DistinctMultiplicity(a, b[i]);
      assert b == b[..i] + [b[i]] + b[i + 1..j] + [b[j]] + b[j + 1..];
    }
  }

  /** A sequence that starts with `done + [p]` starts with `done`. */
  lemma PrefixOfExtension<T>(s: seq<T>, done: seq<T>, p: T)
    requires |s| >= |done| + 1 && s[..|done| + 1] == done + [p]
    ensures s[..|done|] == done
  {
    assert s[..|done|] == s[..|done| + 1][..|done|];
  }
}
