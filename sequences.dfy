/**
  Generic facts about sequences used by the tile panel: distinct elements,
  order-preserving filters, and the removal of one element as
  UIElementCollection.Remove does it.
 */
module Sequences {

  /** No element occurs twice (a WPF element has at most one parent panel). */
  predicate Distinct<T(==)>(s: seq<T>) {
    forall i, j :: 0 <= i < j < |s| ==> s[i] != s[j]
  }

  lemma DistinctAppend<T>(s: seq<T>, x: T)
    requires Distinct(s) && x !in s
    ensures Distinct(s + [x])
  {
  }

  lemma DistinctCons<T>(x: T, s: seq<T>)
    requires Distinct(s) && x !in s
    ensures Distinct([x] + s)
  {
    var r := [x] + s;
    forall i, j | 0 <= i < j < |r| ensures r[i] != r[j] {
      assert r[j] == s[j - 1];
      if i > 0 {
        assert r[i] == s[i - 1];
      }
    }
  }

  /** r can be obtained from s by deleting elements: r keeps s's relative order. */
  ghost predicate IsSubsequence<T>(r: seq<T>, s: seq<T>)
    decreases |s|
  {
    if r == [] then true
    else if s == [] then false
    else (r[0] == s[0] && IsSubsequence(r[1..], s[1..])) || IsSubsequence(r, s[1..])
  }

  /** Removes the first occurrence of x, if any (UIElementCollection.Remove). */
  function RemoveFirst<T(==)>(s: seq<T>, x: T): (r: seq<T>)
    ensures x !in s ==> r == s
  {
    if s == [] then []
    else if s[0] == x then s[1..]
    else [s[0]] + RemoveFirst(s[1..], x)
  }

  /** RemoveFirst takes away exactly one occurrence of x when there is one. */
  lemma {:induction false} RemoveFirstMultiset<T>(s: seq<T>, x: T)
    ensures multiset(RemoveFirst(s, x)) == multiset(s) - multiset{x}
  {
    if s != [] {
      assert s == [s[0]] + s[1..];
      if s[0] != x {
        RemoveFirstMultiset(s[1..], x);
      }
    }
  }

  /** The elements of s that do not occur in rs, in s's order. */
  function Without<T(==)>(s: seq<T>, rs: seq<T>): (r: seq<T>)
    ensures rs == [] ==> r == s
  {
    if s == [] then []
    else if s[0] in rs then Without(s[1..], rs)
    else [s[0]] + Without(s[1..], rs)
  }

  /** Without keeps exactly the elements of s that are not in rs. */
  lemma {:induction false} WithoutMembers<T>(s: seq<T>, rs: seq<T>)
    ensures forall x :: x in Without(s, rs) <==> x in s && x !in rs
  {
    if s != [] {
      WithoutMembers(s[1..], rs);
      assert forall x :: x in s <==> x == s[0] || x in s[1..];
    }
  }

  lemma {:induction false} WithoutIsSubsequence<T>(s: seq<T>, rs: seq<T>)
    ensures IsSubsequence(Without(s, rs), s)
  {
    if s != [] {
      WithoutIsSubsequence(s[1..], rs);
      var w := Without(s[1..], rs);
      if s[0] !in rs {
        assert Without(s, rs) == [s[0]] + w;
        assert ([s[0]] + w)[1..] == w;
      }
    }
  }

  lemma {:induction false} WithoutIgnoresAbsent<T>(s: seq<T>, rs: seq<T>, x: T)
    requires x !in s
    ensures Without(s, rs + [x]) == Without(s, rs)
  {
    if s != [] {
      WithoutIgnoresAbsent(s[1..], rs, x);
    }
  }

  /**
    Removing the elements of rs one at a time from a sequence without
    duplicates is the same as filtering them out all at once.
   */
  lemma {:induction false} RemoveFirstFromWithout<T>(s: seq<T>, rs: seq<T>, x: T)
    requires Distinct(s)
    ensures RemoveFirst(Without(s, rs), x) == Without(s, rs + [x])
  {
    if s != [] {
      var t := s[1..];
      assert Distinct(t) by {
        forall i, j | 0 <= i < j < |t| ensures t[i] != t[j] {
          assert t[i] == s[i + 1] && t[j] == s[j + 1];
        }
      }
      RemoveFirstFromWithout(t, rs, x);
      if s[0] !in rs && s[0] == x {
        assert s[0] !in t by {
          forall j | 0 <= j < |t| ensures t[j] != s[0] {
            assert t[j] == s[j + 1];
          }
        }
        WithoutIgnoresAbsent(t, rs, x);
      }
    }
  }
}
