/** Sorting octet strings by their octets, as `qsort` does with `memcmp` or the order of rdata. */
module Sorting {
  import opened Names

  ghost predicate AtMost(a: Octets, b: Octets) {
    a == b || Precedes(a, b)
  }

  ghost predicate Sorted(c: seq<Octets>) {
    forall i, j {:trigger AtMost(c[i], c[j])} :: 0 <= i <= j < |c| ==> AtMost(c[i], c[j])
  }

  lemma AtMostTransitive(a: Octets, b: Octets, c: Octets)
    requires AtMost(a, b) && AtMost(b, c)
    ensures AtMost(a, c)
  {
    if a != b && b != c {
      PrecedesTransitive(a, b, c);
    }
  }

  lemma AtMostPrecedes(a: Octets, b: Octets, c: Octets, d: Octets)
    requires AtMost(a, b) && Precedes(b, c) && AtMost(c, d)
    ensures Precedes(a, d)
  {
    if a != b {
      PrecedesTransitive(a, b, c);
    }
    if c != d {
      PrecedesTransitive(a, c, d);
    }
  }

  lemma AtMostAntisymmetric(a: Octets, b: Octets)
    requires AtMost(a, b) && AtMost(b, a)
    ensures a == b
  {
    PrecedesTotal(a, b);
  }

  /** Insertion into a sorted sequence, the model of qsort. */
  function Insert(c: seq<Octets>, e: Octets): (r: seq<Octets>)
    ensures multiset(r) == multiset(c) + multiset{e}
  {
    if c == [] then [e]
    else if Precedes(c[0], e) then
      assert c == [c[0]] + c[1..];
      [c[0]] + Insert(c[1..], e)
    else [e] + c
  }

  function SortEntries(c: seq<Octets>): (r: seq<Octets>)
    ensures multiset(r) == multiset(c)
  {
    if c == [] then []
    else
      assert c == [c[0]] + c[1..];
      Insert(SortEntries(c[1..]), c[0])
  }

  lemma {:induction false} InsertSorted(c: seq<Octets>, e: Octets)
    requires Sorted(c)
    ensures Sorted(Insert(c, e))
  {
    if c != [] && Precedes(c[0], e) {
      TailSorted(c);
      InsertSorted(c[1..], e);
      var t := Insert(c[1..], e);
      forall x | x in t
        ensures AtMost(c[0], x)
      {
        assert x in multiset(t);
        if x != e {
          assert x in c[1..];
          var k :| 0 <= k < |c[1..]| && c[1..][k] == x;
          assert AtMost(c[0], c[k + 1]);
        }
      }
      ConsSorted(c[0], t);
    } else {
      forall x | x in c
        ensures AtMost(e, x)
      {
        var k :| 0 <= k < |c| && c[k] == x;
        PrecedesTotal(c[0], e);
        assert AtMost(c[0], c[k]);
        AtMostTransitive(e, c[0], x);
      }
      ConsSorted(e, c);
    }
  }

  lemma TailSorted(c: seq<Octets>)
    requires Sorted(c) && c != []
    ensures Sorted(c[1..])
  {
    forall i, j | 0 <= i <= j < |c[1..]|
      ensures AtMost(c[1..][i], c[1..][j])
    {
      assert AtMost(c[i + 1], c[j + 1]);
    }
  }

  lemma ConsSorted(e: Octets, c: seq<Octets>)
    requires Sorted(c) && forall x :: x in c ==> AtMost(e, x)
    ensures Sorted([e] + c)
  {
    var r := [e] + c;
    forall i, j | 0 <= i <= j < |r|
      ensures AtMost(r[i], r[j])
    {
      if i > 0 {
        assert AtMost(c[i - 1], c[j - 1]);
      } else if j > 0 {
        assert r[j] in c;
      }
    }
  }

  lemma {:induction false} SortEntriesSorted(c: seq<Octets>)
    ensures Sorted(SortEntries(c))
  {
    if c != [] {
      SortEntriesSorted(c[1..]);
      InsertSorted(SortEntries(c[1..]), c[0]);
    }
  }

  ghost predicate Repeats(s: seq<Octets>, i: nat, j: nat) {
    i < j < |s| && s[i] == s[j]
  }

  /** A value occurs twice in a sequence exactly when its multiplicity says so. */
  lemma {:induction false} RepeatsCount(s: seq<Octets>, x: Octets)
    ensures multiset(s)[x] >= 2 <==> exists i: nat, j: nat :: Repeats(s, i, j) && s[i] == x
  {
    if s != [] {
      var t, y := s[..|s| - 1], s[|s| - 1];
      assert s == t + [y];
      RepeatsCount(t, x);
      if y == x && x in t {
        var i: nat :| i < |t| && t[i] == x;
        assert Repeats(s, i, |t|);
      }
      forall i: nat, j: nat | Repeats(t, i, j) && t[i] == x
        ensures Repeats(s, i, j) && s[i] == x
      {
      }
      forall i: nat, j: nat | Repeats(s, i, j) && s[i] == x
        ensures multiset(s)[x] >= 2
      {
        assert s[i] == t[i];
        assert j < |t| ==> Repeats(t, i, j);
        assert x in t;
      }
    }
  }
}
