/** The names an NSEC3 walk hashes: the kept names and the empty non-terminals above them.

Between a kept name and the next one, the walk adds the ancestors of the next name that are
longer than what the two have in common.  The result is every ancestor, at or below the
origin, of a kept name, each of them once.
*/
module Spans {
  import opened Names
  import opened Zones

  /** Ancestors of `next` with fewer than `count` and more than `low` labels, longest first. */
  function Empties(next: Name, low: nat, count: nat): (r: seq<Name>)
    requires count <= |next|
  {
    if count > low + 1 then [next[..count - 1]] + Empties(next, low, count - 1) else []
  }

  lemma {:induction false} EmptiesAre(next: Name, low: nat, count: nat, p: Name)
    requires count <= |next|
    ensures p in Empties(next, low, count) <==> low < |p| < count && p <= next
  {
    if count > low + 1 {
      EmptiesAre(next, low, count - 1, p);
      assert p <= next && |p| == count - 1 <==> p == next[..count - 1];
    }
  }

  /** What the walk adds when it goes from `name` to `next`. */
  ghost function Span(name: Name, next: Name): (r: seq<Name>)
  {
    [name] + Empties(next, Common(name, next), |next|)
  }

  /** Everything added for the members of `s` among the first `i` nodes. */
  ghost function SpanList(z: Zone, s: set<Name>, i: nat): (r: seq<Name>)
    requires i <= |z.order|
  {
    if i == 0 then []
    else if z.order[i - 1] in s then
      SpanList(z, s, i - 1) + Span(z.order[i - 1], At(z, NextIndex(z.order, s, i)))
    else SpanList(z, s, i - 1)
  }

  lemma {:induction false} SpanListSkips(z: Zone, s: set<Name>, i: nat, j: nat)
    requires i <= j <= |z.order| && forall k :: i <= k < j ==> z.order[k] !in s
    ensures SpanList(z, s, j) == SpanList(z, s, i)
  {
    if i < j {
      SpanListSkips(z, s, i, j - 1);
    }
  }

  /** A walk that keeps `s`: the origin is its first member and all members are in the zone. */
  ghost predicate Keeps(z: Zone, s: set<Name>, o: nat) {
    && Ascending(z.order)
    && o < |z.order| && z.order[o] == z.origin && z.origin in s
    && (forall k :: 0 <= k < |z.order| && z.order[k] in s ==> o <= k && z.origin <= z.order[k])
  }

  /** An ancestor, at or below the origin, of a name of `s`. */
  ghost predicate Above(z: Zone, s: set<Name>, p: Name) {
    z.origin <= p && exists n :: n in z.order && n in s && p <= n
  }

  ghost predicate AboveVisited(z: Zone, s: set<Name>, i: nat, p: Name)
    requires i <= |z.order|
  {
    exists k: nat :: k < i && z.order[k] in s && p <= z.order[k]
  }

  /** What has been added once the walk stands before position `i`. */
  ghost predicate Reached(z: Zone, s: set<Name>, i: nat, p: Name)
    requires i <= |z.order|
  {
    z.origin <= p && (AboveVisited(z, s, i, p) || StrictlyAbove(p, z, NextIndex(z.order, s, i)))
  }

  ghost predicate StrictlyAbove(p: Name, z: Zone, j: nat) {
    j < |z.order| && p <= z.order[j] && p != z.order[j]
  }

  /** An ancestor of a later node that is above a visited node is above every node between. */
  lemma AboveBetween(z: Zone, k: nat, i: nat, j: nat, p: Name)
    requires Ascending(z.order) && k <= i < j < |z.order|
    requires p <= z.order[k] && p <= z.order[j]
    ensures p <= z.order[i]
  {
    assert k < i ==> Before(z.order[k], z.order[i]);
    assert Before(z.order[i], z.order[j]);
    SubtreeContiguous(p, z.order[k], z.order[i], z.order[j]);
  }

  lemma NotAboveEarlier(z: Zone, k: nat, i: nat)
    requires Ascending(z.order) && k < i < |z.order|
    ensures !(z.order[i] <= z.order[k])
  {
    assert Before(z.order[k], z.order[i]);
    BeforeTotal(z.order[k], z.order[i]);
    if z.order[i] <= z.order[k] {
      AncestorBefore(z.order[i], z.order[k]);
    }
  }

  /** The span from a kept node adds exactly what was not reached before it. */
  lemma SpanStep(z: Zone, s: set<Name>, o: nat, i: nat, p: Name)
    requires Keeps(z, s, o) && o < i < |z.order| && z.order[i] in s
    ensures p in Span(z.order[i], At(z, NextIndex(z.order, s, i + 1))) <==>
            Reached(z, s, i + 1, p) && !Reached(z, s, i, p)
  {
    var name := z.order[i];
    var j := NextIndex(z.order, s, i + 1);
    var next := At(z, j);
    assert NextIndex(z.order, s, i) == i;
    VisitOne(z, s, i, p);
    if j < |z.order| {
      CommonAtLeast(name, next, z.origin);
      EmptiesAre(next, Common(name, next), |next|, p);
      if p in Span(name, next) {
        SpanOld(z, s, i, j, p);
      }
      SpanNew(z, s, i, j, p);
    } else {
      SpanEnd(z, s, o, i, p);
    }
  }

  lemma VisitOne(z: Zone, s: set<Name>, i: nat, p: Name)
    requires i < |z.order| && z.order[i] in s
    ensures AboveVisited(z, s, i + 1, p) <==> AboveVisited(z, s, i, p) || p <= z.order[i]
  {
  }

  lemma SpanEnd(z: Zone, s: set<Name>, o: nat, i: nat, p: Name)
    requires Keeps(z, s, o) && o <= i < |z.order| && z.order[i] in s
    ensures p in Span(z.order[i], z.origin) <==> p == z.order[i]
    ensures p == z.order[i] ==> !AboveVisited(z, s, i, p)
  {
    CommonIs(z.order[i], z.origin, |z.origin|);
    EmptiesAre(z.origin, |z.origin|, |z.origin|, p);
    if p == z.order[i] {
      NotAboveVisited(z, s, i);
    }
  }

  lemma NotAboveVisited(z: Zone, s: set<Name>, i: nat)
    requires Ascending(z.order) && i < |z.order|
    ensures !AboveVisited(z, s, i, z.order[i])
  {
    forall k: nat | k < i
      ensures !(z.order[i] <= z.order[k])
    {
      NotAboveEarlier(z, k, i);
    }
  }

  /** Nothing of a span was there before. */
  lemma SpanOld(z: Zone, s: set<Name>, i: nat, j: nat, p: Name)
    requires Ascending(z.order) && i < j < |z.order| && p in Span(z.order[i], z.order[j])
    ensures !AboveVisited(z, s, i, p) && !StrictlyAbove(p, z, i)
  {
    var name, next := z.order[i], z.order[j];
    EmptiesAre(next, Common(name, next), |next|, p);
    if p == name {
      NotAboveVisited(z, s, i);
    } else {
      assert p in Empties(next, Common(name, next), |next|);
      assert Before(name, next);
      SpanAncestor(name, next, p);
      forall k: nat | k < i
        ensures !(p <= z.order[k])
      {
        if p <= z.order[k] {
          AboveBetween(z, k, i, j, p);
        }
      }
    }
  }

  /** What is newly above a visited node, or above the next one, is in the span. */
  lemma SpanNew(z: Zone, s: set<Name>, i: nat, j: nat, p: Name)
    requires i < j < |z.order|
    ensures p in Span(z.order[i], z.order[j]) <==>
            p == z.order[i] || (StrictlyAbove(p, z, j) && !(p <= z.order[i]))
  {
    var name, next := z.order[i], z.order[j];
    var c := Common(name, next);
    EmptiesAre(next, c, |next|, p);
    if p <= next {
      if |p| <= c {
        assert p == next[..|p|] == next[..c][..|p|] == name[..c][..|p|] == name[..|p|];
      } else if p <= name {
        CommonAtLeast(name, next, p);
      }
    }
    assert p in Span(name, next) <==> p == name || p in Empties(next, c, |next|);
  }

  /** The span list holds exactly what has been reached. */
  lemma {:induction false} SpanListIs(z: Zone, s: set<Name>, o: nat, i: nat, p: Name)
    requires Keeps(z, s, o) && o < i <= |z.order|
    ensures p in SpanList(z, s, i) <==> Reached(z, s, i, p)
  {
    if i == o + 1 {
      SpanListBegins(z, s, o, p);
    } else {
      SpanListIs(z, s, o, i - 1, p);
      SpanListStep(z, s, o, i - 1, p);
    }
  }

  lemma SpanListBegins(z: Zone, s: set<Name>, o: nat, p: Name)
    requires Keeps(z, s, o)
    ensures p in SpanList(z, s, o + 1) <==> Reached(z, s, o + 1, p)
  {
    SpanListSkips(z, s, 0, o);
    assert SpanList(z, s, o) == [];
    FirstSpan(z, s, o, p);
  }

  lemma SpanListStep(z: Zone, s: set<Name>, o: nat, i: nat, p: Name)
    requires Keeps(z, s, o) && o < i < |z.order| && (p in SpanList(z, s, i) <==> Reached(z, s, i, p))
    ensures p in SpanList(z, s, i + 1) <==> Reached(z, s, i + 1, p)
  {
    if z.order[i] in s {
      SpanStep(z, s, o, i, p);
      ReachedGrows(z, s, i, p);
    } else {
      ReachedSkips(z, s, i, p);
    }
  }

  lemma ReachedSkips(z: Zone, s: set<Name>, i: nat, p: Name)
    requires i < |z.order| && z.order[i] !in s
    ensures Reached(z, s, i + 1, p) <==> Reached(z, s, i, p)
  {
    assert AboveVisited(z, s, i + 1, p) <==> AboveVisited(z, s, i, p);
  }

  lemma ReachedGrows(z: Zone, s: set<Name>, i: nat, p: Name)
    requires i < |z.order| && z.order[i] in s
    ensures Reached(z, s, i, p) ==> Reached(z, s, i + 1, p)
  {
    VisitOne(z, s, i, p);
  }

  lemma FirstSpan(z: Zone, s: set<Name>, o: nat, p: Name)
    requires Keeps(z, s, o)
    ensures p in Span(z.origin, At(z, NextIndex(z.order, s, o + 1))) <==> Reached(z, s, o + 1, p)
  {
    var j := NextIndex(z.order, s, o + 1);
    VisitOne(z, s, o, p);
    assert !AboveVisited(z, s, o, p);
    if j < |z.order| {
      SpanNew(z, s, o, j, p);
      EmptiesAre(z.order[j], Common(z.origin, z.order[j]), |z.order[j]|, p);
      CommonAtLeast(z.origin, z.order[j], z.origin);
      assert p in Span(z.origin, z.order[j]) && p != z.origin ==> |z.origin| < |p| && z.origin <= p;
    } else {
      SpanEnd(z, s, o, o, p);
    }
  }

  /** Every name at or below the origin that is an ancestor of a kept name is added, and
      nothing else. */
  lemma SpanListAll(z: Zone, s: set<Name>, o: nat, p: Name)
    requires Keeps(z, s, o)
    ensures p in SpanList(z, s, |z.order|) <==> Above(z, s, p)
  {
    SpanListIs(z, s, o, |z.order|, p);
  }

  lemma {:induction false} EmptiesDistinct(next: Name, low: nat, count: nat)
    requires count <= |next|
    ensures Distinct(Empties(next, low, count))
  {
    if count > low + 1 {
      EmptiesDistinct(next, low, count - 1);
      var r := Empties(next, low, count - 1);
      forall k | 0 <= k < |r|
        ensures r[k] != next[..count - 1]
      {
        assert r[k] in r;
        EmptiesAre(next, low, count - 1, r[k]);
      }
    }
  }

  lemma SpanDistinct(name: Name, next: Name)
    requires Before(name, next) || next <= name
    ensures Distinct(Span(name, next))
  {
    var r := Empties(next, Common(name, next), |next|);
    EmptiesDistinct(next, Common(name, next), |next|);
    forall k | 0 <= k < |r|
      ensures r[k] != name
    {
      assert r[k] in r;
      EmptiesAre(next, Common(name, next), |next|, r[k]);
      if name == r[k] {
        CommonAtLeast(name, next, name);
      }
    }
  }

  /** No name is added twice. */
  lemma {:induction false} SpanListDistinct(z: Zone, s: set<Name>, o: nat, i: nat)
    requires Keeps(z, s, o) && i <= |z.order|
    ensures Distinct(SpanList(z, s, i))
  {
    if i > 0 {
      SpanListDistinct(z, s, o, i - 1);
      if z.order[i - 1] in s {
        var a, b := SpanList(z, s, i - 1), Span(z.order[i - 1], At(z, NextIndex(z.order, s, i)));
        NextBefore(z, s, o, i);
        SpanDistinct(z.order[i - 1], At(z, NextIndex(z.order, s, i)));
        if i - 1 == o {
          SpanListSkips(z, s, 0, o);
        } else {
          forall p | p in b
            ensures p !in a
          {
            SpanListIs(z, s, o, i - 1, p);
            SpanStep(z, s, o, i - 1, p);
          }
        }
        ConcatDistinct(a, b);
      }
    }
  }

  lemma NextBefore(z: Zone, s: set<Name>, o: nat, i: nat)
    requires Keeps(z, s, o) && 0 < i <= |z.order| && z.order[i - 1] in s
    ensures var next := At(z, NextIndex(z.order, s, i)); Before(z.order[i - 1], next) || next <= z.order[i - 1]
  {
    var j := NextIndex(z.order, s, i);
    assert j < |z.order| ==> Before(z.order[i - 1], z.order[j]);
  }

  lemma ConcatDistinct(a: seq<Name>, b: seq<Name>)
    requires Distinct(a) && Distinct(b) && forall p :: p in b ==> p !in a
    ensures Distinct(a + b)
  {
    var c := a + b;
    forall i, j | 0 <= i < j < |c|
      ensures c[i] != c[j]
    {
      if i < |a| <= j {
        assert c[i] in a && c[j] in b;
      }
    }
  }
}
