/** The zone data a signer walks, and what the walk has to find in it.

A database iterator visits the nodes in canonical order.  A node is cut off from the
authoritative data below it by a delegation or a DNAME; names strictly below such a cut
are occluded and take no part in the NSEC or NSEC3 chain.
*/
module Zones {
  import opened Names

  datatype RRType = SOA | NS | DS | DNAME | NSEC | NSEC3 | RRSIG | Data(code: nat)

  /** Anything but the records the signer itself maintains makes a node active. */
  predicate HoldsData(types: set<RRType>) {
    exists t :: t in types && !t.NSEC? && !t.NSEC3? && !t.RRSIG?
  }

  /** The nodes in iterator order and the types present at each. */
  datatype Zone = Zone(origin: Name, order: seq<Name>, types: map<Name, set<RRType>>) {

    ghost predicate Indexed() {
      forall i :: 0 <= i < |order| ==> order[i] in types
    }

    ghost predicate Valid() {
      && Indexed()
      && Ascending(order)
      && (forall n :: n in order <==> n in types)
      && origin in order && SOA in types[origin]
    }

    predicate Active(n: Name)
      requires n in types
    {
      HoldsData(types[n])
    }

    predicate Delegation(n: Name)
      requires n in types
    {
      n != origin && NS in types[n]
    }

    predicate Cut(n: Name)
      requires n in types
    {
      Delegation(n) || DNAME in types[n]
    }

    /** Strictly below a delegation or DNAME of the zone. */
    ghost predicate Occluded(n: Name) {
      exists c :: c in types && c <= n && c != n && origin <= c && Cut(c)
    }

    /** The names that own an NSEC record (section 2.3 of RFC 4035). */
    ghost predicate InChain(n: Name) {
      n in types && Active(n) && origin <= n && !Occluded(n)
    }

    ghost function ChainSet(): (s: set<Name>)
      ensures forall n :: n in s <==> InChain(n)
    {
      set n | n in types && InChain(n)
    }
  }

  ghost predicate Ascending(s: seq<Name>) {
    forall i, j {:trigger Before(s[i], s[j])} :: 0 <= i < j < |s| ==> Before(s[i], s[j])
  }

  ghost predicate Distinct(s: seq<Name>) {
    forall i, j :: 0 <= i < j < |s| ==> s[i] != s[j]
  }

  lemma AscendingDistinct(s: seq<Name>)
    requires Ascending(s)
    ensures Distinct(s)
  {
    forall i, j | 0 <= i < j < |s|
      ensures s[i] != s[j]
    {
      BeforeTotal(s[i], s[j]);
    }
  }

  predicate Covered(cut: Option<Name>, n: Name) {
    cut.Some? && cut.value <= n
  }

  /** The one zone cut remembered after the first `i` nodes have been walked. */
  ghost function CutAfter(z: Zone, i: nat): (cut: Option<Name>)
    requires z.Indexed() && i <= |z.order|
  {
    if i == 0 then None
    else
      var n, cut := z.order[i - 1], CutAfter(z, i - 1);
      if z.origin <= n && !Covered(cut, n) && z.Cut(n) then Some(n) else cut
  }

  ghost predicate CutAmong(z: Zone, i: nat, c: nat)
    requires z.Indexed() && i <= |z.order|
  {
    c < i && z.origin <= z.order[c] && z.Cut(z.order[c])
  }

  lemma {:induction false} CutAfterIsCut(z: Zone, i: nat) returns (c: nat)
    requires z.Indexed() && i <= |z.order| && CutAfter(z, i).Some?
    ensures CutAmong(z, i, c) && z.order[c] == CutAfter(z, i).value
  {
    var n := z.order[i - 1];
    if z.origin <= n && !Covered(CutAfter(z, i - 1), n) && z.Cut(n) {
      c := i - 1;
    } else {
      c := CutAfterIsCut(z, i - 1);
    }
  }

  /** If the remembered cut covers a later node, it covers everything in between. */
  lemma CutReaches(z: Zone, i: nat, j: nat)
    requires z.Valid() && i < j < |z.order| && Covered(CutAfter(z, i), z.order[j])
    ensures Covered(CutAfter(z, i), z.order[i])
  {
    var d := CutAfterIsCut(z, i);
    assert Before(z.order[d], z.order[i]) && Before(z.order[i], z.order[j]);
    SubtreeContiguous(z.order[d], z.order[d], z.order[i], z.order[j]);
  }

  /** Remembering one cut is enough: it covers an unvisited node exactly when some visited
      cut does, because the names below a cut follow it without a gap. */
  lemma {:induction false} OneCutSuffices(z: Zone, i: nat, j: nat)
    requires z.Valid() && i <= j < |z.order|
    ensures Covered(CutAfter(z, i), z.order[j]) <==>
            exists c: nat :: CutAmong(z, i, c) && z.order[c] <= z.order[j]
  {
    if Covered(CutAfter(z, i), z.order[j]) {
      var c := CutAfterIsCut(z, i);
    }
    forall c: nat | CutAmong(z, i, c) && z.order[c] <= z.order[j]
      ensures Covered(CutAfter(z, i), z.order[j])
    {
      VisitedCutCovers(z, i, j, c);
    }
  }

  lemma {:induction false} VisitedCutCovers(z: Zone, i: nat, j: nat, c: nat)
    requires z.Valid() && i <= j < |z.order|
    requires CutAmong(z, i, c) && z.order[c] <= z.order[j]
    ensures Covered(CutAfter(z, i), z.order[j])
  {
    var n, cut := z.order[i - 1], CutAfter(z, i - 1);
    if c < i - 1 {
      VisitedCutCovers(z, i - 1, j, c);
      CutReaches(z, i - 1, j);
      assert CutAfter(z, i) == cut;
    } else if Covered(cut, n) {
      assert cut.value <= n <= z.order[j];
      assert CutAfter(z, i) == cut;
    } else {
      assert CutAfter(z, i) == Some(n);
    }
  }

  /** A node's existing proper ancestors are visited before it. */
  lemma AncestorVisited(z: Zone, j: nat, k: nat)
    requires z.Valid() && j < |z.order| && k < |z.order|
    ensures z.order[k] <= z.order[j] && k != j <==> z.order[k] <= z.order[j] && k < j
    ensures z.order[k] == z.order[j] <==> k == j
  {
    if z.order[k] <= z.order[j] && z.order[k] != z.order[j] {
      AncestorBefore(z.order[k], z.order[j]);
    }
    BeforeTotal(z.order[k], z.order[j]);
    BeforeTotal(z.order[j], z.order[k]);
    assert k < j ==> Before(z.order[k], z.order[j]);
    assert j < k ==> Before(z.order[j], z.order[k]);
  }

  lemma OccludedIsCovered(z: Zone, j: nat)
    requires z.Valid() && j < |z.order|
    ensures z.Occluded(z.order[j]) <==> Covered(CutAfter(z, j), z.order[j])
  {
    var n := z.order[j];
    if z.Occluded(n) {
      var c :| c in z.types && c <= n && c != n && z.origin <= c && z.Cut(c);
      assert c in z.order;
      var k: nat :| k < |z.order| && z.order[k] == c;
      AncestorVisited(z, j, k);
      VisitedCutCovers(z, j, j, k);
    }
    if Covered(CutAfter(z, j), n) {
      var c := CutAfterIsCut(z, j);
      AncestorVisited(z, j, c);
      assert z.order[c] in z.types;
    }
  }

  /** `s` holds the nodes a walk keeps: active, in the zone, and not below the remembered cut. */
  ghost predicate Walked(z: Zone, s: set<Name>)
    requires z.Indexed()
  {
    forall j: nat {:trigger WalkedAt(z, s, j)} :: j < |z.order| ==> WalkedAt(z, s, j)
  }

  ghost predicate WalkedAt(z: Zone, s: set<Name>, j: nat)
    requires z.Indexed() && j < |z.order|
  {
    z.order[j] in s <==>
    z.Active(z.order[j]) && z.origin <= z.order[j] && !Covered(CutAfter(z, j), z.order[j])
  }

  lemma ChainIsWalked(z: Zone)
    requires z.Valid()
    ensures Walked(z, z.ChainSet())
  {
    forall j: nat | j < |z.order|
      ensures WalkedAt(z, z.ChainSet(), j)
    {
      OccludedIsCovered(z, j);
    }
  }

  lemma InactiveIsNoCut(z: Zone, n: Name)
    requires n in z.types && !z.Active(n)
    ensures !z.Cut(n)
  {
    assert !NS.NSEC? && !NS.NSEC3? && !NS.RRSIG?;
  }

  /** Nodes before the origin are out of the zone, and the origin is in it. */
  lemma BeforeOrigin(z: Zone, o: nat, i: nat)
    requires z.Valid() && o < |z.order| && z.order[o] == z.origin && i < |z.order|
    ensures i < o ==> !(z.origin <= z.order[i])
    ensures Before(z.order[i], z.origin) <==> i < o
  {
    AncestorVisited(z, i, o);
    BeforeTotal(z.order[i], z.origin);
    BeforeTotal(z.origin, z.order[i]);
    assert i < o ==> Before(z.order[i], z.order[o]);
    assert o < i ==> Before(z.order[o], z.order[i]);
  }

  /** The members of `s` among the first `i` elements of `order`, in order. */
  ghost function Select(order: seq<Name>, s: set<Name>, i: nat): (r: seq<Name>)
    requires i <= |order|
  {
    if i == 0 then []
    else Select(order, s, i - 1) + (if order[i - 1] in s then [order[i - 1]] else [])
  }

  lemma {:induction false} SelectMembers(order: seq<Name>, s: set<Name>, i: nat)
    requires i <= |order|
    ensures forall n :: n in Select(order, s, i) <==> n in order[..i] && n in s
  {
    if i > 0 {
      SelectMembers(order, s, i - 1);
      assert order[..i] == order[..i - 1] + [order[i - 1]];
    }
  }

  lemma {:induction false} SelectAscending(order: seq<Name>, s: set<Name>, i: nat)
    requires i <= |order| && Ascending(order)
    ensures Ascending(Select(order, s, i))
  {
    if i > 0 {
      SelectAscending(order, s, i - 1);
      SelectMembers(order, s, i - 1);
      var r := Select(order, s, i - 1);
      forall n | n in r
        ensures Before(n, order[i - 1])
      {
        var m :| 0 <= m < i - 1 && order[m] == n;
        assert Before(order[m], order[i - 1]);
      }
      AscendingAppend(r, order[i - 1]);
    }
  }

  lemma AscendingAppend(r: seq<Name>, n: Name)
    requires Ascending(r) && forall m :: m in r ==> Before(m, n)
    ensures Ascending(r + [n])
  {
    var all := r + [n];
    forall i, j | 0 <= i < j < |all|
      ensures Before(all[i], all[j])
    {
      assert all[i] == r[i] && all[i] in r;
    }
  }

  /** The first position from `i` on that holds a member of `s`, or the end. */
  ghost function NextIndex(order: seq<Name>, s: set<Name>, i: nat): (j: nat)
    requires i <= |order|
    ensures i <= j <= |order|
    ensures forall k :: i <= k < j ==> order[k] !in s
    ensures j < |order| ==> order[j] in s
    decreases |order| - i
  {
    if i < |order| && order[i] !in s then NextIndex(order, s, i + 1) else i
  }

  lemma OriginInChain(z: Zone)
    requires z.Valid()
    ensures z.InChain(z.origin)
  {
    assert !SOA.NSEC? && !SOA.NSEC3? && !SOA.RRSIG?;
  }

  /** The DS sets once the delegations of `s` among the first `i` nodes have been refreshed
      from the files found for them, when DS generation is on. */
  ghost function DsAfter(z: Zone, files: Option<set<Name>>, s: set<Name>, ds0: set<Name>, i: nat): (r: set<Name>)
    requires z.Indexed() && i <= |z.order|
  {
    if i == 0 then ds0
    else
      var n, d := z.order[i - 1], DsAfter(z, files, s, ds0, i - 1);
      if files.Some? && n in s && z.Delegation(n)
      then (if n in files.value then d + {n} else d - {n}) else d
  }

  lemma {:induction false} DsAfterAt(z: Zone, files: Option<set<Name>>, s: set<Name>, ds0: set<Name>, i: nat, n: Name)
    requires z.Indexed() && i <= |z.order|
    ensures n in DsAfter(z, files, s, ds0, i) <==>
            if files.Some? && n in z.order[..i] && n in s && z.Delegation(n) then n in files.value else n in ds0
  {
    if i > 0 {
      DsAfterAt(z, files, s, ds0, i - 1, n);
      assert z.order[..i] == z.order[..i - 1] + [z.order[i - 1]];
    }
  }

  lemma {:induction false} DsSkips(z: Zone, files: Option<set<Name>>, s: set<Name>, ds0: set<Name>, i: nat, j: nat)
    requires z.Indexed() && i <= j <= |z.order|
    requires forall k :: i <= k < j ==> z.order[k] !in s
    ensures DsAfter(z, files, s, ds0, j) == DsAfter(z, files, s, ds0, i)
  {
    if i < j {
      DsSkips(z, files, s, ds0, i, j - 1);
    }
  }

  /** A node by its place in the order; the origin stands after the last. */
  ghost function At(z: Zone, j: nat): (n: Name)
  {
    if j < |z.order| then z.order[j] else z.origin
  }
}
