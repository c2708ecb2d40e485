/** The NSEC walk of dnssec-signzone. */
module Nsec {
  import opened Names
  import opened Zones

  /** Each owner of `chain` points at the one after it, the last at `end`. */
  ghost predicate Linked(nsec: map<Name, Name>, chain: seq<Name>, end: Name) {
    forall k: nat :: k < |chain| ==> chain[k] in nsec && nsec[chain[k]] == After(chain, k, end)
  }

  function After(chain: seq<Name>, k: nat, end: Name): Name {
    if k + 1 < |chain| then chain[k + 1] else end
  }

  /** The zone being signed.  The walk changes nothing of the loaded data but the NSEC records
      and the DS sets of delegations, so those two are the mutable part. */
  class Database {
    const zone: Zone
    const files: Option<set<Name>>  // -g: the children a dsset- or keyset- file was found for
    var nsec: map<Name, Name>  // the "next" field of each NSEC record
    var ds: set<Name>  // the nodes with a DS set

    constructor (zone: Zone, files: Option<set<Name>>, nsec: map<Name, Name>, ds: set<Name>)
      ensures this.zone == zone && this.files == files && this.nsec == nsec && this.ds == ds
    {
      this.zone, this.files, this.nsec, this.ds := zone, files, nsec, ds;
    }

    /** Report whether a node is active, dropping a stale NSEC record if it is not. */
    method ActiveNode(n: Name) returns (active: bool)
      requires n in zone.types
      modifies this`nsec
      ensures active == zone.Active(n)
      ensures nsec == if active then old(nsec) else old(nsec) - {n}
    {
      active := HoldsData(zone.types[n]);
      if !active {
        nsec := nsec - {n};
      }
    }

    /** Replace the DS set of a delegation by what its file says, if there is one. */
    method AddDs(n: Name)
      requires files.Some?
      modifies this`ds
      ensures ds == if n in files.value then old(ds) + {n} else old(ds) - {n}
    {
      ds := ds - {n};
      if n in files.value {
        ds := ds + {n};
      }
    }

    /** From the owner at position `i`, find the next name of the chain, dropping the NSEC
        records of everything passed over. */
    method NextOwner(i: nat, zonecut: Option<Name>, ghost s: set<Name>) returns (j: nat)
      requires zone.Indexed() && Walked(zone, s)
      requires i < |zone.order| && zonecut == CutAfter(zone, i + 1)
      modifies this`nsec
      ensures j == NextIndex(zone.order, s, i + 1) && zonecut == CutAfter(zone, j)
      ensures nsec == Dropped(old(nsec), zone.order, i + 1, j)
    {
      j := i + 1;
      while j < |zone.order|
        invariant i < j <= |zone.order| && zonecut == CutAfter(zone, j)
        invariant forall k :: i < k < j ==> zone.order[k] !in s
        invariant nsec == Dropped(old(nsec), zone.order, i + 1, j)
      {
        var nextname := zone.order[j];
        assert WalkedAt(zone, s, j);
        var active := ActiveNode(nextname);
        if !active {
          InactiveIsNoCut(zone, nextname);
          j := j + 1;
          continue;
        }
        if !(zone.origin <= nextname) || Covered(zonecut, nextname) {
          nsec := nsec - {nextname};
          j := j + 1;
          continue;
        }
        break;
      }
    }

    /** At an owner: remember it if it is a cut, and refresh its DS set if it is a delegation. */
    method PassOwner(i: nat, zonecut: Option<Name>, ghost s: set<Name>, ghost ds0: set<Name>)
      returns (cut: Option<Name>)
      requires zone.Indexed() && Walked(zone, s) && i < |zone.order| && zone.order[i] in s
      requires zonecut == CutAfter(zone, i) && ds == DsAfter(zone, files, s, ds0, i)
      modifies this`ds
      ensures cut == CutAfter(zone, i + 1) && ds == DsAfter(zone, files, s, ds0, i + 1)
    {
      assert WalkedAt(zone, s, i);
      var name := zone.order[i];
      cut := zonecut;
      if name != zone.origin && NS in zone.types[name] {
        cut := Some(name);
        if files.Some? {
          AddDs(name);
        }
      } else if DNAME in zone.types[name] {
        cut := Some(name);
      }
    }

    /** The NSEC walk over a zone whose origin is at position `o`, everything before it being
        out of the zone. */
    method Walk(ghost s: set<Name>, ghost o: nat)
      requires zone.Indexed() && Walked(zone, s)
      requires Distinct(zone.order)
      requires o < |zone.order| && zone.order[o] == zone.origin && zone.origin in s
      requires forall i :: 0 <= i < o ==> !(zone.origin <= zone.order[i]) && zone.order[i] !in s
      modifies this
      ensures Built(zone, s, nsec, |zone.order|) && Kept(zone, s, nsec, old(nsec), o, |zone.order|)
      ensures ds == DsAfter(zone, files, s, old(ds), |zone.order|)
    {
      var zonecut: Option<Name> := None;
      var done := false;
      var i := 0;
      while !done
        invariant i <= |zone.order| && done == (i == |zone.order|)
        invariant zonecut == CutAfter(zone, i)
        invariant i <= o ==> nsec == old(nsec) && zonecut == None
        invariant i > o ==> Kept(zone, s, nsec, old(nsec), o, i)
        invariant Built(zone, s, nsec, i)
        invariant i > o ==> i < |zone.order| ==> zone.order[i] in s
        invariant ds == DsAfter(zone, files, s, old(ds), i)
        decreases |zone.order| - i
      {
        var name := zone.order[i];
        assert WalkedAt(zone, s, i);
        if !(zone.origin <= name) {
          i := i + 1;
          if i == |zone.order| {
            done := true;
          }
          continue;
        }
        zonecut := PassOwner(i, zonecut, s, old(ds));
        ghost var before := nsec;
        var j := NextOwner(i, zonecut, s);
        var nextname := zone.origin;
        if j == |zone.order| {
          done := true;
        } else {
          nextname := zone.order[j];
        }
        nsec := nsec[name := nextname];
        DsSkips(zone, files, s, old(ds), i + 1, j);
        LinkAdded(zone, s, before, nsec, old(nsec), o, i);
        i := j;
      }
    }

    /** Link the names of the zone into one NSEC chain.  Every active name of the zone that
        is not occluded points at the next such name and the last one at the origin; nothing
        at or after the origin keeps any other NSEC record.  With -g, the DS sets of the
        delegations in the chain are exactly those found in files. */
    method Nsecify()
      requires zone.Valid()
      modifies this
      ensures var chain := Select(zone.order, zone.ChainSet(), |zone.order|);
              chain != [] && chain[0] == zone.origin && Linked(nsec, chain, zone.origin)
      ensures forall n :: n in zone.types ==>
                (n in nsec <==> zone.InChain(n) || (Before(n, zone.origin) && n in old(nsec)))
      ensures forall n :: n in ds <==>
                if files.Some? && zone.InChain(n) && zone.Delegation(n) then n in files.value else n in old(ds)
    {
      ghost var s := zone.ChainSet();
      ghost var o: nat :| o < |zone.order| && zone.order[o] == zone.origin;
      ChainIsWalked(zone);
      OriginInChain(zone);
      AscendingDistinct(zone.order);
      forall i | 0 <= i < o
        ensures !(zone.origin <= zone.order[i])
      {
        BeforeOrigin(zone, o, i);
      }
      Walk(s, o);
      ChainLinked(zone, s, nsec, |zone.order|);
      SelectFirst(zone.order, s, o, |zone.order|);
      KeptAll(zone, s, nsec, old(nsec), o);
      forall n
        ensures n in ds <==>
                if files.Some? && zone.InChain(n) && zone.Delegation(n) then n in files.value else n in old(ds)
      {
        DsAfterAt(zone, files, s, old(ds), |zone.order|, n);
      }
    }
  }

  /** Every member of `s` among the first `i` nodes points at the next member, or the origin. */
  ghost predicate Built(z: Zone, s: set<Name>, nsec: map<Name, Name>, i: nat)
    requires i <= |z.order|
  {
    forall k: nat {:trigger Points(z, s, nsec, k)} :: k < i && z.order[k] in s ==> Points(z, s, nsec, k)
  }

  ghost predicate Points(z: Zone, s: set<Name>, nsec: map<Name, Name>, k: nat)
    requires k < |z.order|
  {
    z.order[k] in nsec && nsec[z.order[k]] == At(z, NextIndex(z.order, s, k + 1))
  }

  /** Among the first `i` nodes, only members of `s` and leftovers before the origin own one. */
  ghost predicate Kept(z: Zone, s: set<Name>, nsec: map<Name, Name>, nsec0: map<Name, Name>, o: nat, i: nat)
    requires i <= |z.order|
  {
    forall k :: 0 <= k < i ==>
      (z.order[k] in nsec <==> z.order[k] in s || (k < o && z.order[k] in nsec0))
  }

  lemma LinkAdded(z: Zone, s: set<Name>, before: map<Name, Name>, after: map<Name, Name>,
                  nsec0: map<Name, Name>, o: nat, i: nat)
    requires o <= i < |z.order| && z.order[o] == z.origin && z.order[i] in s && Distinct(z.order)
    requires forall k :: 0 <= k < o ==> z.order[k] !in s
    requires i == o ==> before == nsec0
    requires i > o ==> Kept(z, s, before, nsec0, o, i)
    requires Built(z, s, before, i)
    requires var j := NextIndex(z.order, s, i + 1);
             after == Dropped(before, z.order, i + 1, j)[z.order[i] := At(z, j)]
    ensures var j := NextIndex(z.order, s, i + 1);
            Built(z, s, after, j) && Kept(z, s, after, nsec0, o, j)
  {
    var j := NextIndex(z.order, s, i + 1);
    forall k: nat | k < j
      ensures z.order[k] in after <==> z.order[k] in s || (k < o && z.order[k] in nsec0)
      ensures z.order[k] in s ==> Points(z, s, after, k)
    {
      DroppedAt(before, z.order, i + 1, j, k);
      assert k < i && z.order[k] in s ==> Points(z, s, before, k);
    }
  }

  /** `nsec` without the records of the nodes from position `i` to `j`. */
  ghost function Dropped(nsec: map<Name, Name>, order: seq<Name>, i: nat, j: nat): (r: map<Name, Name>)
    requires i <= j <= |order|
  {
    if i == j then nsec else Dropped(nsec, order, i, j - 1) - {order[j - 1]}
  }

  lemma {:induction false} DroppedAt(nsec: map<Name, Name>, order: seq<Name>, i: nat, j: nat, k: nat)
    requires Distinct(order) && i <= j <= |order| && k < |order|
    ensures var r := Dropped(nsec, order, i, j);
            if i <= k < j then order[k] !in r
            else (order[k] in r <==> order[k] in nsec) && (order[k] in r ==> r[order[k]] == nsec[order[k]])
  {
    if i < j {
      DroppedAt(nsec, order, i, j - 1, k);
    }
  }

  lemma LinkedAppend(nsec: map<Name, Name>, chain: seq<Name>, n: Name)
    requires Linked(nsec, chain, n) && n in nsec
    ensures Linked(nsec, chain + [n], nsec[n])
  {
    var c := chain + [n];
    forall k: nat | k < |c|
      ensures c[k] in nsec && nsec[c[k]] == After(c, k, nsec[n])
    {
      assert k < |chain| ==> c[k] == chain[k];
    }
  }

  /** Pointing at the next member of the set is the same as being linked in sequence. */
  lemma {:induction false} ChainLinked(z: Zone, s: set<Name>, nsec: map<Name, Name>, i: nat)
    requires i <= |z.order| && Built(z, s, nsec, |z.order|)
    ensures Linked(nsec, Select(z.order, s, i), At(z, NextIndex(z.order, s, i)))
  {
    if i > 0 {
      ChainLinked(z, s, nsec, i - 1);
      var c := Select(z.order, s, i - 1);
      assert z.order[i - 1] in s ==> Points(z, s, nsec, i - 1);
      if z.order[i - 1] in s {
        LinkedAppend(nsec, c, z.order[i - 1]);
      } else {
        assert Select(z.order, s, i) == c;
      }
    }
  }

  lemma {:induction false} SelectFirst(order: seq<Name>, s: set<Name>, o: nat, i: nat)
    requires o < |order| && i <= |order| && order[o] in s
    requires forall k :: 0 <= k < o ==> order[k] !in s
    ensures var chain := Select(order, s, i);
            if i <= o then chain == [] else chain != [] && chain[0] == order[o]
  {
    if i > 0 {
      SelectFirst(order, s, o, i - 1);
    }
  }

  lemma KeptAll(z: Zone, s: set<Name>, nsec: map<Name, Name>, nsec0: map<Name, Name>, o: nat)
    requires z.Valid() && o < |z.order| && z.order[o] == z.origin
    requires Kept(z, s, nsec, nsec0, o, |z.order|)
    ensures forall n :: n in z.types ==>
              (n in nsec <==> n in s || (Before(n, z.origin) && n in nsec0))
  {
    forall n | n in z.types
      ensures n in nsec <==> n in s || (Before(n, z.origin) && n in nsec0)
    {
      assert n in z.order;
      var k: nat :| k < |z.order| && z.order[k] == n;
      BeforeOrigin(z, o, k);
    }
  }

  /** The names that `Nsecify` links: exactly the active names of the zone that lie below no
      delegation or DNAME, in canonical order, so that each one points at its successor. */
  lemma ChainNames(z: Zone)
    requires z.Valid()
    ensures var chain := Select(z.order, z.ChainSet(), |z.order|);
            Ascending(chain) && forall n :: n in chain <==> z.InChain(n)
  {
    SelectMembers(z.order, z.ChainSet(), |z.order|);
    SelectAscending(z.order, z.ChainSet(), |z.order|);
    assert z.order[..|z.order|] == z.order;
    assert forall n :: z.InChain(n) ==> n in z.order;
  }

  /** A zone b with a node a before it, out of the zone, that has an NSEC record left over. */
  const STALE: Name := [[97]]
  const STALE_ZONE: Zone := Zone([[98]], [[[97]], [[98]]], map[[[97]] := {Data(1)}, [[98]] := {SOA}])

  lemma StaleZone()
    ensures STALE_ZONE.Valid() && Before(STALE, STALE_ZONE.origin) && !STALE_ZONE.InChain(STALE)
  {
    var a: Octets, b: Octets := [97], [98];
    CommonIs(a, b, 0);
    CommonIs([a], [b], 0);
    assert Precedes(a, b) && Before([a], [b]);
    assert STALE_ZONE.order[0] == [a] && STALE_ZONE.order[1] == [b];
    assert [b][0] != [a][0];
  }

  /** Its record is still there after the walk. */
  method StaleNsecStays() returns (nsec: map<Name, Name>)
    ensures STALE in nsec && !STALE_ZONE.InChain(STALE)
  {
    StaleZone();
    var db := new Database(STALE_ZONE, None, map[STALE := STALE], {});
    db.Nsecify();
    assert STALE in STALE_ZONE.types;
    nsec := db.nsec;
  }
}
