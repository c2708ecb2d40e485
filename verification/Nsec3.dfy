/** The two-pass NSEC3 walk of dnssec-signzone. */
module Nsec3 {
  import opened Names
  import opened Zones
  import opened Sorting
  import opened HashLists
  import opened Spans

  const WILDCARD: Label := [42]

  /** Whether a delegation ends up with a DS set. */
  predicate Secured(files: Option<set<Name>>, ds: set<Name>, n: Name) {
    if files.Some? then n in files.value else n in ds
  }

  /** The names that own an NSEC3 record by themselves: the chain of the zone, less the
      insecure delegations when opting out (section 7.1 of RFC 5155). */
  ghost function KeptSet(z: Zone, optout: bool, files: Option<set<Name>>, ds: set<Name>): (s: set<Name>)
    ensures forall n :: n in s <==> z.InChain(n) && !(optout && z.Delegation(n) && !Secured(files, ds, n))
  {
    set n | n in z.types && z.InChain(n) && !(optout && z.Delegation(n) && !Secured(files, ds, n))
  }

  /** `kept` is what is left of the walked set `s` after opting out. */
  ghost predicate OptedOut(z: Zone, optout: bool, files: Option<set<Name>>, ds: set<Name>,
                           s: set<Name>, kept: set<Name>)
    requires z.Indexed()
  {
    forall k: nat {:trigger OptedOutAt(z, optout, files, ds, s, kept, k)} :: k < |z.order| ==>
      OptedOutAt(z, optout, files, ds, s, kept, k)
  }

  ghost predicate OptedOutAt(z: Zone, optout: bool, files: Option<set<Name>>, ds: set<Name>,
                             s: set<Name>, kept: set<Name>, k: nat)
    requires z.Indexed() && k < |z.order|
  {
    z.order[k] in kept <==>
    z.order[k] in s && !(optout && z.Delegation(z.order[k]) && !Secured(files, ds, z.order[k]))
  }

  ghost function HashAll(hash: Name -> Octets, names: seq<Name>): (r: seq<Octets>)
    ensures |r| == |names| && forall i :: 0 <= i < |r| ==> r[i] == hash(names[i])
  {
    seq(|names|, i requires 0 <= i < |names| => hash(names[i]))
  }

  class Signer {
    const zone: Zone
    const optout: bool
    const files: Option<set<Name>>  // -g: the children a dsset- or keyset- file was found for
    const hash: Name -> Octets
    const hashLength: nat
    const list: HashList
    var ds: set<Name>  // the nodes with a DS set
    var nsec3: map<Octets, Octets>  // the next hash of each NSEC3 record, by owner hash

    ghost predicate Valid()
      reads list
    {
      && zone.Indexed() && Distinct(zone.order)
      && (forall n :: |hash(n)| == hashLength)
      && list.Valid() && list.length == hashLength + 1
    }

    constructor (zone: Zone, optout: bool, files: Option<set<Name>>, hash: Name -> Octets, hashLength: nat,
                 ds: set<Name>, nsec3: map<Octets, Octets>)
      requires zone.Indexed() && Distinct(zone.order) && forall n :: |hash(n)| == hashLength
      ensures Valid() && list.Contents() == []
      ensures this.zone == zone && this.optout == optout && this.files == files && this.hash == hash
      ensures this.ds == ds && this.nsec3 == nsec3
    {
      this.zone, this.optout, this.files, this.hash := zone, optout, files, hash;
      this.hashLength, this.ds, this.nsec3 := hashLength, ds, nsec3;
      list := new HashList(2 * |zone.order|, hashLength);
    }

    ghost function OwnerHashes(): (r: seq<Octets>)
      requires list.Valid()
      reads list
    {
      Owners(list.Contents(), list.entries)
    }

    /** Look at the node at position `j`: is it kept, and is it the new zone cut?  A delegation
        has its DS set refreshed from `f` first. */
    method Visit(j: nat, zonecut: Option<Name>, f: Option<set<Name>>,
                 ghost s: set<Name>, ghost kept: set<Name>, ghost ds0: set<Name>)
      returns (keep: bool, cut: Option<Name>)
      requires zone.Indexed() && Distinct(zone.order) && j < |zone.order|
      requires Walked(zone, s) && OptedOut(zone, optout, f, ds0, s, kept)
      requires zonecut == CutAfter(zone, j) && ds == DsAfter(zone, f, s, ds0, j)
      modifies this`ds
      ensures keep <==> zone.order[j] in kept
      ensures cut == CutAfter(zone, j + 1) && ds == DsAfter(zone, f, s, ds0, j + 1)
    {
      var nextname := zone.order[j];
      assert WalkedAt(zone, s, j) && OptedOutAt(zone, optout, f, ds0, s, kept, j);
      NotYetRefreshed(zone, f, s, ds0, j);
      cut := zonecut;
      if !HoldsData(zone.types[nextname]) {
        InactiveIsNoCut(zone, nextname);
        return false, cut;
      }
      if !(zone.origin <= nextname) || Covered(cut, nextname) {
        return false, cut;
      }
      if nextname != zone.origin && NS in zone.types[nextname] {
        cut := Some(nextname);
        if f.Some? {
          ds := if nextname in f.value then ds + {nextname} else ds - {nextname};
        }
        if optout && nextname !in ds {
          return false, cut;
        }
      } else if DNAME in zone.types[nextname] {
        cut := Some(nextname);
      }
      return true, cut;
    }

    /** Find the next name that is kept, starting after position `i`. */
    method NextKept(i: nat, zonecut: Option<Name>, f: Option<set<Name>>,
                    ghost s: set<Name>, ghost kept: set<Name>, ghost ds0: set<Name>)
      returns (j: nat, cut: Option<Name>)
      requires zone.Indexed() && Distinct(zone.order) && i < |zone.order|
      requires Walked(zone, s) && OptedOut(zone, optout, f, ds0, s, kept)
      requires zonecut == CutAfter(zone, i + 1) && ds == DsAfter(zone, f, s, ds0, i + 1)
      modifies this`ds
      ensures j == NextIndex(zone.order, kept, i + 1)
      ensures var done := if j < |zone.order| then j + 1 else j;
              cut == CutAfter(zone, done) && ds == DsAfter(zone, f, s, ds0, done)
    {
      cut := zonecut;
      j := i + 1;
      while j < |zone.order|
        invariant i < j <= |zone.order| && cut == CutAfter(zone, j)
        invariant ds == DsAfter(zone, f, s, ds0, j)
        invariant forall k :: i < k < j ==> zone.order[k] !in kept
      {
        var keep;
        keep, cut := Visit(j, cut, f, s, kept, ds0);
        if keep {
          break;
        }
        j := j + 1;
      }
    }

    /** The setting of a pass: the origin is the first kept node, after nodes out of the zone. */
    ghost predicate Setting(f: Option<set<Name>>, s: set<Name>, kept: set<Name>, ds0: set<Name>, o: nat)
      requires zone.Indexed()
    {
      && Walked(zone, s) && OptedOut(zone, optout, f, ds0, s, kept)
      && o < |zone.order| && zone.order[o] == zone.origin && zone.origin in kept
      && (forall i :: 0 <= i < o ==> !(zone.origin <= zone.order[i]) && zone.order[i] !in kept)
    }

    /** Where the walk is: at or before the origin nothing has been remembered; at a kept name
        the zone cut and the DS sets account for that name too. */
    ghost predicate Standing(f: Option<set<Name>>, s: set<Name>, kept: set<Name>, ds0: set<Name>,
                             o: nat, i: nat, zonecut: Option<Name>)
      requires zone.Indexed()
      reads this`ds
    {
      && i <= |zone.order|
      && (i <= o && i < |zone.order| ==>
            zonecut == CutAfter(zone, i) == None && ds == DsAfter(zone, f, s, ds0, i))
      && (o < i < |zone.order| ==>
            && zonecut == CutAfter(zone, i + 1) && ds == DsAfter(zone, f, s, ds0, i + 1)
            && zone.order[i] in kept)
      && (i == |zone.order| ==> ds == DsAfter(zone, f, s, ds0, i))
    }

    /** Nodes before the origin are out of the zone, later standing points are in it. */
    lemma AtNode(f: Option<set<Name>>, s: set<Name>, kept: set<Name>, ds0: set<Name>,
                 o: nat, i: nat, zonecut: Option<Name>)
      requires zone.Indexed() && Setting(f, s, kept, ds0, o)
      requires i < |zone.order| && Standing(f, s, kept, ds0, o, i, zonecut)
      ensures zone.origin <= zone.order[i] <==> o <= i
      ensures o <= i ==> zone.order[i] in kept
      ensures i < o ==> Standing(f, s, kept, ds0, o, i + 1, zonecut)
      ensures i < o ==> SpanList(zone, kept, i + 1) == SpanList(zone, kept, i)
    {
      assert WalkedAt(zone, s, i) && OptedOutAt(zone, optout, f, ds0, s, kept, i);
    }

    /** Go from a kept name to the next one; past the last one the next name is the origin. */
    method Advance(i: nat, zonecut: Option<Name>, f: Option<set<Name>>,
                   ghost s: set<Name>, ghost kept: set<Name>, ghost ds0: set<Name>, ghost o: nat)
      returns (j: nat, cut: Option<Name>, nextname: Name)
      requires zone.Indexed() && Distinct(zone.order) && Setting(f, s, kept, ds0, o)
      requires o <= i < |zone.order| && Standing(f, s, kept, ds0, o, i, zonecut)
      modifies this`ds
      ensures Standing(f, s, kept, ds0, o, j, cut)
      ensures i < j == NextIndex(zone.order, kept, i + 1) && nextname == At(zone, j)
    {
      var name := zone.order[i];
      assert WalkedAt(zone, s, i) && OptedOutAt(zone, optout, f, ds0, s, kept, i);
      cut := zonecut;
      if DNAME in zone.types[name] {
        cut := Some(name);
      }
      j, cut := NextKept(i, cut, f, s, kept, ds0);
      nextname := if j == |zone.order| then zone.origin else zone.order[j];
    }

    /** Hash one name into the list, as an owner. */
    method HashName(n: Name, ghost names: seq<Name>)
      requires Valid() && OwnerHashes() == HashAll(hash, names)
      modifies list
      ensures Valid() && OwnerHashes() == HashAll(hash, names + [n])
    {
      ghost var c := list.Contents();
      list.AddHash(hash(n), false);
      OwnersPrefix(c, list.Contents(), |c|);
      assert HashAll(hash, names + [n]) == HashAll(hash, names) + [hash(n)];
      assert HashOf(hash(n) + [0]) == hash(n);
    }

    /** Remember the hash of the wildcard below a name, unless the wildcard exists. */
    method HashNoWildcard(n: Name)
      requires Valid()
      modifies list
      ensures Valid() && OwnerHashes() == old(OwnerHashes())
    {
      if WireSize(n) + |WILDCARD| + 1 > MAX_WIRE {
        return;
      }
      var wild := n + [WILDCARD];
      if wild in zone.types {
        return;
      }
      ghost var c := list.Contents();
      list.AddHash(hash(wild), true);
      OwnersPrefix(c, list.Contents(), |c|);
    }

    /** Hash a name and the empty non-terminals between it and the next one. */
    method HashSpan(name: Name, next: Name, ghost names: seq<Name>)
      requires Valid() && OwnerHashes() == HashAll(hash, names)
      modifies list
      ensures Valid() && OwnerHashes() == HashAll(hash, names + Span(name, next))
    {
      HashName(name, names);
      var nlabels := Common(name, next);
      HashNoWildcard(name);
      var count := |next|;
      ghost var added := names + [name];
      while count > nlabels + 1
        invariant 0 <= count <= |next|
        invariant Valid() && OwnerHashes() == HashAll(hash, added)
        invariant added + Empties(next, nlabels, count) == names + Span(name, next)
      {
        NextEmpty(added, next, nlabels, count);
        count := count - 1;
        var ancestor := next[..count];
        HashName(ancestor, added);
        added := added + [ancestor];
        HashNoWildcard(ancestor);
      }
    }

    /** One turn of the first pass: skip a node out of the zone, or hash a kept name and the
        empty non-terminals before the next. */
    method HashStep(i: nat, zonecut: Option<Name>,
                    ghost s: set<Name>, ghost kept: set<Name>, ghost ds0: set<Name>, ghost o: nat)
      returns (j: nat, cut: Option<Name>)
      requires Valid() && Setting(files, s, kept, ds0, o)
      requires i < |zone.order| && Standing(files, s, kept, ds0, o, i, zonecut)
      requires OwnerHashes() == HashAll(hash, SpanList(zone, kept, i))
      modifies this`ds, list
      ensures Valid() && i < j <= |zone.order| && Standing(files, s, kept, ds0, o, j, cut)
      ensures OwnerHashes() == HashAll(hash, SpanList(zone, kept, j))
    {
      var name := zone.order[i];
      AtNode(files, s, kept, ds0, o, i, zonecut);
      if !(zone.origin <= name) {
        return i + 1, zonecut;
      }
      var nextname;
      j, cut, nextname := Advance(i, zonecut, files, s, kept, ds0, o);
      HashNode(i, j, nextname, kept);
    }

    method HashNode(i: nat, j: nat, nextname: Name, ghost kept: set<Name>)
      requires Valid() && i < |zone.order| && zone.order[i] in kept
      requires j == NextIndex(zone.order, kept, i + 1) && nextname == At(zone, j)
      requires OwnerHashes() == HashAll(hash, SpanList(zone, kept, i))
      modifies list
      ensures Valid() && OwnerHashes() == HashAll(hash, SpanList(zone, kept, j))
    {
      HashSpan(zone.order[i], nextname, SpanList(zone, kept, i));
      SpanListSkips(zone, kept, i + 1, j);
    }

    /** The first pass: hash every kept name and every empty non-terminal above one. */
    method HashPass(ghost s: set<Name>, ghost kept: set<Name>, ghost o: nat)
      requires Valid() && list.Contents() == [] && Setting(files, s, kept, ds, o)
      modifies this`ds, list
      ensures Valid() && OwnerHashes() == HashAll(hash, SpanList(zone, kept, |zone.order|))
      ensures ds == DsAfter(zone, files, s, old(ds), |zone.order|)
    {
      var zonecut: Option<Name> := None;
      var i := 0;
      while i < |zone.order|
        invariant Valid() && i <= |zone.order|
        invariant Standing(files, s, kept, old(ds), o, i, zonecut)
        invariant OwnerHashes() == HashAll(hash, SpanList(zone, kept, i))
      {
        i, zonecut := HashStep(i, zonecut, s, kept, old(ds), o);
      }
    }

    /** Drop the NSEC3 records whose owner is not in the list. */
    method Clean()
      requires Valid() && Sorted(list.Contents())
      modifies this`nsec3
      ensures forall h :: h in nsec3 <==> h in old(nsec3) && h + [0] in list.Contents()
    {
      var todo := nsec3.Keys;
      while todo != {}
        invariant todo <= old(nsec3).Keys
        invariant forall h :: h in nsec3 <==> h in old(nsec3) && (h in todo || h + [0] in list.Contents())
        decreases todo
      {
        var h :| h in todo;
        var found := list.Search(h + [0]);
        if found.None? {
          nsec3 := nsec3 - {h};
        }
        todo := todo - {h};
      }
    }

    /** The list is sorted and free of duplicates, with these owner hashes. */
    ghost predicate Ready(owners: seq<Octets>)
      reads list
    {
      Valid() && Sorted(list.Contents()) && owners == OwnerHashes() && StrictlyAscending(owners)
    }

    /** Write the NSEC3 record of one name, pointing at the next hash of the cycle. */
    method AddNsec3(n: Name, ghost owners: seq<Octets>)
      requires Ready(owners)
      requires hash(n) in owners
      modifies this`nsec3
      ensures nsec3 == old(nsec3)[hash(n) := Successor(owners, hash(n))]
    {
      var h := hash(n);
      OwnerEntry(list.Contents(), list.length, h);
      var next := list.FindNext(h);
      assert next.Some?;  // neither INSIST of the lookup can fail
      NextIsSuccessor(list.Contents(), list.length, owners, h, next.value);
      nsec3 := nsec3[h := next.value[..list.length - 1]];
    }

    /** Write the records of a name and of the empty non-terminals up to the next one. */
    method LinkSpan(name: Name, next: Name, ghost names: seq<Name>, ghost owners: seq<Octets>)
      requires Ready(owners)
      requires Owned(hash, owners, Span(name, next))
      requires Recorded(hash, owners, nsec3, names)
      modifies this`nsec3
      ensures Recorded(hash, owners, nsec3, names + Span(name, next))
    {
      LinkName(name, names, Empties(next, Common(name, next), |next|), owners);
      var nlabels := Common(name, next);
      var count := |next|;
      ghost var added := names + [name];
      while count > nlabels + 1
        invariant 0 <= count <= |next|
        invariant Recorded(hash, owners, nsec3, added)
        invariant added + Empties(next, nlabels, count) == names + Span(name, next)
        invariant Owned(hash, owners, Empties(next, nlabels, count))
      {
        NextEmpty(added, next, nlabels, count);
        count := count - 1;
        LinkName(next[..count], added, Empties(next, nlabels, count), owners);
        added := added + [next[..count]];
      }
    }

    /** Write the record of one name, when those of `more` are still to come. */
    method LinkName(n: Name, ghost names: seq<Name>, ghost more: seq<Name>, ghost owners: seq<Octets>)
      requires Ready(owners) && Owned(hash, owners, [n] + more) && Recorded(hash, owners, nsec3, names)
      modifies this`nsec3
      ensures Recorded(hash, owners, nsec3, names + [n]) && Owned(hash, owners, more)
    {
      OwnedConcat(hash, owners, [n], more);
      RecordedAppend(hash, owners, nsec3, names, n);
      AddNsec3(n, owners);
    }

    method LinkNode(i: nat, j: nat, nextname: Name, ghost kept: set<Name>, ghost owners: seq<Octets>)
      requires Ready(owners) && Owned(hash, owners, SpanList(zone, kept, |zone.order|))
      requires i < |zone.order| && zone.order[i] in kept
      requires j == NextIndex(zone.order, kept, i + 1) && nextname == At(zone, j)
      requires Recorded(hash, owners, nsec3, SpanList(zone, kept, i))
      modifies this`nsec3
      ensures Recorded(hash, owners, nsec3, SpanList(zone, kept, j))
    {
      OwnedSpan(zone, kept, hash, owners, i);
      LinkSpan(zone.order[i], nextname, SpanList(zone, kept, i), owners);
      SpanListSkips(zone, kept, i + 1, j);
    }

    method LinkStep(i: nat, zonecut: Option<Name>, ghost s: set<Name>, ghost kept: set<Name>,
                    ghost ds0: set<Name>, ghost o: nat, ghost owners: seq<Octets>)
      returns (j: nat, cut: Option<Name>)
      requires Ready(owners) && Setting(None, s, kept, ds0, o)
      requires Owned(hash, owners, SpanList(zone, kept, |zone.order|))
      requires i < |zone.order| && Standing(None, s, kept, ds0, o, i, zonecut)
      requires Recorded(hash, owners, nsec3, SpanList(zone, kept, i))
      modifies this`ds, this`nsec3
      ensures i < j <= |zone.order| && Standing(None, s, kept, ds0, o, j, cut)
      ensures Recorded(hash, owners, nsec3, SpanList(zone, kept, j))
    {
      var name := zone.order[i];
      AtNode(None, s, kept, ds0, o, i, zonecut);
      if !(zone.origin <= name) {
        return i + 1, zonecut;
      }
      var nextname;
      j, cut, nextname := Advance(i, zonecut, None, s, kept, ds0, o);
      LinkNode(i, j, nextname, kept, owners);
    }

    /** The second pass: walk the zone again and write a record for every name hashed before. */
    method LinkPass(ghost s: set<Name>, ghost kept: set<Name>, ghost o: nat, ghost owners: seq<Octets>)
      requires Ready(owners) && Setting(None, s, kept, ds, o)
      requires Owned(hash, owners, SpanList(zone, kept, |zone.order|))
      requires Recorded(hash, owners, nsec3, [])
      modifies this`ds, this`nsec3
      ensures Recorded(hash, owners, nsec3, SpanList(zone, kept, |zone.order|))
    {
      var zonecut: Option<Name> := None;
      var i := 0;
      while i < |zone.order|
        invariant i <= |zone.order|
        invariant Standing(None, s, kept, old(ds), o, i, zonecut)
        invariant Recorded(hash, owners, nsec3, SpanList(zone, kept, i))
      {
        i, zonecut := LinkStep(i, zonecut, s, kept, old(ds), o, owners);
      }
    }

    /** Generate the NSEC3 chain of the zone.  It fails exactly when two names to be hashed
        collide; otherwise the records form one closed cycle over the hashes of the kept names
        and of their ancestors down from the origin. */
    method Nsec3ify() returns (ok: bool, ghost owners: seq<Octets>)
      requires Valid() && zone.Valid() && list.Contents() == []
      modifies this`ds, this`nsec3, list
      ensures ok <==> CollisionFree(zone, KeptSet(zone, optout, files, old(ds)), hash)
      ensures ok ==> ClosedChain(zone, KeptSet(zone, optout, files, old(ds)), hash, nsec3, owners)
    {
      ghost var s := zone.ChainSet();
      ghost var kept := KeptSet(zone, optout, files, ds);
      ghost var ds0 := ds;
      ghost var o := Prepare(s, kept, ds);
      ghost var names := SpanList(zone, kept, |zone.order|);
      HashPass(s, kept, o);
      ghost var c := list.Contents();
      list.Sort();
      owners := OwnerHashes();
      OwnersPermuted(c, list.Contents(), list.length);
      SpansCollide(zone, kept, hash, o, names, owners);
      DuplicateOwners(list.Contents(), list.length);
      var dup := list.HasDup();
      if dup {
        return false, owners;
      }
      OwnersAscend(list.Contents(), list.length);
      Clean();
      OwnedAfterSort(hash, names, owners);
      SecondSetting(s, kept, ds0, o);
      forall h | h in nsec3
        ensures h in owners
      {
        OwnerEntry(list.Contents(), list.length, h);
      }
      LinkPass(s, kept, o, owners);
      ChainClosed(zone, kept, hash, o, names, owners, nsec3);
      return true, owners;
    }

    lemma Prepare(s: set<Name>, kept: set<Name>, ds0: set<Name>) returns (o: nat)
      requires zone.Valid() && s == zone.ChainSet() && kept == KeptSet(zone, optout, files, ds0)
      ensures Setting(files, s, kept, ds0, o) && Keeps(zone, kept, o)
    {
      o :| o < |zone.order| && zone.order[o] == zone.origin;
      ChainIsWalked(zone);
      OriginInChain(zone);
      forall k: nat | k < |zone.order|
        ensures OptedOutAt(zone, optout, files, ds0, s, kept, k)
        ensures k < o ==> !(zone.origin <= zone.order[k]) && zone.order[k] !in kept
        ensures zone.order[k] in kept ==> o <= k && zone.origin <= zone.order[k]
      {
        BeforeOrigin(zone, o, k);
      }
    }

    /** The second pass decides every opt-out as the first did, from the DS sets it left. */
    lemma SecondSetting(s: set<Name>, kept: set<Name>, ds0: set<Name>, o: nat)
      requires zone.Valid() && Setting(files, s, kept, ds0, o)
      ensures Setting(None, s, kept, DsAfter(zone, files, s, ds0, |zone.order|), o)
    {
      var ds1 := DsAfter(zone, files, s, ds0, |zone.order|);
      forall k: nat | k < |zone.order|
        ensures OptedOutAt(zone, optout, None, ds1, s, kept, k)
      {
        assert OptedOutAt(zone, optout, files, ds0, s, kept, k);
        DsAfterAt(zone, files, s, ds0, |zone.order|, zone.order[k]);
        assert zone.order[k] in zone.order[..|zone.order|];
      }
    }
  }

  /** No two names to be hashed have the same hash. */
  ghost predicate CollisionFree(z: Zone, kept: set<Name>, hash: Name -> Octets) {
    forall p, q :: Above(z, kept, p) && Above(z, kept, q) && hash(p) == hash(q) ==> p == q
  }

  /** The owner hashes ascend, are exactly the hashes of the names to be proved, and each
      record points at the next owner, the last at the first. */
  ghost predicate ClosedChain(z: Zone, kept: set<Name>, hash: Name -> Octets, nsec3: map<Octets, Octets>,
                              owners: seq<Octets>)
  {
    && owners != [] && StrictlyAscending(owners)
    && (forall p :: Above(z, kept, p) ==> hash(p) in owners)
    && (forall h :: h in owners ==> exists p :: Above(z, kept, p) && hash(p) == h)
    && (forall h :: h in nsec3 <==> h in owners)
    && (forall k: nat :: k < |owners| ==> nsec3[owners[k]] == NextInCycle(owners, k))
  }

  /** In the finished chain a hash has a record exactly if no record covers it, and otherwise
      exactly one does. */
  lemma RecordsCover(z: Zone, kept: set<Name>, hash: Name -> Octets, nsec3: map<Octets, Octets>, owners: seq<Octets>,
                     h: Octets)
    requires ClosedChain(z, kept, hash, nsec3, owners)
    ensures h in nsec3 <==> !exists o :: o in nsec3 && Covers(o, nsec3[o], h)
    ensures forall o, p :: o in nsec3 && p in nsec3 && Covers(o, nsec3[o], h) && Covers(p, nsec3[p], h) ==> o == p
  {
    ChainCoversEverything(owners, h);
    forall o | o in nsec3
      ensures exists k: nat :: k < |owners| && owners[k] == o && (Covers(o, nsec3[o], h) <==> CoveredAt(owners, k, h))
    {
      var k :| 0 <= k < |owners| && owners[k] == o;
      assert nsec3[owners[k]] == NextInCycle(owners, k);
    }
    if h !in owners {
      var k: nat :| CoveredAt(owners, k, h);
      assert owners[k] in nsec3 && Covers(owners[k], nsec3[owners[k]], h);
    }
  }

  /** One more empty non-terminal. */
  lemma NextEmpty(added: seq<Name>, next: Name, low: nat, count: nat)
    requires low + 1 < count <= |next|
    ensures Empties(next, low, count) == [next[..count - 1]] + Empties(next, low, count - 1)
    ensures added + Empties(next, low, count) == added + [next[..count - 1]] + Empties(next, low, count - 1)
  {
  }

  lemma {:induction false} OwnersCount(c: seq<Octets>, length: nat, i: nat, h: Octets)
    requires Entries(c, length) && length > 0 && i <= |c|
    ensures multiset(Owners(c, i))[h] == multiset(c[..i])[h + [0]]
  {
    if i > 0 {
      OwnersCount(c, length, i - 1, h);
      assert c[..i] == c[..i - 1] + [c[i - 1]];
      CountStep(c[..i - 1], c[i - 1], Owners(c, i - 1), h);
      assert Owners(c, i) == if Owner(c[i - 1]) then Owners(c, i - 1) + [HashOf(c[i - 1])] else Owners(c, i - 1);
    }
  }

  lemma CountStep(entries: seq<Octets>, e: Octets, owners: seq<Octets>, h: Octets)
    requires e != [] && multiset(owners)[h] == multiset(entries)[h + [0]]
    ensures multiset(if Owner(e) then owners + [HashOf(e)] else owners)[h] == multiset(entries + [e])[h + [0]]
  {
    OwnerOf(e, h);
    CountAppend(entries, e, h + [0]);
    if Owner(e) {
      CountAppend(owners, HashOf(e), h);
    }
  }

  lemma CountAppend(s: seq<Octets>, x: Octets, y: Octets)
    ensures multiset(s + [x])[y] == multiset(s)[y] + if x == y then 1 else 0
  {
  }

  lemma OwnerOf(e: Octets, h: Octets)
    requires e != []
    ensures e == h + [0] <==> Owner(e) && HashOf(e) == h
  {
  }

  lemma OwnersPermuted(c: seq<Octets>, d: seq<Octets>, length: nat)
    requires Entries(c, length) && Entries(d, length) && length > 0 && multiset(c) == multiset(d)
    ensures multiset(Owners(c, |c|)) == multiset(Owners(d, |d|))
  {
    forall h
      ensures multiset(Owners(c, |c|))[h] == multiset(Owners(d, |d|))[h]
    {
      OwnersCountAll(c, length, h);
      OwnersCountAll(d, length, h);
    }
  }

  lemma OwnersCountAll(c: seq<Octets>, length: nat, h: Octets)
    requires Entries(c, length) && length > 0
    ensures multiset(Owners(c, |c|))[h] == multiset(c)[h + [0]]
  {
    OwnersCount(c, length, |c|, h);
    assert c[..|c|] == c;
  }

  /** The list has two owners with one hash exactly when the owner hashes repeat. */
  lemma DuplicateOwners(c: seq<Octets>, length: nat)
    requires Entries(c, length) && length > 0
    ensures HasDuplicate(c) <==> exists k: nat, l: nat :: Repeats(Owners(c, |c|), k, l)
  {
    if HasDuplicate(c) {
      var i: nat, j: nat :| Duplicate(c, i, j);
      OwnersAt(c, i, j);
      OwnersAt(c, i, |c|);
      OwnersAt(c, j, |c|);
      assert Repeats(Owners(c, |c|), |Owners(c, i)|, |Owners(c, j)|);
    }
    if k: nat, l: nat :| Repeats(Owners(c, |c|), k, l) {
      var p := OwnersFrom(c, |c|, k);
      var q := OwnersFrom(c, |c|, l);
      if q <= p {
        OwnersGrow(c, q, p);
      }
      assert Duplicate(c, p, q);
    }
  }

  lemma {:induction false} OwnersGrow(c: seq<Octets>, i: nat, j: nat)
    requires i <= j <= |c| && forall k :: 0 <= k < j ==> c[k] != []
    ensures |Owners(c, i)| <= |Owners(c, j)|
  {
    if i < j {
      OwnersGrow(c, i, j - 1);
    }
  }

  /** The hashes of the span list repeat exactly when two names collide. */
  lemma SpansCollide(z: Zone, kept: set<Name>, hash: Name -> Octets, o: nat, names: seq<Name>, owners: seq<Octets>)
    requires Keeps(z, kept, o) && names == SpanList(z, kept, |z.order|)
    requires multiset(HashAll(hash, names)) == multiset(owners)
    ensures CollisionFree(z, kept, hash) <==> !exists k: nat, l: nat :: Repeats(owners, k, l)
  {
    var hashes := HashAll(hash, names);
    if k: nat, l: nat :| Repeats(owners, k, l) {
      RepeatsCount(owners, owners[k]);
      RepeatsCount(hashes, owners[k]);
      var i: nat, j: nat :| Repeats(hashes, i, j);
      RepeatCollides(z, kept, hash, o, names, i, j);
    }
    if p, q :| Above(z, kept, p) && Above(z, kept, q) && hash(p) == hash(q) && p != q {
      var i, j := CollisionRepeats(z, kept, hash, o, names, p, q);
      RepeatsCount(hashes, hash(p));
      RepeatsCount(owners, hash(p));
    }
  }

  lemma RepeatCollides(z: Zone, kept: set<Name>, hash: Name -> Octets, o: nat, names: seq<Name>, i: nat, j: nat)
    requires Keeps(z, kept, o) && names == SpanList(z, kept, |z.order|) && Repeats(HashAll(hash, names), i, j)
    ensures !CollisionFree(z, kept, hash)
  {
    SpanListDistinct(z, kept, o, |z.order|);
    assert names[i] in names && names[j] in names && names[i] != names[j];
    SpanListAll(z, kept, o, names[i]);
    SpanListAll(z, kept, o, names[j]);
  }

  lemma CollisionRepeats(z: Zone, kept: set<Name>, hash: Name -> Octets, o: nat, names: seq<Name>, p: Name, q: Name)
    returns (i: nat, j: nat)
    requires Keeps(z, kept, o) && names == SpanList(z, kept, |z.order|)
    requires Above(z, kept, p) && Above(z, kept, q) && hash(p) == hash(q) && p != q
    ensures Repeats(HashAll(hash, names), i, j) && HashAll(hash, names)[i] == hash(p)
  {
    SpanListAll(z, kept, o, p);
    SpanListAll(z, kept, o, q);
    var a: nat :| a < |names| && names[a] == p;
    var b: nat :| b < |names| && names[b] == q;
    i, j := if a < b then a else b, if a < b then b else a;
  }

  lemma OwnedAfterSort(hash: Name -> Octets, names: seq<Name>, owners: seq<Octets>)
    requires multiset(HashAll(hash, names)) == multiset(owners)
    ensures Owned(hash, owners, names)
  {
    forall k | 0 <= k < |names|
      ensures hash(names[k]) in owners
    {
      assert HashAll(hash, names)[k] in multiset(HashAll(hash, names));
      assert hash(names[k]) in multiset(owners);
    }
  }

  lemma ChainClosed(z: Zone, kept: set<Name>, hash: Name -> Octets, o: nat, names: seq<Name>,
                    owners: seq<Octets>, nsec3: map<Octets, Octets>)
    requires Keeps(z, kept, o) && names == SpanList(z, kept, |z.order|)
    requires multiset(HashAll(hash, names)) == multiset(owners) && StrictlyAscending(owners)
    requires Recorded(hash, owners, nsec3, names)
    ensures ClosedChain(z, kept, hash, nsec3, owners)
  {
    forall p | Above(z, kept, p)
      ensures hash(p) in owners
    {
      SpanListAll(z, kept, o, p);
      var i: nat :| i < |names| && names[i] == p;
      assert Points(owners, nsec3, hash(names[i]));
    }
    assert Above(z, kept, z.origin);
    forall k: nat | k < |owners|
      ensures owners[k] in nsec3 && nsec3[owners[k]] == NextInCycle(owners, k)
      ensures exists p :: Above(z, kept, p) && hash(p) == owners[k]
    {
      var p := OwnerPoints(z, kept, hash, o, names, owners, nsec3, k);
    }
  }

  lemma OwnerPoints(z: Zone, kept: set<Name>, hash: Name -> Octets, o: nat, names: seq<Name>,
                    owners: seq<Octets>, nsec3: map<Octets, Octets>, k: nat) returns (p: Name)
    requires Keeps(z, kept, o) && names == SpanList(z, kept, |z.order|)
    requires multiset(HashAll(hash, names)) == multiset(owners) && StrictlyAscending(owners)
    requires Recorded(hash, owners, nsec3, names) && k < |owners|
    ensures owners[k] in nsec3 && nsec3[owners[k]] == NextInCycle(owners, k)
    ensures Above(z, kept, p) && hash(p) == owners[k]
  {
    assert owners[k] in multiset(owners);
    assert owners[k] in HashAll(hash, names);
    var i: nat :| i < |names| && HashAll(hash, names)[i] == owners[k];
    p := names[i];
    SpanListAll(z, kept, o, p);
    assert Points(owners, nsec3, hash(names[i]));
    RankSplits(owners, owners[k], k);
  }

  /** The hash after `h` in the cycle of owner hashes. */
  /** The entry found after that of `h` holds the next hash of the cycle. */
  lemma NextIsSuccessor(c: seq<Octets>, length: nat, owners: seq<Octets>, h: Octets, e: Octets)
    requires Entries(c, length) && length > 0 && owners == Owners(c, |c|) && StrictlyAscending(owners) && e != []
    requires exists p: nat :: p < |c| && c[p] == h + [0] && Follows(c, p, e)
    ensures h in owners && HashOf(e) == Successor(owners, h) && |e| == length
  {
    var p: nat :| p < |c| && c[p] == h + [0] && Follows(c, p, e);
    assert Owner(c[p]) && HashOf(h + [0]) == h;
    var k := FollowsIsSuccessor(c, p, e);
    RankSplits(owners, h, k);
  }

  ghost function Successor(owners: seq<Octets>, h: Octets): (r: Octets)
    requires h in owners
  {
    if Rank(owners, h) < |owners| then NextInCycle(owners, Rank(owners, h)) else owners[0]
  }

  /** There is a record for each of `names`, pointing at the next hash of the cycle, and only
      owners have records. */
  ghost predicate Recorded(hash: Name -> Octets, owners: seq<Octets>, nsec3: map<Octets, Octets>,
                           names: seq<Name>)
  {
    && (forall k :: 0 <= k < |names| ==> Points(owners, nsec3, hash(names[k])))
    && (forall h :: h in nsec3 ==> h in owners)
  }

  ghost predicate Points(owners: seq<Octets>, nsec3: map<Octets, Octets>, h: Octets) {
    h in owners && h in nsec3 && nsec3[h] == Successor(owners, h)
  }

  lemma RecordedAppend(hash: Name -> Octets, owners: seq<Octets>, nsec3: map<Octets, Octets>,
                       names: seq<Name>, n: Name)
    requires Recorded(hash, owners, nsec3, names) && hash(n) in owners
    ensures Recorded(hash, owners, nsec3[hash(n) := Successor(owners, hash(n))], names + [n])
  {
  }

  /** The names all hash to owners of the list. */
  ghost predicate Owned(hash: Name -> Octets, owners: seq<Octets>, names: seq<Name>) {
    forall k :: 0 <= k < |names| ==> hash(names[k]) in owners
  }

  lemma OwnedConcat(hash: Name -> Octets, owners: seq<Octets>, a: seq<Name>, b: seq<Name>)
    requires Owned(hash, owners, a + b)
    ensures Owned(hash, owners, a) && Owned(hash, owners, b)
    ensures |a| == 1 ==> hash(a[0]) in owners
  {
    forall k | 0 <= k < |a|
      ensures hash(a[k]) in owners
    {
      assert (a + b)[k] == a[k];
    }
    forall k | 0 <= k < |b|
      ensures hash(b[k]) in owners
    {
      assert (a + b)[|a| + k] == b[k];
    }
  }

  lemma OwnedSpan(z: Zone, s: set<Name>, hash: Name -> Octets, owners: seq<Octets>, i: nat)
    requires i < |z.order| && z.order[i] in s && Owned(hash, owners, SpanList(z, s, |z.order|))
    ensures Owned(hash, owners, Span(z.order[i], At(z, NextIndex(z.order, s, i + 1))))
  {
    var a, all := SpanList(z, s, i + 1), SpanList(z, s, |z.order|);
    SpanListMonotone(z, s, i + 1, |z.order|);
    assert all == a + all[|a|..];
    OwnedConcat(hash, owners, a, all[|a|..]);
    OwnedConcat(hash, owners, SpanList(z, s, i), Span(z.order[i], At(z, NextIndex(z.order, s, i + 1))));
  }

  lemma {:induction false} SpanListMonotone(z: Zone, s: set<Name>, i: nat, j: nat)
    requires i <= j <= |z.order|
    ensures SpanList(z, s, i) <= SpanList(z, s, j)
  {
    if i < j {
      SpanListMonotone(z, s, i, j - 1);
    }
  }

  lemma {:induction false} OwnerEntry(c: seq<Octets>, length: nat, h: Octets)
    requires Entries(c, length) && length > 0
    ensures h in Owners(c, |c|) <==> h + [0] in c
  {
    if h in Owners(c, |c|) {
      var k: nat :| k < |Owners(c, |c|)| && Owners(c, |c|)[k] == h;
      var p := OwnersFrom(c, |c|, k);
      assert c[p] == HashOf(c[p]) + [0];
    }
    if h + [0] in c {
      var p: nat :| p < |c| && c[p] == h + [0];
      OwnersAt(c, p, |c|);
    }
  }

  lemma {:induction false} OwnersPrefix(c: seq<Octets>, d: seq<Octets>, i: nat)
    requires c <= d && i <= |c| && forall k :: 0 <= k < |d| ==> d[k] != []
    ensures Owners(c, i) == Owners(d, i)
  {
    if i > 0 {
      OwnersPrefix(c, d, i - 1);
    }
  }

  lemma NotYetRefreshed(z: Zone, files: Option<set<Name>>, s: set<Name>, ds0: set<Name>, j: nat)
    requires z.Indexed() && Distinct(z.order) && j < |z.order|
    ensures z.order[j] in DsAfter(z, files, s, ds0, j) <==> z.order[j] in ds0
  {
    DsAfterAt(z, files, s, ds0, j, z.order[j]);
  }
}
