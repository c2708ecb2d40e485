/** Making the new DS set from CDS or CDNSKEY records (dnssec-cds), for the digest types chosen
on the command line (dnssectool). */
module NewDs {
  import opened Names
  import opened DsSets

  const SLOTS := 8

  const DS_BUFFERSIZE := 52

  const UINT32 := 0x1_0000_0000

  ghost predicate StrictlyUp(s: seq<Octet>) {
    forall i, j :: 0 <= i < j < |s| ==> s[i] < s[j]
  }

  /** Sorting octets by insertion, the model of qsort. */
  function InsertOctet(s: seq<Octet>, x: Octet): (r: seq<Octet>)
    ensures |r| == |s| + 1 && forall y :: y in r <==> y in s || y == x
  {
    if s == [] || x <= s[0] then [x] + s
    else
      assert s == [s[0]] + s[1..];
      [s[0]] + InsertOctet(s[1..], x)
  }

  function SortOctets(s: seq<Octet>): (r: seq<Octet>)
    ensures |r| == |s| && forall y :: y in r <==> y in s
  {
    if s == [] then []
    else
      assert s == [s[0]] + s[1..];
      InsertOctet(SortOctets(s[1..]), s[0])
  }

  lemma {:induction false} InsertKeepsOrder(s: seq<Octet>, x: Octet)
    requires StrictlyUp(s) && x !in s
    ensures StrictlyUp(InsertOctet(s, x))
  {
    if s != [] && s[0] < x {
      InsertKeepsOrder(s[1..], x);
      var t := InsertOctet(s[1..], x);
      forall k | 0 <= k < |t|
        ensures s[0] < t[k]
      {
        assert t[k] in t;
      }
    } else if s != [] {
      assert s[0] in s;
    }
  }

  lemma {:induction false} SortOrders(s: seq<Octet>)
    requires forall i, j :: 0 <= i < j < |s| ==> s[i] != s[j]
    ensures StrictlyUp(SortOctets(s))
  {
    if s != [] {
      SortOrders(s[1..]);
      InsertKeepsOrder(SortOctets(s[1..]), s[0]);
    }
  }

  /** The part of the table before the first zero. */
  function Chosen(table: seq<Octet>): (r: seq<Octet>)
    ensures r <= table && 0 !in r
    ensures |r| == |table| || table[|r|] == 0
  {
    if table == [] || table[0] == 0 then [] else [table[0]] + Chosen(table[1..])
  }

  /** The table of digest types, zero-terminated and sorted. */
  class DigestTypes {
    var dtype: seq<Octet>

    ghost predicate Valid()
      reads this
    {
      TableOk(dtype)
    }

    constructor ()
      ensures Valid() && Chosen(dtype) == []
    {
      dtype := seq(SLOTS, _ => 0);
    }

    /** Add a digest type unless it is there already; false is the fatal error of a full table. */
    method AddDtype(dt: Octet) returns (ok: bool)
      requires Valid()
      modifies this
      ensures Valid()
      ensures ok <==> dt in old(Chosen(dtype)) || |old(Chosen(dtype))| < SLOTS - 1
      ensures !ok || dt == 0 ==> dtype == old(dtype)
      ensures ok && dt != 0 ==> forall x :: x in Chosen(dtype) <==> x in old(Chosen(dtype)) || x == dt
    {
      var n := SLOTS - 1;
      var i := 0;
      while i < n
        invariant dtype == old(dtype) && |dtype| == SLOTS
        invariant 0 <= i <= n && forall k :: 0 <= k < i ==> dtype[k] != dt && dtype[k] != 0
      {
        if dtype[i] == dt {
          AlreadyThere(dtype, i, dt);
          return true;
        }
        if dtype[i] == 0 {
          Insertion(dtype, i, dt);
          dtype := SortOctets(dtype[..i] + [dt]) + dtype[i + 1..];
          return true;
        }
        i := i + 1;
      }
      TableFull(dtype, dt);
      return false;
    }
  }

  /** Slots without a zero before them are used. */
  lemma SlotsUsed(table: seq<Octet>, i: nat)
    requires TableOk(table) && i < SLOTS && forall k :: 0 <= k < i ==> table[k] != 0
    ensures i <= |Chosen(table)| && Chosen(table)[..i] == table[..i]
  {
    var c := Chosen(table);
    assert table[|c|] == 0;
  }

  lemma AlreadyThere(table: seq<Octet>, i: nat, dt: Octet)
    requires TableOk(table) && i < SLOTS - 1 && table[i] == dt && forall k :: 0 <= k < i ==> table[k] != 0
    ensures dt != 0 ==> dt in Chosen(table)
    ensures dt == 0 ==> |Chosen(table)| < SLOTS - 1
  {
    var c := Chosen(table);
    SlotsUsed(table, i);
    if i < |c| {
      assert c[i] == table[i] && c[i] in c;
    }
  }

  lemma TableFull(table: seq<Octet>, dt: Octet)
    requires TableOk(table) && forall k :: 0 <= k < SLOTS - 1 ==> table[k] != dt && table[k] != 0
    ensures |Chosen(table)| == SLOTS - 1 && dt !in Chosen(table)
  {
    var c := Chosen(table);
    SlotsUsed(table, SLOTS - 1);
    assert c == table[..SLOTS - 1];
  }

  ghost predicate TableOk(table: seq<Octet>) {
    && |table| == SLOTS && |Chosen(table)| < SLOTS && StrictlyUp(Chosen(table))
    && forall k :: |Chosen(table)| <= k < SLOTS ==> table[k] == 0
  }

  /** A type put in the first free slot and sorted in. */
  lemma Insertion(table: seq<Octet>, i: nat, dt: Octet)
    requires TableOk(table) && i < SLOTS - 1 && table[i] == 0 && dt != 0
    requires forall k :: 0 <= k < i ==> table[k] != dt && table[k] != 0
    ensures |Chosen(table)| < SLOTS - 1 && dt !in Chosen(table)
    ensures var after := SortOctets(table[..i] + [dt]) + table[i + 1..];
            TableOk(after) && forall x :: x in Chosen(after) <==> x in Chosen(table) || x == dt
  {
    var c := Chosen(table);
    SlotsUsed(table, i);
    assert forall k :: 0 <= k < |c| ==> c[k] == table[k] && c[k] in c;
    assert c == table[..i];
    var sorted := SortOctets(c + [dt]);
    DistinctAppend(c, dt);
    SortOrders(c + [dt]);
    ChosenIs(sorted + table[i + 1..], sorted);
  }

  lemma DistinctAppend(c: seq<Octet>, x: Octet)
    requires StrictlyUp(c) && x !in c
    ensures forall i, j :: 0 <= i < j < |c + [x]| ==> (c + [x])[i] != (c + [x])[j]
  {
  }

  lemma {:induction false} ChosenIs(table: seq<Octet>, c: seq<Octet>)
    requires c <= table && 0 !in c && (|c| < |table| ==> table[|c|] == 0)
    ensures Chosen(table) == c
  {
    if c != [] {
      assert c == [c[0]] + c[1..];
      ChosenIs(table[1..], c[1..]);
    }
  }

  datatype KeyRecord = KeyRecord(alg: Octet, rdata: Octets)

  /** Key tags and digests of keys; a digest type may be unsupported. */
  datatype Digester = Digester(tag: KeyRecord -> Tag, digest: (KeyRecord, Octet) -> Option<Octets>)

  /** The DS record of a key, if its digest can be computed. */
  function DsOfKey(g: Digester, key: KeyRecord, dt: Octet): (r: Option<Ds>)
  {
    var h := g.digest(key, dt);
    if h.None? then None else Some(Ds(g.tag(key), key.alg, dt, h.value))
  }

  /** A record of the child's CDS or CDNSKEY set. */
  datatype Child = Cds(ds: Ds) | Cdnskey(key: KeyRecord)

  /** What one child record gives for one digest type: a DS record, nothing, or an error. */
  datatype Made = Good(ds: Ds) | Ignored | Bad

  function Make(g: Digester, dt: Octet, child: Child): Made {
    match child
    case Cds(ds) => if ds.dtype != dt then Ignored else Good(ds)
    case Cdnskey(key) => var d := DsOfKey(g, key, dt); if d.None? then Bad else Good(d.value)
  }

  /** The buffer space that takes. */
  function SpaceFor(dt: Octet, child: Child): nat {
    match child
    case Cds(ds) => if ds.dtype != dt then 0 else |Rdata(ds)|
    case Cdnskey(_) => DS_BUFFERSIZE
  }

  /** The records made for one digest type, in the order of the source; None is a fatal error. */
  function MadeFor(g: Digester, dt: Octet, source: seq<Child>): (r: Option<seq<Ds>>)
  {
    if source == [] then Some([])
    else
      var init := MadeFor(g, dt, source[..|source| - 1]);
      var m := Make(g, dt, source[|source| - 1]);
      if init.None? || m.Bad? then None
      else if m.Ignored? then init
      else Some(init.value + [m.ds])
  }

  function SpaceForAll(dt: Octet, source: seq<Child>): nat {
    if source == [] then 0 else SpaceForAll(dt, source[..|source| - 1]) + SpaceFor(dt, source[|source| - 1])
  }

  /** The new set: for each digest type in turn, the records made for it. */
  function NewSet(g: Digester, dtypes: seq<Octet>, source: seq<Child>): (r: Option<seq<Ds>>)
  {
    if dtypes == [] then Some([])
    else
      var init := NewSet(g, dtypes[..|dtypes| - 1], source);
      var more := MadeFor(g, dtypes[|dtypes| - 1], source);
      if init.None? || more.None? then None else Some(init.value + more.value)
  }

  function SpaceNeeded(dtypes: seq<Octet>, source: seq<Child>): nat {
    if dtypes == [] then 0
    else SpaceNeeded(dtypes[..|dtypes| - 1], source) + SpaceForAll(dtypes[|dtypes| - 1], source)
  }

  datatype Progress = Done(list: seq<Ds>, used: nat) | NoSpace | Fatal

  lemma {:induction false} SpacePrefix(dt: Octet, source: seq<Child>, i: nat)
    requires i <= |source|
    ensures SpaceForAll(dt, source[..i]) <= SpaceForAll(dt, source)
    ensures i < |source| ==> SpaceForAll(dt, source[..i]) + SpaceFor(dt, source[i]) <= SpaceForAll(dt, source)
  {
    if i < |source| {
      var init := source[..|source| - 1];
      if i < |init| {
        SpacePrefix(dt, init, i);
        assert init[..i] == source[..i];
      }
    } else {
      assert source[..i] == source;
    }
  }

  lemma {:induction false} BadStays(g: Digester, dt: Octet, source: seq<Child>, i: nat)
    requires i <= |source| && MadeFor(g, dt, source[..i]).None?
    ensures MadeFor(g, dt, source).None?
  {
    if i < |source| {
      var init := source[..|source| - 1];
      assert init[..i] == source[..i];
      BadStays(g, dt, init, i);
    } else {
      assert source[..i] == source;
    }
  }

  /** Append the records of one digest type to a list kept in a buffer of `size` octets. */
  method AppendNewDsSet(g: Digester, list: seq<Ds>, used: nat, size: nat, dt: Octet, source: seq<Child>)
    returns (r: Progress)
    requires used <= size
    ensures r.Fatal? ==> MadeFor(g, dt, source).None?
    ensures r.NoSpace? ==> size < used + SpaceForAll(dt, source)
    ensures r.Done? ==>
              && MadeFor(g, dt, source).Some? && r.list == list + MadeFor(g, dt, source).value
              && r.used == used + SpaceForAll(dt, source) <= size
  {
    var out, u := list, used;
    var i := 0;
    assert source[..0] == [];
    while i < |source|
      invariant i <= |source| && MadeFor(g, dt, source[..i]).Some?
      invariant out == list + MadeFor(g, dt, source[..i]).value
      invariant u == used + SpaceForAll(dt, source[..i]) <= size
    {
      assert source[..i + 1][..i] == source[..i];
      SpacePrefix(dt, source, i);
      var child := source[i];
      match child {
        case Cds(ds) =>
          if ds.dtype == dt {
            if size - u < |Rdata(ds)| {
              return NoSpace;
            }
            out, u := out + [ds], u + |Rdata(ds)|;
          }
        case Cdnskey(key) =>
          if size - u < DS_BUFFERSIZE {
            return NoSpace;
          }
          var d := DsOfKey(g, key, dt);
          if d.None? {
            BadStays(g, dt, source, i + 1);
            return Fatal;
          }
          out, u := out + [d.value], u + DS_BUFFERSIZE;
      }
      i := i + 1;
    }
    assert source[..|source|] == source;
    return Done(out, u);
  }

  lemma {:induction false} FatalStays(g: Digester, dtypes: seq<Octet>, source: seq<Child>, i: nat)
    requires i <= |dtypes| && NewSet(g, dtypes[..i], source).None?
    ensures NewSet(g, dtypes, source).None?
  {
    if i < |dtypes| {
      assert dtypes[..|dtypes| - 1][..i] == dtypes[..i];
      FatalStays(g, dtypes[..|dtypes| - 1], source, i);
    } else {
      assert dtypes[..i] == dtypes;
    }
  }

  lemma {:induction false} NeededPrefix(dtypes: seq<Octet>, source: seq<Child>, i: nat)
    requires i <= |dtypes|
    ensures SpaceNeeded(dtypes[..i], source) <= SpaceNeeded(dtypes, source)
  {
    if i < |dtypes| {
      assert dtypes[..|dtypes| - 1][..i] == dtypes[..i];
      NeededPrefix(dtypes[..|dtypes| - 1], source, i);
    } else {
      assert dtypes[..i] == dtypes;
    }
  }

  /** The records of the first `i` digest types have been made. */
  ghost predicate MadeSoFar(g: Digester, chosen: seq<Octet>, i: nat, source: seq<Child>, size: nat, r: Progress)
    requires i <= |chosen|
  {
    && r.Done? && r.used == SpaceNeeded(chosen[..i], source) <= size
    && NewSet(g, chosen[..i], source) == Some(r.list)
  }

  lemma NextType(g: Digester, chosen: seq<Octet>, i: nat, source: seq<Child>)
    requires i < |chosen|
    ensures SpaceNeeded(chosen[..i + 1], source) == SpaceNeeded(chosen[..i], source) + SpaceForAll(chosen[i], source)
    ensures var init, more := NewSet(g, chosen[..i], source), MadeFor(g, chosen[i], source);
            NewSet(g, chosen[..i + 1], source) ==
            if init.None? || more.None? then None else Some(init.value + more.value)
  {
    assert chosen[..i + 1][..i] == chosen[..i];
  }

  /** One attempt with a buffer of `size` octets. */
  method TryNewDsSet(g: Digester, table: seq<Octet>, source: seq<Child>, size: nat) returns (r: Progress)
    ensures r.Fatal? ==> NewSet(g, Chosen(table), source).None?
    ensures r.NoSpace? ==> size < SpaceNeeded(Chosen(table), source)
    ensures r.Done? ==> NewSet(g, Chosen(table), source) == Some(r.list)
  {
    ghost var chosen := Chosen(table);
    assert chosen[..0] == [];
    r := Done([], 0);
    var i := 0;
    while i < |table| && table[i] != 0
      invariant i <= |chosen| && MadeSoFar(g, chosen, i, source, size, r)
    {
      assert i < |chosen| && chosen[i] == table[i];
      NextType(g, chosen, i, source);
      NeededPrefix(chosen, source, i + 1);
      r := AppendNewDsSet(g, r.list, r.used, size, table[i], source);
      if r.Fatal? {
        FatalStays(g, chosen, source, i + 1);
        return;
      }
      if r.NoSpace? {
        return;
      }
      i := i + 1;
    }
    assert i == |chosen| && chosen[..i] == chosen;
  }

  /** Make the new DS set, doubling the buffer until it is large enough.  The result does not
      depend on the size started with.  The size is a 32-bit number; it cannot wrap around as
      long as the set needs no more than half of its range. */
  method MakeNewDsSet(g: Digester, table: seq<Octet>, source: seq<Child>, start: nat) returns (r: Option<seq<Ds>>)
    requires 0 < start < UINT32 && 2 * SpaceNeeded(Chosen(table), source) <= UINT32
    ensures r == NewSet(g, Chosen(table), source)
  {
    var size := start;
    while true
      invariant 0 < size < UINT32
      decreases SpaceNeeded(Chosen(table), source) - size
    {
      var attempt := TryNewDsSet(g, table, source, size);
      match attempt {
        case Done(list, _) => return Some(list);
        case Fatal => return None;
        case NoSpace => size := (size * 2) % UINT32;
      }
    }
  }

  /** The size of the buffer in attempt `n`, counting from 0. */
  function SizeAt(n: nat): nat {
    if n == 0 then 16 else SizeAt(n - 1) * 2 % UINT32
  }

  function Power(n: nat): nat {
    if n == 0 then 1 else 2 * Power(n - 1)
  }

  /** How often 16 can be doubled. */
  lemma Doublings() returns (k: nat)
    ensures 16 * Power(k) == UINT32 / 2
  {
    assert Power(2) == 4 && Power(4) == 16;
    assert Power(6) == 64 && Power(8) == 256;
    assert Power(10) == 1024 && Power(12) == 4096;
    assert Power(14) == 16384 && Power(16) == 65536;
    assert Power(18) == 262144 && Power(20) == 1048576;
    assert Power(22) == 4194304 && Power(24) == 16777216;
    assert Power(26) == 67108864;
    k := 27;
  }

  lemma NoWrap(s: nat, p: nat)
    requires p > 0 && s * (2 * p) == UINT32 / 2
    ensures s * 2 % UINT32 == s * 2 <= UINT32 / 2 && (s * 2) * p == UINT32 / 2
  {
    assert s * (2 * p) == (s * 2) * p;
    assert s * 2 <= (s * 2) * p;
  }

  lemma {:induction false} PowerPositive(k: nat)
    ensures Power(k) > 0
  {
    if k > 0 {
      PowerPositive(k - 1);
    }
  }

  /** As long as doublings are left, the size times what they would give is half the range. */
  lemma {:induction false} SizeTimes(n: nat, k: nat)
    requires 16 * Power(n + k) == UINT32 / 2
    ensures SizeAt(n) * Power(k) == UINT32 / 2 && SizeAt(n) <= UINT32 / 2
  {
    PowerPositive(k);
    if n > 0 {
      SizeTimes(n - 1, k + 1);
      assert Power(k + 1) == 2 * Power(k);
      NoWrap(SizeAt(n - 1), Power(k));
    }
  }

  lemma {:induction false} SizeVanishes(n: nat, k: nat)
    requires 16 * Power(k) == UINT32 / 2 && n > k
    ensures SizeAt(n) == 0
  {
    if n == k + 1 {
      SizeTimes(k, 0);
      assert SizeAt(n) == SizeAt(k) * 2 % UINT32;
    } else {
      SizeVanishes(n - 1, k);
    }
  }

  lemma SizeBounded(n: nat, k: nat)
    requires 16 * Power(k) == UINT32 / 2
    ensures SizeAt(n) <= UINT32 / 2
  {
    if n <= k {
      SizeTimes(n, k - n);
    } else {
      SizeVanishes(n, k);
    }
  }

  /** The bound is exact: some attempt has a buffer of the needed size if and only if the size
      can be doubled without wrapping around; otherwise the doubling ends at 0. */
  lemma DoublingReaches(need: nat)
    ensures (exists n: nat :: SizeAt(n) >= need) <==> 2 * need <= UINT32
  {
    var k := Doublings();
    SizeTimes(k, 0);
    assert SizeAt(k) == UINT32 / 2;
    forall n: nat
      ensures SizeAt(n) <= UINT32 / 2
    {
      SizeBounded(n, k);
    }
  }
}
