/** DS record sets as dnssec-cds sees them: do all keys have the same digest types?

The check sorts the records, which brings those of one key together, and compares blocks the
size of the first key's group.
*/
module DsSets {
  import opened Names
  import opened Sorting

  type Tag = x: int | 0 <= x < 65536

  datatype Ds = Ds(tag: Tag, alg: Octet, dtype: Octet, digest: Octets) {
    /** The key a record is about, as one number that sorts like tag and algorithm. */
    function Key(): int {
      tag * 256 + alg
    }
  }

  function Rdata(d: Ds): (r: Octets)
  {
    [d.tag / 256, d.tag % 256, d.alg, d.dtype] + d.digest
  }

  function FromRdata(r: Octets): (d: Ds)
    requires |r| >= 4
  {
    var hi: int := r[0];
    Ds(hi * 256 + r[1], r[2], r[3], r[4..])
  }

  lemma RdataRoundTrip(d: Ds)
    ensures FromRdata(Rdata(d)) == d
  {
    assert Rdata(d)[4..] == d.digest;
  }

  /** Sorting rdata as octet strings orders records by key and then by digest type. */
  lemma RdataOrder(a: Ds, b: Ds)
    requires AtMost(Rdata(a), Rdata(b))
    ensures a.Key() < b.Key() || (a.Key() == b.Key() && a.dtype <= b.dtype)
  {
    var x, y := Rdata(a), Rdata(b);
    assert x[0] == a.tag / 256 && x[1] == a.tag % 256 && x[2] == a.alg && x[3] == a.dtype;
    assert y[0] == b.tag / 256 && y[1] == b.tag % 256 && y[2] == b.alg && y[3] == b.dtype;
    if x != y {
      var k := Common(x, y);
      Agree(x, y, k);
      if k == 0 {
        assert a.tag / 256 < b.tag / 256;
      } else if k == 1 {
        assert a.tag < b.tag;
      }
    }
  }

  function RdataAll(ds: seq<Ds>): (r: seq<Octets>)
    ensures |r| == |ds| && forall i :: 0 <= i < |r| ==> r[i] == Rdata(ds[i])
  {
    seq(|ds|, i requires 0 <= i < |ds| => Rdata(ds[i]))
  }

  /** No two records for the same key and digest type. */
  ghost predicate Unique(ds: seq<Ds>) {
    forall i, j :: 0 <= i < j < |ds| ==> !(ds[i].Key() == ds[j].Key() && ds[i].dtype == ds[j].dtype)
  }

  /** By key, and by digest type within a key. */
  ghost predicate InOrder(s: seq<Ds>) {
    forall i: nat, j: nat {:trigger Earlier(s, i, j)} :: i < j < |s| ==> Earlier(s, i, j)
  }

  ghost predicate Earlier(s: seq<Ds>, i: nat, j: nat)
    requires i < |s| && j < |s|
  {
    s[i].Key() < s[j].Key() || (s[i].Key() == s[j].Key() && s[i].dtype < s[j].dtype)
  }

  /** The records of a set sorted by their rdata. */
  function SortRecords(ds: seq<Ds>): (s: seq<Ds>)
  {
    var arr := SortEntries(RdataAll(ds));
    seq(|arr|, i requires 0 <= i < |arr| => if |arr[i]| < 4 then Ds(0, 0, 0, []) else FromRdata(arr[i]))
  }

  /** Sorting keeps the records and, if none is repeated, groups them by key with the digest
      types ascending. */
  lemma SortRecordsOrders(ds: seq<Ds>)
    ensures var s := SortRecords(ds);
            |s| == |ds| && (forall x :: x in s <==> x in ds) && (Unique(ds) ==> InOrder(s))
  {
    var arr, s := SortEntries(RdataAll(ds)), SortRecords(ds);
    var raw := RdataAll(ds);
    SortEntriesSorted(raw);
    assert |arr| == |multiset(arr)| == |multiset(raw)| == |ds|;
    forall i | 0 <= i < |arr|
      ensures |arr[i]| >= 4 && exists k :: 0 <= k < |ds| && arr[i] == Rdata(ds[k])
    {
      assert arr[i] in multiset(arr);
      assert arr[i] in raw;
      var k :| 0 <= k < |raw| && raw[k] == arr[i];
      assert arr[i] == Rdata(ds[k]);
    }
    SortedSame(ds, arr, s);
    if Unique(ds) {
      SortedInOrder(ds, arr, s);
    }
  }

  lemma SortedSame(ds: seq<Ds>, arr: seq<Octets>, s: seq<Ds>)
    requires multiset(arr) == multiset(RdataAll(ds)) && |s| == |arr|
    requires forall i :: 0 <= i < |arr| ==> exists k :: 0 <= k < |ds| && arr[i] == Rdata(ds[k])
    requires forall i :: 0 <= i < |arr| ==> |arr[i]| >= 4 && s[i] == FromRdata(arr[i])
    ensures forall x :: x in s <==> x in ds
    ensures forall i :: 0 <= i < |s| ==> Rdata(s[i]) == arr[i]
  {
    forall i | 0 <= i < |s|
      ensures s[i] in ds && Rdata(s[i]) == arr[i]
    {
      var k :| 0 <= k < |ds| && arr[i] == Rdata(ds[k]);
      RdataRoundTrip(ds[k]);
    }
    forall x | x in ds
      ensures x in s
    {
      var k :| 0 <= k < |ds| && ds[k] == x;
      assert RdataAll(ds)[k] in multiset(RdataAll(ds));
      assert Rdata(x) in multiset(arr);
      var i :| 0 <= i < |arr| && arr[i] == Rdata(x);
      RdataRoundTrip(x);
      assert s[i] == x;
    }
  }

  lemma SortedInOrder(ds: seq<Ds>, arr: seq<Octets>, s: seq<Ds>)
    requires multiset(arr) == multiset(RdataAll(ds)) && |s| == |arr| && Sorted(arr) && Unique(ds)
    requires forall i :: 0 <= i < |s| ==> Rdata(s[i]) == arr[i]
    requires forall x :: x in s <==> x in ds
    ensures InOrder(s)
  {
    forall i: nat, j: nat | i < j < |s|
      ensures Earlier(s, i, j)
    {
      assert AtMost(arr[i], arr[j]);
      RdataOrder(s[i], s[j]);
      NoTwins(ds, arr, s, i, j);
    }
  }

  lemma NoTwins(ds: seq<Ds>, arr: seq<Octets>, s: seq<Ds>, i: nat, j: nat)
    requires multiset(arr) == multiset(RdataAll(ds)) && |s| == |arr| && Unique(ds) && i < j < |s|
    requires forall k :: 0 <= k < |s| ==> Rdata(s[k]) == arr[k]
    requires forall x :: x in s <==> x in ds
    ensures !(s[i].Key() == s[j].Key() && s[i].dtype == s[j].dtype)
  {
    assert s[i] in ds && s[j] in ds;
    if s[i] == s[j] {
      var raw := RdataAll(ds);
      assert Repeats(arr, i, j);
      RepeatsCount(arr, arr[i]);
      RepeatsCount(raw, arr[i]);
      var k: nat, l: nat :| Repeats(raw, k, l) && raw[k] == arr[i];
      RdataRoundTrip(ds[k]);
      RdataRoundTrip(ds[l]);
    } else {
      var k :| 0 <= k < |ds| && ds[k] == s[i];
      var l :| 0 <= l < |ds| && ds[l] == s[j];
      assert k < l || l < k;
    }
  }

  /** Where the records of the key at position `i` end. */
  function GroupEnd(s: seq<Ds>, i: nat): (e: nat)
    requires i < |s|
    ensures i < e <= |s|
    ensures forall k :: i <= k < e ==> s[k].Key() == s[i].Key()
    ensures e < |s| ==> s[e].Key() != s[i].Key()
    decreases |s| - i
  {
    if i + 1 < |s| && s[i + 1].Key() == s[i].Key() then GroupEnd(s, i + 1) else i + 1
  }

  /** The `d` records from position `i` belong to one key and have the digest types of the
      first `d`, as far as there are records. */
  ghost predicate BlockMatches(s: seq<Ds>, d: nat, i: nat)
    requires d <= |s|
  {
    forall j: nat {:trigger RecordMatches(s, i, j)} :: j < d && i + j < |s| ==> RecordMatches(s, i, j)
  }

  ghost predicate RecordMatches(s: seq<Ds>, i: nat, j: nat)
    requires i + j < |s|
  {
    s[i + j].Key() == s[i].Key() && s[i + j].dtype == s[j].dtype
  }

  ghost predicate BlocksMatch(s: seq<Ds>, d: nat, i: nat)
    requires 0 < d <= |s|
    decreases |s| - i
  {
    i >= |s| || (BlockMatches(s, d, i) && BlocksMatch(s, d, i + d))
  }

  /** The check of the source: blocks the size of the first group. */
  method CheckBlocks(s: seq<Ds>) returns (same: bool)
    requires s != []
    ensures same <==> BlocksMatch(s, GroupEnd(s, 0), GroupEnd(s, 0))
  {
    var n := |s|;
    var keyTag, algorithm := s[0].tag, s[0].alg;
    var d, i := 0, 0;
    while i < n && s[i].tag == keyTag && s[i].alg == algorithm
      invariant 0 <= i <= n && d == i && forall k :: 0 <= k < i ==> s[k].Key() == s[0].Key()
    {
      i, d := i + 1, d + 1;
    }
    FirstGroupIs(s, d);
    ghost var all := BlocksMatch(s, d, d);
    same := true;
    while i < n
      invariant i >= d && (all <==> same && BlocksMatch(s, d, i))
      decreases n - i
    {
      var block := CheckBlock(s, d, i);
      same := same && block;
      i := i + d;
    }
  }

  /** The inner loop: one block. */
  method CheckBlock(s: seq<Ds>, d: nat, i: nat) returns (same: bool)
    requires 0 < d <= |s| && i < |s|
    ensures same <==> BlockMatches(s, d, i)
  {
    var keyTag, algorithm := s[i].tag, s[i].alg;
    same := true;
    var j := 0;
    while j < d && i + j < |s|
      invariant j <= d
      invariant same <==>
                forall k: nat {:trigger RecordMatches(s, i, k)} :: k < j && i + k < |s| ==> RecordMatches(s, i, k)
    {
      assert RecordMatches(s, i, j) <==>
             s[i + j].tag == keyTag && s[i + j].alg == algorithm && s[i + j].dtype == s[j].dtype;
      if s[i + j].tag != keyTag || s[i + j].alg != algorithm || s[i + j].dtype != s[j].dtype {
        same := false;
      }
      j := j + 1;
    }
  }

  lemma FirstGroupIs(s: seq<Ds>, d: nat)
    requires 0 < d <= |s| && (forall k :: 0 <= k < d ==> s[k].Key() == s[0].Key())
    requires d < |s| ==> s[d].tag != s[0].tag || s[d].alg != s[0].alg
    ensures GroupEnd(s, 0) == d
  {
  }

  /** The sorted records match the first group block by block. */
  ghost predicate Consistent(ds: seq<Ds>) {
    var s := SortRecords(ds);
    s != [] && BlocksMatch(s, GroupEnd(s, 0), GroupEnd(s, 0))
  }

  /** Whether the digest types of every key are the same, as far as the source finds out. */
  method ConsistentDigests(dsset: seq<Ds>) returns (ok: bool)
    requires dsset != []
    ensures ok <==> Consistent(dsset)
  {
    SortRecordsOrders(dsset);
    ok := CheckBlocks(SortRecords(dsset));
  }

  /** What that means for a set without repeats, in terms of the set itself. */
  lemma ConsistentMeans(ds: seq<Ds>)
    requires ds != [] && Unique(ds)
    ensures Consistent(ds) <==> AcceptedShape(ds)
  {
    SortRecordsOrders(ds);
    BlocksAreGroups(SortRecords(ds), ds);
  }

  ghost predicate HasType(ds: seq<Ds>, key: int, t: Octet) {
    exists i :: 0 <= i < |ds| && ds[i].Key() == key && ds[i].dtype == t
  }

  ghost predicate SameTypes(ds: seq<Ds>, a: int, b: int) {
    forall t: Octet :: HasType(ds, a, t) <==> HasType(ds, b, t)
  }

  /** The digest types of `b` are the smallest ones of `a`. */
  ghost predicate LowTypes(ds: seq<Ds>, a: int, b: int) {
    && (forall t: Octet :: HasType(ds, b, t) ==> HasType(ds, a, t))
    && (forall t: Octet, u: Octet :: HasType(ds, a, t) && HasType(ds, b, u) && t < u ==> HasType(ds, b, t))
  }

  ghost predicate LeastKey(ds: seq<Ds>, key: int) {
    (exists i :: 0 <= i < |ds| && ds[i].Key() == key) && forall i :: 0 <= i < |ds| ==> key <= ds[i].Key()
  }

  ghost predicate GreatestKey(ds: seq<Ds>, key: int) {
    (exists i :: 0 <= i < |ds| && ds[i].Key() == key) && forall i :: 0 <= i < |ds| ==> ds[i].Key() <= key
  }

  /** What the check accepts: every key but the greatest has the digest types of the least key;
      the greatest has a non-empty selection of the smallest of them. */
  ghost predicate AcceptedShape(ds: seq<Ds>) {
    forall first: int, last: int :: LeastKey(ds, first) && GreatestKey(ds, last) ==>
      && (forall i :: 0 <= i < |ds| && ds[i].Key() != last ==> SameTypes(ds, first, ds[i].Key()))
      && LowTypes(ds, first, last)
  }

  /** What the check is meant to accept: all keys have the same digest types. */
  ghost predicate Uniform(ds: seq<Ds>) {
    forall i, j :: 0 <= i < |ds| && 0 <= j < |ds| ==> SameTypes(ds, ds[i].Key(), ds[j].Key())
  }

  ghost predicate Ascends(a: seq<int>) {
    forall i: nat, j: nat {:trigger Below(a, i, j)} :: i < j < |a| ==> Below(a, i, j)
  }

  ghost predicate Below(a: seq<int>, i: nat, j: nat)
    requires i < |a| && j < |a|
  {
    a[i] < a[j]
  }

  ghost predicate Contains(a: seq<int>, x: int) {
    exists i: nat :: i < |a| && a[i] == x
  }

  /** `g` holds the smallest elements of `a`. */
  ghost predicate Smallest(a: seq<int>, g: seq<int>) {
    && (forall x :: Contains(g, x) ==> Contains(a, x))
    && (forall x, y :: Contains(a, x) && Contains(g, y) && x < y ==> Contains(g, x))
  }

  lemma Distinguish(a: seq<int>, i: nat, j: nat)
    requires Ascends(a) && i < |a| && j < |a|
    ensures a[i] < a[j] <==> i < j
  {
    assert i < j ==> Below(a, i, j);
    assert j < i ==> Below(a, j, i);
  }

  lemma NthAgrees(a: seq<int>, g: seq<int>, j: nat)
    requires Ascends(a) && Ascends(g) && Smallest(a, g) && j < |g|
    requires j <= |a| && forall k :: 0 <= k < j ==> g[k] == a[k]
    ensures j < |a| && g[j] == a[j]
  {
    assert Contains(g, g[j]) && Contains(a, g[j]);
    var k: nat :| k < |a| && a[k] == g[j];
    if k < j {
      Distinguish(g, k, j);
    } else if j < k {
      Distinguish(a, j, k);
      assert Contains(a, a[j]) && Contains(g, a[j]);
      var m: nat :| m < |g| && g[m] == a[j];
      Distinguish(g, m, j);
      Distinguish(a, m, j);
    }
  }

  /** In ascending order, the smallest elements are a prefix, and the other way round. */
  lemma SmallestArePrefix(a: seq<int>, g: seq<int>)
    requires Ascends(a) && Ascends(g)
    ensures Smallest(a, g) <==> |g| <= |a| && forall j :: 0 <= j < |g| ==> g[j] == a[j]
  {
    if Smallest(a, g) {
      var j := 0;
      while j < |g|
        invariant j <= |g| && j <= |a| && forall k :: 0 <= k < j ==> g[k] == a[k]
      {
        NthAgrees(a, g, j);
        j := j + 1;
      }
    }
    if |g| <= |a| && forall j :: 0 <= j < |g| ==> g[j] == a[j] {
      forall x, y | Contains(a, x) && Contains(g, y) && x < y
        ensures Contains(g, x)
      {
        var k: nat :| k < |a| && a[k] == x;
        var m: nat :| m < |g| && g[m] == y;
        Distinguish(a, k, m);
        assert g[k] == x;
      }
    }
  }

  /** The digest types of the records from `i` to `e`. */
  ghost function Types(s: seq<Ds>, i: nat, e: nat): (r: seq<int>)
    requires i <= e <= |s|
    ensures |r| == e - i && forall k :: 0 <= k < |r| ==> r[k] == s[i + k].dtype
  {
    seq(e - i, k requires 0 <= k < e - i => s[i + k].dtype)
  }

  ghost predicate GroupStart(s: seq<Ds>, i: nat) {
    i < |s| && (i == 0 || s[i - 1].Key() != s[i].Key())
  }

  /** All records of the key are in its group. */
  lemma GroupHolds(s: seq<Ds>, i: nat, k: nat)
    requires InOrder(s) && GroupStart(s, i) && k < |s|
    ensures s[k].Key() == s[i].Key() <==> i <= k < GroupEnd(s, i)
  {
    if k < i {
      BeforeGroup(s, i, k);
    } else if k >= GroupEnd(s, i) {
      AfterGroup(s, i, k);
    }
  }

  lemma BeforeGroup(s: seq<Ds>, i: nat, k: nat)
    requires InOrder(s) && GroupStart(s, i) && k < i
    ensures s[k].Key() < s[i].Key()
  {
    KeysAscend(s, k, i - 1);
    KeysAscend(s, i - 1, i);
  }

  lemma AfterGroup(s: seq<Ds>, i: nat, k: nat)
    requires InOrder(s) && i < |s| && GroupEnd(s, i) <= k < |s|
    ensures s[i].Key() < s[k].Key()
  {
    var e := GroupEnd(s, i);
    KeysAscend(s, i, e);
    KeysAscend(s, e, k);
  }

  lemma KeysAscend(s: seq<Ds>, i: nat, j: nat)
    requires InOrder(s) && i <= j < |s|
    ensures s[i].Key() <= s[j].Key()
  {
    assert i < j ==> Earlier(s, i, j);
  }

  lemma GroupTypes(s: seq<Ds>, i: nat, t: Octet)
    requires InOrder(s) && GroupStart(s, i)
    ensures HasType(s, s[i].Key(), t) <==> Contains(Types(s, i, GroupEnd(s, i)), t)
  {
    var e := GroupEnd(s, i);
    var r := Types(s, i, e);
    if HasType(s, s[i].Key(), t) {
      var k :| 0 <= k < |s| && s[k].Key() == s[i].Key() && s[k].dtype == t;
      GroupHolds(s, i, k);
      assert r[k - i] == t;
    }
    if Contains(r, t) {
      var k: nat :| k < |r| && r[k] == t;
      GroupHolds(s, i, i + k);
    }
  }

  lemma GroupAscends(s: seq<Ds>, i: nat)
    requires InOrder(s) && GroupStart(s, i)
    ensures Ascends(Types(s, i, GroupEnd(s, i)))
  {
    var r := Types(s, i, GroupEnd(s, i));
    forall k: nat, l: nat | k < l < |r|
      ensures Below(r, k, l)
    {
      assert Earlier(s, i + k, i + l);
      GroupHolds(s, i, i + k);
      GroupHolds(s, i, i + l);
    }
  }

  ghost predicate TypesPrefix(s: seq<Ds>, d: nat, i: nat, e: nat)
    requires d <= |s| && i <= e <= |s|
  {
    e - i <= d && forall j :: 0 <= j < e - i ==> Types(s, i, e)[j] == Types(s, 0, d)[j]
  }

  ghost predicate TypesEqual(s: seq<Ds>, d: nat, i: nat, e: nat)
    requires d <= |s| && i <= e <= |s|
  {
    e - i == d && TypesPrefix(s, d, i, e)
  }

  /** The types of a key in a set of records, and in its group. */
  lemma LowIsSmallest(s: seq<Ds>, i: nat)
    requires InOrder(s) && s != [] && GroupStart(s, i)
    ensures LowTypes(s, s[0].Key(), s[i].Key()) <==>
            Smallest(Types(s, 0, GroupEnd(s, 0)), Types(s, i, GroupEnd(s, i)))
  {
    var a, g := Types(s, 0, GroupEnd(s, 0)), Types(s, i, GroupEnd(s, i));
    forall t: Octet
      ensures HasType(s, s[0].Key(), t) <==> Contains(a, t)
      ensures HasType(s, s[i].Key(), t) <==> Contains(g, t)
    {
      GroupTypes(s, 0, t);
      GroupTypes(s, i, t);
    }
    LowMatches(s, s[0].Key(), s[i].Key(), a, g);
  }

  /** The same of the types as octets and as numbers. */
  lemma LowMatches(s: seq<Ds>, k: int, l: int, a: seq<int>, g: seq<int>)
    requires forall t: Octet :: HasType(s, k, t) <==> Contains(a, t)
    requires forall t: Octet :: HasType(s, l, t) <==> Contains(g, t)
    requires forall i :: 0 <= i < |a| ==> 0 <= a[i] < 256
    requires forall i :: 0 <= i < |g| ==> 0 <= g[i] < 256
    ensures LowTypes(s, k, l) <==> Smallest(a, g)
  {
    if LowTypes(s, k, l) {
      forall x | Contains(g, x)
        ensures Contains(a, x)
      {
        var t: Octet := x;
        assert HasType(s, l, t);
      }
      forall x, y | Contains(a, x) && Contains(g, y) && x < y
        ensures Contains(g, x)
      {
        var t: Octet, u: Octet := x, y;
        assert HasType(s, k, t) && HasType(s, l, u);
      }
    }
  }

  lemma LowIsPrefix(s: seq<Ds>, i: nat)
    requires InOrder(s) && s != [] && GroupStart(s, i)
    ensures LowTypes(s, s[0].Key(), s[i].Key()) <==> TypesPrefix(s, GroupEnd(s, 0), i, GroupEnd(s, i))
  {
    LowIsSmallest(s, i);
    GroupAscends(s, 0);
    GroupAscends(s, i);
    SmallestArePrefix(Types(s, 0, GroupEnd(s, 0)), Types(s, i, GroupEnd(s, i)));
  }

  lemma SameIsEqual(s: seq<Ds>, i: nat)
    requires InOrder(s) && s != [] && GroupStart(s, i)
    ensures SameTypes(s, s[0].Key(), s[i].Key()) <==> TypesEqual(s, GroupEnd(s, 0), i, GroupEnd(s, i))
  {
    var a, g := Types(s, 0, GroupEnd(s, 0)), Types(s, i, GroupEnd(s, i));
    LowIsPrefix(s, i);
    GroupAscends(s, 0);
    GroupAscends(s, i);
    if SameTypes(s, s[0].Key(), s[i].Key()) {
      assert LowTypes(s, s[0].Key(), s[i].Key());
      if |g| < |a| {
        var t: Octet := s[|g|].dtype;
        assert a[|g|] == t && Contains(a, t);
        GroupTypes(s, 0, t);
        GroupTypes(s, i, t);
        var k: nat :| k < |g| && g[k] == t;
        Distinguish(a, k, |g|);
      }
    }
    if TypesEqual(s, GroupEnd(s, 0), i, GroupEnd(s, i)) {
      assert a == g;
      forall t: Octet
        ensures HasType(s, s[0].Key(), t) <==> HasType(s, s[i].Key(), t)
      {
        GroupTypes(s, 0, t);
        GroupTypes(s, i, t);
      }
    }
  }

  /** Block by block and group by group come to the same. */
  lemma GroupStep(s: seq<Ds>, i: nat)
    requires InOrder(s) && s != [] && GroupStart(s, i)
    ensures var d, e := GroupEnd(s, 0), GroupEnd(s, i);
            BlocksMatch(s, d, i) <==>
            if e < |s| then TypesEqual(s, d, i, e) && BlocksMatch(s, d, e) else TypesPrefix(s, d, i, e)
  {
    var d, e := GroupEnd(s, 0), GroupEnd(s, i);
    if BlocksMatch(s, d, i) {
      BlockInGroup(s, d, i);
    } else {
      GroupInBlock(s, d, i);
    }
  }

  lemma BlockInGroup(s: seq<Ds>, d: nat, i: nat)
    requires InOrder(s) && s != [] && GroupStart(s, i) && d == GroupEnd(s, 0) && BlocksMatch(s, d, i)
    ensures TypesPrefix(s, d, i, GroupEnd(s, i))
    ensures GroupEnd(s, i) < |s| ==> GroupEnd(s, i) == i + d
  {
    var e := GroupEnd(s, i);
    assert i + d < |s| ==> RecordMatches(s, i + d, 0) && RecordMatches(s, i, 0) && Earlier(s, i, i + d);
    assert e < |s| && e < i + d ==> RecordMatches(s, i, e - i);
    GroupHolds(s, i, if i + d < |s| then i + d else i);
    forall j: nat | j < e - i
      ensures j < d && Types(s, i, e)[j] == Types(s, 0, d)[j]
    {
      assert RecordMatches(s, i, j);
    }
  }

  lemma GroupInBlock(s: seq<Ds>, d: nat, i: nat)
    requires InOrder(s) && s != [] && GroupStart(s, i) && d == GroupEnd(s, 0)
    ensures var e := GroupEnd(s, i);
            TypesPrefix(s, d, i, e) && (e == |s| || e == i + d) ==> BlockMatches(s, d, i)
  {
    var e := GroupEnd(s, i);
    if TypesPrefix(s, d, i, e) && (e == |s| || e == i + d) {
      forall j: nat | j < d && i + j < |s|
        ensures RecordMatches(s, i, j)
      {
        assert Types(s, i, e)[j] == Types(s, 0, d)[j];
        GroupHolds(s, i, i + j);
      }
    }
  }

  /** The groups from position `i` on are as the check wants them. */
  ghost predicate GroupsFit(s: seq<Ds>, i: nat)
    requires s != []
  {
    var last := s[|s| - 1].Key();
    && (forall m :: i <= m < |s| && s[m].Key() != last ==> SameTypes(s, s[0].Key(), s[m].Key()))
    && LowTypes(s, s[0].Key(), last)
  }

  lemma {:induction false} BlocksFit(s: seq<Ds>, i: nat)
    requires InOrder(s) && s != [] && GroupStart(s, i)
    ensures BlocksMatch(s, GroupEnd(s, 0), i) <==> GroupsFit(s, i)
    decreases |s| - i
  {
    var e := GroupEnd(s, i);
    GroupStep(s, i);
    LowIsPrefix(s, i);
    SameIsEqual(s, i);
    if e < |s| {
      assert s[e - 1].Key() == s[i].Key();
      BlocksFit(s, e);
      GroupHolds(s, i, |s| - 1);
    } else {
      assert s[|s| - 1].Key() == s[i].Key();
    }
  }

  lemma BlocksAreGroups(s: seq<Ds>, ds: seq<Ds>)
    requires InOrder(s) && s != [] && forall x :: x in s <==> x in ds
    ensures BlocksMatch(s, GroupEnd(s, 0), GroupEnd(s, 0)) <==> AcceptedShape(ds)
  {
    var d, n := GroupEnd(s, 0), |s|;
    if d < n {
      assert s[d - 1].Key() == s[0].Key();
      BlocksFit(s, d);
    } else {
      assert s[n - 1].Key() == s[0].Key();
    }
    assert BlocksMatch(s, d, d) <==> GroupsFit(s, 0) by {
      assert forall m :: 0 <= m < d ==> s[m].Key() == s[0].Key();
    }
    ShapeOf(s, ds);
  }

  lemma SameRecords(s: seq<Ds>, ds: seq<Ds>, key: int, t: Octet)
    requires forall x :: x in s <==> x in ds
    ensures HasType(s, key, t) <==> HasType(ds, key, t)
  {
    if HasType(s, key, t) {
      var i :| 0 <= i < |s| && s[i].Key() == key && s[i].dtype == t;
      assert s[i] in ds;
      var k :| 0 <= k < |ds| && ds[k] == s[i];
    }
    if HasType(ds, key, t) {
      var i :| 0 <= i < |ds| && ds[i].Key() == key && ds[i].dtype == t;
      assert ds[i] in s;
      var k :| 0 <= k < |s| && s[k] == ds[i];
    }
  }

  lemma ShapeOf(s: seq<Ds>, ds: seq<Ds>)
    requires InOrder(s) && s != [] && forall x :: x in s <==> x in ds
    ensures GroupsFit(s, 0) <==> AcceptedShape(ds)
  {
    var first, last := s[0].Key(), s[|s| - 1].Key();
    forall key: int, t: Octet
      ensures HasType(s, key, t) <==> HasType(ds, key, t)
    {
      SameRecords(s, ds, key, t);
    }
    assert s[0] in ds && s[|s| - 1] in ds;
    forall i | 0 <= i < |ds|
      ensures first <= ds[i].Key() <= last
    {
      assert ds[i] in s;
      var k :| 0 <= k < |s| && s[k] == ds[i];
      assert 0 < k ==> Earlier(s, 0, k);
      assert k < |s| - 1 ==> Earlier(s, k, |s| - 1);
    }
    assert LeastKey(ds, first) && GreatestKey(ds, last);
    forall f: int, l: int | LeastKey(ds, f) && GreatestKey(ds, l)
      ensures f == first && l == last
    {
    }
    if GroupsFit(s, 0) {
      forall i | 0 <= i < |ds| && ds[i].Key() != last
        ensures SameTypes(ds, first, ds[i].Key())
      {
        assert ds[i] in s;
        var k :| 0 <= k < |s| && s[k] == ds[i];
        assert SameTypes(s, first, s[k].Key());
      }
    }
    if AcceptedShape(ds) {
      forall m | 0 <= m < |s| && s[m].Key() != last
        ensures SameTypes(s, first, s[m].Key())
      {
        assert s[m] in ds;
        var k :| 0 <= k < |ds| && ds[k] == s[m];
        assert SameTypes(ds, first, ds[k].Key());
      }
    }
  }

  /** The least and the greatest key have the same digest types. */
  ghost predicate EndsAgree(ds: seq<Ds>) {
    forall first: int, last: int :: LeastKey(ds, first) && GreatestKey(ds, last) ==> SameTypes(ds, first, last)
  }

  lemma {:induction false} EndsExist(ds: seq<Ds>) returns (first: int, last: int)
    requires ds != []
    ensures LeastKey(ds, first) && GreatestKey(ds, last)
  {
    var f, l, i := 0, 0, 1;
    while i < |ds|
      invariant 0 <= f < i <= |ds| && 0 <= l < i
      invariant forall m :: 0 <= m < i ==> ds[f].Key() <= ds[m].Key() <= ds[l].Key()
    {
      if ds[i].Key() < ds[f].Key() {
        f := i;
      }
      if ds[l].Key() < ds[i].Key() {
        l := i;
      }
      i := i + 1;
    }
    first, last := ds[f].Key(), ds[l].Key();
  }

  /** The check finds out whether all keys have the same digest types, except that it does not
      notice when only the greatest key lacks some of the larger ones. */
  lemma UniformIsAccepted(ds: seq<Ds>)
    requires ds != []
    ensures Uniform(ds) <==> AcceptedShape(ds) && EndsAgree(ds)
  {
    var first, last := EndsExist(ds);
    var f :| 0 <= f < |ds| && ds[f].Key() == first;
    var l :| 0 <= l < |ds| && ds[l].Key() == last;
    if Uniform(ds) {
      assert SameTypes(ds, ds[f].Key(), ds[l].Key());
      forall a: int, b: int | LeastKey(ds, a) && GreatestKey(ds, b)
        ensures a == first && b == last
      {
      }
      forall i | 0 <= i < |ds|
        ensures SameTypes(ds, first, ds[i].Key())
      {
        assert SameTypes(ds, ds[f].Key(), ds[i].Key());
      }
    }
    if AcceptedShape(ds) && EndsAgree(ds) {
      forall i | 0 <= i < |ds|
        ensures SameTypes(ds, first, ds[i].Key())
      {
        assert ds[i].Key() != last ==> SameTypes(ds, first, ds[i].Key());
        assert SameTypes(ds, first, last);
      }
    }
  }

  const SHA1_DIGEST: Octets := seq(20, _ => 0)
  const SHA256_DIGEST: Octets := seq(32, _ => 0)
  const SHORT_LAST := [Ds(1, 8, 1, SHA1_DIGEST), Ds(1, 8, 2, SHA256_DIGEST), Ds(2, 8, 1, SHA1_DIGEST)]

  lemma ShortLastTypes(t: Octet)
    ensures HasType(SHORT_LAST, 264, t) <==> t == 1 || t == 2
    ensures HasType(SHORT_LAST, 520, t) <==> t == 1
  {
    assert SHORT_LAST[0].Key() == 264 && SHORT_LAST[1].Key() == 264 && SHORT_LAST[2].Key() == 520;
  }

  lemma TwoKeys(ds: seq<Ds>, a: int, b: int, t: Octet)
    requires |ds| == 3 && ds[0].Key() == ds[1].Key() == a < b == ds[2].Key()
    requires LowTypes(ds, a, b) && HasType(ds, a, t) && !HasType(ds, b, t)
    ensures AcceptedShape(ds) && !Uniform(ds)
  {
    assert !SameTypes(ds, ds[0].Key(), ds[2].Key());
    forall first: int, last: int | LeastKey(ds, first) && GreatestKey(ds, last)
      ensures first == a && last == b
    {
      assert first <= ds[0].Key() && ds[2].Key() <= last;
    }
  }

  /** Two keys, the second without a digest of type 2: accepted all the same. */
  lemma ShortLastGroupAccepted()
    ensures Unique(SHORT_LAST) && Consistent(SHORT_LAST) && AcceptedShape(SHORT_LAST) && !Uniform(SHORT_LAST)
  {
    forall t: Octet
      ensures HasType(SHORT_LAST, 264, t) <==> t == 1 || t == 2
      ensures HasType(SHORT_LAST, 520, t) <==> t == 1
    {
      ShortLastTypes(t);
    }
    TwoKeys(SHORT_LAST, 264, 520, 2);
    ConsistentMeans(SHORT_LAST);
  }
}
