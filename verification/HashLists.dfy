/** The list of hashed owner names behind an NSEC3 chain.

An entry is a hash followed by one octet: 0 for a hash that owns an NSEC3 record, 1 for a
speculative one (a wildcard that does not exist).  Entries sort as octet strings, so an
owner comes before a speculative entry with the same hash.
*/
module HashLists {
  import opened Names
  import opened Sorting

  predicate Owner(e: Octets)
    requires e != []
  {
    e[|e| - 1] == 0
  }

  function HashOf(e: Octets): Octets
    requires e != []
  {
    e[..|e| - 1]
  }

  ghost predicate Entries(c: seq<Octets>, length: nat) {
    forall i :: 0 <= i < |c| ==> |c[i]| == length
  }

  /** The hashes of the owner entries among the first `i`, in list order. */
  ghost function Owners(c: seq<Octets>, i: nat): (r: seq<Octets>)
    requires i <= |c| && forall k :: 0 <= k < i ==> c[k] != []
  {
    if i == 0 then []
    else Owners(c, i - 1) + (if Owner(c[i - 1]) then [HashOf(c[i - 1])] else [])
  }

  /** The position of an owner entry among the owners is the number of owners before it. */
  lemma {:induction false} OwnersAt(c: seq<Octets>, p: nat, i: nat)
    requires p < i <= |c| && (forall k :: 0 <= k < i ==> c[k] != []) && Owner(c[p])
    ensures |Owners(c, p)| < |Owners(c, i)| && Owners(c, i)[|Owners(c, p)|] == HashOf(c[p])
    ensures Owners(c, p) <= Owners(c, i)
  {
    if p < i - 1 {
      OwnersAt(c, p, i - 1);
    }
  }

  lemma {:induction false} OwnersSkip(c: seq<Octets>, i: nat, j: nat)
    requires i <= j <= |c| && (forall k :: 0 <= k < j ==> c[k] != [])
    requires forall k :: i <= k < j ==> !Owner(c[k])
    ensures Owners(c, j) == Owners(c, i)
  {
    if i < j {
      OwnersSkip(c, i, j - 1);
    }
  }

  /** Every owner hash comes from an owner entry. */
  lemma {:induction false} OwnersFrom(c: seq<Octets>, i: nat, k: nat) returns (p: nat)
    requires i <= |c| && (forall m :: 0 <= m < i ==> c[m] != []) && k < |Owners(c, i)|
    ensures p < i && Owner(c[p]) && HashOf(c[p]) == Owners(c, i)[k] && |Owners(c, p)| == k
  {
    if k < |Owners(c, i - 1)| {
      p := OwnersFrom(c, i - 1, k);
    } else {
      p := i - 1;
    }
  }

  ghost predicate Duplicate(c: seq<Octets>, i: nat, j: nat)
    requires forall k :: 0 <= k < |c| ==> c[k] != []
  {
    i < j < |c| && Owner(c[i]) && Owner(c[j]) && HashOf(c[i]) == HashOf(c[j])
  }

  /** Two owner entries with one hash. */
  ghost predicate HasDuplicate(c: seq<Octets>)
    requires forall k :: 0 <= k < |c| ==> c[k] != []
  {
    exists i: nat, j: nat :: Duplicate(c, i, j)
  }

  /** Equal hashes of owner entries stand next to each other: between them there is nothing
      but the same entry again. */
  lemma DuplicatesAdjacent(c: seq<Octets>, length: nat, i: nat, m: nat, j: nat)
    requires Entries(c, length) && length > 0 && Sorted(c) && i <= m <= j && Duplicate(c, i, j)
    ensures c[m] == c[j]
  {
    assert c[i] == HashOf(c[i]) + [0] && c[j] == HashOf(c[j]) + [0];
    assert AtMost(c[i], c[m]) && AtMost(c[m], c[j]);
    AtMostAntisymmetric(c[m], c[j]);
  }

  /** Without duplicates the owner hashes strictly ascend. */
  ghost predicate StrictlyAscending(s: seq<Octets>) {
    forall i, j {:trigger Precedes(s[i], s[j])} :: 0 <= i < j < |s| ==> Precedes(s[i], s[j])
  }

  lemma HashPrecedes(a: Octets, b: Octets)
    requires |a| == |b| > 0 && Owner(a) && Owner(b) && Precedes(a, b)
    ensures Precedes(HashOf(a), HashOf(b))
  {
    var k := Common(a, b);
    assert k < |a| - 1;
    assert HashOf(a)[..k] == a[..k] == b[..k] == HashOf(b)[..k];
    CommonIs(HashOf(a), HashOf(b), k);
  }

  lemma EntryPairAscends(c: seq<Octets>, length: nat, p: nat, q: nat)
    requires Entries(c, length) && length > 0 && Sorted(c) && !HasDuplicate(c)
    requires p < q < |c| && Owner(c[p]) && Owner(c[q])
    ensures Precedes(HashOf(c[p]), HashOf(c[q]))
  {
    assert AtMost(c[p], c[q]) && !Duplicate(c, p, q);
    HashPrecedes(c[p], c[q]);
  }

  lemma OwnerPairAscends(c: seq<Octets>, length: nat, k: nat, l: nat)
    requires Entries(c, length) && length > 0 && Sorted(c) && !HasDuplicate(c)
    requires k < l < |Owners(c, |c|)|
    ensures Precedes(Owners(c, |c|)[k], Owners(c, |c|)[l])
  {
    var p := OwnersFrom(c, |c|, k);
    var q := OwnersFrom(c, |c|, l);
    if q < p {
      OwnersAt(c, q, p);
    }
    EntryPairAscends(c, length, p, q);
  }

  lemma OwnersAscend(c: seq<Octets>, length: nat)
    requires Entries(c, length) && length > 0 && Sorted(c) && !HasDuplicate(c)
    ensures StrictlyAscending(Owners(c, |c|))
  {
    var s := Owners(c, |c|);
    forall k: nat, l: nat | k < l < |s|
      ensures Precedes(s[k], s[l])
    {
      OwnerPairAscends(c, length, k, l);
    }
  }

  class HashList {
    var hashbuf: seq<Octets>  // `size` slots
    var entries: nat
    var size: nat
    const length: nat  // octets in a slot

    ghost predicate Valid()
      reads this
    {
      && |hashbuf| == size && entries <= size && length > 0
      && Entries(Contents(), length)
    }

    ghost function Contents(): (c: seq<Octets>)
      requires entries <= |hashbuf|
      reads this
    {
      hashbuf[..entries]
    }

    constructor (nodes: nat, hashLength: nat)
      ensures Valid() && Contents() == [] && length == hashLength + 1
    {
      entries := 0;
      length := hashLength + 1;
      size := nodes;
      hashbuf := seq(nodes, _ => []);
    }

    /** Append an entry, zero-filled to the slot length, growing the buffer when it is full. */
    method Add(e: Octets)
      requires Valid() && |e| <= length
      modifies this
      ensures Valid()
      ensures Contents() == old(Contents()) + [e + seq(length - |e|, _ => 0)]
    {
      if entries == size {
        size := size * 2 + 100;
        hashbuf := hashbuf + seq(size - |hashbuf|, _ => []);
      }
      hashbuf := hashbuf[entries := e + seq(length - |e|, _ => 0)];
      entries := entries + 1;
      assert Contents() == old(Contents()) + [e + seq(length - |e|, _ => 0)];
    }

    method AddHash(hash: Octets, speculative: bool)
      requires Valid() && |hash| + 1 == length
      modifies this
      ensures Valid()
      ensures Contents() == old(Contents()) + [hash + [if speculative then 1 else 0]]
    {
      var flag: Octet := if speculative then 1 else 0;
      var e := hash + [flag];
      Add(e);
      assert e + seq(length - |e|, _ => 0) == e;
    }

    method Sort()
      requires Valid()
      modifies this`hashbuf
      ensures Valid() && Sorted(Contents())
      ensures multiset(Contents()) == old(multiset(Contents()))
    {
      ghost var c := Contents();
      var sorted := SortEntries(hashbuf[..entries]);
      SortEntriesSorted(c);
      assert |sorted| == |multiset(sorted)| == |multiset(c)| == entries;
      hashbuf := sorted + hashbuf[entries..];
      assert Contents() == sorted;
      forall i | 0 <= i < entries
        ensures |sorted[i]| == length
      {
        assert sorted[i] in multiset(sorted);
        assert sorted[i] in c;
      }
    }

    /** Whether two owners share a hash. */
    method HasDup() returns (dup: bool)
      requires Valid() && Sorted(Contents())
      ensures dup <==> HasDuplicate(Contents())
    {
      ghost var c := Contents();
      var next := 0;
      while next < entries && hashbuf[next][length - 1] != 0
        invariant next <= entries
        invariant forall k :: 0 <= k < next ==> !Owner(c[k])
      {
        next := next + 1;
      }
      var current := next;
      next := next + 1;
      while next < entries
        invariant current < next
        invariant current < entries ==> next <= entries && Owner(c[current])
        invariant forall k :: current < k < next && k < entries ==> !Owner(c[k])
        invariant forall i: nat, j: nat :: j < next && j < entries ==> !Duplicate(c, i, j)
      {
        if hashbuf[next][length - 1] != 0 {
          next := next + 1;
          continue;
        }
        if hashbuf[current][..length - 1] == hashbuf[next][..length - 1] {
          assert Duplicate(c, current, next);
          return true;
        }
        forall i: nat | i < next
          ensures !Duplicate(c, i, next)
        {
          if Duplicate(c, i, next) {
            DuplicatesAdjacent(c, length, i, current, next);
          }
        }
        current := next;
        next := next + 1;
      }
      return false;
    }

    /** The position of an entry equal to `key`, the model of bsearch. */
    method Search(key: Octets) returns (r: Option<nat>)
      requires Valid() && Sorted(Contents())
      ensures r.None? <==> key !in Contents()
      ensures r.Some? ==> r.value < entries && hashbuf[r.value] == key
    {
      ghost var c := Contents();
      var lo, hi := 0, entries;
      while lo < hi
        invariant 0 <= lo <= hi <= entries
        invariant forall k :: 0 <= k < lo ==> Precedes(c[k], key)
        invariant forall k :: hi <= k < entries ==> Precedes(key, c[k])
      {
        var mid := (lo + hi) / 2;
        if hashbuf[mid] == key {
          assert c[mid] in c;
          return Some(mid);
        }
        PrecedesTotal(hashbuf[mid], key);
        if Precedes(hashbuf[mid], key) {
          forall k | 0 <= k <= mid
            ensures Precedes(c[k], key)
          {
            assert AtMost(c[k], c[mid]);
            AtMostPrecedes(c[k], c[mid], key, key);
          }
          lo := mid + 1;
        } else {
          forall k | mid <= k < entries
            ensures Precedes(key, c[k])
          {
            assert AtMost(c[mid], c[k]);
            AtMostPrecedes(key, key, c[mid], c[k]);
          }
          hi := mid;
        }
      }
      forall k | 0 <= k < entries
        ensures c[k] != key
      {
        PrecedesIrreflexive(key);
      }
      return None;
    }

    /** The entry after the one of an owner hash in the cycle of owners; None is a failed INSIST.
        The failure happens exactly when the hash is not in the list as an owner. */
    method FindNext(hash: Octets) returns (next: Option<Octets>)
      requires Valid() && Sorted(Contents()) && |hash| + 1 == length
      ensures next.None? <==> hash + [0] !in Contents()
      ensures next.Some? ==>
                exists p: nat :: p < entries && hashbuf[p] == hash + [0] && Follows(Contents(), p, next.value)
    {
      ghost var c := Contents();
      var key := hash + [0];
      var found := Search(key);
      if found.None? {
        return None;
      }
      var i := GoRound(found.value);
      return Some(hashbuf[i]);
    }

    /** From an owner entry go round to the next one; at the latest that is the same one again. */
    method GoRound(p: nat) returns (i: nat)
      requires Valid() && p < entries && Owner(hashbuf[p])
      ensures i < entries && Owner(hashbuf[i]) && NoneBetween(Contents(), p, i)
    {
      ghost var c := Contents();
      i := p;
      var left := entries;
      while true
        invariant 0 < left <= entries
        invariant i == if p + (entries - left) < entries then p + (entries - left) else p - left
        invariant forall k :: p < k < entries && k <= p + (entries - left) ==> !Owner(c[k])
        invariant forall k :: 0 <= k <= p - left ==> !Owner(c[k])
        decreases left
      {
        i := if i < entries - 1 then i + 1 else 0;
        if hashbuf[i][length - 1] == 0 {
          break;
        }
        assert !Owner(c[i]);
        left := left - 1;
        assert left > 0;  // the loop does not run out, and the second INSIST of the lookup cannot fail
      }
      assert i <= p ==> forall k :: p < k < entries ==> !Owner(c[k]);
    }
  }

  /** `e` is the owner entry that comes next after position `p`, going round at the end. */
  ghost predicate Follows(c: seq<Octets>, p: nat, e: Octets)
    requires forall k :: 0 <= k < |c| ==> c[k] != []
  {
    exists q: nat :: q < |c| && p < |c| && c[q] == e && Owner(c[q]) && NoneBetween(c, p, q)
  }

  /** Going round from `p` to `q` there is no owner entry. */
  ghost predicate NoneBetween(c: seq<Octets>, p: nat, q: nat)
    requires q < |c| && p < |c| && forall k :: 0 <= k < |c| ==> c[k] != []
  {
    if p < q then forall k :: p < k < q ==> !Owner(c[k])
    else (forall k :: p < k < |c| ==> !Owner(c[k])) && forall k :: 0 <= k < q ==> !Owner(c[k])
  }

  function NextInCycle(s: seq<Octets>, k: nat): Octets
    requires k < |s|
  {
    if k + 1 < |s| then s[k + 1] else s[0]
  }

  /** In terms of the owner hashes, the following entry is the cyclic successor. */
  lemma FollowsIsSuccessor(c: seq<Octets>, p: nat, e: Octets) returns (k: nat)
    requires p < |c| && (forall m :: 0 <= m < |c| ==> c[m] != []) && Owner(c[p])
    requires e != [] && Follows(c, p, e)
    ensures var s := Owners(c, |c|);
            k < |s| && s[k] == HashOf(c[p]) && HashOf(e) == NextInCycle(s, k)
  {
    k := |Owners(c, p)|;
    OwnersAt(c, p, |c|);
    var q: nat :| q < |c| && c[q] == e && Owner(c[q]) && NoneBetween(c, p, q);
    SuccessorAt(c, p, q);
  }

  lemma SuccessorAt(c: seq<Octets>, p: nat, q: nat)
    requires p < |c| && q < |c| && (forall m :: 0 <= m < |c| ==> c[m] != []) && Owner(c[p]) && Owner(c[q])
    requires NoneBetween(c, p, q)
    ensures var s, k := Owners(c, |c|), |Owners(c, p)|; k < |s| && HashOf(c[q]) == NextInCycle(s, k)
  {
    if p < q {
      NextAt(c, p, q);
    } else {
      WrapsTo(c, p, q);
    }
  }

  lemma NextAt(c: seq<Octets>, p: nat, q: nat)
    requires p < q < |c| && (forall m :: 0 <= m < |c| ==> c[m] != []) && Owner(c[p]) && Owner(c[q])
    requires NoneBetween(c, p, q)
    ensures var s, k := Owners(c, |c|), |Owners(c, p)|; k + 1 < |s| && HashOf(c[q]) == s[k + 1]
  {
    OwnersSkip(c, p + 1, q);
    assert |Owners(c, p + 1)| == |Owners(c, p)| + 1;
    OwnersAt(c, q, |c|);
  }

  lemma WrapsTo(c: seq<Octets>, p: nat, q: nat)
    requires q <= p < |c| && (forall m :: 0 <= m < |c| ==> c[m] != []) && Owner(c[p]) && Owner(c[q])
    requires NoneBetween(c, p, q)
    ensures var s, k := Owners(c, |c|), |Owners(c, p)|; k + 1 == |s| && HashOf(c[q]) == s[0]
  {
    OwnersSkip(c, p + 1, |c|);
    assert |Owners(c, p + 1)| == |Owners(c, p)| + 1;
    OwnersSkip(c, 0, q);
    OwnersAt(c, q, |c|);
  }

  /** `h` lies strictly between an owner hash and the next hash; the last record of the chain
      (and the only record of a one-record chain) covers what is outside. */
  predicate Covers(owner: Octets, next: Octets, h: Octets) {
    if Precedes(owner, next) then Precedes(owner, h) && Precedes(h, next)
    else Precedes(owner, h) || Precedes(h, next)
  }

  /** How many of the owners come before `h`. */
  function Rank(s: seq<Octets>, h: Octets): (r: nat)
    ensures r <= |s|
    ensures forall i :: 0 <= i < r ==> Precedes(s[i], h)
    ensures r < |s| ==> !Precedes(s[r], h)
  {
    if s != [] && Precedes(s[0], h) then 1 + Rank(s[1..], h) else 0
  }

  lemma RankSplits(s: seq<Octets>, h: Octets, i: nat)
    requires StrictlyAscending(s) && i < |s|
    ensures i < Rank(s, h) ==> Precedes(s[i], h) && s[i] != h && !Precedes(h, s[i])
    ensures Rank(s, h) == i ==> s[i] == h || Precedes(h, s[i])
    ensures Rank(s, h) < i ==> Precedes(h, s[i]) && s[i] != h && !Precedes(s[i], h)
  {
    var r := Rank(s, h);
    PrecedesTotal(s[i], h);
    PrecedesTotal(h, s[i]);
    if r < i {
      PrecedesTotal(s[r], h);
      assert Precedes(s[r], s[i]);
      AtMostPrecedes(h, s[r], s[i], s[i]);
      PrecedesTotal(h, s[i]);
    }
  }

  ghost predicate CoveredAt(s: seq<Octets>, k: nat, h: Octets) {
    k < |s| && Covers(s[k], NextInCycle(s, k), h)
  }

  /** Which single record of the chain covers a hash that owns none. */
  lemma CoveredOnce(s: seq<Octets>, k: nat, h: Octets)
    requires StrictlyAscending(s) && k < |s|
    ensures h in s ==> !CoveredAt(s, k, h)
    ensures h !in s ==>
              (CoveredAt(s, k, h) <==> k == if 0 < Rank(s, h) then Rank(s, h) - 1 else |s| - 1)
  {
    if h in s {
      OwnerUncovered(s, k, h);
    } else if k + 1 < |s| {
      assert Precedes(s[k], s[k + 1]);
      RankSplits(s, h, k);
      RankSplits(s, h, k + 1);
    } else {
      LastWraps(s);
      RankSplits(s, h, k);
      RankSplits(s, h, 0);
    }
  }

  lemma OwnerUncovered(s: seq<Octets>, k: nat, h: Octets)
    requires StrictlyAscending(s) && k < |s| && h in s
    ensures !CoveredAt(s, k, h)
  {
    var i: nat :| i < |s| && s[i] == h;
    PrecedesIrreflexive(h);
    if k + 1 < |s| {
      assert Precedes(s[k], s[k + 1]);
      NotBetween(s, i, k);
    } else {
      LastWraps(s);
      NotBeyond(s, i, k);
      NotBeyond(s, 0, i);
    }
  }

  /** A member after `k` does not precede the one after `k`. */
  lemma NotBetween(s: seq<Octets>, i: nat, k: nat)
    requires StrictlyAscending(s) && i < |s| && k + 1 < |s|
    ensures !(Precedes(s[k], s[i]) && Precedes(s[i], s[k + 1]))
  {
    if i <= k {
      NotBeyond(s, i, k);
    } else {
      NotBeyond(s, k + 1, i);
    }
  }

  lemma NotBeyond(s: seq<Octets>, i: nat, j: nat)
    requires StrictlyAscending(s) && i <= j < |s|
    ensures !Precedes(s[j], s[i])
  {
    PrecedesIrreflexive(s[i]);
    assert i < j ==> Precedes(s[i], s[j]);
    PrecedesTotal(s[i], s[j]);
  }

  lemma LastWraps(s: seq<Octets>)
    requires StrictlyAscending(s) && s != []
    ensures !Precedes(s[|s| - 1], s[0])
  {
    PrecedesIrreflexive(s[0]);
    assert |s| > 1 ==> Precedes(s[0], s[|s| - 1]);
    PrecedesTotal(s[0], s[|s| - 1]);
  }

  /** Denial of existence: a hash is an owner of the chain, or exactly one record covers it. */
  lemma ChainCoversEverything(s: seq<Octets>, h: Octets)
    requires StrictlyAscending(s) && s != []
    ensures h in s ==> forall k: nat :: !CoveredAt(s, k, h)
    ensures h !in s ==> exists k: nat :: CoveredAt(s, k, h)
    ensures forall k: nat, l: nat :: CoveredAt(s, k, h) && CoveredAt(s, l, h) ==> k == l
    ensures forall k: nat, l: nat :: k < |s| && l < |s| && s[k] == s[l] ==> k == l
  {
    forall k: nat | k < |s|
      ensures h in s ==> !CoveredAt(s, k, h)
      ensures h !in s ==>
                (CoveredAt(s, k, h) <==> k == if 0 < Rank(s, h) then Rank(s, h) - 1 else |s| - 1)
    {
      CoveredOnce(s, k, h);
    }
    if h !in s {
      assert CoveredAt(s, if 0 < Rank(s, h) then Rank(s, h) - 1 else |s| - 1, h);
    }
    forall k: nat, l: nat | k < l < |s|
      ensures s[k] != s[l]
    {
      assert Precedes(s[k], s[l]);
      PrecedesTotal(s[k], s[l]);
    }
  }
}
