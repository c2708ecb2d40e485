/** Signing one RRset: which signatures stay, which go, and which are made.

`signset` of dnssec-signzone goes through the existing signatures of an RRset and then through
the key list.  Signing and verifying are parameters; so is the key store on disk.
*/
module SignSet {
  import opened Names
  import opened Serials

  /** Who made a signature, as an RRSIG names it. */
  datatype KeyRef = KeyRef(id: nat, alg: nat, owner: Name)

  datatype Key = Key(
    ref: KeyRef, ksk: bool, zoneKey: bool, revoked: bool, signing: bool, published: bool, active: bool,
    predecessor: Option<nat>, successor: Option<nat>)

  datatype Sig = Sig(ref: KeyRef, inception: Serial, expiration: Serial, originalTtl: nat, data: nat)

  /** A difference tuple: a signature and the TTL it is removed or added with. */
  datatype Tuple = Tuple(ttl: nat, sig: Sig)

  datatype Config = Config(
    now: Serial, cycle: Serial, ignoreKskFlag: bool, keysetKskOnly: bool,
    removeOrphans: bool, removeInactive: bool,
    disk: KeyRef -> Option<Key>,    // a key file, if there is one
    expected: Name -> bool,         // do we expect to find keys of this owner?
    verify: (Key, Sig) -> bool,     // does the signature verify the RRset with this key?
    sign: (Key, nat) -> Sig)        // the n-th signature made, with its random jitter

  /** The RRset: its TTL, and whether it is one of the key sets at the apex. */
  datatype RRset = RRset(ttl: nat, apexKeys: bool)

  predicate Zsk(c: Config, k: Key) {
    c.ignoreKskFlag || !k.ksk
  }

  function Until(c: Config): Serial {
    (c.now + c.cycle) % MODULUS
  }

  /** The position of the first key that a signature refers to. */
  function FindKey(keys: seq<Key>, ref: KeyRef): (r: Option<nat>)
    ensures r.Some? ==> r.value < |keys| && keys[r.value].ref == ref
    ensures r.Some? ==> forall j :: 0 <= j < r.value ==> keys[j].ref != ref
    ensures r.None? ==> forall j :: 0 <= j < |keys| ==> keys[j].ref != ref
  {
    if keys == [] then None
    else if keys[0].ref == ref then Some(0)
    else
      var r := FindKey(keys[1..], ref);
      if r.None? then None else Some(r.value + 1)
  }

  /** A key read from disk takes no part in signing or publishing. */
  function Passive(k: Key): Key {
    k.(signing := false, published := false)
  }

  /** The key list after looking for the key of a signature, here and on disk. */
  function Loaded(c: Config, keys: seq<Key>, ref: KeyRef): (r: seq<Key>)
  {
    if FindKey(keys, ref).None? && c.disk(ref).Some? then keys + [Passive(c.disk(ref).value)] else keys
  }

  datatype Fate = Keep | Drop | Resign

  /** What becomes of a signature whose key, if found, is `key`. */
  function Decide(c: Config, rrset: RRset, key: Option<Key>, sig: Sig): (f: Fate)
  {
    var future := Lt(c.now, sig.inception);
    var expired := Gt(Until(c), sig.expiration);
    if Gt(sig.inception, sig.expiration) then Drop
    else if key.None? && !future && c.expected(sig.ref.owner) then Drop
    else if key.None? || future then (if !expired && !c.removeOrphans then Keep else Drop)
    else
      var k := key.value;
      var good := !expired && sig.originalTtl == rrset.ttl && c.verify(k, sig);
      if !k.active && c.removeInactive then Drop
      else if k.signing then (if good then Keep else Resign)
      else if !k.published && c.removeOrphans then Drop
      else if k.zoneKey then (if good then Keep else Drop)
      else if !expired then Keep
      else Drop
  }

  /** The state of the work on one RRset; `made` counts the signatures generated. */
  datatype Work = Work(keys: seq<Key>, now: set<nat>, del: seq<Tuple>, add: seq<Tuple>, made: nat)

  function TakeSig(c: Config, rrset: RRset, ttl: nat, sigTtl: nat, w: Work, sig: Sig): (r: Work)
  {
    var keys := Loaded(c, w.keys, sig.ref);
    var at := FindKey(keys, sig.ref);
    var fate := Decide(c, rrset, if at.Some? then Some(keys[at.value]) else None, sig);
    var now := if at.Some? && fate != Drop then w.now + {at.value} else w.now;
    if fate == Keep then
      if sigTtl != ttl
      then Work(keys, now, w.del + [Tuple(sigTtl, sig)], w.add + [Tuple(ttl, sig)], w.made)
      else Work(keys, now, w.del, w.add, w.made)
    else if fate == Resign && at.Some? then
      Work(keys, now, w.del + [Tuple(sigTtl, sig)], w.add + [Tuple(ttl, c.sign(keys[at.value], w.made))], w.made + 1)
    else Work(keys, now, w.del + [Tuple(sigTtl, sig)], w.add, w.made)
  }

  function TakeSigs(c: Config, rrset: RRset, ttl: nat, sigTtl: nat, w: Work, sigs: seq<Sig>): (r: Work)
  {
    if sigs == [] then w
    else TakeSig(c, rrset, ttl, sigTtl, TakeSigs(c, rrset, ttl, sigTtl, w, sigs[..|sigs| - 1]), sigs[|sigs| - 1])
  }

  lemma TakeNext(c: Config, rrset: RRset, ttl: nat, sigTtl: nat, w: Work, sigs: seq<Sig>, i: nat)
    requires i < |sigs|
    ensures TakeSigs(c, rrset, ttl, sigTtl, w, sigs[..i + 1]) ==
            TakeSig(c, rrset, ttl, sigTtl, TakeSigs(c, rrset, ttl, sigTtl, w, sigs[..i]), sigs[i])
  {
    assert sigs[..i + 1][..i] == sigs[..i];
  }

  predicate HaveKsk(keys: seq<Key>, k: nat)
    requires k < |keys|
  {
    keys[k].ksk || exists j :: 0 <= j < |keys| && keys[j].ref.alg == keys[k].ref.alg && !keys[j].revoked && keys[j].ksk
  }

  /** `p` is the key that `k` is the successor of, and both say so. */
  predicate Linked(c: Config, p: Key, k: Key) {
    && k.predecessor.Some? && p.ref.alg == k.ref.alg && Zsk(c, p)
    && p.ref.id == k.predecessor.value && p.successor == Some(k.ref.id)
  }

  predicate Predecessor(c: Config, keys: seq<Key>, j: nat, k: nat) {
    j < |keys| && k < |keys| && Linked(c, keys[j], keys[k])
  }

  predicate HavePredecessorSig(c: Config, keys: seq<Key>, now: set<nat>, k: nat) {
    exists j: nat :: j < |keys| && Predecessor(c, keys, j, k) && j in now
  }

  /** Whether key `k` has to make a signature, given the keys that sign already. */
  predicate MustSign(c: Config, rrset: RRset, keys: seq<Key>, now: set<nat>, k: nat)
    requires k < |keys|
  {
    && k !in now && keys[k].signing
    && if rrset.apexKeys then keys[k].ksk || !HaveKsk(keys, k) || (Zsk(c, keys[k]) && !c.keysetKskOnly)
       else Zsk(c, keys[k]) && !HavePredecessorSig(c, keys, now, k)
  }

  function TakeKeys(c: Config, rrset: RRset, ttl: nat, w: Work, n: nat): (r: Work)
    requires n <= |w.keys|
    ensures r.keys == w.keys && r.now == w.now && r.del == w.del
  {
    if n == 0 then w
    else
      var r := TakeKeys(c, rrset, ttl, w, n - 1);
      if MustSign(c, rrset, w.keys, w.now, n - 1)
      then r.(add := r.add + [Tuple(ttl, c.sign(w.keys[n - 1], r.made))], made := r.made + 1) else r
  }

  /** All of it. */
  function SignAll(c: Config, rrset: RRset, ttl: nat, keys: seq<Key>, sigs: seq<Sig>, sigTtl: nat): (r: Work)
  {
    var w := TakeSigs(c, rrset, ttl, sigTtl, Work(keys, {}, [], [], 0), sigs);
    TakeKeys(c, rrset, ttl, w, |w.keys|)
  }

  /** A key file holds the key it is named after. */
  ghost predicate DiskOk(c: Config) {
    forall r :: c.disk(r).Some? ==> c.disk(r).value.ref == r
  }

  lemma {:induction false} FindIs(keys: seq<Key>, ref: KeyRef, k: nat)
    requires k < |keys| && keys[k].ref == ref && forall j :: 0 <= j < k ==> keys[j].ref != ref
    ensures FindKey(keys, ref) == Some(k)
  {
  }

  lemma LoadedFinds(c: Config, keys: seq<Key>, ref: KeyRef)
    requires DiskOk(c)
    ensures keys <= Loaded(c, keys, ref)
    ensures FindKey(keys, ref).Some? ==> FindKey(Loaded(c, keys, ref), ref) == FindKey(keys, ref)
    ensures FindKey(keys, ref).None? ==>
              FindKey(Loaded(c, keys, ref), ref) == if c.disk(ref).Some? then Some(|keys|) else None
  {
    var l := Loaded(c, keys, ref);
    if FindKey(keys, ref).None? && c.disk(ref).Some? {
      FindIs(l, ref, |keys|);
    }
  }

  class Signer {
    const c: Config
    var keys: seq<Key>

    constructor (c: Config, keys: seq<Key>)
      ensures this.c == c && this.keys == keys
    {
      this.c, this.keys := c, keys;
    }

    /** Find the key a signature was made with, loading it from disk if it is not in the list. */
    method KeyThatSigned(ref: KeyRef) returns (at: Option<nat>)
      requires DiskOk(c)
      modifies this`keys
      ensures keys == Loaded(c, old(keys), ref) && at == FindKey(keys, ref)
    {
      LoadedFinds(c, keys, ref);
      var i := 0;
      while i < |keys|
        invariant i <= |keys| && forall j :: 0 <= j < i ==> keys[j].ref != ref
      {
        if keys[i].ref == ref {
          FindIs(keys, ref, i);
          return Some(i);
        }
        i := i + 1;
      }
      var loaded := c.disk(ref);
      if loaded.None? {
        return None;
      }
      keys := keys + [Passive(loaded.value)];
      return Some(|keys| - 1);
    }

    /** Look at one signature: the branches of the source, up to the tuples. */
    method JudgeSig(rrset: RRset, sig: Sig, at: Option<nat>) returns (keep: bool, resign: bool)
      requires at.Some? ==> at.value < |keys|
      ensures var fate := Decide(c, rrset, if at.Some? then Some(keys[at.value]) else None, sig);
              keep == (fate == Keep) && resign == (fate == Resign)
    {
      keep, resign := false, false;
      var future := Lt(c.now, sig.inception);
      var expired := Gt((c.now + c.cycle) % MODULUS, sig.expiration);
      if Gt(sig.inception, sig.expiration) {
        // invalid validity period
      } else if at.None? && !future && c.expected(sig.ref.owner) {
        // private key not found
      } else if at.None? || future {
        keep := !expired && !c.removeOrphans;
      } else if !keys[at.value].active && c.removeInactive {
        keep := false;
      } else if keys[at.value].signing {
        if !expired && sig.originalTtl == rrset.ttl && c.verify(keys[at.value], sig) {
          keep := true;
        } else {
          resign := true;
        }
      } else if !keys[at.value].published && c.removeOrphans {
        // the key is gone from the zone
      } else if keys[at.value].zoneKey {
        if !expired && sig.originalTtl == rrset.ttl && c.verify(keys[at.value], sig) {
          keep := true;
        }
      } else if !expired {
        keep := true;
      }
    }

    /** Does the algorithm of key `k` have a key-signing key? */
    method FindKsk(k: nat) returns (haveKsk: bool)
      requires k < |keys|
      ensures haveKsk == HaveKsk(keys, k)
    {
      haveKsk := keys[k].ksk;
      var j := 0;
      while j < |keys|
        invariant j <= |keys|
        invariant haveKsk <==>
                  || keys[k].ksk
                  || exists i :: 0 <= i < j && keys[i].ref.alg == keys[k].ref.alg && !keys[i].revoked && keys[i].ksk
      {
        if keys[j].ref.alg == keys[k].ref.alg && !keys[j].revoked && keys[j].ksk {
          haveKsk := true;
        }
        j := j + 1;
      }
    }

    /** Does the predecessor of key `k` sign this RRset already? */
    method FindPredecessor(k: nat, nowsignedby: array<bool>, ghost now: set<nat>) returns (havePreSig: bool)
      requires k < |keys| <= nowsignedby.Length
      requires forall j :: 0 <= j < nowsignedby.Length ==> (nowsignedby[j] <==> j in now)
      ensures havePreSig == HavePredecessorSig(c, keys, now, k)
    {
      havePreSig := false;
      if keys[k].predecessor.None? {
        return;
      }
      var j := 0;
      while j < |keys|
        invariant j <= |keys|
        invariant havePreSig <==> exists i: nat :: i < j && Predecessor(c, keys, i, k) && i in now
      {
        if keys[j].ref.alg == keys[k].ref.alg && Zsk(c, keys[j]) && keys[j].ref.id == keys[k].predecessor.value &&
           keys[j].successor == Some(keys[k].ref.id) && nowsignedby[j]
        {
          assert Predecessor(c, keys, j, k);
          havePreSig := true;
        }
        j := j + 1;
      }
    }

    /** One round of the first loop. */
    method TakeOne(rrset: RRset, ttl: nat, sigTtl: nat, sig: Sig, del0: seq<Tuple>, add0: seq<Tuple>, made0: nat,
                   nowsignedby: array<bool>, ghost w: Work)
      returns (del: seq<Tuple>, add: seq<Tuple>, made: nat)
      requires DiskOk(c) && |keys| < nowsignedby.Length && w == Work(keys, w.now, del0, add0, made0)
      requires forall j :: 0 <= j < nowsignedby.Length ==> (nowsignedby[j] <==> j in w.now)
      modifies this`keys, nowsignedby
      ensures var r := TakeSig(c, rrset, ttl, sigTtl, w, sig);
              && r == Work(keys, r.now, del, add, made) && |keys| <= |old(keys)| + 1
              && forall j :: 0 <= j < nowsignedby.Length ==> (nowsignedby[j] <==> j in r.now)
    {
      del, add, made := del0, add0, made0;
      var at := KeyThatSigned(sig.ref);
      var keep, resign := JudgeSig(rrset, sig, at);
      if keep {
        if at.Some? {
          nowsignedby[at.value] := true;
        }
        if sigTtl != ttl {
          del := del + [Tuple(sigTtl, sig)];
          add := add + [Tuple(ttl, sig)];
        }
      } else {
        del := del + [Tuple(sigTtl, sig)];
      }
      if resign {
        add := add + [Tuple(ttl, c.sign(keys[at.value], made))];
        made := made + 1;
        nowsignedby[at.value] := true;
      }
    }

    /** Decide about every signature of an RRset and make the missing ones. */
    method SignRRset(rrset: RRset, ttl: nat, sigs: seq<Sig>, sigTtl: nat)
      returns (del: seq<Tuple>, add: seq<Tuple>)
      requires DiskOk(c)
      modifies this`keys
      ensures var r := SignAll(c, rrset, ttl, old(keys), sigs, sigTtl);
              keys == r.keys && del == r.del && add == r.add
    {
      var nowsignedby := new bool[|keys| + |sigs|](_ => false);
      var made := 0;
      del, add := [], [];
      ghost var w0 := Work(keys, {}, [], [], 0);
      ghost var w := w0;
      var i := 0;
      while i < |sigs|
        invariant i <= |sigs| && |keys| <= |old(keys)| + i
        invariant w == TakeSigs(c, rrset, ttl, sigTtl, w0, sigs[..i])
        invariant w == Work(keys, w.now, del, add, made)
        invariant forall j :: 0 <= j < nowsignedby.Length ==> (nowsignedby[j] <==> j in w.now)
      {
        TakeNext(c, rrset, ttl, sigTtl, w0, sigs, i);
        ghost var next := TakeSig(c, rrset, ttl, sigTtl, w, sigs[i]);
        del, add, made := TakeOne(rrset, ttl, sigTtl, sigs[i], del, add, made, nowsignedby, w);
        w := next;
        i := i + 1;
      }
      assert sigs[..|sigs|] == sigs;
      add := SignMissing(rrset, ttl, nowsignedby, w, made, add);
    }

    /** The second loop: every signing key that has to and does not sign yet. */
    method SignMissing(rrset: RRset, ttl: nat, nowsignedby: array<bool>, ghost w: Work, made0: nat, add0: seq<Tuple>)
      returns (add: seq<Tuple>)
      requires |keys| <= nowsignedby.Length && w.keys == keys && w.add == add0 && w.made == made0
      requires forall j :: 0 <= j < nowsignedby.Length ==> (nowsignedby[j] <==> j in w.now)
      ensures add == TakeKeys(c, rrset, ttl, w, |keys|).add
    {
      var made := made0;
      add := add0;
      var k := 0;
      while k < |keys|
        invariant k <= |keys|
        invariant TakeKeys(c, rrset, ttl, w, k).add == add && TakeKeys(c, rrset, ttl, w, k).made == made
      {
        var sign := false;
        if !nowsignedby[k] && keys[k].signing {
          if rrset.apexKeys {
            var haveKsk := FindKsk(k);
            sign := keys[k].ksk || !haveKsk || (Zsk(c, keys[k]) && !c.keysetKskOnly);
          } else if Zsk(c, keys[k]) {
            var havePreSig := FindPredecessor(k, nowsignedby, w.now);
            sign := !havePreSig;
          }
        }
        assert sign == MustSign(c, rrset, keys, w.now, k);
        if sign {
          add := add + [Tuple(ttl, c.sign(keys[k], made))];
          made := made + 1;
        }
        k := k + 1;
      }
    }
  }

  function KeyAt(keys: seq<Key>, at: Option<nat>): (k: Option<Key>)
  {
    if at.Some? && at.value < |keys| then Some(keys[at.value]) else None
  }

  function FateOf(c: Config, rrset: RRset, keys: seq<Key>, sig: Sig): Fate {
    Decide(c, rrset, KeyAt(keys, FindKey(keys, sig.ref)), sig)
  }

  /** The key of a reference has been looked for: it is in the list or nowhere. */
  predicate Settled(c: Config, keys: seq<Key>, ref: KeyRef) {
    FindKey(keys, ref).Some? || c.disk(ref).None?
  }

  /** Once looked for, a key is found at the same place whatever is loaded later. */
  lemma SettledStays(c: Config, keys: seq<Key>, ref: KeyRef, other: KeyRef)
    requires DiskOk(c) && Settled(c, keys, ref)
    ensures var more := Loaded(c, keys, other);
            && Settled(c, more, ref) && FindKey(more, ref) == FindKey(keys, ref)
            && KeyAt(more, FindKey(more, ref)) == KeyAt(keys, FindKey(keys, ref))
  {
    var more := Loaded(c, keys, other);
    var r := FindKey(keys, ref);
    if r.Some? {
      FindIs(more, ref, r.value);
    }
  }

  ghost predicate Has(ts: seq<Tuple>, s: Sig) {
    exists i :: 0 <= i < |ts| && ts[i].sig == s
  }

  lemma HasAppend(ts: seq<Tuple>, t: Tuple, s: Sig)
    ensures Has(ts + [t], s) <==> Has(ts, s) || t.sig == s
  {
    var r := ts + [t];
    assert r[|ts|] == t;
    assert forall i :: 0 <= i < |ts| ==> r[i] == ts[i];
  }

  /** The signatures there are once the differences have been applied. */
  ghost predicate InResult(sigs: seq<Sig>, w: Work, s: Sig) {
    (s in sigs && !Has(w.del, s)) || Has(w.add, s)
  }

  /** `x` is a signature made by key `k` of the list. */
  ghost predicate MadeBy(c: Config, keys: seq<Key>, k: nat, x: Sig) {
    k < |keys| && exists n: nat :: x == c.sign(keys[k], n)
  }

  /** What the first loop has done about one signature. */
  ghost predicate Judged(c: Config, rrset: RRset, ttl: nat, sigTtl: nat, w: Work, s: Sig) {
    var at, fate := FindKey(w.keys, s.ref), FateOf(c, rrset, w.keys, s);
    && Settled(c, w.keys, s.ref)
    && (fate == Keep ==> (Has(w.del, s) <==> sigTtl != ttl) && (sigTtl != ttl ==> Has(w.add, s)))
    && (fate != Keep ==> Has(w.del, s))
    && (fate == Resign ==> at.Some? && exists n: nat :: Has(w.add, c.sign(w.keys[at.value], n)))
    && (fate != Drop && at.Some? ==> at.value in w.now)
  }

  /** Where an added signature comes from. */
  ghost predicate Justified(c: Config, rrset: RRset, keys: seq<Key>, sigs: seq<Sig>, x: Sig) {
    || (x in sigs && FateOf(c, rrset, keys, x) == Keep)
    || exists s :: s in sigs && Remade(c, rrset, keys, s, x)
  }

  /** `x` was made in place of the signature `s`, by its key. */
  ghost predicate Remade(c: Config, rrset: RRset, keys: seq<Key>, s: Sig, x: Sig) {
    var at := FindKey(keys, s.ref);
    FateOf(c, rrset, keys, s) == Resign && at.Some? && keys[at.value].signing && MadeBy(c, keys, at.value, x)
  }

  /** Why a key counts as signing: a signature of it was kept or replaced. */
  ghost predicate SignsNow(c: Config, rrset: RRset, keys: seq<Key>, sigs: seq<Sig>, j: nat) {
    exists s :: s in sigs && FindKey(keys, s.ref) == Some(j) && FateOf(c, rrset, keys, s) != Drop
  }

  /** Every signature has been dealt with. */
  ghost predicate AllJudged(c: Config, rrset: RRset, ttl: nat, sigTtl: nat, sigs: seq<Sig>, w: Work) {
    forall i :: 0 <= i < |sigs| ==> Judged(c, rrset, ttl, sigTtl, w, sigs[i])
  }

  /** Nothing else has been deleted. */
  ghost predicate OnlyDeleted(sigs: seq<Sig>, w: Work) {
    forall x :: Has(w.del, x) ==> x in sigs
  }

  ghost predicate AllJustified(c: Config, rrset: RRset, sigs: seq<Sig>, w: Work) {
    forall x :: Has(w.add, x) ==> Justified(c, rrset, w.keys, sigs, x)
  }

  ghost predicate AllMarked(c: Config, rrset: RRset, sigs: seq<Sig>, w: Work) {
    forall j :: j in w.now ==> SignsNow(c, rrset, w.keys, sigs, j)
  }

  /** The keys loaded from disk come after the given ones and do not sign. */
  ghost predicate KeysLoaded(keys: seq<Key>, w: Work) {
    keys <= w.keys && forall k :: |keys| <= k < |w.keys| ==> !w.keys[k].signing
  }

  /** What is known after the first loop. */
  ghost predicate LoopDone(c: Config, rrset: RRset, ttl: nat, sigTtl: nat, keys: seq<Key>, sigs: seq<Sig>, w: Work) {
    && KeysLoaded(keys, w) && AllJudged(c, rrset, ttl, sigTtl, sigs, w) && OnlyDeleted(sigs, w)
    && AllJustified(c, rrset, sigs, w) && AllMarked(c, rrset, sigs, w)
  }

  lemma JudgedStays(c: Config, rrset: RRset, ttl: nat, sigTtl: nat, w: Work, s: Sig, last: Sig)
    requires DiskOk(c) && Judged(c, rrset, ttl, sigTtl, w, s) && s != last
    ensures Judged(c, rrset, ttl, sigTtl, TakeSig(c, rrset, ttl, sigTtl, w, last), s)
    ensures FateOf(c, rrset, TakeSig(c, rrset, ttl, sigTtl, w, last).keys, s) == FateOf(c, rrset, w.keys, s)
    ensures FindKey(TakeSig(c, rrset, ttl, sigTtl, w, last).keys, s.ref) == FindKey(w.keys, s.ref)
  {
    var t := TakeSig(c, rrset, ttl, sigTtl, w, last);
    SettledStays(c, w.keys, s.ref, last.ref);
    LoadedFinds(c, w.keys, last.ref);
    TuplesGrow(c, rrset, ttl, sigTtl, w, last);
    JudgedGrows(c, rrset, ttl, sigTtl, w, t, s);
  }

  lemma JudgedGrows(c: Config, rrset: RRset, ttl: nat, sigTtl: nat, w: Work, t: Work, s: Sig)
    requires Judged(c, rrset, ttl, sigTtl, w, s) && w.keys <= t.keys && w.now <= t.now
    requires Settled(c, t.keys, s.ref) && FindKey(t.keys, s.ref) == FindKey(w.keys, s.ref)
    requires Has(t.del, s) <==> Has(w.del, s)
    requires forall x :: Has(w.add, x) ==> Has(t.add, x)
    ensures Judged(c, rrset, ttl, sigTtl, t, s) && FateOf(c, rrset, t.keys, s) == FateOf(c, rrset, w.keys, s)
  {
    var at := FindKey(w.keys, s.ref);
    assert at.Some? ==> t.keys[at.value] == w.keys[at.value];
    if FateOf(c, rrset, w.keys, s) == Resign {
      var n: nat :| Has(w.add, c.sign(w.keys[at.value], n));
      assert Has(t.add, c.sign(t.keys[at.value], n));
    }
  }

  /** One more signature adds at most one tuple to each list. */
  lemma TuplesGrow(c: Config, rrset: RRset, ttl: nat, sigTtl: nat, w: Work, last: Sig)
    ensures var t := TakeSig(c, rrset, ttl, sigTtl, w, last);
            && (forall x :: Has(w.del, x) ==> Has(t.del, x))
            && (forall x :: Has(t.del, x) ==> Has(w.del, x) || x == last)
            && (forall x :: Has(w.add, x) ==> Has(t.add, x))
            && w.now <= t.now
  {
    var t := TakeSig(c, rrset, ttl, sigTtl, w, last);
    forall x
      ensures Has(w.del, x) ==> Has(t.del, x)
      ensures Has(t.del, x) ==> Has(w.del, x) || x == last
      ensures Has(w.add, x) ==> Has(t.add, x)
    {
      HasAppend(w.del, Tuple(sigTtl, last), x);
      if |t.add| > |w.add| {
        HasAppend(w.add, t.add[|w.add|], x);
      }
    }
  }

  lemma LastJudged(c: Config, rrset: RRset, ttl: nat, sigTtl: nat, w: Work, last: Sig)
    requires DiskOk(c) && !Has(w.del, last)
    ensures Judged(c, rrset, ttl, sigTtl, TakeSig(c, rrset, ttl, sigTtl, w, last), last)
  {
    var t := TakeSig(c, rrset, ttl, sigTtl, w, last);
    LoadedFinds(c, w.keys, last.ref);
    HasAppend(w.del, Tuple(sigTtl, last), last);
    if |t.add| > |w.add| {
      HasAppend(w.add, t.add[|w.add|], t.add[|w.add|].sig);
    }
  }

  ghost predicate NoRepeats(sigs: seq<Sig>) {
    forall i, j :: 0 <= i < j < |sigs| ==> sigs[i] != sigs[j]
  }

  lemma AddJustified(c: Config, rrset: RRset, ttl: nat, sigTtl: nat, sigs: seq<Sig>, w: Work, last: Sig, x: Sig)
    requires DiskOk(c) && AllJudged(c, rrset, ttl, sigTtl, sigs, w) && AllJustified(c, rrset, sigs, w) && last !in sigs
    requires Has(TakeSig(c, rrset, ttl, sigTtl, w, last).add, x)
    ensures Justified(c, rrset, TakeSig(c, rrset, ttl, sigTtl, w, last).keys, sigs + [last], x)
  {
    if Has(w.add, x) {
      StillJustified(c, rrset, ttl, sigTtl, sigs, w, last, x);
    } else {
      NewlyJustified(c, rrset, ttl, sigTtl, sigs, w, last, x);
    }
  }

  lemma StillJustified(c: Config, rrset: RRset, ttl: nat, sigTtl: nat, sigs: seq<Sig>, w: Work, last: Sig, x: Sig)
    requires DiskOk(c) && AllJudged(c, rrset, ttl, sigTtl, sigs, w) && last !in sigs
    requires Justified(c, rrset, w.keys, sigs, x)
    ensures Justified(c, rrset, TakeSig(c, rrset, ttl, sigTtl, w, last).keys, sigs + [last], x)
  {
    if x in sigs && FateOf(c, rrset, w.keys, x) == Keep {
      var i :| 0 <= i < |sigs| && sigs[i] == x;
      JudgedStays(c, rrset, ttl, sigTtl, w, x, last);
      assert x in sigs + [last];
    } else {
      var s :| s in sigs && Remade(c, rrset, w.keys, s, x);
      RemadeStays(c, rrset, w.keys, last.ref, s, x);
      assert s in sigs + [last];
    }
  }

  lemma NewlyJustified(c: Config, rrset: RRset, ttl: nat, sigTtl: nat, sigs: seq<Sig>, w: Work, last: Sig, x: Sig)
    requires DiskOk(c) && !Has(w.add, x) && Has(TakeSig(c, rrset, ttl, sigTtl, w, last).add, x)
    ensures Justified(c, rrset, TakeSig(c, rrset, ttl, sigTtl, w, last).keys, sigs + [last], x)
  {
    var t := TakeSig(c, rrset, ttl, sigTtl, w, last);
    LoadedFinds(c, w.keys, last.ref);
    HasAppend(w.add, t.add[|w.add|], x);
    assert last in sigs + [last];
    if FateOf(c, rrset, t.keys, last) != Keep {
      assert Remade(c, rrset, t.keys, last, x);
    }
  }

  lemma RemadeStays(c: Config, rrset: RRset, keys: seq<Key>, other: KeyRef, s: Sig, x: Sig)
    requires DiskOk(c) && Remade(c, rrset, keys, s, x)
    ensures Remade(c, rrset, Loaded(c, keys, other), s, x)
  {
    SettledStays(c, keys, s.ref, other);
    LoadedFinds(c, keys, other);
    RemadeGrows(c, rrset, keys, Loaded(c, keys, other), s, x);
  }

  lemma RemadeGrows(c: Config, rrset: RRset, keys: seq<Key>, more: seq<Key>, s: Sig, x: Sig)
    requires Remade(c, rrset, keys, s, x) && keys <= more && FindKey(more, s.ref) == FindKey(keys, s.ref)
    requires FateOf(c, rrset, more, s) == FateOf(c, rrset, keys, s)
    ensures Remade(c, rrset, more, s, x)
  {
    var at := FindKey(keys, s.ref).value;
    assert more[at] == keys[at];
  }

  lemma NowJustified(c: Config, rrset: RRset, ttl: nat, sigTtl: nat, sigs: seq<Sig>, w: Work, last: Sig, j: nat)
    requires DiskOk(c) && AllJudged(c, rrset, ttl, sigTtl, sigs, w) && AllMarked(c, rrset, sigs, w) && last !in sigs
    requires j in TakeSig(c, rrset, ttl, sigTtl, w, last).now
    ensures SignsNow(c, rrset, TakeSig(c, rrset, ttl, sigTtl, w, last).keys, sigs + [last], j)
  {
    if j in w.now {
      var s :| s in sigs && FindKey(w.keys, s.ref) == Some(j) && FateOf(c, rrset, w.keys, s) != Drop;
      var i :| 0 <= i < |sigs| && sigs[i] == s;
      JudgedStays(c, rrset, ttl, sigTtl, w, s, last);
      assert s in sigs + [last];
    } else {
      assert last in sigs + [last];
    }
  }

  lemma JudgedStep(c: Config, rrset: RRset, ttl: nat, sigTtl: nat, sigs: seq<Sig>, w: Work, last: Sig)
    requires DiskOk(c) && AllJudged(c, rrset, ttl, sigTtl, sigs, w) && OnlyDeleted(sigs, w) && last !in sigs
    ensures AllJudged(c, rrset, ttl, sigTtl, sigs + [last], TakeSig(c, rrset, ttl, sigTtl, w, last))
  {
    var t, all := TakeSig(c, rrset, ttl, sigTtl, w, last), sigs + [last];
    forall i | 0 <= i < |all|
      ensures Judged(c, rrset, ttl, sigTtl, t, all[i])
    {
      if i < |sigs| {
        assert all[i] == sigs[i];
        JudgedStays(c, rrset, ttl, sigTtl, w, sigs[i], last);
      } else {
        LastJudged(c, rrset, ttl, sigTtl, w, last);
      }
    }
  }

  lemma DeletedStep(c: Config, rrset: RRset, ttl: nat, sigTtl: nat, sigs: seq<Sig>, w: Work, last: Sig)
    requires OnlyDeleted(sigs, w)
    ensures OnlyDeleted(sigs + [last], TakeSig(c, rrset, ttl, sigTtl, w, last))
  {
    TuplesGrow(c, rrset, ttl, sigTtl, w, last);
    assert forall x :: x in sigs || x == last ==> x in sigs + [last];
  }

  lemma JustifiedStep(c: Config, rrset: RRset, ttl: nat, sigTtl: nat, sigs: seq<Sig>, w: Work, last: Sig)
    requires DiskOk(c) && AllJudged(c, rrset, ttl, sigTtl, sigs, w) && AllJustified(c, rrset, sigs, w) && last !in sigs
    ensures AllJustified(c, rrset, sigs + [last], TakeSig(c, rrset, ttl, sigTtl, w, last))
  {
    var t := TakeSig(c, rrset, ttl, sigTtl, w, last);
    forall x | Has(t.add, x)
      ensures Justified(c, rrset, t.keys, sigs + [last], x)
    {
      AddJustified(c, rrset, ttl, sigTtl, sigs, w, last, x);
    }
  }

  lemma MarkedStep(c: Config, rrset: RRset, ttl: nat, sigTtl: nat, sigs: seq<Sig>, w: Work, last: Sig)
    requires DiskOk(c) && AllJudged(c, rrset, ttl, sigTtl, sigs, w) && AllMarked(c, rrset, sigs, w) && last !in sigs
    ensures AllMarked(c, rrset, sigs + [last], TakeSig(c, rrset, ttl, sigTtl, w, last))
  {
    var t := TakeSig(c, rrset, ttl, sigTtl, w, last);
    forall j | j in t.now
      ensures SignsNow(c, rrset, t.keys, sigs + [last], j)
    {
      NowJustified(c, rrset, ttl, sigTtl, sigs, w, last, j);
    }
  }

  lemma LoadedStep(c: Config, rrset: RRset, ttl: nat, sigTtl: nat, keys: seq<Key>, w: Work, last: Sig)
    requires KeysLoaded(keys, w)
    ensures KeysLoaded(keys, TakeSig(c, rrset, ttl, sigTtl, w, last))
  {
    assert TakeSig(c, rrset, ttl, sigTtl, w, last).keys == Loaded(c, w.keys, last.ref);
  }

  /** A mark that `LoopKnown` asks for: the facts are there, but come up only where they are
      needed. */
  ghost predicate Open(w: Work) { true }

  ghost predicate LoopKnown(c: Config, rrset: RRset, ttl: nat, sigTtl: nat, keys: seq<Key>, sigs: seq<Sig>, w: Work) {
    forall v {:trigger Open(v)} :: v == w && Open(v) ==> LoopDone(c, rrset, ttl, sigTtl, keys, sigs, v)
  }

  lemma LoopBegins(c: Config, rrset: RRset, ttl: nat, sigTtl: nat, keys: seq<Key>)
    ensures LoopKnown(c, rrset, ttl, sigTtl, keys, [], Work(keys, {}, [], [], 0))
  {
    var w := Work(keys, {}, [], [], 0);
    assert LoopDone(c, rrset, ttl, sigTtl, keys, [], w);
  }

  lemma LoopStep(c: Config, rrset: RRset, ttl: nat, sigTtl: nat, keys: seq<Key>, sigs: seq<Sig>, w: Work, last: Sig)
    requires DiskOk(c) && LoopKnown(c, rrset, ttl, sigTtl, keys, sigs, w) && last !in sigs
    ensures LoopKnown(c, rrset, ttl, sigTtl, keys, sigs + [last], TakeSig(c, rrset, ttl, sigTtl, w, last))
  {
    assert Open(w);
    JudgedStep(c, rrset, ttl, sigTtl, sigs, w, last);
    DeletedStep(c, rrset, ttl, sigTtl, sigs, w, last);
    JustifiedStep(c, rrset, ttl, sigTtl, sigs, w, last);
    MarkedStep(c, rrset, ttl, sigTtl, sigs, w, last);
    LoadedStep(c, rrset, ttl, sigTtl, keys, w, last);
  }

  lemma {:induction false} LoopSteps(c: Config, rrset: RRset, ttl: nat, sigTtl: nat, keys: seq<Key>, sigs: seq<Sig>)
    requires DiskOk(c) && NoRepeats(sigs)
    ensures LoopKnown(c, rrset, ttl, sigTtl, keys, sigs,
                      TakeSigs(c, rrset, ttl, sigTtl, Work(keys, {}, [], [], 0), sigs))
    decreases sigs
  {
    if sigs == [] {
      LoopBegins(c, rrset, ttl, sigTtl, keys);
    } else {
      var init, last := sigs[..|sigs| - 1], sigs[|sigs| - 1];
      var w := TakeSigs(c, rrset, ttl, sigTtl, Work(keys, {}, [], [], 0), init);
      LoopSteps(c, rrset, ttl, sigTtl, keys, init);
      LoopStep(c, rrset, ttl, sigTtl, keys, init, w, last);
      assert sigs == init + [last];
    }
  }

  /** What the first loop does. */
  lemma LoopOne(c: Config, rrset: RRset, ttl: nat, sigTtl: nat, keys: seq<Key>, sigs: seq<Sig>)
    requires DiskOk(c) && NoRepeats(sigs)
    ensures LoopDone(c, rrset, ttl, sigTtl, keys, sigs,
                     TakeSigs(c, rrset, ttl, sigTtl, Work(keys, {}, [], [], 0), sigs))
  {
    LoopSteps(c, rrset, ttl, sigTtl, keys, sigs);
    assert Open(TakeSigs(c, rrset, ttl, sigTtl, Work(keys, {}, [], [], 0), sigs));
  }

  /** The second loop only adds: what was there, and a signature for each key that must sign. */
  lemma {:induction false} LoopTwo(c: Config, rrset: RRset, ttl: nat, w: Work, n: nat)
    requires n <= |w.keys|
    ensures var r := TakeKeys(c, rrset, ttl, w, n);
            && (forall x :: Has(w.add, x) ==> Has(r.add, x))
            && (forall x :: Has(r.add, x) ==>
                  || Has(w.add, x)
                  || exists k: nat :: k < n && MustSign(c, rrset, w.keys, w.now, k) && MadeBy(c, w.keys, k, x))
            && (forall k: nat :: k < n && MustSign(c, rrset, w.keys, w.now, k) ==>
                  exists m: nat :: Has(r.add, c.sign(w.keys[k], m)))
  {
    if n > 0 {
      LoopTwo(c, rrset, ttl, w, n - 1);
      var q := TakeKeys(c, rrset, ttl, w, n - 1);
      var r := TakeKeys(c, rrset, ttl, w, n);
      if MustSign(c, rrset, w.keys, w.now, n - 1) {
        var made := c.sign(w.keys[n - 1], q.made);
        forall x
          ensures Has(r.add, x) <==> Has(q.add, x) || x == made
        {
          HasAppend(q.add, Tuple(ttl, made), x);
        }
        assert Has(r.add, made) && MadeBy(c, w.keys, n - 1, made);
      }
    }
  }

  /** Every algorithm with a signing ZSK has a signature in the result of signing an ordinary
      RRset, even where a key leaves the work to its predecessor. */
  lemma {:induction false} EveryAlgorithmSigned(
    c: Config, rrset: RRset, ttl: nat, keys: seq<Key>, sigs: seq<Sig>, sigTtl: nat, k: nat)
    requires DiskOk(c) && NoRepeats(sigs) && !rrset.apexKeys
    requires forall key, n :: c.sign(key, n).ref == key.ref
    requires k < |keys| && keys[k].signing && Zsk(c, keys[k])
    ensures var r := SignAll(c, rrset, ttl, keys, sigs, sigTtl);
            exists s :: InResult(sigs, r, s) && s.ref.alg == keys[k].ref.alg
  {
    var w := TakeSigs(c, rrset, ttl, sigTtl, Work(keys, {}, [], [], 0), sigs);
    var r := SignAll(c, rrset, ttl, keys, sigs, sigTtl);
    LoopOne(c, rrset, ttl, sigTtl, keys, sigs);
    LoopTwo(c, rrset, ttl, w, |w.keys|);
    if k in w.now {
      var s := NowSigned(c, rrset, ttl, sigTtl, keys, sigs, w, r, k);
    } else if HavePredecessorSig(c, w.keys, w.now, k) {
      var j: nat :| j < |w.keys| && Predecessor(c, w.keys, j, k) && j in w.now;
      var s := NowSigned(c, rrset, ttl, sigTtl, keys, sigs, w, r, j);
    } else {
      assert MustSign(c, rrset, w.keys, w.now, k);
      var m: nat :| Has(r.add, c.sign(w.keys[k], m));
      assert InResult(sigs, r, c.sign(w.keys[k], m));
    }
  }

  /** A signature that was there and may stay: its validity period is one and goes beyond the
      resigning interval, and unless it is from the future or its key is unknown or no zone key,
      it was made for this TTL and verifies. */
  ghost predicate Sound(c: Config, rrset: RRset, key: Option<Key>, s: Sig) {
    && !Gt(s.inception, s.expiration) && !Gt(Until(c), s.expiration)
    && (if key.None? || Lt(c.now, s.inception) then
          !c.removeOrphans && (Lt(c.now, s.inception) || !c.expected(s.ref.owner))
        else
          && (key.value.active || !c.removeInactive)
          && (key.value.signing || key.value.published || !c.removeOrphans)
          && (key.value.signing || key.value.zoneKey ==> s.originalTtl == rrset.ttl && c.verify(key.value, s)))
  }

  /** Nothing else is in the result: each signature in it was made by a signing key or is sound. */
  lemma {:induction false} OnlySoundSignatures(
    c: Config, rrset: RRset, ttl: nat, keys: seq<Key>, sigs: seq<Sig>, sigTtl: nat, s: Sig)
    requires DiskOk(c) && NoRepeats(sigs)
    requires InResult(sigs, SignAll(c, rrset, ttl, keys, sigs, sigTtl), s)
    ensures var r := SignAll(c, rrset, ttl, keys, sigs, sigTtl);
            || (exists k: nat :: k < |r.keys| && r.keys[k].signing && MadeBy(c, r.keys, k, s))
            || (s in sigs && Sound(c, rrset, KeyAt(r.keys, FindKey(r.keys, s.ref)), s))
  {
    var w := TakeSigs(c, rrset, ttl, sigTtl, Work(keys, {}, [], [], 0), sigs);
    var r := SignAll(c, rrset, ttl, keys, sigs, sigTtl);
    LoopOne(c, rrset, ttl, sigTtl, keys, sigs);
    LoopTwo(c, rrset, ttl, w, |w.keys|);
    if Has(w.add, s) {
      assert Justified(c, rrset, w.keys, sigs, s);
    } else if s in sigs && !Has(w.del, s) {
      var i :| 0 <= i < |sigs| && sigs[i] == s;
      assert Judged(c, rrset, ttl, sigTtl, w, sigs[i]);
    }
    KeepIsSound(c, rrset, KeyAt(w.keys, FindKey(w.keys, s.ref)), s);
  }

  /** And nothing sound is lost. */
  lemma {:induction false} SoundStays(
    c: Config, rrset: RRset, ttl: nat, keys: seq<Key>, sigs: seq<Sig>, sigTtl: nat, s: Sig)
    requires DiskOk(c) && NoRepeats(sigs) && s in sigs
    requires var r := SignAll(c, rrset, ttl, keys, sigs, sigTtl);
             Sound(c, rrset, KeyAt(r.keys, FindKey(r.keys, s.ref)), s)
    ensures InResult(sigs, SignAll(c, rrset, ttl, keys, sigs, sigTtl), s)
  {
    var w := TakeSigs(c, rrset, ttl, sigTtl, Work(keys, {}, [], [], 0), sigs);
    LoopOne(c, rrset, ttl, sigTtl, keys, sigs);
    LoopTwo(c, rrset, ttl, w, |w.keys|);
    var i :| 0 <= i < |sigs| && sigs[i] == s;
    assert Judged(c, rrset, ttl, sigTtl, w, sigs[i]);
    KeepIsSound(c, rrset, KeyAt(w.keys, FindKey(w.keys, s.ref)), s);
  }

  lemma KeepIsSound(c: Config, rrset: RRset, key: Option<Key>, s: Sig)
    ensures Decide(c, rrset, key, s) == Keep <==> Sound(c, rrset, key, s)
  {
  }

  /** A key that counts as signing has a signature in the result. */
  lemma NowSigned(c: Config, rrset: RRset, ttl: nat, sigTtl: nat, keys: seq<Key>, sigs: seq<Sig>,
                  w: Work, r: Work, j: nat)
    returns (s: Sig)
    requires LoopDone(c, rrset, ttl, sigTtl, keys, sigs, w) && j in w.now
    requires r.del == w.del && r.keys == w.keys && forall x :: Has(w.add, x) ==> Has(r.add, x)
    requires forall key, n :: c.sign(key, n).ref == key.ref
    ensures j < |w.keys| && InResult(sigs, r, s) && s.ref == w.keys[j].ref
  {
    assert SignsNow(c, rrset, w.keys, sigs, j);
    var t :| t in sigs && FindKey(w.keys, t.ref) == Some(j) && FateOf(c, rrset, w.keys, t) != Drop;
    var i :| 0 <= i < |sigs| && sigs[i] == t;
    assert Judged(c, rrset, ttl, sigTtl, w, sigs[i]);
    if FateOf(c, rrset, w.keys, t) == Keep {
      s := t;
    } else {
      var n: nat :| Has(w.add, c.sign(w.keys[j], n));
      s := c.sign(w.keys[j], n);
    }
  }

  ghost predicate DistinctKeys(keys: seq<Key>) {
    forall i, j :: 0 <= i < j < |keys| ==> keys[i].ref != keys[j].ref
  }

  /** New signatures are good ones: they carry the key's reference and the set's TTL, verify,
      have begun, last beyond the resigning interval, and their keys are not about to have
      their signatures removed as inactive. */
  ghost predicate GoodSignatures(c: Config, rrset: RRset, keys: seq<Key>) {
    forall k: nat, n: nat {:trigger c.sign(keys[k], n)} :: k < |keys| && keys[k].signing ==>
      GoodSignature(c, rrset, keys[k], c.sign(keys[k], n))
  }

  ghost predicate GoodSignature(c: Config, rrset: RRset, key: Key, x: Sig) {
    && x.ref == key.ref && x.originalTtl == rrset.ttl && c.verify(key, x)
    && !Lt(c.now, x.inception) && !Gt(Until(c), x.expiration) && !Gt(x.inception, x.expiration)
    && (key.active || !c.removeInactive)
  }

  /** A made signature is found to belong to its key and kept. */
  lemma MadeIsKept(c: Config, rrset: RRset, keys: seq<Key>, w: Work, k: nat, x: Sig)
    requires DistinctKeys(keys) && GoodSignatures(c, rrset, keys) && keys <= w.keys
    requires k < |keys| && keys[k].signing && MadeBy(c, w.keys, k, x)
    ensures FindKey(w.keys, x.ref) == Some(k) && FateOf(c, rrset, w.keys, x) == Keep
  {
    var n: nat :| x == c.sign(w.keys[k], n);
    assert w.keys[k] == keys[k] && x == c.sign(keys[k], n);
    assert GoodSignature(c, rrset, keys[k], x);
    forall j | 0 <= j < k
      ensures w.keys[j].ref != x.ref
    {
      assert w.keys[j] == keys[j];
    }
    FindIs(w.keys, x.ref, k);
  }

  /** Everything in the result of a first run would be kept by a second. */
  lemma ResultIsKept(c: Config, rrset: RRset, ttl: nat, sigTtl: nat, keys: seq<Key>, sigs: seq<Sig>,
                     w: Work, r: Work, s: Sig)
    requires LoopDone(c, rrset, ttl, sigTtl, keys, sigs, w) && r == TakeKeys(c, rrset, ttl, w, |w.keys|)
    requires DistinctKeys(keys) && GoodSignatures(c, rrset, keys) && InResult(sigs, r, s)
    ensures Settled(c, r.keys, s.ref) && FateOf(c, rrset, r.keys, s) == Keep
  {
    LoopTwo(c, rrset, ttl, w, |w.keys|);
    if k: nat :| k < |w.keys| && w.keys[k].signing && MadeBy(c, w.keys, k, s) {
      MadeIsKept(c, rrset, keys, w, k, s);
    } else {
      assert Has(w.add, s) ==> Justified(c, rrset, w.keys, sigs, s);
      var i :| 0 <= i < |sigs| && sigs[i] == s;
      assert Judged(c, rrset, ttl, sigTtl, w, sigs[i]);
    }
  }

  /** If all signatures are kept and have the right TTL, the first loop changes nothing. */
  lemma {:induction false} AllKept(c: Config, rrset: RRset, ttl: nat, keys: seq<Key>, sigs: seq<Sig>)
    requires forall i :: 0 <= i < |sigs| ==> Settled(c, keys, sigs[i].ref) && FateOf(c, rrset, keys, sigs[i]) == Keep
    ensures var w := TakeSigs(c, rrset, ttl, ttl, Work(keys, {}, [], [], 0), sigs);
            && w.keys == keys && w.del == [] && w.add == [] && w.made == 0
            && forall s :: s in sigs && FindKey(keys, s.ref).Some? ==> FindKey(keys, s.ref).value in w.now
    decreases sigs
  {
    if sigs != [] {
      var init, last := sigs[..|sigs| - 1], sigs[|sigs| - 1];
      AllKept(c, rrset, ttl, keys, init);
      assert forall s :: s in sigs ==> s in init || s == last;
      assert Settled(c, keys, last.ref) && FateOf(c, rrset, keys, last) == Keep;
    }
  }

  lemma {:induction false} NothingMissing(c: Config, rrset: RRset, ttl: nat, w: Work, n: nat)
    requires n <= |w.keys| && forall k: nat :: k < |w.keys| ==> !MustSign(c, rrset, w.keys, w.now, k)
    ensures TakeKeys(c, rrset, ttl, w, n) == w
  {
    if n > 0 {
      NothingMissing(c, rrset, ttl, w, n - 1);
    }
  }

  /** Signing again what has just been signed changes nothing: no signature is removed or
      added and no key is loaded. */
  lemma {:induction false} SigningAgainChangesNothing(
    c: Config, rrset: RRset, ttl: nat, keys: seq<Key>, sigs: seq<Sig>, sigTtl: nat, again: seq<Sig>)
    requires DiskOk(c) && NoRepeats(sigs) && DistinctKeys(keys) && GoodSignatures(c, rrset, keys)
    requires var r := SignAll(c, rrset, ttl, keys, sigs, sigTtl);
             forall s :: s in again <==> InResult(sigs, r, s)
    ensures var r := SignAll(c, rrset, ttl, keys, sigs, sigTtl);
            var r2 := SignAll(c, rrset, ttl, r.keys, again, ttl);
            r2.del == [] && r2.add == [] && r2.keys == r.keys
  {
    var w := TakeSigs(c, rrset, ttl, sigTtl, Work(keys, {}, [], [], 0), sigs);
    var r := SignAll(c, rrset, ttl, keys, sigs, sigTtl);
    LoopOne(c, rrset, ttl, sigTtl, keys, sigs);
    forall i | 0 <= i < |again|
      ensures Settled(c, r.keys, again[i].ref) && FateOf(c, rrset, r.keys, again[i]) == Keep
    {
      assert again[i] in again;
      ResultIsKept(c, rrset, ttl, sigTtl, keys, sigs, w, r, again[i]);
    }
    AllKept(c, rrset, ttl, r.keys, again);
    var w2 := TakeSigs(c, rrset, ttl, ttl, Work(r.keys, {}, [], [], 0), again);
    SignersSignAgain(c, rrset, ttl, sigTtl, keys, sigs, w, r, again, w2.now);
    NothingMissing(c, rrset, ttl, w2, |w2.keys|);
  }

  /** In a second run every key that counted as signing or had to sign counts as signing. */
  lemma SignersSignAgain(c: Config, rrset: RRset, ttl: nat, sigTtl: nat, keys: seq<Key>, sigs: seq<Sig>,
                         w: Work, r: Work, again: seq<Sig>, now2: set<nat>)
    requires LoopDone(c, rrset, ttl, sigTtl, keys, sigs, w) && r == TakeKeys(c, rrset, ttl, w, |w.keys|)
    requires DistinctKeys(keys) && GoodSignatures(c, rrset, keys)
    requires forall s :: s in again <==> InResult(sigs, r, s)
    requires forall s :: s in again && FindKey(r.keys, s.ref).Some? ==> FindKey(r.keys, s.ref).value in now2
    ensures forall k: nat :: k < |w.keys| ==> !MustSign(c, rrset, w.keys, now2, k)
  {
    LoopTwo(c, rrset, ttl, w, |w.keys|);
    forall j | j in w.now
      ensures j in now2
    {
      NowStaysSigned(c, rrset, ttl, sigTtl, keys, sigs, w, r, again, now2, j);
    }
    forall k: nat | k < |w.keys|
      ensures !MustSign(c, rrset, w.keys, now2, k)
    {
      if MustSign(c, rrset, w.keys, w.now, k) {
        var m: nat :| Has(r.add, c.sign(w.keys[k], m));
        var x := c.sign(w.keys[k], m);
        assert MadeBy(c, w.keys, k, x) && InResult(sigs, r, x);
        MadeIsKept(c, rrset, keys, w, k, x);
      }
    }
  }

  lemma NowStaysSigned(c: Config, rrset: RRset, ttl: nat, sigTtl: nat, keys: seq<Key>, sigs: seq<Sig>, w: Work, r: Work,
                       again: seq<Sig>, now2: set<nat>, j: nat)
    requires LoopDone(c, rrset, ttl, sigTtl, keys, sigs, w) && j in w.now
    requires r.del == w.del && r.keys == w.keys && forall x :: Has(w.add, x) ==> Has(r.add, x)
    requires DistinctKeys(keys) && GoodSignatures(c, rrset, keys)
    requires forall s :: s in again <==> InResult(sigs, r, s)
    requires forall s :: s in again && FindKey(r.keys, s.ref).Some? ==> FindKey(r.keys, s.ref).value in now2
    ensures j in now2
  {
    assert SignsNow(c, rrset, w.keys, sigs, j);
    var t :| t in sigs && FindKey(w.keys, t.ref) == Some(j) && FateOf(c, rrset, w.keys, t) != Drop;
    var i :| 0 <= i < |sigs| && sigs[i] == t;
    assert Judged(c, rrset, ttl, sigTtl, w, sigs[i]);
    if FateOf(c, rrset, w.keys, t) == Keep {
      assert InResult(sigs, r, t) && t in again;
    } else {
      var n: nat :| Has(w.add, c.sign(w.keys[j], n));
      var x := c.sign(w.keys[j], n);
      assert MadeBy(c, w.keys, j, x) && InResult(sigs, r, x) && x in again;
      MadeIsKept(c, rrset, keys, w, j, x);
    }
  }
}
