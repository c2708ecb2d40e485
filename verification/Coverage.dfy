/** Which algorithms an RRset is provably signed with after `signset`.

`signset` keeps a signature dated in the future without verifying it and counts its key as
signing.  An algorithm can then be left with such signatures only.  Everything here is said of
the keys and signatures the call begins with.
*/
module Coverage {
  import opened Names
  import opened Serials
  import opened SignSet

  /** A call of `signset`. */
  datatype Call = Call(c: Config, rrset: RRset, ttl: nat, keys: seq<Key>, sigs: seq<Sig>, sigTtl: nat) {

    ghost function Loop(): Work {
      TakeSigs(c, rrset, ttl, sigTtl, Work(keys, {}, [], [], 0), sigs)
    }

    ghost function Result(): Work {
      SignAll(c, rrset, ttl, keys, sigs, sigTtl)
    }

    /** Key files are named after their keys, keys and signatures are not repeated, and what a
        signing key makes is a good signature. */
    ghost predicate Ordinary() {
      DiskOk(c) && NoRepeats(sigs) && DistinctKeys(keys) && GoodSignatures(c, rrset, keys)
    }

    /** The key a signature refers to, in the list or on disk. */
    function KeyFor(ref: KeyRef): Option<Key> {
      var at := FindKey(keys, ref);
      if at.Some? then Some(keys[at.value])
      else if c.disk(ref).Some? then Some(Passive(c.disk(ref).value))
      else None
    }

    /** A signature that a signing key replaces: begun, but not good any more. */
    predicate Renewed(s: Sig) {
      var key := KeyFor(s.ref);
      && key.Some? && key.value.signing && (key.value.active || !c.removeInactive)
      && !Gt(s.inception, s.expiration) && !Lt(c.now, s.inception)
      && (Gt(Until(c), s.expiration) || s.originalTtl != rrset.ttl || !c.verify(key.value, s))
    }

    ghost predicate Stays(s: Sig) {
      Sound(c, rrset, KeyFor(s.ref), s)
    }

    /** The signature makes its key count as signing. */
    ghost predicate Marks(s: Sig) {
      KeyFor(s.ref).Some? && (Stays(s) || Renewed(s))
    }

    /** The signature has begun and verifies. */
    predicate Proves(s: Sig) {
      !Lt(c.now, s.inception) && KeyFor(s.ref).Some? && c.verify(KeyFor(s.ref).value, s)
    }

    /** A signature marks key `k` or its linked predecessor. */
    ghost predicate Covered(k: Key) {
      exists s :: s in sigs && Marks(s) && (s.ref == k.ref || Linked(c, KeyFor(s.ref).value, k))
    }

    /** The algorithm has a signature that proves something, or one that is replaced, or a signing
        ZSK that has nothing to rely on and so signs. */
    ghost predicate Provable(alg: nat) {
      || (exists s :: s in sigs && s.ref.alg == alg && (Renewed(s) || (Stays(s) && Proves(s))))
      || (exists k :: k in keys && k.ref.alg == alg && k.signing && Zsk(c, k) && !Covered(k))
    }

    ghost predicate Proven(alg: nat) {
      exists s :: InResult(sigs, Result(), s) && s.ref.alg == alg && Proves(s)
    }

    // ---- The keys ----

    /** Loading other keys does not change the key of a reference. */
    lemma KeyForStays(ref: KeyRef, other: KeyRef)
      requires DiskOk(c)
      ensures this.(keys := Loaded(c, keys, other)).KeyFor(ref) == KeyFor(ref)
    {
      var more, at := Loaded(c, keys, other), FindKey(keys, ref);
      if at.Some? {
        FindIs(more, ref, at.value);
      } else if ref == other && c.disk(ref).Some? {
        FindIs(more, ref, |keys|);
      }
    }

    lemma {:induction false} KeyForAfter(ref: KeyRef)
      requires DiskOk(c)
      ensures this.(keys := Loop().keys).KeyFor(ref) == KeyFor(ref)
      decreases |sigs|
    {
      if sigs != [] {
        var init := this.(sigs := sigs[..|sigs| - 1]);
        init.KeyForAfter(ref);
        LastLoads();
        this.(keys := init.Loop().keys).KeyForStays(ref, sigs[|sigs| - 1].ref);
      }
    }

    lemma LastLoads()
      requires sigs != []
      ensures Loop().keys == Loaded(c, this.(sigs := sigs[..|sigs| - 1]).Loop().keys, sigs[|sigs| - 1].ref)
    {
    }

    /** After the first loop the key of a signature is found in the list. */
    lemma KeyFound(s: Sig)
      requires DiskOk(c) && Settled(c, Loop().keys, s.ref)
      ensures KeyAt(Loop().keys, FindKey(Loop().keys, s.ref)) == KeyFor(s.ref)
    {
      KeyForAfter(s.ref);
    }

    /** The fate of a signature in terms of its key. */
    lemma Fates(s: Sig)
      requires DiskOk(c) && NoRepeats(sigs) && s in sigs
      ensures Judged(c, rrset, ttl, sigTtl, Loop(), s)
      ensures KeyAt(Loop().keys, FindKey(Loop().keys, s.ref)) == KeyFor(s.ref)
      ensures FateOf(c, rrset, Loop().keys, s) == Keep <==> Stays(s)
      ensures FateOf(c, rrset, Loop().keys, s) == Resign <==> Renewed(s)
    {
      LoopOne(c, rrset, ttl, sigTtl, keys, sigs);
      var i :| 0 <= i < |sigs| && sigs[i] == s;
      assert Judged(c, rrset, ttl, sigTtl, Loop(), sigs[i]);
      KeyFound(s);
      KeepIsSound(c, rrset, KeyFor(s.ref), s);
      ResignIsRenewed(s);
    }

    lemma ResignIsRenewed(s: Sig)
      ensures Decide(c, rrset, KeyFor(s.ref), s) == Resign <==> Renewed(s)
    {
    }

    /** The keys marked after the first loop are those that signatures mark. */
    lemma NowIsMarked(j: nat)
      requires DiskOk(c) && NoRepeats(sigs) && j < |Loop().keys|
      ensures j in Loop().now <==> exists s :: s in sigs && Marks(s) && FindKey(Loop().keys, s.ref) == Some(j)
    {
      var w := Loop();
      LoopOne(c, rrset, ttl, sigTtl, keys, sigs);
      if j in w.now {
        assert SignsNow(c, rrset, w.keys, sigs, j);
        var s :| s in sigs && FindKey(w.keys, s.ref) == Some(j) && FateOf(c, rrset, w.keys, s) != Drop;
        Fates(s);
        assert Marks(s);
      }
      if s :| s in sigs && Marks(s) && FindKey(w.keys, s.ref) == Some(j) {
        Fates(s);
      }
    }

    // ---- The second loop ----

    /** Keys given to the call stay where they are. */
    lemma KeysStay(k: nat)
      requires Ordinary() && k < |keys|
      ensures k < |Loop().keys| && Loop().keys[k] == keys[k] && FindKey(Loop().keys, keys[k].ref) == Some(k)
    {
      LoopOne(c, rrset, ttl, sigTtl, keys, sigs);
      var w := Loop();
      forall j | 0 <= j < k
        ensures w.keys[j].ref != keys[k].ref
      {
        assert w.keys[j] == keys[j];
      }
      FindIs(w.keys, keys[k].ref, k);
    }

    /** A key counts as covered after the first loop exactly if it is covered. */
    lemma CoveredNow(k: nat)
      requires Ordinary() && k < |keys|
      ensures k < |Loop().keys|
      ensures k in Loop().now || HavePredecessorSig(c, Loop().keys, Loop().now, k) <==> Covered(keys[k])
    {
      var w := Loop();
      KeysStay(k);
      NowIsMarked(k);
      if j: nat :| j < |w.keys| && Predecessor(c, w.keys, j, k) && j in w.now {
        PredecessorCovers(j, k);
      }
      if s :| s in sigs && Marks(s) && (s.ref == keys[k].ref || Linked(c, KeyFor(s.ref).value, keys[k])) {
        Fates(s);
        var j := FindKey(w.keys, s.ref).value;
        NowIsMarked(j);
        assert Linked(c, KeyFor(s.ref).value, keys[k]) ==> Predecessor(c, w.keys, j, k);
      }
    }

    lemma PredecessorCovers(j: nat, k: nat)
      requires Ordinary() && k < |keys| && Predecessor(c, Loop().keys, j, k) && j in Loop().now
      ensures Covered(keys[k])
    {
      KeysStay(k);
      NowIsMarked(j);
      var s :| s in sigs && Marks(s) && FindKey(Loop().keys, s.ref) == Some(j);
      Fates(s);
      assert Linked(c, KeyFor(s.ref).value, keys[k]);
    }

    /** A key of the list that signs was given to the call. */
    lemma SignersGiven(k: nat)
      requires Ordinary() && k < |Loop().keys| && Loop().keys[k].signing
      ensures k < |keys| && Loop().keys[k] == keys[k]
    {
      LoopOne(c, rrset, ttl, sigTtl, keys, sigs);
    }

    /** What a signing key makes proves something. */
    lemma MadeProves(k: nat, x: Sig)
      requires Ordinary() && k < |Loop().keys| && Loop().keys[k].signing && MadeBy(c, Loop().keys, k, x)
      ensures Proves(x) && k < |keys| && x.ref == keys[k].ref
    {
      SignersGiven(k);
      KeysStay(k);
      var n: nat :| x == c.sign(Loop().keys[k], n);
      assert GoodSignature(c, rrset, keys[k], c.sign(keys[k], n));
      assert forall j :: 0 <= j < k ==> keys[j].ref != keys[k].ref;
      FindIs(keys, x.ref, k);
    }

    // ---- The theorem ----

    lemma RenewedIsProven(s: Sig)
      requires Ordinary() && s in sigs && Renewed(s)
      ensures Proven(s.ref.alg)
    {
      var w, r := Loop(), Result();
      Fates(s);
      LoopTwo(c, rrset, ttl, w, |w.keys|);
      var at := FindKey(w.keys, s.ref).value;
      var n: nat :| Has(w.add, c.sign(w.keys[at], n));
      var x := c.sign(w.keys[at], n);
      MadeProves(at, x);
      assert InResult(sigs, r, x);
    }

    lemma StayingIsProven(s: Sig)
      requires Ordinary() && s in sigs && Stays(s) && Proves(s)
      ensures Proven(s.ref.alg)
    {
      var w := Loop();
      Fates(s);
      LoopTwo(c, rrset, ttl, w, |w.keys|);
      assert InResult(sigs, Result(), s);
    }

    lemma UncoveredIsProven(k: nat)
      requires Ordinary() && !rrset.apexKeys && k < |keys| && keys[k].signing && Zsk(c, keys[k]) && !Covered(keys[k])
      ensures Proven(keys[k].ref.alg)
    {
      var w := Loop();
      KeysStay(k);
      CoveredNow(k);
      LoopTwo(c, rrset, ttl, w, |w.keys|);
      assert MustSign(c, rrset, w.keys, w.now, k);
      var m: nat :| Has(Result().add, c.sign(w.keys[k], m));
      MadeProves(k, c.sign(w.keys[k], m));
      assert InResult(sigs, Result(), c.sign(w.keys[k], m));
    }

    /** Key `k` had to make the signature `x`. */
    ghost predicate MadeLast(k: nat, x: Sig) {
      k < |Loop().keys| && MustSign(c, rrset, Loop().keys, Loop().now, k) && MadeBy(c, Loop().keys, k, x)
    }

    /** Where a signature of the result comes from: it was there and stays, replaces one of the same
        key, or was made by a key that had to. */
    lemma Origins(x: Sig)
      requires Ordinary() && InResult(sigs, Result(), x)
      ensures || (x in sigs && Stays(x))
              || (exists s :: s in sigs && Renewed(s) && s.ref == x.ref && Proves(x))
              || (exists k: nat :: MadeLast(k, x))
    {
      var w := Loop();
      LoopOne(c, rrset, ttl, sigTtl, keys, sigs);
      LoopTwo(c, rrset, ttl, w, |w.keys|);
      if k: nat :| k < |w.keys| && MustSign(c, rrset, w.keys, w.now, k) && MadeBy(c, w.keys, k, x) {
        assert MadeLast(k, x);
      } else if s :| s in sigs && Remade(c, rrset, w.keys, s, x) {
        RemadeOrigin(s, x);
      } else {
        Fates(x);
      }
    }

    lemma RemadeOrigin(s: Sig, x: Sig)
      requires Ordinary() && s in sigs && Remade(c, rrset, Loop().keys, s, x)
      ensures Renewed(s) && s.ref == x.ref && Proves(x)
    {
      Fates(s);
      MadeProves(FindKey(Loop().keys, s.ref).value, x);
    }

    lemma Origin(x: Sig)
      requires Ordinary() && !rrset.apexKeys && InResult(sigs, Result(), x) && Proves(x)
      ensures Provable(x.ref.alg)
    {
      Origins(x);
      if k: nat :| MadeLast(k, x) {
        MadeProves(k, x);
        KeysStay(k);
        CoveredNow(k);
        assert keys[k] in keys;
      }
    }

    /** After signing an ordinary RRset an algorithm has a signature that has begun and verifies
        if and only if one of its signatures does and stays, or is replaced, or one of its signing
        ZSKs is neither marked by a signature nor the successor of a key that is. */
    lemma AlgorithmProven(alg: nat)
      requires Ordinary() && !rrset.apexKeys
      ensures Proven(alg) <==> Provable(alg)
    {
      if Proven(alg) {
        var x :| InResult(sigs, Result(), x) && x.ref.alg == alg && Proves(x);
        Origin(x);
      }
      if s :| s in sigs && s.ref.alg == alg && (Renewed(s) || (Stays(s) && Proves(s))) {
        if Renewed(s) {
          RenewedIsProven(s);
        } else {
          StayingIsProven(s);
        }
      }
      if key :| key in keys && key.ref.alg == alg && key.signing && Zsk(c, key) && !Covered(key) {
        var k :| 0 <= k < |keys| && keys[k] == key;
        UncoveredIsProven(k);
      }
    }

    /** So an algorithm with a signing ZSK is proven if every signature of it that marks a key has
        begun and verifies, or is replaced. */
    lemma ZskAlgorithmProven(k: nat)
      requires Ordinary() && !rrset.apexKeys && k < |keys| && keys[k].signing && Zsk(c, keys[k])
      requires forall s :: s in sigs && s.ref.alg == keys[k].ref.alg && Marks(s) ==> Proves(s) || Renewed(s)
      ensures Proven(keys[k].ref.alg)
    {
      AlgorithmProven(keys[k].ref.alg);
      assert keys[k] in keys;
      if Covered(keys[k]) {
        var s :| s in sigs && Marks(s) && (s.ref == keys[k].ref || Linked(c, KeyFor(s.ref).value, keys[k]));
        KeyForRef(s.ref);
        assert s.ref.alg == keys[k].ref.alg;
      }
    }

    lemma KeyForRef(ref: KeyRef)
      requires DiskOk(c)
      ensures KeyFor(ref).Some? ==> KeyFor(ref).value.ref == ref
    {
    }

    // ---- The key sets at the apex ----

    /** The key, or another one of its algorithm that is given, or that a signature refers to, and
        not revoked, is a KSK. */
    ghost predicate KskKnown(k: Key) {
      || k.ksk
      || (exists j :: j in keys && j.ref.alg == k.ref.alg && !j.revoked && j.ksk)
      || (exists s :: s in sigs && Vouches(s, k))
    }

    ghost predicate Vouches(s: Sig, k: Key) {
      var key := KeyFor(s.ref);
      key.Some? && key.value.ref.alg == k.ref.alg && !key.value.revoked && key.value.ksk
    }

    /** A key the first loop has loaded is that of one of the signatures. */
    lemma {:induction false} LoadedFrom(j: nat) returns (s: Sig)
      requires DiskOk(c) && |keys| <= j < |Loop().keys|
      ensures s in sigs && KeyFor(s.ref) == Some(Loop().keys[j])
      decreases |sigs|
    {
      var init, last := this.(sigs := sigs[..|sigs| - 1]), sigs[|sigs| - 1];
      LastLoads();
      LoadedFinds(c, init.Loop().keys, last.ref);
      if j < |init.Loop().keys| {
        s := init.LoadedFrom(j);
        assert init.KeyFor(s.ref) == KeyFor(s.ref);
      } else {
        s := last;
        init.KeyForAfter(last.ref);
        assert init.KeyFor(last.ref) == KeyFor(last.ref);
      }
    }

    /** Whether the second loop finds a KSK. */
    lemma KskFound(k: nat)
      requires DiskOk(c) && NoRepeats(sigs) && k < |keys|
      ensures k < |Loop().keys| && Loop().keys[k] == keys[k]
      ensures HaveKsk(Loop().keys, k) <==> KskKnown(keys[k])
    {
      var w := Loop();
      LoopOne(c, rrset, ttl, sigTtl, keys, sigs);
      if j :| 0 <= j < |w.keys| && w.keys[j].ref.alg == keys[k].ref.alg && !w.keys[j].revoked && w.keys[j].ksk {
        if j < |keys| {
          assert w.keys[j] == keys[j] && keys[j] in keys;
        } else {
          var s := LoadedFrom(j);
          assert Vouches(s, keys[k]);
        }
      }
      if key :| key in keys && key.ref.alg == keys[k].ref.alg && !key.revoked && key.ksk {
        var j :| 0 <= j < |keys| && keys[j] == key;
        assert w.keys[j] == keys[j];
      }
      if s :| s in sigs && Vouches(s, keys[k]) {
        Fates(s);
      }
    }

    /** A signing key has a signature over a key set at the apex if and only if it has one that
        stays or is replaced, or it is a KSK, or its algorithm has none, or ZSKs are to sign too. */
    lemma ApexKeySigned(k: nat)
      requires Ordinary() && rrset.apexKeys && k < |keys| && keys[k].signing
      ensures (exists x :: InResult(sigs, Result(), x) && x.ref == keys[k].ref) <==>
              || (exists s :: s in sigs && Marks(s) && s.ref == keys[k].ref)
              || keys[k].ksk || !KskKnown(keys[k]) || (Zsk(c, keys[k]) && !c.keysetKskOnly)
    {
      KskFound(k);
      if s :| s in sigs && Marks(s) && s.ref == keys[k].ref {
        ApexMarked(s, k);
      } else {
        KeysStay(k);
        NowIsMarked(k);
        ApexUnmarked(k);
      }
    }

    /** Whatever the signatures are like, the key sets at the apex are signed by every signing KSK,
        and by every signing key of an algorithm that has no KSK. */
    lemma ApexKeysSigned(k: nat)
      requires DiskOk(c) && NoRepeats(sigs) && rrset.apexKeys
      requires forall key, n :: c.sign(key, n).ref == key.ref
      requires k < |keys| && keys[k].signing && (keys[k].ksk || !KskKnown(keys[k]))
      ensures exists x :: InResult(sigs, Result(), x) && x.ref == keys[k].ref
    {
      var w, r := Loop(), Result();
      KskFound(k);
      LoopOne(c, rrset, ttl, sigTtl, keys, sigs);
      LoopTwo(c, rrset, ttl, w, |w.keys|);
      if k in w.now {
        var s := NowSigned(c, rrset, ttl, sigTtl, keys, sigs, w, r, k);
      } else {
        assert MustSign(c, rrset, w.keys, w.now, k);
        var m: nat :| Has(r.add, c.sign(w.keys[k], m));
        assert InResult(sigs, r, c.sign(w.keys[k], m));
      }
    }

    lemma ApexMarked(s: Sig, k: nat)
      requires Ordinary() && k < |keys| && s in sigs && Marks(s) && s.ref == keys[k].ref
      ensures exists x :: InResult(sigs, Result(), x) && x.ref == keys[k].ref
    {
      var w := Loop();
      KeysStay(k);
      Fates(s);
      LoopTwo(c, rrset, ttl, w, |w.keys|);
      if Renewed(s) {
        var n: nat :| Has(w.add, c.sign(w.keys[k], n));
        MadeProves(k, c.sign(w.keys[k], n));
        assert InResult(sigs, Result(), c.sign(w.keys[k], n));
      } else {
        assert InResult(sigs, Result(), s);
      }
    }

    /** Without a signature that marks the key, only the second loop makes one. */
    lemma ApexUnmarked(k: nat)
      requires Ordinary() && k < |keys| && keys[k].signing && k < |Loop().keys|
      requires forall s :: s in sigs && Marks(s) ==> s.ref != keys[k].ref
      ensures (exists x :: InResult(sigs, Result(), x) && x.ref == keys[k].ref) <==>
              MustSign(c, rrset, Loop().keys, Loop().now, k)
    {
      var w := Loop();
      KeysStay(k);
      LoopOne(c, rrset, ttl, sigTtl, keys, sigs);
      LoopTwo(c, rrset, ttl, w, |w.keys|);
      if MustSign(c, rrset, w.keys, w.now, k) {
        var m: nat :| Has(Result().add, c.sign(w.keys[k], m));
        MadeProves(k, c.sign(w.keys[k], m));
        assert InResult(sigs, Result(), c.sign(w.keys[k], m));
      }
      forall x | InResult(sigs, Result(), x) && x.ref == keys[k].ref
        ensures MustSign(c, rrset, w.keys, w.now, k)
      {
        ApexOrigin(x, k);
      }
    }

    lemma ApexOrigin(x: Sig, k: nat)
      requires Ordinary() && k < |keys| && k < |Loop().keys|
      requires forall s :: s in sigs && Marks(s) ==> s.ref != keys[k].ref
      requires InResult(sigs, Result(), x) && x.ref == keys[k].ref
      ensures MustSign(c, rrset, Loop().keys, Loop().now, k)
    {
      Origins(x);
      assert FindKey(keys, keys[k].ref).Some?;
      if j: nat :| MadeLast(j, x) {
        MadeProves(j, x);
        KeysStay(j);
        KeysStay(k);
      }
    }
  }

  // ---- A signature from the future ----

  /** One signing ZSK, and a verifier that accepts what it makes and nothing else. */
  const LATE_KEY: Key := Key(KeyRef(1, 8, []), false, true, false, true, true, true, None, None)
  const LATE_CONFIG: Config :=
    Config(100, 10, false, false, false, false, _ => None, _ => true, (_, s: Sig) => s.inception == 100,
           (k: Key, n: nat) => Sig(k.ref, 100, 1000, 300, n))
  const LATE_SIG: Sig := Sig(KeyRef(1, 8, []), 200, 1000, 300, 0)
  const LATE_CALL: Call := Call(LATE_CONFIG, RRset(300, false), 300, [LATE_KEY], [LATE_SIG], 300)

  /** Its signature from the future stays, though it does not verify, and nothing is added: the
      algorithm is left without a signature that proves anything. */
  lemma FutureSignatureKept()
    ensures LATE_CALL.Ordinary() && !LATE_CALL.Proven(8)
    ensures var r := LATE_CALL.Result();
            r.del == [] && r.add == [] && r.now == {0} && InResult([LATE_SIG], r, LATE_SIG)
  {
    LateResult();
    assert LATE_CALL.sigs == [LATE_SIG] && LATE_SIG in LATE_CALL.sigs && LATE_CALL.keys == [LATE_KEY];
    assert FindKey([LATE_KEY], LATE_SIG.ref) == Some(0);
    assert LATE_CALL.KeyFor(LATE_SIG.ref) == Some(LATE_KEY);
    assert LATE_CALL.Marks(LATE_SIG) && LATE_CALL.Covered(LATE_KEY);
    LATE_CALL.AlgorithmProven(8);
  }

  lemma LateResult()
    ensures var r := LATE_CALL.Result();
            r.del == [] && r.add == [] && r.now == {0} && InResult([LATE_SIG], r, LATE_SIG)
  {
    var sigs := [LATE_SIG];
    var start := Work([LATE_KEY], {}, [], [], 0);
    assert sigs[..0] == [] && sigs[0] == LATE_SIG;
    assert FindKey([LATE_KEY], LATE_SIG.ref) == Some(0);
    var w := TakeSigs(LATE_CONFIG, LATE_CALL.rrset, 300, 300, start, sigs);
    assert TakeSigs(LATE_CONFIG, LATE_CALL.rrset, 300, 300, start, sigs[..0]) == start;
    assert Decide(LATE_CONFIG, LATE_CALL.rrset, Some(LATE_KEY), LATE_SIG) == Keep;
    assert w == Work([LATE_KEY], {0}, [], [], 0);
    assert !MustSign(LATE_CONFIG, LATE_CALL.rrset, w.keys, w.now, 0);
    assert TakeKeys(LATE_CONFIG, LATE_CALL.rrset, 300, w, 0) == w;
  }
}
