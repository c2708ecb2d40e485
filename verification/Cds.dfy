/** Whether dnssec-cds changes the parent's DS set.

The child's DNSKEY, CDNSKEY and CDS sets have to be signed by keys that the present DS set
vouches for; the DS set made from them must not break the chain of trust (section 4.1 of
RFC 7344, section 5.2 of RFC 4035).
*/
module Cds {
  import opened Names
  import opened Serials
  import opened Replay
  import opened DsSets
  import opened NewDs

  datatype Sig = Sig(keyid: Tag, alg: Octet, signer: Name, inception: Serial, data: nat)

  datatype Kind = DnskeySet | CdnskeySet | CdsSet

  /** Key tags, digests, which keys can be used, and whether a key verifies a signature over
      one of the child's sets. */
  datatype Crypto = Crypto(g: Digester, usable: KeyRecord -> bool, verify: (KeyRecord, Kind, Sig) -> bool)

  datatype KeyInfo = KeyInfo(key: KeyRecord, dst: bool, algo: Octet, tag: Tag)

  /** A DS record that claims to be for the key, and whose digest can be checked. */
  predicate Candidate(g: Digester, key: KeyRecord, ds: Ds) {
    g.tag(key) == ds.tag && key.alg == ds.alg && g.digest(key, ds.dtype).Some?
  }

  /** A DS record that is for the key: tag, algorithm and digest agree. */
  predicate Matches(g: Digester, key: KeyRecord, ds: Ds) {
    Candidate(g, key, ds) && g.digest(key, ds.dtype).value == ds.digest
  }

  predicate FirstCandidateMatches(g: Digester, key: KeyRecord, dsset: seq<Ds>) {
    exists i: nat :: i < |dsset| && Matches(g, key, dsset[i]) && NoCandidateBefore(g, key, dsset, i)
  }

  predicate NoCandidateBefore(g: Digester, key: KeyRecord, dsset: seq<Ds>, i: nat)
    requires i <= |dsset|
  {
    forall j: nat :: j < i ==> !Candidate(g, key, dsset[j])
  }

  predicate SomeMatches(g: Digester, key: KeyRecord, dsset: seq<Ds>) {
    exists i: nat :: i < |dsset| && Matches(g, key, dsset[i])
  }

  /** Does a DS record match a key?  When strict, the first candidate decides. */
  predicate KeyMatches(g: Digester, key: KeyRecord, dsset: seq<Ds>, tight: bool) {
    if tight then FirstCandidateMatches(g, key, dsset) else SomeMatches(g, key, dsset)
  }

  function InfoFor(c: Crypto, key: KeyRecord, dsset: seq<Ds>, tight: bool): KeyInfo {
    KeyInfo(key, KeyMatches(c.g, key, dsset, tight) && c.usable(key), key.alg, c.g.tag(key))
  }

  function TableFor(c: Crypto, keys: seq<KeyRecord>, dsset: seq<Ds>, tight: bool): (t: seq<KeyInfo>)
    ensures |t| == |keys| && forall i :: 0 <= i < |t| ==> t[i] == InfoFor(c, keys[i], dsset, tight)
  {
    seq(|keys|, i requires 0 <= i < |keys| => InfoFor(c, keys[i], dsset, tight))
  }

  method MatchKeyDsset(g: Digester, key: KeyRecord, dsset: seq<Ds>, tight: bool) returns (found: bool)
    ensures found <==> KeyMatches(g, key, dsset, tight)
  {
    var i := 0;
    while i < |dsset|
      invariant i <= |dsset|
      invariant forall j: nat :: j < i ==> !Matches(g, key, dsset[j])
      invariant tight ==> NoCandidateBefore(g, key, dsset, i)
    {
      var ds := dsset[i];
      if g.tag(key) == ds.tag && key.alg == ds.alg {
        var made := DsOfKey(g, key, ds.dtype);
        if made.Some? {
          if made.value == ds {
            assert Matches(g, key, dsset[i]);
            return true;
          } else if tight {
            assert Candidate(g, key, dsset[i]) && !Matches(g, key, dsset[i]);
            return false;
          }
        }
      }
      i := i + 1;
    }
    return false;
  }

  method MatchKeysetDsset(c: Crypto, keys: seq<KeyRecord>, dsset: seq<Ds>, tight: bool) returns (table: seq<KeyInfo>)
    ensures table == TableFor(c, keys, dsset, tight)
  {
    table := [];
    var i := 0;
    while i < |keys|
      invariant i <= |keys| && |table| == i
      invariant forall j :: 0 <= j < i ==> table[j] == InfoFor(c, keys[j], dsset, tight)
    {
      var found := MatchKeyDsset(c.g, keys[i], dsset, tight);
      table := table + [KeyInfo(keys[i], found && c.usable(keys[i]), keys[i].alg, c.g.tag(keys[i]))];
      i := i + 1;
    }
  }

  class Checker {
    const c: Crypto
    const name: Name
    const notbefore: Serial
    var oldest: Serial
    ghost var seen: seq<Serial>  // the inception times of the verified signatures, in turn

    constructor (c: Crypto, name: Name, notbefore: Serial)
      ensures Valid() && seen == [] && this.c == c && this.name == name && this.notbefore == notbefore
    {
      this.c, this.name, this.notbefore := c, name, notbefore;
      oldest, seen := 0, [];
      new;
      assert Oldest(seen) == 0;
    }

    /** The oldest time is the one the specification gives for the times seen, which pass the age
        test.  The facts come up only where `Peek` asks for them. */
    ghost predicate Valid()
      reads this
    {
      forall q {:trigger Peek(q)} :: q == seen && Peek(q) ==> oldest == Oldest(q) && Admitted(notbefore, q)
    }

    ghost predicate Peek(q: seq<Serial>) { true }

    /** A signature young enough and verified by a key the DS set vouches for. */
    predicate Signs(ki: KeyInfo, kind: Kind, sig: Sig) {
      && !Lt(sig.inception, notbefore) && sig.keyid == ki.tag && sig.alg == ki.algo && sig.signer == name
      && ki.dst && c.verify(ki.key, kind, sig)
    }

    ghost predicate SignedBy(ki: KeyInfo, kind: Kind, sigs: seq<Sig>) {
      exists m: nat :: m < |sigs| && Signs(ki, kind, sigs[m])
    }

    /** The algorithm of each key that has signed, 0 for the others. */
    ghost predicate Listed(table: seq<KeyInfo>, kind: Kind, sigs: seq<Sig>, algo: seq<Octet>) {
      && |algo| == |table|
      && forall i :: 0 <= i < |table| ==> algo[i] == if SignedBy(table[i], kind, sigs) then table[i].algo else 0
    }

    ghost predicate SomeSigns(table: seq<KeyInfo>, kind: Kind, sig: Sig) {
      exists i :: 0 <= i < |table| && Signs(table[i], kind, sig)
    }

    /** `t` is the inception time of a signature that a key of the table verifies. */
    ghost predicate VerifiedAt(table: seq<KeyInfo>, kind: Kind, sigs: seq<Sig>, t: Serial) {
      exists m: nat :: m < |sigs| && VerifiesAt(table, kind, sigs[m], t)
    }

    ghost predicate VerifiesAt(table: seq<KeyInfo>, kind: Kind, sig: Sig, t: Serial) {
      sig.inception == t && SomeSigns(table, kind, sig)
    }

    /** The times noted once a signature has been held against the first `n` keys: one more for each
        key that verifies it. */
    ghost function Noted(before: seq<Serial>, table: seq<KeyInfo>, kind: Kind, sig: Sig, n: nat): (r: seq<Serial>)
      requires n <= |table|
    {
      if n == 0 then before
      else
        var r := Noted(before, table, kind, sig, n - 1);
        if Signs(table[n - 1], kind, sig) then r + [sig.inception] else r
    }

    /** The times noted once the first `m` signatures have been held against all keys in turn. */
    ghost function NotedAll(before: seq<Serial>, table: seq<KeyInfo>, kind: Kind, sigs: seq<Sig>, m: nat)
      : (r: seq<Serial>)
      requires m <= |sigs|
    {
      if m == 0 then before
      else Noted(NotedAll(before, table, kind, sigs, m - 1), table, kind, sigs[m - 1], |table|)
    }

    ghost function Times(before: seq<Serial>, table: seq<KeyInfo>, kind: Kind, sigs: seq<Sig>): (r: seq<Serial>) {
      NotedAll(before, table, kind, sigs, |sigs|)
    }

    lemma {:induction false} NotedAre(before: seq<Serial>, table: seq<KeyInfo>, kind: Kind, sig: Sig, n: nat, t: Serial)
      requires n <= |table|
      ensures t in Noted(before, table, kind, sig, n) <==> t in before || VerifiesAt(table[..n], kind, sig, t)
    {
      if n > 0 {
        NotedAre(before, table, kind, sig, n - 1, t);
        assert table[..n] == table[..n - 1] + [table[n - 1]];
        SomeSignsAppend(table[..n - 1], table[n - 1], kind, sig);
      }
    }

    lemma SomeSignsAppend(table: seq<KeyInfo>, ki: KeyInfo, kind: Kind, sig: Sig)
      ensures SomeSigns(table + [ki], kind, sig) <==> SomeSigns(table, kind, sig) || Signs(ki, kind, sig)
    {
      var all := table + [ki];
      assert all[|table|] == ki;
      assert forall i :: 0 <= i < |table| ==> all[i] == table[i];
    }

    lemma {:induction false} NotedAllAre(before: seq<Serial>, table: seq<KeyInfo>, kind: Kind, sigs: seq<Sig>, m: nat,
                                         t: Serial)
      requires m <= |sigs|
      ensures t in NotedAll(before, table, kind, sigs, m) <==> t in before || VerifiedAt(table, kind, sigs[..m], t)
    {
      if m > 0 {
        NotedAllAre(before, table, kind, sigs, m - 1, t);
        NotedAre(NotedAll(before, table, kind, sigs, m - 1), table, kind, sigs[m - 1], |table|, t);
        assert table[..|table|] == table;
        assert sigs[..m] == sigs[..m - 1] + [sigs[m - 1]];
        VerifiedAppend(table, kind, sigs[..m - 1], sigs[m - 1], t);
      }
    }

    lemma VerifiedAppend(table: seq<KeyInfo>, kind: Kind, sigs: seq<Sig>, sig: Sig, t: Serial)
      ensures VerifiedAt(table, kind, sigs + [sig], t) <==>
              VerifiedAt(table, kind, sigs, t) || VerifiesAt(table, kind, sig, t)
    {
      var all := sigs + [sig];
      assert all[|sigs|] == sig;
      assert forall k :: 0 <= k < |sigs| ==> all[k] == sigs[k];
    }

    /** The times noted are those of the verified signatures. */
    lemma TimesAre(before: seq<Serial>, table: seq<KeyInfo>, kind: Kind, sigs: seq<Sig>, t: Serial)
      ensures t in Times(before, table, kind, sigs) <==> t in before || VerifiedAt(table, kind, sigs, t)
    {
      NotedAllAre(before, table, kind, sigs, |sigs|, t);
      assert sigs[..|sigs|] == sigs;
    }

    lemma {:induction false} TooOld(before: seq<Serial>, table: seq<KeyInfo>, kind: Kind, sig: Sig, n: nat)
      requires n <= |table| && Lt(sig.inception, notbefore)
      ensures Noted(before, table, kind, sig, n) == before
    {
      if n > 0 {
        TooOld(before, table, kind, sig, n - 1);
      }
    }

    /** Note that a key has verified a signature. */
    method Note(t: Serial)
      requires Valid() && !Lt(t, notbefore)
      modifies this
      ensures Valid() && seen == old(seen) + [t]
    {
      assert Peek(seen);
      OldestStep(seen, t);
      if oldest == 0 || Lt(t, oldest) {
        oldest := t;
      }
      seen := seen + [t];
      assert Admitted(notbefore, seen);
    }

    /** One signature against one key. */
    method MatchKey(ki: KeyInfo, kind: Kind, sig: Sig) returns (ok: bool)
      requires Valid() && !Lt(sig.inception, notbefore)
      modifies this
      ensures Valid() && ok == Signs(ki, kind, sig)
      ensures seen == if ok then old(seen) + [sig.inception] else old(seen)
    {
      ok := sig.keyid == ki.tag && sig.alg == ki.algo && sig.signer == name && ki.dst && c.verify(ki.key, kind, sig);
      if ok {
        Note(sig.inception);
      }
    }

    /** One signature against every key: whether each verifies it. */
    method MatchSig(table: seq<KeyInfo>, kind: Kind, sig: Sig, algo: array<Octet>)
      requires Valid() && algo.Length == |table|
      modifies this, algo
      ensures Valid() && seen == Noted(old(seen), table, kind, sig, |table|)
      ensures forall i :: 0 <= i < |table| ==>
                algo[i] == if Signs(table[i], kind, sig) then table[i].algo else old(algo[i])
    {
      if Lt(sig.inception, notbefore) {
        TooOld(seen, table, kind, sig, |table|);
        return;
      }
      var i := 0;
      while i < |table|
        invariant Valid() && 0 <= i <= |table| && seen == Noted(old(seen), table, kind, sig, i)
        invariant forall j :: 0 <= j < |table| ==>
                    algo[j] == if j < i && Signs(table[j], kind, sig) then table[j].algo else old(algo[j])
      {
        var ok := MatchKey(table[i], kind, sig);
        if ok {
          algo[i] := sig.alg;
        }
        i := i + 1;
      }
    }

    lemma SignedByAppend(ki: KeyInfo, kind: Kind, sigs: seq<Sig>, sig: Sig)
      ensures SignedBy(ki, kind, sigs + [sig]) <==> SignedBy(ki, kind, sigs) || Signs(ki, kind, sig)
    {
      var all := sigs + [sig];
      assert all[|sigs|] == sig;
      assert forall m :: 0 <= m < |sigs| ==> all[m] == sigs[m];
    }

    lemma ListedAppend(table: seq<KeyInfo>, kind: Kind, sigs: seq<Sig>, sig: Sig, algo: seq<Octet>, more: seq<Octet>)
      requires Listed(table, kind, sigs, algo) && |more| == |table|
      requires forall i :: 0 <= i < |table| ==> more[i] == if Signs(table[i], kind, sig) then table[i].algo else algo[i]
      ensures Listed(table, kind, sigs + [sig], more)
    {
      forall i | 0 <= i < |table|
        ensures more[i] == if SignedBy(table[i], kind, sigs + [sig]) then table[i].algo else 0
      {
        SignedByAppend(table[i], kind, sigs, sig);
      }
    }

    /** Which keys have signed a set. */
    method MatchingSigs(table: seq<KeyInfo>, kind: Kind, sigs: seq<Sig>) returns (algo: array<Octet>)
      requires Valid()
      modifies this
      ensures Valid() && seen == Times(old(seen), table, kind, sigs) && fresh(algo)
      ensures Listed(table, kind, sigs, algo[..])
    {
      algo := new Octet[|table|](_ => 0);
      var m := 0;
      while m < |sigs|
        invariant Valid() && m <= |sigs| && fresh(algo) && algo.Length == |table|
        invariant seen == NotedAll(old(seen), table, kind, sigs, m)
        invariant Listed(table, kind, sigs[..m], algo[..])
      {
        ghost var listed := algo[..];
        MatchSig(table, kind, sigs[m], algo);
        ListedAppend(table, kind, sigs[..m], sigs[m], listed, algo[..]);
        assert sigs[..m + 1] == sigs[..m] + [sigs[m]];
        m := m + 1;
      }
      assert sigs[..|sigs|] == sigs;
    }

    /** Some key with an algorithm has signed. */
    ghost predicate LooselySigned(table: seq<KeyInfo>, kind: Kind, sigs: seq<Sig>) {
      exists i :: 0 <= i < |table| && table[i].algo != 0 && SignedBy(table[i], kind, sigs)
    }

    /** Every algorithm of the DS set is in the list of signing algorithms, where 0 also stands
        for a key that has not signed. */
    ghost predicate StrictlySigned(dsset: seq<Ds>, table: seq<KeyInfo>, kind: Kind, sigs: seq<Sig>) {
      forall k :: 0 <= k < |dsset| ==> AlgorithmListed(dsset[k].alg, table, kind, sigs)
    }

    ghost predicate AlgorithmListed(alg: Octet, table: seq<KeyInfo>, kind: Kind, sigs: seq<Sig>) {
      exists i :: 0 <= i < |table| && alg == if SignedBy(table[i], kind, sigs) then table[i].algo else 0
    }

    method SignedLoose(algo: array<Octet>, ghost table: seq<KeyInfo>, ghost kind: Kind, ghost sigs: seq<Sig>)
      returns (ok: bool)
      requires Listed(table, kind, sigs, algo[..])
      ensures ok <==> LooselySigned(table, kind, sigs)
    {
      ok := false;
      var i := 0;
      while i < algo.Length
        invariant i <= algo.Length && (ok <==> exists j :: 0 <= j < i && algo[j] != 0)
      {
        if algo[i] != 0 {
          ok := true;
        }
        i := i + 1;
      }
    }

    method SignedStrict(dsset: seq<Ds>, algo: array<Octet>,
                        ghost table: seq<KeyInfo>, ghost kind: Kind, ghost sigs: seq<Sig>)
      returns (allOk: bool)
      requires Listed(table, kind, sigs, algo[..])
      ensures allOk <==> StrictlySigned(dsset, table, kind, sigs)
    {
      allOk := true;
      var k := 0;
      while k < |dsset|
        invariant k <= |dsset|
        invariant allOk <==> forall l :: 0 <= l < k ==> AlgorithmListed(dsset[l].alg, table, kind, sigs)
      {
        var dsOk := false;
        var i := 0;
        while i < algo.Length
          invariant i <= algo.Length && (dsOk <==> exists j :: 0 <= j < i && algo[j] == dsset[k].alg)
        {
          if algo[i] == dsset[k].alg {
            dsOk := true;
          }
          i := i + 1;
        }
        assert dsOk <==> AlgorithmListed(dsset[k].alg, table, kind, sigs);
        if !dsOk {
          allOk := false;
        }
        k := k + 1;
      }
    }

    /** The old DS set vouches for the given set of the child. */
    ghost predicate Vouched(oldDs: seq<Ds>, keys: seq<KeyRecord>, kind: Kind, sigs: seq<Sig>) {
      LooselySigned(TableFor(c, keys, oldDs, false), kind, sigs)
    }

    method Verify(table: seq<KeyInfo>, kind: Kind, sigs: seq<Sig>) returns (ok: bool)
      requires Valid()
      modifies this
      ensures Valid() && seen == Times(old(seen), table, kind, sigs)
      ensures ok <==> LooselySigned(table, kind, sigs)
    {
      var algo := MatchingSigs(table, kind, sigs);
      ok := SignedLoose(algo, table, kind, sigs);
    }

    /** The three sets that are present are vouched for by the old DS set. */
    ghost predicate ChildVouched(i: Input) {
      && i.Complete()
      && PresentVouched(i, DnskeySet, i.dnskey.Signatures())
      && PresentVouched(i, CdnskeySet, i.cdnskey.Signatures()) && PresentVouched(i, CdsSet, i.cds.Signatures())
    }

    ghost predicate PresentVouched(i: Input, kind: Kind, sigs: Option<seq<Sig>>)
      requires i.dnskey.Present?
    {
      sigs.Some? ==> Vouched(i.oldDs, i.dnskey.records, kind, sigs.value)
    }

    /** The times of the child's sets, in the order they are verified against the old DS set. */
    ghost function ChildTimes(i: Input): (r: seq<Serial>)
      requires i.Complete()
    {
      var table := TableFor(c, i.dnskey.records, i.oldDs, false);
      var first := PresentTimes([], table, DnskeySet, i.dnskey.Signatures());
      var second := PresentTimes(first, table, CdnskeySet, i.cdnskey.Signatures());
      PresentTimes(second, table, CdsSet, i.cds.Signatures())
    }

    ghost function PresentTimes(before: seq<Serial>, table: seq<KeyInfo>, kind: Kind, sigs: Option<seq<Sig>>)
      : (r: seq<Serial>)
    {
      if sigs.None? then before else Times(before, table, kind, sigs.value)
    }

    /** And those of the DNSKEY set verified against the new one. */
    ghost function NewTimes(before: seq<Serial>, i: Input, ds: seq<Ds>): (r: seq<Serial>)
      requires i.dnskey.Signed()
    {
      Times(before, TableFor(c, i.dnskey.records, ds, true), DnskeySet, i.dnskey.sigs.value)
    }

    /** A signature of this time over one of the child's sets verifies against the old DS set. */
    ghost predicate ChildVerifiedAt(i: Input, t: Serial)
      requires i.Complete()
    {
      var table := TableFor(c, i.dnskey.records, i.oldDs, false);
      || VerifiedAt(table, DnskeySet, i.dnskey.sigs.value, t)
      || (i.cdnskey.Present? && VerifiedAt(table, CdnskeySet, i.cdnskey.sigs.value, t))
      || (i.cds.Present? && VerifiedAt(table, CdsSet, i.cds.sigs.value, t))
    }

    /** The first half: are the child's sets authentic? */
    method VerifyChild(i: Input) returns (failure: Option<Reason>)
      requires Valid() && seen == []
      modifies this
      ensures Valid()
      ensures failure.None? <==> ChildVouched(i)
      ensures failure.None? ==> seen == ChildTimes(i)
    {
      if i.dnskey.Absent? || i.dnskey.sigs.None? {
        return Some(NoDnskey);
      }
      if i.cdnskey.Present? && i.cdnskey.sigs.None? {
        return Some(NoCdnskeySig);
      }
      if i.cds.Present? && i.cds.sigs.None? {
        return Some(NoCdsSig);
      }
      failure := VerifySets(i);
    }

    /** Each set in turn. */
    method VerifySets(i: Input) returns (failure: Option<Reason>)
      requires Valid() && seen == [] && i.Complete()
      modifies this
      ensures Valid()
      ensures failure.None? <==> ChildVouched(i)
      ensures failure.None? ==> seen == ChildTimes(i)
    {
      var table := MatchKeysetDsset(c, i.dnskey.records, i.oldDs, false);
      var ok := VerifyPresent(table, DnskeySet, i.dnskey.Signatures(), i);
      if !ok {
        return Some(DnskeyUnverified);
      }
      ok := VerifyPresent(table, CdnskeySet, i.cdnskey.Signatures(), i);
      if !ok {
        return Some(CdnskeyUnverified);
      }
      ok := VerifyPresent(table, CdsSet, i.cds.Signatures(), i);
      if !ok {
        return Some(CdsUnverified);
      }
      return None;
    }

    /** A set that may be absent. */
    method VerifyPresent(table: seq<KeyInfo>, kind: Kind, sigs: Option<seq<Sig>>, ghost i: Input) returns (ok: bool)
      requires Valid() && i.dnskey.Signed() && table == TableFor(c, i.dnskey.records, i.oldDs, false)
      modifies this
      ensures Valid() && seen == PresentTimes(old(seen), table, kind, sigs)
      ensures ok <==> PresentVouched(i, kind, sigs)
    {
      ok := true;
      if sigs.Some? {
        ok := Verify(table, kind, sigs.value);
      }
    }

    /** The new DS set leaves the child reachable: every algorithm in it is listed as signing,
        by keys that the new set vouches for. */
    ghost predicate NewSetSafe(i: Input, ds: seq<Ds>)
      requires i.dnskey.Signed()
    {
      StrictlySigned(ds, TableFor(c, i.dnskey.records, ds, true), DnskeySet, i.dnskey.sigs.value)
    }

    /** The second half: make the new DS set and check it. */
    method CheckNewSet(i: Input, ds: seq<Ds>) returns (out: Outcome)
      requires Valid() && i.dnskey.Signed() && ds != []
      modifies this
      ensures Valid()
      ensures NewSetSafe(i, ds) && Consistent(ds) ==> out == Update(ds)
      ensures !(NewSetSafe(i, ds) && Consistent(ds)) ==> out.Fatal?
      ensures out.Update? ==> seen == NewTimes(old(seen), i, ds)
    {
      var table := MatchKeysetDsset(c, i.dnskey.records, ds, true);
      var consistent := ConsistentDigests(ds);
      if !consistent {
        return Outcome.Fatal(Inconsistent);
      }
      var algo := MatchingSigs(table, DnskeySet, i.dnskey.sigs.value);
      var ok := SignedStrict(ds, algo, table, DnskeySet, i.dnskey.sigs.value);
      if !ok {
        return Outcome.Fatal(NewSetUnverified);
      }
      return Update(ds);
    }

    /** A new set that breaks nothing can be made. */
    ghost predicate Acceptable(i: Input)
      requires i.dnskey.Signed()
    {
      && (i.cdnskey.Present? || i.cds.Present?) && MadeFrom(c.g, i).Some?
      && var ds := MadeFrom(c.g, i).value;
         ds != [] && Consistent(ds) && NewSetSafe(i, ds)
    }

    /** Make the new set, from the CDNSKEY set if the first choice gives nothing. */
    method MakeSet(i: Input) returns (made: Option<seq<Ds>>)
      requires i.Fits()
      ensures made == MadeFrom(c.g, i)
    {
      if (i.preferCdnskey && i.cdnskey.Present?) || i.cds.Absent? {
        made := MakeNewDsSet(c.g, i.Digests(), i.CdnskeySource(), 16);
      } else {
        made := MakeNewDsSet(c.g, i.Digests(), i.CdsSource(), 16);
      }
      if made == Some([]) && i.cdnskey.Present? {
        made := MakeNewDsSet(c.g, i.Digests(), i.CdnskeySource(), 16);
      }
    }

    /** The decision, and the times it rests on. */
    method Decide(i: Input) returns (out: Outcome)
      requires Valid() && seen == [] && i.Fits()
      modifies this
      ensures Valid()
      ensures out.Unchanged? <==> ChildVouched(i) && i.cdnskey.Absent? && i.cds.Absent?
      ensures out.Unchanged? ==> seen == ChildTimes(i)
      ensures out.Update? <==> ChildVouched(i) && Acceptable(i)
      ensures out.Update? ==>
                out.ds == MadeFrom(c.g, i).value && seen == NewTimes(ChildTimes(i), i, out.ds)
    {
      var failure := VerifyChild(i);
      if failure.Some? {
        return Outcome.Fatal(failure.value);
      }
      if i.cdnskey.Absent? && i.cds.Absent? {
        return Unchanged;
      }
      var made := MakeSet(i);
      if made.None? {
        return Outcome.Fatal(MakingFailed);
      }
      if made.value == [] {
        return Outcome.Fatal(NoDigestTypes);
      }
      out := CheckNewSet(i, made.value);
    }

    /** A key of the child, of the given algorithm, that a DS set vouches for (the first candidate
        record when tight) and that has signed the set, not too long ago. */
    ghost predicate TrustedKey(key: KeyRecord, dsset: seq<Ds>, tight: bool, kind: Kind, sigs: seq<Sig>) {
      && KeyMatches(c.g, key, dsset, tight) && c.usable(key)
      && exists m: nat :: m < |sigs| && SignedWith(key, kind, sigs[m])
    }

    ghost predicate SignedWith(key: KeyRecord, kind: Kind, sig: Sig) {
      && sig.keyid == c.g.tag(key) && sig.alg == key.alg && sig.signer == name && c.verify(key, kind, sig)
      && !Lt(sig.inception, notbefore)
    }

    /** Being signed by a row of the table is being signed by a trusted key. */
    lemma TrustedRow(keys: seq<KeyRecord>, dsset: seq<Ds>, tight: bool, kind: Kind, sigs: seq<Sig>, i: nat)
      requires i < |keys|
      ensures SignedBy(TableFor(c, keys, dsset, tight)[i], kind, sigs) <==>
              TrustedKey(keys[i], dsset, tight, kind, sigs)
    {
      var ki := TableFor(c, keys, dsset, tight)[i];
      assert ki == InfoFor(c, keys[i], dsset, tight);
      assert forall m: nat :: m < |sigs| ==>
               (Signs(ki, kind, sigs[m]) <==> ki.dst && SignedWith(keys[i], kind, sigs[m]));
    }

    /** What the old DS set vouching for a set of the child means. */
    lemma VouchedMeans(oldDs: seq<Ds>, keys: seq<KeyRecord>, kind: Kind, sigs: seq<Sig>)
      ensures Vouched(oldDs, keys, kind, sigs) <==>
              exists i :: 0 <= i < |keys| && keys[i].alg != 0 && TrustedKey(keys[i], oldDs, false, kind, sigs)
    {
      forall i | 0 <= i < |keys|
        ensures SignedBy(TableFor(c, keys, oldDs, false)[i], kind, sigs) <==>
                TrustedKey(keys[i], oldDs, false, kind, sigs)
      {
        TrustedRow(keys, oldDs, false, kind, sigs, i);
      }
    }

    /** The algorithm has a key that the new DS set vouches for and that has signed the DNSKEY set. */
    ghost predicate Reachable(i: Input, ds: seq<Ds>, alg: Octet)
      requires i.dnskey.Signed()
    {
      exists k :: 0 <= k < |i.dnskey.records| && i.dnskey.records[k].alg == alg &&
                  TrustedKey(i.dnskey.records[k], ds, true, DnskeySet, i.dnskey.sigs.value)
    }

    /** Some key of the child is not such a key. */
    ghost predicate Unsigned(i: Input, ds: seq<Ds>)
      requires i.dnskey.Signed()
    {
      exists k :: 0 <= k < |i.dnskey.records| &&
                  !TrustedKey(i.dnskey.records[k], ds, true, DnskeySet, i.dnskey.sigs.value)
    }

    /** The check of the new set is exactly that every algorithm in it is reachable, except that
        algorithm 0 also passes when some key has not signed. */
    lemma NewSetSafeMeans(i: Input, ds: seq<Ds>)
      requires i.dnskey.Signed()
      ensures NewSetSafe(i, ds) <==>
              forall r :: r in ds ==> Reachable(i, ds, r.alg) || (r.alg == 0 && Unsigned(i, ds))
    {
      var keys, sigs := i.dnskey.records, i.dnskey.sigs.value;
      var table := TableFor(c, keys, ds, true);
      forall k | 0 <= k < |keys|
        ensures SignedBy(table[k], DnskeySet, sigs) <==> TrustedKey(keys[k], ds, true, DnskeySet, sigs)
      {
        TrustedRow(keys, ds, true, DnskeySet, sigs, k);
      }
      assert forall alg: Octet :: AlgorithmListed(alg, table, DnskeySet, sigs) <==>
                                  Reachable(i, ds, alg) || (alg == 0 && Unsigned(i, ds));
    }

    /** A key of the child that the old DS set vouches for has signed the given set. */
    ghost predicate OldKeySigned(i: Input, kind: Kind, sigs: seq<Sig>)
      requires i.dnskey.Present?
    {
      exists k :: 0 <= k < |i.dnskey.records| && i.dnskey.records[k].alg != 0 &&
                  TrustedKey(i.dnskey.records[k], i.oldDs, false, kind, sigs)
    }

    /** Keys matched by the old DS set have signed everything a new set is made from. */
    lemma SourcesVouched(i: Input)
      requires ChildVouched(i)
      ensures OldKeySigned(i, DnskeySet, i.dnskey.sigs.value)
      ensures i.cdnskey.Present? ==> OldKeySigned(i, CdnskeySet, i.cdnskey.sigs.value)
      ensures i.cds.Present? ==> OldKeySigned(i, CdsSet, i.cds.sigs.value)
    {
      VouchedMeans(i.oldDs, i.dnskey.records, DnskeySet, i.dnskey.sigs.value);
      if i.cdnskey.Present? {
        VouchedMeans(i.oldDs, i.dnskey.records, CdnskeySet, i.cdnskey.sigs.value);
      }
      if i.cds.Present? {
        VouchedMeans(i.oldDs, i.dnskey.records, CdsSet, i.cds.sigs.value);
      }
    }

    /** A child key of the algorithm matches a record of the set by tag, algorithm and digest and
        has signed the DNSKEY set, not too long ago. */
    ghost predicate Reaches(i: Input, ds: seq<Ds>, alg: Octet)
      requires i.dnskey.Signed()
    {
      exists k, m: nat ::
        0 <= k < |i.dnskey.records| && m < |ds| && Matches(c.g, i.dnskey.records[k], ds[m]) && ds[m].alg == alg &&
        TrustedKey(i.dnskey.records[k], ds, true, DnskeySet, i.dnskey.sigs.value)
    }

    /** A new set never cuts the child off: each algorithm but 0 in it has a key of the child that
        matches a record of the set by tag, algorithm and digest and has signed the DNSKEY set. */
    lemma ChainOfTrust(i: Input, ds: seq<Ds>, r: Ds)
      requires i.dnskey.Signed() && NewSetSafe(i, ds) && r in ds && r.alg != 0
      ensures Reaches(i, ds, r.alg)
    {
      NewSetSafeMeans(i, ds);
    }

    /** The chain of trust through the old set to what the new one is made from, and on through
        the new set to the child's keys. */
    ghost predicate Trusted(i: Input, ds: seq<Ds>) {
      && i.Complete()
      && OldKeySigned(i, DnskeySet, i.dnskey.sigs.value)
      && (i.cdnskey.Present? ==> OldKeySigned(i, CdnskeySet, i.cdnskey.sigs.value))
      && (i.cds.Present? ==> OldKeySigned(i, CdsSet, i.cds.sigs.value))
      && forall r :: r in ds && r.alg != 0 ==> Reaches(i, ds, r.alg)
    }

    lemma UpdateIsTrusted(i: Input, ds: seq<Ds>)
      requires ChildVouched(i) && NewSetSafe(i, ds)
      ensures Trusted(i, ds)
    {
      SourcesVouched(i);
      forall r | r in ds && r.alg != 0
        ensures Reaches(i, ds, r.alg)
      {
        ChainOfTrust(i, ds, r);
      }
    }

    /** The times are those of the verified signatures, and there are some. */
    lemma ChildTimesAre(i: Input, t: Serial)
      requires i.Complete()
      ensures t in ChildTimes(i) <==> ChildVerifiedAt(i, t)
    {
      var table := TableFor(c, i.dnskey.records, i.oldDs, false);
      var first := PresentTimes([], table, DnskeySet, i.dnskey.Signatures());
      var second := PresentTimes(first, table, CdnskeySet, i.cdnskey.Signatures());
      PresentTimesAre([], table, DnskeySet, i.dnskey.Signatures(), t);
      PresentTimesAre(first, table, CdnskeySet, i.cdnskey.Signatures(), t);
      PresentTimesAre(second, table, CdsSet, i.cds.Signatures(), t);
    }

    lemma PresentTimesAre(before: seq<Serial>, table: seq<KeyInfo>, kind: Kind, sigs: Option<seq<Sig>>, t: Serial)
      ensures t in PresentTimes(before, table, kind, sigs) <==>
              t in before || (sigs.Some? && VerifiedAt(table, kind, sigs.value, t))
    {
      if sigs.Some? {
        TimesAre(before, table, kind, sigs.value, t);
      }
    }

    lemma SomethingVerified(i: Input)
      requires ChildVouched(i)
      ensures exists t :: t in ChildTimes(i)
    {
      var table, sigs := TableFor(c, i.dnskey.records, i.oldDs, false), i.dnskey.sigs.value;
      assert LooselySigned(table, DnskeySet, sigs);
      var k :| 0 <= k < |table| && table[k].algo != 0 && SignedBy(table[k], DnskeySet, sigs);
      var m: nat :| m < |sigs| && Signs(table[k], DnskeySet, sigs[m]);
      assert VerifiedAt(table, DnskeySet, sigs, sigs[m].inception);
      ChildTimesAre(i, sigs[m].inception);
    }

    /** What the times of a run mean. */
    lemma RunTimesAre(i: Input, ds: seq<Ds>, t: Serial)
      requires i.Complete()
      ensures t in ChildTimes(i) <==> ChildVerifiedAt(i, t)
      ensures t in NewTimes(ChildTimes(i), i, ds) <==>
              || ChildVerifiedAt(i, t)
              || VerifiedAt(TableFor(c, i.dnskey.records, ds, true), DnskeySet, i.dnskey.sigs.value, t)
    {
      ChildTimesAre(i, t);
      TimesAre(ChildTimes(i), TableFor(c, i.dnskey.records, ds, true), DnskeySet, i.dnskey.sigs.value, t);
    }

    /** Decide what becomes of the parent's DS set.  A new set keeps the chain of trust.  Unless the
        run ends in an error, the times noted are determined by the input, and the one for the next
        run is the oldest of them exactly under the condition `Kept`. */
    method Run(i: Input) returns (out: Outcome)
      requires Valid() && seen == [] && i.Fits()
      modifies this
      ensures Valid()
      ensures out.Unchanged? <==> ChildVouched(i) && i.cdnskey.Absent? && i.cds.Absent?
      ensures out.Update? <==> ChildVouched(i) && Acceptable(i)
      ensures out.Update? ==> out.ds == MadeFrom(c.g, i).value && Trusted(i, out.ds)
      ensures !out.Fatal? ==>
                var times := if out.Update? then NewTimes(ChildTimes(i), i, out.ds) else ChildTimes(i);
                && seen == times && times != [] && oldest in times
                && (IsMinimum(notbefore, times, oldest) <==> Kept(notbefore, times))
    {
      out := Decide(i);
      if out.Update? {
        UpdateIsTrusted(i, out.ds);
      }
      if !out.Fatal? {
        assert Peek(seen);
        SomethingVerified(i);
        ghost var t :| t in ChildTimes(i);
        if out.Update? {
          RunTimesAre(i, out.ds, t);
        }
        assert t in seen;
        OldestIsSeen(notbefore, seen);
        OldestIsMinimum(notbefore, seen);
      }
    }
  }

  const SHA256: Octet := 2

  datatype Reason =
    | NoDnskey | NoCdnskeySig | NoCdsSig | DnskeyUnverified | CdnskeyUnverified | CdsUnverified
    | MakingFailed | NoDigestTypes | Inconsistent | NewSetUnverified

  datatype Outcome = Update(ds: seq<Ds>) | Unchanged | Fatal(reason: Reason)

  /** A set of the child with its signatures, if there are any. */
  datatype ChildSet<T> = Absent | Present(records: seq<T>, sigs: Option<seq<Sig>>) {
    predicate Signed() {
      Present? && sigs.Some?
    }

    function Signatures(): Option<seq<Sig>> {
      if Present? then sigs else None
    }
  }

  datatype Input = Input(
    oldDs: seq<Ds>, dnskey: ChildSet<KeyRecord>, cdnskey: ChildSet<KeyRecord>, cds: ChildSet<Ds>,
    preferCdnskey: bool, dtypes: seq<Octet>)
  {
    /** Every set that is needed or present has signatures. */
    predicate Complete() {
      dnskey.Signed() && (cdnskey.Present? ==> cdnskey.Signed()) && (cds.Present? ==> cds.Signed())
    }

    /** The digest types asked for, SHA-256 if none was. */
    function Digests(): (r: seq<Octet>)
      ensures Chosen(r) == if Chosen(dtypes) == [] then [SHA256] else Chosen(dtypes)
    {
      if dtypes == [] || dtypes[0] == 0 then [SHA256] else dtypes
    }

    function CdnskeySource(): (r: seq<Child>)
    {
      if cdnskey.Absent? then []
      else seq(|cdnskey.records|, k requires 0 <= k < |cdnskey.records| => Cdnskey(cdnskey.records[k]))
    }

    function CdsSource(): (r: seq<Child>)
    {
      if cds.Absent? then [] else seq(|cds.records|, k requires 0 <= k < |cds.records| => Child.Cds(cds.records[k]))
    }

    /** The DS records fit a 32-bit buffer size. */
    ghost predicate Fits() {
      && 2 * SpaceNeeded(Chosen(Digests()), CdnskeySource()) <= UINT32
      && 2 * SpaceNeeded(Chosen(Digests()), CdsSource()) <= UINT32
    }
  }

  /** The DS set made from the child's CDS set, or from its CDNSKEY set if that is preferred or
      the CDS set is absent or yields nothing. */
  ghost function MadeFrom(g: Digester, i: Input): Option<seq<Ds>> {
    var keys := NewSet(g, Chosen(i.Digests()), i.CdnskeySource());
    if (i.preferCdnskey && i.cdnskey.Present?) || i.cds.Absent? then keys
    else
      var first := NewSet(g, Chosen(i.Digests()), i.CdsSource());
      if first == Some([]) && i.cdnskey.Present? then keys else first
  }

  /** One key of algorithm 8, and a child that asks for a DS record of algorithm 0. */
  const ZERO_KEY: KeyRecord := KeyRecord(8, [])
  const ZERO_CRYPTO: Crypto := Crypto(Digester(_ => 1, (_, _) => Some(ZERO_DIGEST)), _ => true, (_, _, _) => true)
  const ZERO_SIGS: seq<Sig> := [Sig(1, 8, [], 1, 0)]
  const ZERO_DIGEST: Octets := seq(32, _ => 0)
  const ZERO_DS: Ds := Ds(1, 0, 2, ZERO_DIGEST)
  const ZERO_INPUT: Input :=
    Input([Ds(1, 8, 2, ZERO_DIGEST)], Present([ZERO_KEY], Some(ZERO_SIGS)), Absent, Present([ZERO_DS], Some(ZERO_SIGS)),
          false, [])

  /** The DS set becomes that record alone, which no key of the child matches. */
  method AlgorithmZeroAccepted() returns (out: Outcome)
    ensures out == Update([ZERO_DS])
    ensures !Matches(ZERO_CRYPTO.g, ZERO_KEY, ZERO_DS)
  {
    var k := new Checker(ZERO_CRYPTO, [], 1);
    ZeroVouched(k);
    ZeroAcceptable(k);
    out := k.Run(ZERO_INPUT);
  }

  lemma ZeroVouched(k: Checker)
    requires k.c == ZERO_CRYPTO && k.name == [] && k.notbefore == 1
    ensures k.ChildVouched(ZERO_INPUT)
  {
    var i := ZERO_INPUT;
    assert Matches(ZERO_CRYPTO.g, ZERO_KEY, i.oldDs[0]);
    assert i.dnskey.records[0] == ZERO_KEY && ZERO_KEY.alg != 0;
    assert k.SignedWith(ZERO_KEY, DnskeySet, ZERO_SIGS[0]) && k.SignedWith(ZERO_KEY, CdsSet, ZERO_SIGS[0]);
    k.VouchedMeans(i.oldDs, i.dnskey.records, DnskeySet, ZERO_SIGS);
    k.VouchedMeans(i.oldDs, i.dnskey.records, CdsSet, ZERO_SIGS);
  }

  lemma ZeroMade()
    ensures MadeFrom(ZERO_CRYPTO.g, ZERO_INPUT) == Some([ZERO_DS]) && ZERO_INPUT.Fits()
  {
    var i, g := ZERO_INPUT, ZERO_CRYPTO.g;
    var types, source := Chosen(i.Digests()), i.CdsSource();
    assert types == [2] && source == [Child.Cds(ZERO_DS)] && i.CdnskeySource() == [];
    assert types[..0] == [] && source[..0] == [];
    assert MadeFor(g, 2, source[..0]) == Some([]);
    assert Make(g, 2, source[0]) == Good(ZERO_DS);
    assert MadeFor(g, 2, source) == Some([] + [ZERO_DS]);
    assert NewSet(g, types[..0], source) == Some([]);
    assert NewSet(g, types, source) == Some([] + ([] + [ZERO_DS]));
    assert [] + ([] + [ZERO_DS]) == [ZERO_DS];
    assert SpaceNeeded(types[..0], source) == 0 && SpaceForAll(2, source[..0]) == 0;
  }

  lemma ZeroAcceptable(k: Checker)
    requires k.c == ZERO_CRYPTO && k.name == [] && k.notbefore == 1
    ensures k.Acceptable(ZERO_INPUT) && ZERO_INPUT.Fits() && MadeFrom(ZERO_CRYPTO.g, ZERO_INPUT) == Some([ZERO_DS])
  {
    ZeroMade();
    var i, ds := ZERO_INPUT, [ZERO_DS];
    assert !Candidate(ZERO_CRYPTO.g, ZERO_KEY, ds[0]);
    assert i.dnskey.records[0] == ZERO_KEY;
    assert k.Unsigned(i, ds);
    k.NewSetSafeMeans(i, ds);
    SortRecordsOrders(ds);
    assert Consistent(ds);
  }
}
