/** When a zone transfer received by dig is complete.

The records arrive in messages; `check_for_more_data` keeps a few flags across messages and
decides at each SOA whether the AXFR or IXFR has ended (section 4 of RFC 1995, section 2.2 of
RFC 5936).
*/
module Transfer {
  import opened Serials

  datatype RR = Soa(serial: Serial) | Other

  datatype Lookup = Axfr | Ixfr(serial: Serial)

  /** What the query remembers. */
  datatype Memory = Memory(
    firstSoa: bool, firstSerial: Serial, second: bool, secondSerial: Serial, repeat: bool, ixfrAxfr: bool)

  const FRESH := Memory(false, 0, false, 0, false, false)

  datatype Verdict = More | Complete | NotSoaFirst | NoAnswer

  predicate Axfrish(l: Lookup, m: Memory) {
    l.Axfr? || m.ixfrAxfr
  }

  /** One record. */
  function Take(l: Lookup, m: Memory, rr: RR): (Memory, Verdict) {
    match rr
    case Other =>
      if !m.firstSoa then (m, NotSoaFirst)
      else if !m.second then (m.(second := true, secondSerial := 0, ixfrAxfr := true), More)
      else (m, More)
    case Soa(serial) =>
      if !m.firstSoa then
        (m.(firstSoa := true, firstSerial := serial), if l.Ixfr? && Ge(l.serial, serial) then Complete else More)
      else if Axfrish(l, m) then (m, Complete)
      else if !m.second then
        if m.firstSerial == serial then (m, Complete) else (m.(second := true, secondSerial := serial), More)
      else if m.firstSerial == serial then
        if m.repeat then (m, Complete) else (m.(repeat := true), More)
      else (m, More)
  }

  /** Records one after the other, up to the first that settles the transfer. */
  function TakeAll(l: Lookup, m: Memory, rrs: seq<RR>): (Memory, Verdict)
    decreases rrs
  {
    if rrs == [] then (m, More)
    else
      var (m1, v) := Take(l, m, rrs[0]);
      if v != More then (m1, v) else TakeAll(l, m1, rrs[1..])
  }

  /** How many records that takes. */
  function Taken(l: Lookup, m: Memory, rrs: seq<RR>): (n: nat)
    ensures n <= |rrs|
    decreases rrs
  {
    if rrs == [] then 0
    else
      var (m1, v) := Take(l, m, rrs[0]);
      if v != More then 1 else 1 + Taken(l, m1, rrs[1..])
  }

  function Flatten<T>(s: seq<seq<T>>): (r: seq<T>) {
    if s == [] then [] else s[0] + Flatten(s[1..])
  }

  lemma {:induction false} TakeAllConcat(l: Lookup, m: Memory, a: seq<RR>, b: seq<RR>)
    ensures TakeAll(l, m, a + b) ==
            var (m1, v) := TakeAll(l, m, a);
            if v != More then (m1, v) else TakeAll(l, m1, b)
    ensures Taken(l, m, a + b) ==
            var (m1, v) := TakeAll(l, m, a);
            Taken(l, m, a) + if v != More then 0 else Taken(l, m1, b)
    decreases a
  {
    if a == [] {
      assert a + b == b;
    } else {
      assert (a + b)[1..] == a[1..] + b;
      var (m1, v) := Take(l, m, a[0]);
      if v == More {
        TakeAllConcat(l, m1, a[1..], b);
      }
    }
  }

  /** An answer section: names, each with record sets, each with records. */
  type Answer = seq<seq<seq<RR>>>

  function Records(answer: Answer): seq<RR> {
    Flatten(Flatten(answer))
  }

  /** Reading `rest` with `n` records counted comes to the same as reading `all` with `n0`. */
  ghost predicate Midway(l: Lookup, m0: Memory, n0: nat, all: seq<RR>, m: Memory, n: nat, rest: seq<RR>) {
    TakeAll(l, m, rest) == TakeAll(l, m0, all) && n + Taken(l, m, rest) == n0 + Taken(l, m0, all)
  }

  /** One more piece has been read. */
  lemma MidwayStep(l: Lookup, m0: Memory, n0: nat, all: seq<RR>, m: Memory, n: nat, piece: seq<RR>, rest: seq<RR>)
    requires Midway(l, m0, n0, all, m, n, piece + rest)
    ensures var (m1, v) := TakeAll(l, m, piece);
            if v != More then (m1, v) == TakeAll(l, m0, all) && n + Taken(l, m, piece) == n0 + Taken(l, m0, all)
            else Midway(l, m0, n0, all, m1, n + Taken(l, m, piece), rest)
  {
    TakeAllConcat(l, m, piece, rest);
  }

  lemma SingleRecord(l: Lookup, m: Memory, rr: RR)
    ensures TakeAll(l, m, [rr]) == Take(l, m, rr) && Taken(l, m, [rr]) == 1
  {
    var rrs := [rr];
    var (m1, v) := Take(l, m, rr);
    assert rrs[1..] == [];
    assert TakeAll(l, m1, rrs[1..]) == (m1, More);
  }

  class Query {
    var firstSoaRcvd: bool
    var firstRrSerial: Serial
    var secondRrRcvd: bool
    var secondRrSerial: Serial
    var firstRepeatRcvd: bool
    var ixfrAxfr: bool
    var msgCount: nat
    var rrCount: nat
    var byteCount: nat

    constructor ()
      ensures M() == FRESH && msgCount == rrCount == byteCount == 0
    {
      firstSoaRcvd, firstRrSerial, secondRrRcvd, secondRrSerial := false, 0, false, 0;
      firstRepeatRcvd, ixfrAxfr, msgCount, rrCount, byteCount := false, false, 0, 0, 0;
    }

    ghost function M(): Memory
      reads this
    {
      Memory(firstSoaRcvd, firstRrSerial, secondRrRcvd, secondRrSerial, firstRepeatRcvd, ixfrAxfr)
    }

    /** The body of the innermost loop. */
    method TakeRecord(lookup: Lookup, rr: RR) returns (verdict: Verdict)
      modifies this
      ensures (M(), verdict) == Take(lookup, old(M()), rr)
      ensures msgCount == old(msgCount) && byteCount == old(byteCount) && rrCount == old(rrCount) + 1
    {
      rrCount := rrCount + 1;
      if !firstSoaRcvd && !rr.Soa? {
        return NotSoaFirst;
      }
      if !secondRrRcvd && !rr.Soa? {
        secondRrRcvd := true;
        secondRrSerial := 0;
        ixfrAxfr := true;
        return More;
      }
      if !rr.Soa? {
        return More;
      }
      if !firstSoaRcvd {
        firstSoaRcvd := true;
        firstRrSerial := rr.serial;
        if lookup.Ixfr? && Ge(lookup.serial, rr.serial) {
          return Complete;
        }
        return More;
      }
      if lookup.Axfr? || ixfrAxfr {
        return Complete;
      }
      if !secondRrRcvd {
        if firstRrSerial == rr.serial {
          return Complete;
        }
        secondRrRcvd := true;
        secondRrSerial := rr.serial;
        return More;
      }
      if firstRrSerial == rr.serial {
        if !firstRepeatRcvd {
          firstRepeatRcvd := true;
          return More;
        }
        return Complete;
      }
      return More;
    }

    /** One message.  Anything but `More` ends the transfer. */
    method CheckForMoreData(lookup: Lookup, answer: Answer, len: nat) returns (verdict: Verdict)
      modifies this
      ensures msgCount == old(msgCount) + 1 && byteCount == old(byteCount) + len
      ensures answer == [] ==> verdict == NoAnswer && M() == old(M()) && rrCount == old(rrCount)
      ensures answer != [] ==>
                && (M(), verdict) == TakeAll(lookup, old(M()), Records(answer))
                && rrCount == old(rrCount) + Taken(lookup, old(M()), Records(answer))
    {
      msgCount := msgCount + 1;
      byteCount := byteCount + len;
      if answer == [] {
        return NoAnswer;
      }
      assert answer[0..] == answer;
      var i := 0;
      while i < |answer|
        invariant i <= |answer| && msgCount == old(msgCount) + 1 && byteCount == old(byteCount) + len
        invariant Midway(lookup, old(M()), old(rrCount), Records(answer), M(), rrCount, Records(answer[i..]))
      {
        RecordsSplit(answer, i);
        ghost var piece, rest := Flatten(answer[i]), Records(answer[i + 1..]);
        MidwayStep(lookup, old(M()), old(rrCount), Records(answer), M(), rrCount, piece, rest);
        verdict := TakeName(lookup, answer[i]);
        if verdict != More {
          return;
        }
        i := i + 1;
      }
      verdict := More;
    }

    method TakeName(lookup: Lookup, name: seq<seq<RR>>) returns (verdict: Verdict)
      modifies this
      ensures msgCount == old(msgCount) && byteCount == old(byteCount)
      ensures (M(), verdict) == TakeAll(lookup, old(M()), Flatten(name))
      ensures rrCount == old(rrCount) + Taken(lookup, old(M()), Flatten(name))
    {
      assert name[0..] == name;
      var j := 0;
      while j < |name|
        invariant j <= |name| && msgCount == old(msgCount) && byteCount == old(byteCount)
        invariant Midway(lookup, old(M()), old(rrCount), Flatten(name), M(), rrCount, Flatten(name[j..]))
      {
        assert name[j..][1..] == name[j + 1..];
        MidwayStep(lookup, old(M()), old(rrCount), Flatten(name), M(), rrCount, name[j], Flatten(name[j + 1..]));
        verdict := TakeSet(lookup, name[j]);
        if verdict != More {
          return;
        }
        j := j + 1;
      }
      verdict := More;
    }

    method TakeSet(lookup: Lookup, rdataset: seq<RR>) returns (verdict: Verdict)
      modifies this
      ensures msgCount == old(msgCount) && byteCount == old(byteCount)
      ensures (M(), verdict) == TakeAll(lookup, old(M()), rdataset)
      ensures rrCount == old(rrCount) + Taken(lookup, old(M()), rdataset)
    {
      assert rdataset[0..] == rdataset;
      var k := 0;
      while k < |rdataset|
        invariant k <= |rdataset| && msgCount == old(msgCount) && byteCount == old(byteCount)
        invariant Midway(lookup, old(M()), old(rrCount), rdataset, M(), rrCount, rdataset[k..])
      {
        assert rdataset[k..] == [rdataset[k]] + rdataset[k + 1..];
        MidwayStep(lookup, old(M()), old(rrCount), rdataset, M(), rrCount, [rdataset[k]], rdataset[k + 1..]);
        SingleRecord(lookup, M(), rdataset[k]);
        verdict := TakeRecord(lookup, rdataset[k]);
        if verdict != More {
          return;
        }
        k := k + 1;
      }
      verdict := More;
    }
  }

  lemma RecordsSplit(answer: Answer, i: nat)
    requires i < |answer|
    ensures Records(answer[i..]) == Flatten(answer[i]) + Records(answer[i + 1..])
  {
    assert answer[i..][0] == answer[i] && answer[i..][1..] == answer[i + 1..];
    FlattenConcat(answer[i], Flatten(answer[i + 1..]));
  }

  lemma {:induction false} FlattenConcat<T>(a: seq<seq<T>>, b: seq<seq<T>>)
    ensures Flatten(a + b) == Flatten(a) + Flatten(b)
  {
    if a == [] {
      assert a + b == b;
    } else {
      assert (a + b)[1..] == a[1..] + b;
      FlattenConcat(a[1..], b);
    }
  }

  /** Message after message, until one settles the transfer. */
  function TakeMessages(l: Lookup, m: Memory, answers: seq<Answer>): (Memory, Verdict)
    decreases answers
  {
    if answers == [] then (m, More)
    else if answers[0] == [] then (m, NoAnswer)
    else
      var (m1, v) := TakeAll(l, m, Records(answers[0]));
      if v != More then (m1, v) else TakeMessages(l, m1, answers[1..])
  }

  /** How the records are packed into messages makes no difference, as long as no message has
      an empty answer section. */
  lemma {:induction false} PackingIrrelevant(l: Lookup, m: Memory, answers: seq<Answer>)
    requires forall i :: 0 <= i < |answers| ==> answers[i] != []
    ensures TakeMessages(l, m, answers) == TakeAll(l, m, Flatten(Flatten(Flatten(answers))))
    decreases answers
  {
    if answers != [] {
      FlattenConcat(answers[0], Flatten(answers[1..]));
      FlattenConcat(Flatten(answers[0]), Flatten(Flatten(answers[1..])));
      var rest := Flatten(Flatten(Flatten(answers[1..])));
      TakeAllConcat(l, m, Records(answers[0]), rest);
      var (m1, v) := TakeAll(l, m, Records(answers[0]));
      PackingIrrelevant(l, m1, answers[1..]);
    }
  }

  /** The transfer is found complete at the last of these records and not before. */
  ghost predicate ClosesExactly(l: Lookup, rrs: seq<RR>) {
    && rrs != []
    && TakeAll(l, FRESH, rrs[..|rrs| - 1]).1 == More
    && TakeAll(l, FRESH, rrs).1 == Complete
  }

  ghost predicate NoSoa(rrs: seq<RR>) {
    forall i :: 0 <= i < |rrs| ==> rrs[i].Other?
  }

  /** How often the SOA with this serial occurs. */
  ghost function Count(serial: Serial, rrs: seq<RR>): (n: nat)
  {
    if rrs == [] then 0 else (if rrs[0] == Soa(serial) then 1 else 0) + Count(serial, rrs[1..])
  }

  lemma {:induction false} CountConcat(serial: Serial, a: seq<RR>, b: seq<RR>)
    ensures Count(serial, a + b) == Count(serial, a) + Count(serial, b)
  {
    if a == [] {
      assert a + b == b;
    } else {
      assert (a + b)[1..] == a[1..] + b;
      CountConcat(serial, a[1..], b);
    }
  }

  /** Once the answer is known to be a whole zone, the next SOA ends it. */
  lemma {:induction false} WholeZone(l: Lookup, m: Memory, rrs: seq<RR>)
    requires m.firstSoa && Axfrish(l, m)
    ensures TakeAll(l, m, rrs).1 == if NoSoa(rrs) then More else Complete
    decreases rrs
  {
    if rrs != [] {
      var (m1, v) := Take(l, m, rrs[0]);
      if v == More {
        WholeZone(l, m1, rrs[1..]);
        assert NoSoa(rrs) <==> NoSoa(rrs[1..]);
      }
    }
  }

  /** In an incremental answer, the new serial is seen once at the end of the last difference
      and then once more. */
  lemma {:induction false} Incremental(l: Lookup, m: Memory, rrs: seq<RR>)
    requires m.firstSoa && m.second && !Axfrish(l, m)
    ensures TakeAll(l, m, rrs).1 ==
            if Count(m.firstSerial, rrs) + (if m.repeat then 1 else 0) <= 1 then More else Complete
    decreases rrs
  {
    if rrs != [] {
      var (m1, v) := Take(l, m, rrs[0]);
      if v == More {
        Incremental(l, m1, rrs[1..]);
      }
    }
  }

  ghost predicate AxfrStream(rrs: seq<RR>) {
    && |rrs| >= 2 && rrs[0].Soa? && rrs[|rrs| - 1].Soa?
    && NoSoa(rrs[1..|rrs| - 1])
  }

  /** An AXFR is found complete exactly at the record that makes it a whole zone. */
  lemma AxfrCloses(rrs: seq<RR>)
    ensures ClosesExactly(Axfr, rrs) <==> AxfrStream(rrs)
  {
    if |rrs| == 1 {
      assert rrs[1..] == [];
      assert TakeAll(Axfr, FRESH, rrs).1 == Take(Axfr, FRESH, rrs[0]).1;
    } else if |rrs| >= 2 {
      var init := rrs[..|rrs| - 1];
      assert init[0] == rrs[0];
      assert init[1..] == rrs[1..|rrs| - 1];
      if rrs[0].Soa? {
        var m1 := Take(Axfr, FRESH, rrs[0]).0;
        WholeZone(Axfr, m1, rrs[1..]);
        WholeZone(Axfr, m1, init[1..]);
        assert rrs[1..] == init[1..] + [rrs[|rrs| - 1]];
        assert rrs[1..][|rrs| - 2] == rrs[|rrs| - 1];
        assert NoSoa(init[1..]) ==> (NoSoa(rrs[1..]) <==> rrs[|rrs| - 1].Other?);
      }
    }
  }

  /** What an IXFR answer to a client at `client` may look like. */
  ghost predicate IxfrStream(client: Serial, rrs: seq<RR>) {
    && rrs != [] && rrs[0].Soa?
    && var newest, last := rrs[0].serial, rrs[|rrs| - 1];
       if Ge(client, newest) then |rrs| == 1  // already up to date
       else
         && |rrs| >= 2
         && if rrs[1].Other? then last.Soa? && NoSoa(rrs[1..|rrs| - 1])  // a whole zone
            else if rrs[1].serial == newest then |rrs| == 2  // an empty zone
            else |rrs| >= 3 && last == Soa(newest) && Count(newest, rrs[2..|rrs| - 1]) == 1  // differences
  }

  /** An IXFR is found complete exactly at the end of such an answer. */
  lemma IxfrCloses(client: Serial, rrs: seq<RR>)
    ensures ClosesExactly(Ixfr(client), rrs) <==> IxfrStream(client, rrs)
  {
    if |rrs| >= 2 && rrs[0].Soa? && !Ge(client, rrs[0].serial) {
      IxfrBody(client, rrs);
    } else if |rrs| >= 2 {
      assert rrs[..|rrs| - 1][0] == rrs[0];
    } else if |rrs| == 1 {
      assert rrs[1..] == [];
      assert TakeAll(Ixfr(client), FRESH, rrs).1 == Take(Ixfr(client), FRESH, rrs[0]).1;
    }
  }

  lemma IxfrBody(client: Serial, rrs: seq<RR>)
    requires |rrs| >= 2 && rrs[0].Soa? && !Ge(client, rrs[0].serial)
    ensures ClosesExactly(Ixfr(client), rrs) <==> IxfrStream(client, rrs)
  {
    var l := Ixfr(client);
    var init, last := rrs[..|rrs| - 1], rrs[|rrs| - 1];
    var m1 := Take(l, FRESH, rrs[0]).0;
    assert init[1..] == rrs[1..|rrs| - 1];
    assert TakeAll(l, FRESH, rrs) == TakeAll(l, m1, rrs[1..]);
    assert TakeAll(l, FRESH, init) == TakeAll(l, m1, init[1..]);
    if |rrs| > 2 {
      var (m2, v) := Take(l, m1, rrs[1]);
      var mid := rrs[2..|rrs| - 1];
      assert init[1..][1..] == mid && rrs[1..][1..] == mid + [last];
      if rrs[1].Other? {
        WholeZone(l, m2, mid);
        WholeZone(l, m2, mid + [last]);
        assert (mid + [last])[|mid|] == last;
        assert NoSoa(init[1..]) <==> NoSoa(mid);
        assert NoSoa(mid) ==> (NoSoa(mid + [last]) <==> last.Other?);
      } else if rrs[1].serial != rrs[0].serial {
        Incremental(l, m2, mid);
        Incremental(l, m2, mid + [last]);
        CountConcat(rrs[0].serial, mid, [last]);
        assert Count(rrs[0].serial, [last]) == if last == Soa(rrs[0].serial) then 1 else 0;
      }
    } else {
      assert TakeAll(l, m1, rrs[1..]).1 == Take(l, m1, rrs[1]).1;
    }
  }

  /** A difference sequence: from one serial to the next, some records removed, some added. */
  datatype Difference = Difference(older: Serial, removed: nat, newer: Serial, added: nat)

  function Others(n: nat): (r: seq<RR>)
    ensures |r| == n && NoSoa(r)
  {
    seq(n, _ => Other)
  }

  function DifferenceRecords(d: Difference): seq<RR> {
    [Soa(d.older)] + Others(d.removed) + [Soa(d.newer)] + Others(d.added)
  }

  function Differences(ds: seq<Difference>): seq<RR> {
    if ds == [] then [] else DifferenceRecords(ds[0]) + Differences(ds[1..])
  }

  lemma {:induction false} CountOthers(serial: Serial, rrs: seq<RR>)
    requires NoSoa(rrs)
    ensures Count(serial, rrs) == 0
  {
    if rrs != [] {
      CountOthers(serial, rrs[1..]);
    }
  }

  lemma CountDifference(serial: Serial, d: Difference)
    ensures Count(serial, DifferenceRecords(d)) ==
            (if d.older == serial then 1 else 0) + (if d.newer == serial then 1 else 0)
  {
    var a, b := [Soa(d.older)] + Others(d.removed), [Soa(d.newer)] + Others(d.added);
    assert DifferenceRecords(d) == a + b;
    CountConcat(serial, a, b);
    CountConcat(serial, [Soa(d.older)], Others(d.removed));
    CountConcat(serial, [Soa(d.newer)], Others(d.added));
    CountOthers(serial, Others(d.removed));
    CountOthers(serial, Others(d.added));
    assert Count(serial, [Soa(d.older)]) == if d.older == serial then 1 else 0;
    assert Count(serial, [Soa(d.newer)]) == if d.newer == serial then 1 else 0;
  }

  /** The newest serial turns up only where it belongs. */
  ghost predicate NewestOnlyLast(newest: Serial, ds: seq<Difference>) {
    forall i :: 0 <= i < |ds| ==> ds[i].older != newest && (i < |ds| - 1 ==> ds[i].newer != newest)
  }

  lemma {:induction false} CountDifferences(newest: Serial, ds: seq<Difference>)
    requires ds != [] && ds[|ds| - 1].newer == newest
    ensures Count(newest, Differences(ds)) >= 1
    ensures Count(newest, Differences(ds)) == 1 <==> NewestOnlyLast(newest, ds)
  {
    CountConcat(newest, DifferenceRecords(ds[0]), Differences(ds[1..]));
    CountDifference(newest, ds[0]);
    if |ds| > 1 {
      CountDifferences(newest, ds[1..]);
      assert NewestOnlyLast(newest, ds) <==>
             NewestOnlyLast(newest, ds[1..]) && ds[0].older != newest && ds[0].newer != newest by {
        if NewestOnlyLast(newest, ds) {
          assert forall i :: 0 <= i < |ds| - 1 ==> ds[1..][i] == ds[i + 1];
        }
        if NewestOnlyLast(newest, ds[1..]) && ds[0].older != newest && ds[0].newer != newest {
          assert forall i :: 1 <= i < |ds| ==> ds[i] == ds[1..][i - 1];
        }
      }
    } else {
      assert Differences(ds[1..]) == [];
    }
  }

  /** An IXFR answer made of one or more difference sequences up to `newest` is found complete
      exactly at its closing SOA if and only if `newest` is ahead of the client and no older or
      intermediate serial equals it. */
  lemma {:induction false} DifferencesClose(client: Serial, newest: Serial, ds: seq<Difference>)
    requires ds != [] && ds[|ds| - 1].newer == newest
    ensures ClosesExactly(Ixfr(client), [Soa(newest)] + Differences(ds) + [Soa(newest)]) <==>
            !Ge(client, newest) && NewestOnlyLast(newest, ds)
  {
    var body := Differences(ds);
    var rrs := [Soa(newest)] + body + [Soa(newest)];
    IxfrCloses(client, rrs);
    CountDifferences(newest, ds);
    assert body[0] == Soa(ds[0].older);
    assert rrs[1] == body[0] && rrs[2..|rrs| - 1] == body[1..];
    assert body == [body[0]] + body[1..];
    CountConcat(newest, [body[0]], body[1..]);
    assert Count(newest, [body[0]]) == if ds[0].older == newest then 1 else 0;
  }
}
