/** The replay limit of dnssec-cds: which signature is remembered as the oldest.

A signature is looked at only if its inception time is not before `notbefore`; the oldest
inception time of the verified ones becomes `notbefore` for the next run.  Times compare as
serial numbers.
*/
module Replay {
  import opened Serials

  /** The inception time that is remembered after these have been verified in turn; 0 is "none". */
  function Oldest(seen: seq<Serial>): (o: Serial)
  {
    if seen == [] then 0
    else
      var o := Oldest(seen[..|seen| - 1]);
      if o == 0 || Lt(seen[|seen| - 1], o) then seen[|seen| - 1] else o
  }

  /** The times that pass the age test of one run. */
  ghost predicate Admitted(notbefore: Serial, seen: seq<Serial>) {
    forall i :: 0 <= i < |seen| ==> !Lt(seen[i], notbefore)
  }

  /** How long after `notbefore` a time is. */
  function Age(notbefore: Serial, t: Serial): (a: Serial)
  {
    Diff(t, notbefore)
  }

  /** Two admitted times compare by their ages, except that the age 0 and the age exactly half
      the circle do not compare. */
  lemma LtByAge(notbefore: Serial, a: Serial, b: Serial)
    requires !Lt(a, notbefore) && !Lt(b, notbefore)
    ensures Age(notbefore, a) <= HALF && Age(notbefore, b) <= HALF
    ensures Lt(a, b) <==>
            Age(notbefore, a) < Age(notbefore, b) && !(Age(notbefore, a) == 0 && Age(notbefore, b) == HALF)
    ensures a == b <==> Age(notbefore, a) == Age(notbefore, b)
  {
  }

  lemma {:induction false} OldestIsSeen(notbefore: Serial, seen: seq<Serial>)
    requires Admitted(notbefore, seen) && seen != []
    ensures Oldest(seen) in seen && !Lt(Oldest(seen), notbefore)
  {
    var init := seen[..|seen| - 1];
    if init != [] {
      assert forall i :: 0 <= i < |init| ==> init[i] == seen[i];
      OldestIsSeen(notbefore, init);
    }
  }

  ghost predicate IsMinimum(notbefore: Serial, seen: seq<Serial>, o: Serial) {
    o in seen && forall i :: 0 <= i < |seen| ==> Age(notbefore, o) <= Age(notbefore, seen[i])
  }

  /** Ages 0 and half a circle only. */
  ghost predicate Extreme(notbefore: Serial, t: Serial) {
    Age(notbefore, t) == 0 || Age(notbefore, t) == HALF
  }

  ghost predicate AllExtreme(notbefore: Serial, seen: seq<Serial>) {
    forall i :: 0 <= i < |seen| ==> Extreme(notbefore, seen[i])
  }

  /** A time at `notbefore` that is not noticed: the first time is half a circle after it, and
      all so far are one or the other. */
  ghost predicate Hidden(notbefore: Serial, seen: seq<Serial>, i: nat)
    requires i < |seen|
  {
    && seen[i] == notbefore && Age(notbefore, seen[0]) == HALF
    && forall j :: 0 <= j < i ==> Extreme(notbefore, seen[j])
  }

  /** Every time at `notbefore` is hidden, and there is one. */
  ghost predicate Masked(notbefore: Serial, seen: seq<Serial>) {
    notbefore in seen && forall i: nat :: i < |seen| && seen[i] == notbefore ==> Hidden(notbefore, seen, i)
  }

  // ---- Times of 0 ----

  /** An inception time of 0 reads as "none": once it is remembered, all that came before is
      forgotten. */
  lemma {:induction false} ZeroForgets(before: seq<Serial>, rest: seq<Serial>)
    requires Oldest(before) == 0
    ensures Oldest(before + rest) == Oldest(rest)
  {
    if rest == [] {
      assert before + rest == before;
    } else {
      var init := rest[..|rest| - 1];
      assert (before + rest)[..|before + rest| - 1] == before + init;
      ZeroForgets(before, init);
    }
  }

  /** A time of 0 that comes after these is remembered: there are none, or all that are not
      hidden are younger and, if 0 is `notbefore` itself, not all half a circle younger. */
  ghost predicate ZeroWins(notbefore: Serial, tail: seq<Serial>) {
    || tail == []
    || (&& (forall i: nat :: i < |tail| ==> Hidden(notbefore, tail, i) || Age(notbefore, 0) < Age(notbefore, tail[i]))
        && (notbefore == 0 ==> !AllExtreme(notbefore, tail)))
  }

  /** Where the last time of 0 that is remembered ends: the times before are forgotten. */
  ghost function Restart(notbefore: Serial, seen: seq<Serial>): (k: nat)
    ensures k <= |seen|
  {
    if seen == [] then 0
    else
      var init := seen[..|seen| - 1];
      var k := Restart(notbefore, init);
      if seen[|seen| - 1] == 0 && ZeroWins(notbefore, init[k..]) then |seen| else k
  }

  /** Times among which no 0 is remembered. */
  ghost predicate NoRestart(notbefore: Serial, tail: seq<Serial>) {
    forall j: nat {:trigger Loses(notbefore, tail, j)} :: j < |tail| ==> Loses(notbefore, tail, j)
  }

  ghost predicate Loses(notbefore: Serial, tail: seq<Serial>, j: nat)
    requires j < |tail|
  {
    tail[j] == 0 ==> !ZeroWins(notbefore, tail[..j])
  }

  /** `o` is the smallest of the times that are not hidden. */
  ghost predicate Lowest(notbefore: Serial, tail: seq<Serial>, o: Serial) {
    && (exists i: nat :: i < |tail| && tail[i] == o && !Hidden(notbefore, tail, i))
    && forall i: nat :: i < |tail| ==> Hidden(notbefore, tail, i) || Age(notbefore, o) <= Age(notbefore, tail[i])
  }

  lemma HiddenAppend(notbefore: Serial, init: seq<Serial>, x: Serial, i: nat)
    requires i < |init|
    ensures Hidden(notbefore, init + [x], i) <==> Hidden(notbefore, init, i)
  {
    assert forall j :: 0 <= j < |init| ==> (init + [x])[j] == init[j];
  }

  /** The smallest time that is not hidden is half a circle off exactly if all are extreme and
      the first is half a circle off. */
  lemma LowestHalf(notbefore: Serial, tail: seq<Serial>, o: Serial)
    requires Admitted(notbefore, tail) && tail != [] && Lowest(notbefore, tail, o)
    ensures Age(notbefore, o) == HALF <==> Age(notbefore, tail[0]) == HALF && AllExtreme(notbefore, tail)
  {
    forall i | 0 <= i < |tail|
      ensures Age(notbefore, tail[i]) <= HALF
    {
      LtByAge(notbefore, tail[i], tail[i]);
    }
  }

  lemma LowestStep(notbefore: Serial, init: seq<Serial>, x: Serial, o: Serial)
    requires Admitted(notbefore, init) && !Lt(x, notbefore) && init != [] && Lowest(notbefore, init, o)
    ensures Lowest(notbefore, init + [x], if Lt(x, o) then x else o)
  {
    var all := init + [x];
    forall i: nat | i < |init|
      ensures all[i] == init[i] && (Hidden(notbefore, all, i) <==> Hidden(notbefore, init, i))
    {
      HiddenAppend(notbefore, init, x, i);
    }
    assert all[|init|] == x;
    assert Hidden(notbefore, all, |init|) <==>
           x == notbefore && Age(notbefore, init[0]) == HALF && AllExtreme(notbefore, init);
    LowestHalf(notbefore, init, o);
    var k: nat :| k < |init| && init[k] == o && !Hidden(notbefore, init, k);
    assert all[k] == o;
    LtByAge(notbefore, x, o);
  }

  /** A 0 is smaller than what is remembered exactly if it wins. */
  lemma ZeroTakes(notbefore: Serial, tail: seq<Serial>, o: Serial)
    requires Admitted(notbefore, tail) && tail != [] && tail[0] != 0 && Lowest(notbefore, tail, o)
    requires !Lt(0, notbefore)
    ensures Lt(0, o) <==> ZeroWins(notbefore, tail)
  {
    var k: nat :| k < |tail| && tail[k] == o && !Hidden(notbefore, tail, k);
    LtByAge(notbefore, 0, o);
    LtByAge(notbefore, 0, tail[0]);
    LowestHalf(notbefore, tail, o);
  }

  /** As long as no 0 is remembered, the smallest time that is not hidden is. */
  lemma {:induction false} TailLowest(notbefore: Serial, tail: seq<Serial>)
    requires Admitted(notbefore, tail) && tail != [] && NoRestart(notbefore, tail)
    ensures Lowest(notbefore, tail, Oldest(tail)) && Oldest(tail) != 0 && tail[0] != 0
  {
    var init, x := tail[..|tail| - 1], tail[|tail| - 1];
    assert tail == init + [x];
    OldestStep(init, x);
    assert Loses(notbefore, tail, |init|) && tail[..|init|] == init;
    if init == [] {
      assert Oldest(init) == 0;
    } else {
      NoRestartPrefix(notbefore, tail, |init|);
      TailLowest(notbefore, init);
      LowestStep(notbefore, init, x, Oldest(init));
      if x == 0 {
        ZeroTakes(notbefore, init, Oldest(init));
      }
    }
  }

  /** What `Restart` says: the times before it are forgotten, and among the rest no 0 is
      remembered. */
  ghost predicate Restarts(notbefore: Serial, seen: seq<Serial>, k: nat) {
    && k <= |seen| && Oldest(seen[..k]) == 0 && NoRestart(notbefore, seen[k..])
    && Oldest(seen) == Oldest(seen[k..]) && (k > 0 ==> seen[k - 1] == 0)
  }

  lemma {:induction false} RestartIs(notbefore: Serial, seen: seq<Serial>)
    requires Admitted(notbefore, seen)
    ensures Restarts(notbefore, seen, Restart(notbefore, seen))
  {
    if seen != [] {
      var init, x := seen[..|seen| - 1], seen[|seen| - 1];
      assert seen == init + [x] && Admitted(notbefore, init);
      RestartIs(notbefore, init);
      RestartStep(notbefore, init, x, Restart(notbefore, init));
    }
  }

  lemma RestartStep(notbefore: Serial, init: seq<Serial>, x: Serial, k: nat)
    requires Admitted(notbefore, init) && !Lt(x, notbefore) && Restarts(notbefore, init, k)
    ensures Restarts(notbefore, init + [x],
                     if x == 0 && ZeroWins(notbefore, init[k..]) then |init| + 1 else k)
  {
    if x == 0 && ZeroWins(notbefore, init[k..]) {
      RestartNow(notbefore, init, k);
    } else {
      RestartBefore(notbefore, init, x, k);
    }
  }

  lemma OldestStep(init: seq<Serial>, x: Serial)
    ensures Oldest(init + [x]) == if Oldest(init) == 0 || Lt(x, Oldest(init)) then x else Oldest(init)
  {
    assert (init + [x])[..|init|] == init;
  }

  lemma RestartNow(notbefore: Serial, init: seq<Serial>, k: nat)
    requires Admitted(notbefore, init) && !Lt(0, notbefore) && Restarts(notbefore, init, k)
    requires ZeroWins(notbefore, init[k..])
    ensures Restarts(notbefore, init + [0], |init| + 1)
  {
    var seen, tail := init + [0], init[k..];
    OldestStep(init, 0);
    if tail != [] {
      TailLowest(notbefore, tail);
      ZeroTakes(notbefore, tail, Oldest(tail));
    }
    assert Oldest(seen) == 0;
    assert seen[..|seen|] == seen && seen[|seen|..] == [];
  }

  lemma RestartBefore(notbefore: Serial, init: seq<Serial>, x: Serial, k: nat)
    requires Restarts(notbefore, init, k) && (x == 0 ==> !ZeroWins(notbefore, init[k..]))
    ensures Restarts(notbefore, init + [x], k)
  {
    var seen := init + [x];
    RestartKept(notbefore, init, x, k);
    assert seen == seen[..k] + seen[k..];
    ZeroForgets(seen[..k], seen[k..]);
    assert k > 0 ==> seen[k - 1] == init[k - 1];
  }

  lemma RestartKept(notbefore: Serial, init: seq<Serial>, x: Serial, k: nat)
    requires k <= |init| && NoRestart(notbefore, init[k..])
    requires x == 0 ==> !ZeroWins(notbefore, init[k..])
    ensures (init + [x])[..k] == init[..k] && NoRestart(notbefore, (init + [x])[k..])
  {
    var tail, more := init[k..], (init + [x])[k..];
    assert more == tail + [x];
    forall j: nat | j < |more|
      ensures Loses(notbefore, more, j)
    {
      if j < |tail| {
        assert Loses(notbefore, tail, j);
      } else {
        assert tail[..j] == tail;
      }
      assert more[..j] == tail[..j];
    }
  }

  /** `Restart` is the end of the last prefix after which 0 is remembered. */
  lemma RestartIsLast(notbefore: Serial, seen: seq<Serial>, j: nat)
    requires Admitted(notbefore, seen) && Restart(notbefore, seen) < j <= |seen|
    ensures Oldest(seen[..j]) != 0
  {
    RestartIs(notbefore, seen);
    AfterRestart(notbefore, seen, Restart(notbefore, seen), j);
  }

  lemma AfterRestart(notbefore: Serial, seen: seq<Serial>, k: nat, j: nat)
    requires Admitted(notbefore, seen) && Restarts(notbefore, seen, k) && k < j <= |seen|
    ensures Oldest(seen[..j]) != 0
  {
    AdmittedTail(notbefore, seen, k);
    NotForgotten(notbefore, seen[..k], seen[k..], j - k);
    Rejoin(seen, k, j);
  }

  lemma AdmittedTail(notbefore: Serial, seen: seq<Serial>, k: nat)
    requires Admitted(notbefore, seen) && k <= |seen|
    ensures Admitted(notbefore, seen[k..])
  {
  }

  lemma Rejoin(seen: seq<Serial>, k: nat, j: nat)
    requires k <= j <= |seen|
    ensures seen[..k] + seen[k..][..j - k] == seen[..j]
  {
  }

  lemma NotForgotten(notbefore: Serial, before: seq<Serial>, tail: seq<Serial>, n: nat)
    requires Oldest(before) == 0 && NoRestart(notbefore, tail) && Admitted(notbefore, tail) && 0 < n <= |tail|
    ensures Oldest(before + tail[..n]) != 0
  {
    NoRestartPrefix(notbefore, tail, n);
    assert Admitted(notbefore, tail[..n]);
    TailLowest(notbefore, tail[..n]);
    ZeroForgets(before, tail[..n]);
  }

  lemma NoRestartPrefix(notbefore: Serial, tail: seq<Serial>, n: nat)
    requires NoRestart(notbefore, tail) && n <= |tail|
    ensures NoRestart(notbefore, tail[..n])
  {
    forall j: nat | j < n
      ensures Loses(notbefore, tail[..n], j)
    {
      assert Loses(notbefore, tail, j);
      assert tail[..n][..j] == tail[..j];
    }
  }

  /** Without a time of 0 nothing is forgotten. */
  lemma {:induction false} NoZeroNoRestart(notbefore: Serial, seen: seq<Serial>)
    requires 0 !in seen
    ensures Restart(notbefore, seen) == 0
  {
    if seen != [] {
      NoZeroNoRestart(notbefore, seen[..|seen| - 1]);
    }
  }

  // ---- The remembered time ----

  lemma TailMinimum(notbefore: Serial, tail: seq<Serial>, o: Serial)
    requires tail != [] && Lowest(notbefore, tail, o)
    ensures IsMinimum(notbefore, tail, o) <==> !Masked(notbefore, tail)
  {
    if Masked(notbefore, tail) {
      var i :| 0 <= i < |tail| && tail[i] == notbefore;
      assert Age(notbefore, tail[i]) == 0;
      assert Age(notbefore, o) == 0 ==> o == notbefore;
    } else {
      forall i: nat | i < |tail|
        ensures Age(notbefore, o) <= Age(notbefore, tail[i])
      {
        if Hidden(notbefore, tail, i) {
          assert tail[i] == notbefore;
          var j: nat :| j < |tail| && tail[j] == notbefore && !Hidden(notbefore, tail, j);
          assert Age(notbefore, tail[j]) == 0;
        }
      }
    }
  }

  /** No time before `k` is smaller than all from `k` on. */
  ghost predicate NoneSmaller(notbefore: Serial, seen: seq<Serial>, k: nat) {
    forall i :: 0 <= i < k && i < |seen| ==>
      exists j :: k <= j < |seen| && Age(notbefore, seen[j]) <= Age(notbefore, seen[i])
  }

  /** The condition for the remembered time to be the oldest: if a 0 is remembered, it is the
      oldest; otherwise nothing is masked since the last 0 that was, and nothing forgotten is
      older than all the rest. */
  ghost predicate Kept(notbefore: Serial, seen: seq<Serial>) {
    var k := Restart(notbefore, seen);
    if k == |seen| then forall i :: 0 <= i < |seen| ==> Age(notbefore, 0) <= Age(notbefore, seen[i])
    else !Masked(notbefore, seen[k..]) && NoneSmaller(notbefore, seen, k)
  }

  /** The remembered time is the oldest one verified exactly under that condition. */
  lemma OldestIsMinimum(notbefore: Serial, seen: seq<Serial>)
    requires Admitted(notbefore, seen) && seen != []
    ensures IsMinimum(notbefore, seen, Oldest(seen)) <==> Kept(notbefore, seen)
  {
    var k, o := Restart(notbefore, seen), Oldest(seen);
    RestartIs(notbefore, seen);
    OldestIsSeen(notbefore, seen);
    var tail := seen[k..];
    if k < |seen| {
      TailLowest(notbefore, tail);
      TailMinimum(notbefore, tail, o);
      MinimumSplits(notbefore, seen, k, o);
    } else {
      assert tail == [];
    }
  }

  lemma MinimumSplits(notbefore: Serial, seen: seq<Serial>, k: nat, o: Serial)
    requires k < |seen| && o in seen[k..]
    ensures IsMinimum(notbefore, seen, o) <==> IsMinimum(notbefore, seen[k..], o) && NoneSmaller(notbefore, seen, k)
  {
    var tail := seen[k..];
    var m :| 0 <= m < |tail| && tail[m] == o;
    assert seen[k + m] == o;
    if IsMinimum(notbefore, seen, o) {
      assert forall i :: 0 <= i < |tail| ==> tail[i] == seen[k + i];
    }
    if IsMinimum(notbefore, tail, o) && NoneSmaller(notbefore, seen, k) {
      forall i | 0 <= i < |seen|
        ensures Age(notbefore, o) <= Age(notbefore, seen[i])
      {
        if i < k {
          var j :| k <= j < |seen| && Age(notbefore, seen[j]) <= Age(notbefore, seen[i]);
          assert seen[j] == tail[j - k];
        } else {
          assert seen[i] == tail[i - k];
        }
      }
    }
  }

  /** Without times of 0, that is unless a time at `notbefore` is masked. */
  lemma OldestWithoutZero(notbefore: Serial, seen: seq<Serial>)
    requires Admitted(notbefore, seen) && seen != [] && 0 !in seen
    ensures IsMinimum(notbefore, seen, Oldest(seen)) <==> !Masked(notbefore, seen)
  {
    OldestIsMinimum(notbefore, seen);
    NoZeroNoRestart(notbefore, seen);
    assert seen[0..] == seen;
  }

  /** The condition for the next run to admit what this one has verified. */
  ghost predicate Continues(notbefore: Serial, seen: seq<Serial>) {
    var k := Restart(notbefore, seen);
    if k == |seen| then
      forall i :: 0 <= i < |seen| ==>
        Age(notbefore, 0) <= Age(notbefore, seen[i]) || (seen[i] == notbefore && Age(notbefore, 0) == HALF)
    else if Masked(notbefore, seen[k..]) || AllHalf(notbefore, seen[k..]) then AllExtreme(notbefore, seen)
    else NoneSmaller(notbefore, seen, k)
  }

  ghost predicate AllHalf(notbefore: Serial, seen: seq<Serial>) {
    forall i :: 0 <= i < |seen| ==> Age(notbefore, seen[i]) == HALF
  }

  /** Another run with the remembered time as its limit admits every signature this run
      verified exactly under that condition. */
  lemma NextRunAdmits(notbefore: Serial, seen: seq<Serial>)
    requires Admitted(notbefore, seen) && seen != []
    ensures Admitted(Oldest(seen), seen) <==> Continues(notbefore, seen)
  {
    var k, o := Restart(notbefore, seen), Oldest(seen);
    RestartIs(notbefore, seen);
    OldestIsSeen(notbefore, seen);
    forall i | 0 <= i < |seen|
      ensures Lt(seen[i], o) <==>
              Age(notbefore, seen[i]) < Age(notbefore, o) && !(seen[i] == notbefore && Age(notbefore, o) == HALF)
      ensures Age(notbefore, seen[i]) <= HALF
    {
      LtByAge(notbefore, seen[i], o);
    }
    if k < |seen| {
      TailLowest(notbefore, seen[k..]);
      TailAdmits(notbefore, seen, k, o);
    } else {
      assert seen[k..] == [];
    }
  }

  lemma TailAdmits(notbefore: Serial, seen: seq<Serial>, k: nat, o: Serial)
    requires Admitted(notbefore, seen) && k < |seen| && Lowest(notbefore, seen[k..], o)
    requires forall i :: 0 <= i < |seen| ==>
               (Lt(seen[i], o) <==>
                Age(notbefore, seen[i]) < Age(notbefore, o) && !(seen[i] == notbefore && Age(notbefore, o) == HALF))
    requires forall i :: 0 <= i < |seen| ==> Age(notbefore, seen[i]) <= HALF
    ensures Admitted(o, seen) <==>
            if Masked(notbefore, seen[k..]) || AllHalf(notbefore, seen[k..]) then AllExtreme(notbefore, seen)
            else NoneSmaller(notbefore, seen, k)
  {
    var tail := seen[k..];
    assert forall i :: 0 <= i < |tail| ==> tail[i] == seen[k + i];
    LowestHalf(notbefore, tail, o);
    TailMinimum(notbefore, tail, o);
    if Age(notbefore, o) == HALF {
      HalfAdmits(notbefore, seen, o);
    } else if !Masked(notbefore, tail) {
      MinimumSplits(notbefore, seen, k, o);
    }
  }

  lemma HalfAdmits(notbefore: Serial, seen: seq<Serial>, o: Serial)
    requires Age(notbefore, o) == HALF
    requires forall i :: 0 <= i < |seen| ==>
               (Lt(seen[i], o) <==>
                Age(notbefore, seen[i]) < Age(notbefore, o) && !(seen[i] == notbefore && Age(notbefore, o) == HALF))
    requires forall i :: 0 <= i < |seen| ==> Age(notbefore, seen[i]) <= HALF
    ensures Admitted(o, seen) <==> AllExtreme(notbefore, seen)
  {
    assert forall i :: 0 <= i < |seen| ==> (Age(notbefore, seen[i]) == 0 <==> seen[i] == notbefore);
  }

  /** Without times of 0, that is unless one was masked and a time strictly in between was
      remembered. */
  lemma NextRunWithoutZero(notbefore: Serial, seen: seq<Serial>)
    requires Admitted(notbefore, seen) && seen != [] && 0 !in seen
    ensures Admitted(Oldest(seen), seen) <==> !(Masked(notbefore, seen) && !AllExtreme(notbefore, seen))
  {
    NextRunAdmits(notbefore, seen);
    NoZeroNoRestart(notbefore, seen);
    assert seen[0..] == seen;
  }

  /** Three signatures, one of them half a circle after the limit, with which the next run
      rejects what this run accepted. */
  lemma MaskedRun()
    ensures var notbefore: Serial := 1;
            var seen: seq<Serial> := [HALF + 1, 1, 2];
            && Admitted(notbefore, seen) && Oldest(seen) == 2
            && !IsMinimum(notbefore, seen, 2) && !Admitted(2, seen)
  {
    var seen: seq<Serial> := [HALF + 1, 1, 2];
    assert seen[..2] == [HALF + 1, 1] && seen[..2][..1] == [HALF + 1] && seen[..2][..1][..0] == [];
    assert Oldest(seen[..2][..1]) == HALF + 1;
    assert Oldest(seen[..2]) == HALF + 1;
    assert seen[1] == 1 && Age(1, 1) == 0 && Lt(1, 2);
  }

  /** A time of 0 between two others, after which the latest of them is remembered and the next
      run rejects the other two. */
  lemma ZeroRun()
    ensures var seen: seq<Serial> := [5, 0, 7];
            && Admitted(0, seen) && Oldest(seen) == 7
            && !IsMinimum(0, seen, 7) && !Admitted(7, seen)
  {
    var seen: seq<Serial> := [5, 0];
    assert seen[..1] == [5] && seen[..1][..0] == [];
    assert Oldest(seen[..1]) == 5;
    ZeroForgets(seen, [7]);
    var last: seq<Serial> := [7];
    assert last[..0] == [] && seen + last == [5, 0, 7];
    var all: seq<Serial> := [5, 0, 7];
    assert all[0] == 5 && Lt(5, 7) && Age(0, 5) < Age(0, 7);
  }
}
