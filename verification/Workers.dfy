/** Handing out nodes to signing workers.

Every worker runs `assignwork` over and over: under one lock it moves a shared database
iterator to the next node that needs signing, then signs that node outside the lock and
queues itself again.  A worker that finds the iterator exhausted retires, and the last one
to retire shuts the loop manager down.  A state holds all workers; a step moves one of them.
*/
module Workers {
  import opened Names
  import opened Zones

  /** A node as the iterator shows it.  `marked` tells whether it owns a record of the type the
      zone is being signed with (NSEC, or NSEC3 for the nodes of the NSEC3 tree). */
  datatype Node = Node(name: Name, marked: bool, ns: bool, dname: bool, secure: bool)

  datatype Job = Job(origin: Name, nodes: seq<Node>, nsec3: bool, optout: bool, locksToDump: bool) {

    /** Whether a node is to be signed, given the zone cut remembered so far. */
    predicate Wanted(n: Node, cut: Option<Name>) {
      && n.name != origin
      && (n.marked ||
          (nsec3 && origin <= n.name && !Covered(cut, n.name) && !(n.ns && optout && !n.secure)))
    }

    function NextCut(n: Node, cut: Option<Name>): (r: Option<Name>)
    {
      if n.name != origin && !n.marked && nsec3 && origin <= n.name && !Covered(cut, n.name) && (n.ns || n.dname)
      then Some(n.name) else cut
    }

    ghost function CutAt(i: nat): (cut: Option<Name>)
      requires i <= |nodes|
    {
      if i == 0 then None else NextCut(nodes[i - 1], CutAt(i - 1))
    }

    ghost predicate Eligible(i: nat) {
      i < |nodes| && Wanted(nodes[i], CutAt(i))
    }
  }

  datatype Pc =
    | Ready               // queued, about to take the lock
    | Walking             // holds the lock, moving the iterator
    | Signing(node: nat)  // signing outside the lock
    | Dumping             // writing the node out
    | Ended               // retired

  datatype State = State(
    pc: seq<Pc>, lock: Option<nat>, pos: nat, finished: bool, cut: Option<Name>,
    ended: nat, shutdowns: nat, signed: seq<nat>)

  ghost predicate Init(j: Job, n: nat, s: State) {
    s == State(seq(n, _ => Ready), None, 0, j.nodes == [], None, 0, 0, [])
  }

  /** Worker `w` takes the lock. */
  ghost predicate Enter(j: Job, s: State, t: State, w: nat) {
    && w < |s.pc| && s.pc[w].Ready? && s.lock.None?
    && t == s.(pc := s.pc[w := Walking], lock := Some(w))
  }

  /** With nothing left, the worker retires; the last one calls for shutdown. */
  ghost predicate Retire(j: Job, s: State, t: State, w: nat) {
    && w < |s.pc| && s.pc[w].Walking? && s.finished
    && t == s.(pc := s.pc[w := Ended], lock := None, ended := s.ended + 1,
               shutdowns := if s.ended + 1 == |s.pc| then s.shutdowns + 1 else s.shutdowns)
  }

  /** The worker looks at the current node and moves the iterator on, keeping the lock unless
      the node is to be signed. */
  ghost predicate Look(j: Job, s: State, t: State, w: nat) {
    && w < |s.pc| && s.pc[w].Walking? && !s.finished && s.pos < |j.nodes|
    && var n := j.nodes[s.pos];
       var moved := s.(pos := s.pos + 1, finished := s.pos + 1 == |j.nodes|, cut := j.NextCut(n, s.cut));
       t == if j.Wanted(n, s.cut) then moved.(pc := s.pc[w := Signing(s.pos)], lock := None) else moved
  }

  ghost predicate Sign(j: Job, s: State, t: State, w: nat) {
    && w < |s.pc| && s.pc[w].Signing?
    && t == s.(pc := s.pc[w := Dumping], signed := s.signed + [s.pc[w].node])
  }

  ghost predicate Dump(j: Job, s: State, t: State, w: nat) {
    && w < |s.pc| && s.pc[w].Dumping? && (j.locksToDump ==> s.lock.None?)
    && t == s.(pc := s.pc[w := Ready])
  }

  ghost predicate Step(j: Job, s: State, t: State, w: nat) {
    Enter(j, s, t, w) || Retire(j, s, t, w) || Look(j, s, t, w) || Sign(j, s, t, w) || Dump(j, s, t, w)
  }

  /** How many workers have taken node `i` and not yet signed it. */
  ghost function InFlight(pc: seq<Pc>, i: nat): (n: nat)
  {
    if pc == [] then 0 else Holds(pc[0], i) + InFlight(pc[1..], i)
  }

  ghost function Holds(p: Pc, i: nat): nat {
    if p == Signing(i) then 1 else 0
  }

  ghost function Retired(pc: seq<Pc>): (n: nat)
    ensures n <= |pc|
    ensures n == |pc| <==> forall w :: 0 <= w < |pc| ==> pc[w].Ended?
  {
    if pc == [] then 0 else (if pc[0].Ended? then 1 else 0) + Retired(pc[1..])
  }

  /** How much work the workers can still do without the iterator moving. */
  ghost function Weight(p: Pc): nat {
    match p
    case Signing(_) => 4
    case Dumping => 3
    case Ready => 2
    case Walking => 1
    case Ended => 0
  }

  ghost function Weights(pc: seq<Pc>): (n: nat)
  {
    if pc == [] then 0 else Weight(pc[0]) + Weights(pc[1..])
  }

  ghost function Remaining(j: Job, s: State): int {
    4 * (|j.nodes| - s.pos) + Weights(s.pc)
  }

  lemma {:induction false} HeldMoves(pc: seq<Pc>, w: nat, p: Pc, i: nat)
    requires w < |pc|
    ensures InFlight(pc[w := p], i) + Holds(pc[w], i) == InFlight(pc, i) + Holds(p, i)
  {
    var q := pc[w := p];
    if w == 0 {
      assert q[1..] == pc[1..];
    } else {
      HeldMoves(pc[1..], w - 1, p, i);
      assert q[1..] == pc[1..][w - 1 := p];
    }
  }

  lemma {:induction false} CountMoves(pc: seq<Pc>, w: nat, p: Pc)
    requires w < |pc|
    ensures Retired(pc[w := p]) + (if pc[w].Ended? then 1 else 0) == Retired(pc) + (if p.Ended? then 1 else 0)
    ensures Weights(pc[w := p]) + Weight(pc[w]) == Weights(pc) + Weight(p)
  {
    var q := pc[w := p];
    if w == 0 {
      assert q[1..] == pc[1..];
    } else {
      CountMoves(pc[1..], w - 1, p);
      assert q[1..] == pc[1..][w - 1 := p];
    }
  }

  /** What every state of every run satisfies.  The last clause is the conservation law: what
      has left the iterator for signing is exactly what is signed or in flight. */
  ghost predicate Inv(j: Job, n: nat, s: State) {
    && |s.pc| == n && n > 0
    && s.pos <= |j.nodes| && s.finished == (s.pos == |j.nodes|)
    && s.cut == j.CutAt(s.pos)
    && (forall w :: 0 <= w < n ==> (s.pc[w].Walking? <==> s.lock == Some(w)))
    && (s.lock.Some? ==> s.lock.value < n)
    && s.ended == Retired(s.pc)
    && (s.ended > 0 ==> s.finished)
    && s.shutdowns == (if s.ended == n then 1 else 0)
    && (forall i: nat :: multiset(s.signed)[i] + InFlight(s.pc, i) == if i < s.pos && j.Eligible(i) then 1 else 0)
  }

  lemma {:induction false} AllReady(n: nat)
    ensures var pc: seq<Pc> := seq(n, _ => Ready);
            (forall i: nat :: InFlight(pc, i) == 0) && Retired(pc) == 0 && Weights(pc) == 2 * n
  {
    var pc: seq<Pc> := seq(n, _ => Ready);
    if n > 0 {
      AllReady(n - 1);
      assert pc[1..] == seq(n - 1, _ => Ready);
    }
  }

  lemma InitInv(j: Job, n: nat, s: State)
    requires Init(j, n, s) && n > 0
    ensures Inv(j, n, s) && Remaining(j, s) == 4 * |j.nodes| + 2 * n
  {
    AllReady(n);
  }

  lemma WorkerMoves(j: Job, n: nat, s: State, t: State, w: nat)
    requires Inv(j, n, s) && (Enter(j, s, t, w) || Retire(j, s, t, w) || Dump(j, s, t, w))
    ensures Inv(j, n, t) && Remaining(j, t) < Remaining(j, s)
  {
    CountMoves(s.pc, w, t.pc[w]);
    forall i: nat
      ensures InFlight(t.pc, i) == InFlight(s.pc, i)
    {
      HeldMoves(s.pc, w, t.pc[w], i);
    }
  }

  lemma WorkerSigns(j: Job, n: nat, s: State, t: State, w: nat)
    requires Inv(j, n, s) && Sign(j, s, t, w)
    ensures Inv(j, n, t) && Remaining(j, t) < Remaining(j, s)
  {
    CountMoves(s.pc, w, Dumping);
    forall i: nat
      ensures multiset(t.signed)[i] + InFlight(t.pc, i) == multiset(s.signed)[i] + InFlight(s.pc, i)
    {
      HeldMoves(s.pc, w, Dumping, i);
    }
  }

  lemma WorkerLooks(j: Job, n: nat, s: State, t: State, w: nat)
    requires Inv(j, n, s) && Look(j, s, t, w)
    ensures Inv(j, n, t) && Remaining(j, t) < Remaining(j, s)
  {
    if j.Wanted(j.nodes[s.pos], s.cut) {
      CountMoves(s.pc, w, Signing(s.pos));
    }
    forall i: nat
      ensures InFlight(t.pc, i) == InFlight(s.pc, i) + if i == s.pos && j.Eligible(i) then 1 else 0
    {
      HeldMoves(s.pc, w, Signing(s.pos), i);
    }
  }

  /** Every step keeps the invariant and uses up some of the remaining work. */
  lemma StepInv(j: Job, n: nat, s: State, t: State, w: nat)
    requires Inv(j, n, s) && Step(j, s, t, w)
    ensures Inv(j, n, t) && Remaining(j, t) < Remaining(j, s)
    ensures s.shutdowns <= t.shutdowns && s.signed <= t.signed
  {
    if Look(j, s, t, w) {
      WorkerLooks(j, n, s, t, w);
    } else if Sign(j, s, t, w) {
      WorkerSigns(j, n, s, t, w);
    } else {
      WorkerMoves(j, n, s, t, w);
    }
  }

  /** Some worker can always move until all of them have retired. */
  lemma NoDeadlock(j: Job, n: nat, s: State) returns (w: nat, t: State)
    requires Inv(j, n, s) && exists v :: 0 <= v < n && !s.pc[v].Ended?
    ensures Step(j, s, t, w)
  {
    if s.lock.Some? {
      w := s.lock.value;
      if s.finished {
        t := s.(pc := s.pc[w := Ended], lock := None, ended := s.ended + 1,
                shutdowns := if s.ended + 1 == |s.pc| then s.shutdowns + 1 else s.shutdowns);
        assert Retire(j, s, t, w);
      } else {
        var node := j.nodes[s.pos];
        var moved := s.(pos := s.pos + 1, finished := s.pos + 1 == |j.nodes|, cut := j.NextCut(node, s.cut));
        t := if j.Wanted(node, s.cut) then moved.(pc := s.pc[w := Signing(s.pos)], lock := None) else moved;
        assert Look(j, s, t, w);
      }
    } else {
      w :| w < n && !s.pc[w].Ended?;
      if s.pc[w].Ready? {
        t := s.(pc := s.pc[w := Walking], lock := Some(w));
        assert Enter(j, s, t, w);
      } else if s.pc[w].Signing? {
        t := s.(pc := s.pc[w := Dumping], signed := s.signed + [s.pc[w].node]);
        assert Sign(j, s, t, w);
      } else {
        t := s.(pc := s.pc[w := Ready]);
        assert Dump(j, s, t, w);
      }
    }
  }

  /** A run of `n` workers: any interleaving of their steps. */
  ghost predicate Run(j: Job, n: nat, run: seq<State>) {
    && run != [] && Init(j, n, run[0])
    && forall k :: 0 <= k < |run| - 1 ==> Steps(j, run[k], run[k + 1])
  }

  ghost predicate Steps(j: Job, s: State, t: State) {
    exists w: nat :: Step(j, s, t, w)
  }

  /** No worker can move. */
  ghost predicate Stuck(j: Job, s: State) {
    forall t :: !Steps(j, s, t)
  }

  lemma {:induction false} RunInv(j: Job, n: nat, run: seq<State>, k: nat)
    requires n > 0 && Run(j, n, run) && k < |run|
    ensures Inv(j, n, run[k]) && Remaining(j, run[k]) + k <= 4 * |j.nodes| + 2 * n
  {
    if k == 0 {
      InitInv(j, n, run[0]);
    } else {
      RunInv(j, n, run, k - 1);
      assert Steps(j, run[k - 1], run[k - 1 + 1]);
      var w: nat :| Step(j, run[k - 1], run[k], w);
      StepInv(j, n, run[k - 1], run[k], w);
    }
  }

  /** In any state of any run no node has been signed twice or without being eligible, and if
      shutdown has been called, it was called once and everything is signed. */
  lemma RunSafe(j: Job, n: nat, run: seq<State>, k: nat)
    requires n > 0 && Run(j, n, run) && k < |run|
    ensures var s := run[k];
            && (forall i: nat :: multiset(s.signed)[i] <= if j.Eligible(i) then 1 else 0)
            && s.shutdowns <= 1
            && (s.shutdowns == 1 ==> AllSigned(j, s) && forall w :: 0 <= w < |s.pc| ==> s.pc[w].Ended?)
  {
    var s := run[k];
    RunInv(j, n, run, k);
    forall i: nat
      ensures multiset(s.signed)[i] <= if j.Eligible(i) then 1 else 0
    {
      assert InFlight(s.pc, i) >= 0;
    }
    if s.shutdowns == 1 {
      Finished(j, n, s);
    }
  }

  /** Each eligible node has been signed once, and nothing else. */
  ghost predicate AllSigned(j: Job, s: State) {
    forall i: nat :: multiset(s.signed)[i] == if j.Eligible(i) then 1 else 0
  }

  lemma Finished(j: Job, n: nat, s: State)
    requires Inv(j, n, s) && s.ended == n
    ensures AllSigned(j, s)
  {
    forall i: nat
      ensures multiset(s.signed)[i] == if j.Eligible(i) then 1 else 0
    {
      NothingHeld(s.pc, i);
    }
  }

  lemma {:induction false} NothingHeld(pc: seq<Pc>, i: nat)
    requires forall w :: 0 <= w < |pc| ==> pc[w].Ended?
    ensures InFlight(pc, i) == 0
  {
    if pc != [] {
      NothingHeld(pc[1..], i);
    }
  }

  /** Every run is finite, and when no worker can move any more all have retired, shutdown has
      been called exactly once and each eligible node has been signed exactly once, whatever
      the number of workers and the interleaving. */
  lemma RunCompletes(j: Job, n: nat, run: seq<State>)
    requires n > 0 && Run(j, n, run)
    ensures |run| <= 4 * |j.nodes| + 2 * n + 1
    ensures var s := run[|run| - 1];
            Stuck(j, s) <==> s.shutdowns == 1
    ensures var s := run[|run| - 1];
            Stuck(j, s) ==> AllSigned(j, s)
  {
    var s := run[|run| - 1];
    RunInv(j, n, run, |run| - 1);
    RunSafe(j, n, run, |run| - 1);
    if exists v :: 0 <= v < n && !s.pc[v].Ended? {
      var w, t := NoDeadlock(j, n, s);
      assert Steps(j, s, t);
    }
  }

  /** Which workers' steps lead from one state to another. */
  ghost predicate Trace(j: Job, w: nat, trace: seq<State>) {
    trace != [] && forall k :: 0 <= k < |trace| - 1 ==> Step(j, trace[k], trace[k + 1], w)
  }

  lemma TraceAppend(j: Job, w: nat, trace: seq<State>, t: State)
    requires Trace(j, w, trace) && Step(j, trace[|trace| - 1], t, w)
    ensures Trace(j, w, trace + [t])
  {
    var r := trace + [t];
    forall k | 0 <= k < |r| - 1
      ensures Step(j, r[k], r[k + 1], w)
    {
      if k < |trace| - 1 {
        assert r[k] == trace[k] && r[k + 1] == trace[k + 1];
      }
    }
  }

  /** The variables the workers share under the lock. */
  class Pool {
    const job: Job
    const nloops: nat
    var pos: nat
    var finished: bool
    var cut: Option<Name>
    var ended: nat
    var shutdowns: nat

    /** The state `signapex` leaves behind: the iterator at the first node, if there is one. */
    constructor (job: Job, nloops: nat)
      ensures this.job == job && this.nloops == nloops
      ensures forall s :: Init(job, nloops, s) ==> Shows(s)
    {
      this.job, this.nloops := job, nloops;
      pos, finished, cut, ended, shutdowns := 0, job.nodes == [], None, 0, 0;
    }

    ghost predicate Shows(s: State)
      reads this
    {
      && s.pos == pos && s.finished == finished && s.cut == cut && s.ended == ended && s.shutdowns == shutdowns
      && |s.pc| == nloops && pos <= |job.nodes| && finished == (pos == |job.nodes|)
    }

    /** Is this node to be signed?  Keep track of the zone cut. */
    method Consider(n: Node) returns (found: bool)
      modifies this`cut
      ensures found == job.Wanted(n, old(cut)) && cut == job.NextCut(n, old(cut))
    {
      found := false;
      if n.name != job.origin {
        if n.marked {
          found := true;
        } else if job.nsec3 && job.origin <= n.name && !Covered(cut, n.name) {
          if n.ns {
            cut := Some(n.name);
            found := !job.optout || n.secure;
          } else {
            if n.dname {
              cut := Some(n.name);
            }
            found := true;
          }
        }
      }
    }

    /** The locked part of one turn of worker `w`: it takes the lock, moves the iterator to a
        node to be signed and lets go of the lock, or retires.  Everything it does is a
        sequence of its own steps. */
    method AssignWork(ghost w: nat, ghost s: State) returns (node: Option<nat>, ghost trace: seq<State>)
      requires Shows(s) && w < nloops && s.pc[w].Ready? && s.lock.None?
      modifies this
      ensures Trace(job, w, trace) && trace[0] == s
      ensures var t := trace[|trace| - 1];
              && Shows(t) && t.lock.None? && t.signed == s.signed
              && t.pc == s.pc[w := if node.Some? then Signing(node.value) else Ended]
    {
      ghost var t := s.(pc := s.pc[w := Walking], lock := Some(w));
      trace := [s, t];
      assert Enter(job, s, t, w);
      node := None;
      while !finished && node.None?
        invariant Trace(job, w, trace) && trace[0] == s && trace[|trace| - 1] == t
        invariant Shows(t) && t.signed == s.signed && t.lock == (if node.None? then Some(w) else None)
        invariant t.pc == s.pc[w := if node.None? then Walking else Signing(node.value)]
        invariant pos <= |job.nodes| && finished == (pos == |job.nodes|)
        decreases |job.nodes| - pos
      {
        var found := Consider(job.nodes[pos]);
        if found {
          node := Some(pos);
        }
        pos := pos + 1;
        if pos == |job.nodes| {
          finished := true;
        }
        ghost var moved := t.(pos := pos, finished := finished, cut := cut);
        ghost var u := if found then moved.(pc := t.pc[w := Signing(pos - 1)], lock := None) else moved;
        assert Look(job, t, u, w);
        TraceAppend(job, w, trace, u);
        trace, t := trace + [u], u;
      }
      if node.None? {
        ended := ended + 1;
        if ended == nloops {
          shutdowns := shutdowns + 1;
        }
        ghost var u := t.(pc := t.pc[w := Ended], lock := None, ended := ended, shutdowns := shutdowns);
        assert Retire(job, t, u, w);
        TraceAppend(job, w, trace, u);
        trace := trace + [u];
      }
    }
  }

  /** The job begins with the nodes of the zone, none of them in the NSEC3 tree. */
  ghost predicate Mirrors(j: Job, z: Zone, ds: set<Name>) {
    && j.origin == z.origin && j.nsec3 && |z.order| <= |j.nodes| && z.Indexed()
    && forall k :: 0 <= k < |z.order| ==>
         var n := z.order[k];
         j.nodes[k] == Node(n, false, NS in z.types[n], DNAME in z.types[n], n in ds)
  }

  /** The zone without a DNAME at its apex: the workers never look at the apex. */
  ghost function SansApexDname(z: Zone): (r: Zone)
    requires z.origin in z.types
  {
    z.(types := z.types[z.origin := z.types[z.origin] - {DNAME}])
  }

  lemma {:induction false} SameCut(j: Job, z: Zone, ds: set<Name>, i: nat)
    requires Mirrors(j, z, ds) && z.Valid() && i <= |z.order|
    ensures SansApexDname(z).Valid() && j.CutAt(i) == CutAfter(SansApexDname(z), i)
  {
    if i > 0 {
      SameCut(j, z, ds, i - 1);
      assert j.nodes[i - 1].name == z.order[i - 1];
    }
  }

  /** In an NSEC3 zone the workers sign the names of the zone that are not below a cut other
      than the apex and are not opted-out insecure delegations. */
  lemma EligibleNames(j: Job, z: Zone, ds: set<Name>, i: nat)
    requires Mirrors(j, z, ds) && z.Valid() && i < |z.order|
    ensures var n := z.order[i];
            j.Eligible(i) <==>
            n != z.origin && z.origin <= n && !SansApexDname(z).Occluded(n) &&
            !(j.optout && z.Delegation(n) && n !in ds)
  {
    SameCut(j, z, ds, i);
    assert j.nodes[i].name == z.order[i];
    OccludedIsCovered(SansApexDname(z), i);
  }

  /** The active names signed are those of the chain, the apex aside. */
  ghost predicate SignsChain(j: Job, z: Zone, ds: set<Name>) {
    forall i: nat :: i < |z.order| && z.order[i] in z.types && z.Active(z.order[i]) && z.order[i] != z.origin ==>
      (j.Eligible(i) <==> z.InChain(z.order[i]) && !(j.optout && z.Delegation(z.order[i]) && z.order[i] !in ds))
  }

  /** A name the workers sign and a DNAME at the apex would hide: active, below the apex, below
      no other cut, and not an opted-out insecure delegation. */
  ghost predicate SignedBelow(z: Zone, optout: bool, ds: set<Name>, n: Name)
    requires z.origin in z.types
  {
    && n in z.types && z.Active(n) && n != z.origin && z.origin <= n
    && !SansApexDname(z).Occluded(n) && !(optout && z.Delegation(n) && n !in ds)
  }

  /** Signing and the NSEC3 chain agree, unless a DNAME at the apex hides from the chain a name
      that the workers sign. */
  lemma SignsChainUnlessApexDname(j: Job, z: Zone, ds: set<Name>)
    requires Mirrors(j, z, ds) && z.Valid()
    ensures SignsChain(j, z, ds) <==> !(DNAME in z.types[z.origin] && exists n :: SignedBelow(z, j.optout, ds, n))
  {
    forall i: nat | i < |z.order|
      ensures z.Active(z.order[i]) ==> (j.Eligible(i) <==> SignedBelow(z, j.optout, ds, z.order[i]))
    {
      EligibleNames(j, z, ds, i);
    }
    if DNAME in z.types[z.origin] {
      forall n | SignedBelow(z, j.optout, ds, n)
        ensures !SignsChain(j, z, ds)
      {
        var i :| 0 <= i < |z.order| && z.order[i] == n;
        assert z.Cut(z.origin) && z.Occluded(n);
        assert j.Eligible(i) && !z.InChain(z.order[i]);
      }
      forall i: nat | i < |z.order| && z.order[i] != z.origin
        ensures !z.InChain(z.order[i])
      {
        assert z.origin <= z.order[i] ==> z.Cut(z.origin) && z.Occluded(z.order[i]);
      }
    } else {
      assert z.types[z.origin] - {DNAME} == z.types[z.origin];
      assert SansApexDname(z).types == z.types;
    }
  }

  /** Above an active name, or there, is one that no cut other than the apex is above. */
  lemma {:induction false} TopmostActive(z: Zone, n: Name) returns (m: Name)
    requires z.Valid() && n in z.types && z.Active(n) && n != z.origin && z.origin <= n
    ensures SignedBelow(z, false, {}, m)
    decreases |n|
  {
    var r := SansApexDname(z);
    if r.Occluded(n) {
      var c :| c in r.types && c <= n && c != n && z.origin <= c && r.Cut(c);
      assert c != z.origin && r.types[c] == z.types[c];
      m := TopmostActive(z, c);
    } else {
      m := n;
    }
  }

  /** Without opting out, that is unless there is a DNAME at the apex and any active name below. */
  lemma SignsChainWithoutOptout(j: Job, z: Zone, ds: set<Name>)
    requires Mirrors(j, z, ds) && z.Valid() && !j.optout
    ensures SignsChain(j, z, ds) <==>
            !(DNAME in z.types[z.origin] &&
              exists n :: n in z.types && z.Active(n) && n != z.origin && z.origin <= n)
  {
    SignsChainUnlessApexDname(j, z, ds);
    if n :| n in z.types && z.Active(n) && n != z.origin && z.origin <= n {
      var m := TopmostActive(z, n);
      assert SignedBelow(z, j.optout, ds, m);
    }
  }

  /** In an NSEC zone the nodes with an NSEC record are marked. */
  ghost predicate MirrorsNsec(j: Job, z: Zone, nsec: map<Name, Name>) {
    && j.origin == z.origin && !j.nsec3 && |j.nodes| == |z.order|
    && forall k :: 0 <= k < |z.order| ==>
         j.nodes[k].name == z.order[k] && (j.nodes[k].marked <==> z.order[k] in nsec)
  }

  /** There the workers sign the names of the chain, the apex aside, and the nodes before the
      origin whose NSEC records were left over, as `nsec` is what `Nsecify` makes of `before`. */
  lemma EligibleNsecNames(j: Job, z: Zone, before: map<Name, Name>, nsec: map<Name, Name>, i: nat)
    requires MirrorsNsec(j, z, nsec) && z.Valid() && i < |z.order|
    requires forall n :: n in z.types ==> (n in nsec <==> z.InChain(n) || (Before(n, z.origin) && n in before))
    ensures var n := z.order[i];
            j.Eligible(i) <==> (z.InChain(n) && n != z.origin) || (Before(n, z.origin) && n in before)
  {
    assert j.nodes[i].name == z.order[i];
    BeforeTotal(z.order[i], z.origin);
  }

  /** A zone where they differ: a DNAME at the root and a name below it. */
  lemma ApexDnameSigned()
    ensures var a: Name := [[97]];
            var z := Zone([], [[], a], map[[] := {SOA, DNAME}, a := {Data(1)}]);
            var nodes := [Node([], false, false, true, false), Node(a, false, false, false, false)];
            var j := Job([], nodes, true, false, false);
            z.Valid() && Mirrors(j, z, {}) && j.Eligible(1) && !z.InChain(a)
  {
    var a: Name := [[97]];
    var z := Zone([], [[], a], map[[] := {SOA, DNAME}, a := {Data(1)}]);
    AncestorBefore([], a);
    assert z.order[0] == [] && z.order[1] == a;
    assert [] in z.types && z.Cut([]) && [] <= a;
    assert z.Occluded(a);
  }
}
