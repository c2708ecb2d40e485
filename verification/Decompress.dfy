/** The octet-at-a-time name decompressor kept as a fuzzing reference (fuzz/old.c), proved
against the label-at-a-time decoder of module Wire. */
module Decompress {
  import opened Names
  import opened Wire

  const MAX_LABELS := 128

  datatype Fw = Start | Ordinary | NewCurrent

  function Lower(c: Octet): Octet {
    if 65 <= c <= 90 then c + 32 else c
  }

  function Cased(downcase: bool, s: Octets): (r: Octets)
    ensures |r| == |s|
  {
    seq(|s|, i requires 0 <= i < |s| => if downcase then Lower(s[i]) else s[i])
  }

  /** The labels as they are written out, in lower case if asked for. */
  function CasedLabels(downcase: bool, labels: seq<Octets>): (r: seq<Octets>)
    ensures |r| == |labels| && forall i :: 0 <= i < |r| ==> r[i] == Cased(downcase, labels[i])
  {
    seq(|labels|, i requires 0 <= i < |labels| => Cased(downcase, labels[i]))
  }

  lemma CasedLegal(downcase: bool, labels: seq<Octets>)
    requires Legal(labels)
    ensures Legal(CasedLabels(downcase, labels))
  {
    forall i | 0 <= i < |labels|
      ensures LegalLabel(CasedLabels(downcase, labels)[i])
    {
      assert LegalLabel(labels[i]);
    }
  }

  /** What the labels read so far look like on the wire. */
  ghost function Written(downcase: bool, labels: seq<Octets>): (w: Octets)
    requires Legal(labels)
  {
    CasedLegal(downcase, labels);
    LabelsWire(CasedLabels(downcase, labels))
  }

  lemma WrittenAppend(downcase: bool, labels: seq<Octets>, l: Octets)
    requires Legal(labels) && LegalLabel(l)
    ensures Legal(labels + [l])
    ensures var length: Octet := |l|;
            Written(downcase, labels + [l]) == Written(downcase, labels) + [length] + Cased(downcase, l)
  {
    var c := CasedLabels(downcase, labels);
    CasedLegal(downcase, labels);
    var one := [Cased(downcase, l)];
    assert CasedLabels(downcase, labels + [l]) == c + one;
    assert LegalLabel(one[0]);
    LabelsWireConcat(c, one);
    assert one[1..] == [];
    assert LabelsWire(one[1..]) == [];
  }

  lemma WrittenSize(downcase: bool, labels: seq<Octets>)
    requires Legal(labels)
    ensures |Written(downcase, labels)| == WireSize(labels) - 1
  {
    CasedLegal(downcase, labels);
    LabelsWireSize(CasedLabels(downcase, labels));
    CasedSize(downcase, labels);
  }

  lemma {:induction false} CasedSize(downcase: bool, labels: seq<Octets>)
    ensures WireSize(CasedLabels(downcase, labels)) == WireSize(labels)
  {
    if labels != [] {
      CasedSize(downcase, labels[1..]);
      assert CasedLabels(downcase, labels)[1..] == CasedLabels(downcase, labels[1..]);
    }
  }

  lemma WireSizeAppend(labels: seq<Octets>, l: Octets)
    ensures WireSize(labels + [l]) == WireSize(labels) + 1 + |l|
  {
    WireSizeConcat(labels, [l]);
    assert [l][1..] == [];
  }

  /** Every label but the root takes two octets or more. */
  lemma {:induction false} LabelCount(labels: seq<Octets>)
    requires Legal(labels)
    ensures 2 * |labels| <= WireSize(labels) - 1
  {
    if labels != [] {
      assert LegalLabel(labels[0]);
      LabelCount(labels[1..]);
    }
  }

  lemma PrependTwice(a: seq<Octets>, l: Octets, p: Parsed)
    ensures Prepend(a, Prepend([l], p)) == Prepend(a + [l], p)
  {
    if p.Decoded? {
      assert a + ([l] + p.labels) == a + [l] + p.labels;
    }
  }

  /** What is being decoded, and with what limits. */
  datatype Input = Input(msg: Octets, start: nat, nmax: nat, permitted: bool, downcase: bool) {
    ghost function Outcome(): Parsed {
      Parse(msg, start, start, nmax, permitted)
    }
  }

  /** The registers of the state machine.  `read` are the labels completed so far. */
  datatype Regs = Regs(
    state: Fw, current: nat, newCurrent: nat, biggestPointer: nat, n: nat, nused: nat,
    cused: nat, done: bool, seenPointer: bool, read: seq<Octets>, labelStart: nat)

  /** What the rest of the run has still to decode. */
  ghost function Rest(i: Input, r: Regs): (p: Parsed)
    requires r.nused <= i.nmax && r.labelStart <= r.current
  {
    match r.state
    case Start => Parse(i.msg, r.current, r.biggestPointer, i.nmax - r.nused, i.permitted)
    case Ordinary =>
      if r.current + r.n > |i.msg| then Failed(UnexpectedEnd)
      else Prepend([i.msg[r.labelStart..r.current + r.n]],
                   Parse(i.msg, r.current + r.n, r.biggestPointer, i.nmax - r.nused, i.permitted))
    case NewCurrent =>
      if r.current >= |i.msg| then Failed(UnexpectedEnd)
      else
        var p := r.newCurrent * 256 + i.msg[r.current];
        if p >= r.biggestPointer then Failed(BadPointer) else Parse(i.msg, p, p, i.nmax - r.nused, i.permitted)
  }

  /** The octets accounted for the label being read, or the root. */
  ghost function Pending(r: Regs): (k: int) {
    if r.done then 1 else if r.state == Ordinary then 1 + (r.current - r.labelStart) + r.n else 0
  }

  /** The registers make sense by themselves. */
  ghost predicate Sound(i: Input, r: Regs) {
    && r.current <= |i.msg| && Legal(r.read) && r.labelStart <= r.current
    && r.nused == WireSize(r.read) - 1 + Pending(r)
    && (r.state == Ordinary && !r.done ==> 0 < r.n && 0 < (r.current - r.labelStart) + r.n < 64)
    && (r.done ==> r.state == Ordinary)
  }

  ghost predicate Control(i: Input, r: Regs) {
    && i.start <= |i.msg| && i.nmax <= MAX_WIRE && r.biggestPointer <= i.start
    && Sound(i, r) && r.nused <= i.nmax
    && i.Outcome() == if r.done then Decoded(r.read) else Prepend(r.read, Rest(i, r))
  }

  /** How many octets of the source are used up, counted until the first pointer. */
  ghost predicate Count(i: Input, r: Regs) {
    if r.seenPointer then r.cused == Consumed(i.msg, i.start)
    else
      && i.start <= r.current && r.cused == r.current - i.start
      && Consumed(i.msg, i.start) == r.cused + Ahead(i, r)
  }

  ghost function Ahead(i: Input, r: Regs): int {
    if r.done then 0
    else match r.state
         case Start => Consumed(i.msg, r.current)
         case Ordinary => r.n + Consumed(i.msg, r.current + r.n)
         case NewCurrent => 1
  }

  /** What has been written to the target. */
  ghost function Image(i: Input, r: Regs): (w: Octets)
    requires Sound(i, r)
  {
    Written(i.downcase, r.read) +
    (if r.done then [0]
     else if r.state == Ordinary then
       var length: Octet := (r.current - r.labelStart) + r.n;
       [length] + Cased(i.downcase, i.msg[r.labelStart..r.current])
     else [])
  }

  /** The offsets table: entry `k` is where label `k` begins in the output. */
  ghost predicate Table(offsets: seq<Octet>, r: Regs) {
    && |offsets| == |r.read| + (if Pending(r) > 0 then 1 else 0)
    && forall k :: 0 <= k < |offsets| ==> k <= |r.read| && offsets[k] == WireSize(r.read[..k]) - 1
  }

  function Bump(r: Regs): Regs {
    r.(current := r.current + 1, cused := if r.seenPointer then r.cused else r.cused + 1)
  }

  ghost function LabelBegun(i: Input, r: Regs): Regs
    requires r.current < |i.msg|
  {
    var c := i.msg[r.current];
    Bump(r).(nused := r.nused + c + 1, done := c == 0, n := c, state := Ordinary, labelStart := r.current + 1)
  }

  lemma LabelBegins(i: Input, r: Regs)
    requires Control(i, r) && Count(i, r) && r.state == Start && !r.done && r.current < |i.msg|
    requires i.msg[r.current] < 64 && r.nused + i.msg[r.current] + 1 <= i.nmax
    ensures Control(i, LabelBegun(i, r)) && Count(i, LabelBegun(i, r))
    ensures Image(i, LabelBegun(i, r)) == Image(i, r) + [i.msg[r.current]]
    ensures |Image(i, r)| == r.nused
  {
    LabelControl(i, r);
    LabelImage(i, r);
  }

  lemma LabelControl(i: Input, r: Regs)
    requires Control(i, r) && Count(i, r) && r.state == Start && !r.done && r.current < |i.msg|
    requires i.msg[r.current] < 64 && r.nused + i.msg[r.current] + 1 <= i.nmax
    ensures Control(i, LabelBegun(i, r)) && Count(i, LabelBegun(i, r))
  {
    if i.msg[r.current] == 0 {
      assert r.read + [] == r.read;
    } else {
      assert Rest(i, r) == Rest(i, LabelBegun(i, r));
    }
  }

  lemma LabelImage(i: Input, r: Regs)
    requires Sound(i, r) && r.state == Start && !r.done && r.current < |i.msg| && i.msg[r.current] < 64
    requires Sound(i, LabelBegun(i, r))
    ensures Image(i, LabelBegun(i, r)) == Image(i, r) + [i.msg[r.current]] && |Image(i, r)| == r.nused
  {
    var t := LabelBegun(i, r);
    WrittenSize(i.downcase, r.read);
    assert i.msg[t.labelStart..t.current] == [];
  }

  lemma NoLabelBegins(i: Input, r: Regs)
    requires Control(i, r) && r.state == Start && !r.done && r.current < |i.msg|
    ensures var c := i.msg[r.current];
            && (c < 64 && r.nused + c + 1 > i.nmax ==> i.Outcome() == Failed(Full))
            && (64 <= c < 192 ==> i.Outcome() == Failed(BadLabelType))
            && (192 <= c && !i.permitted ==> i.Outcome() == Failed(Disallowed))
  {
  }

  ghost function PointerBegun(i: Input, r: Regs): Regs
    requires r.current < |i.msg| && i.msg[r.current] >= 192
  {
    Bump(r).(newCurrent := i.msg[r.current] - 192, state := NewCurrent)
  }

  lemma PointerBegins(i: Input, r: Regs)
    requires Control(i, r) && Count(i, r) && r.state == Start && !r.done && r.current < |i.msg|
    requires i.msg[r.current] >= 192 && i.permitted
    ensures Control(i, PointerBegun(i, r)) && Count(i, PointerBegun(i, r))
    ensures Image(i, PointerBegun(i, r)) == Image(i, r)
  {
    assert Rest(i, PointerBegun(i, r)) == Rest(i, r);
  }

  ghost function OctetCopied(i: Input, r: Regs): Regs
    requires r.n > 0 && r.current < |i.msg| && r.labelStart <= r.current
  {
    var t := Bump(r).(n := r.n - 1);
    if t.n > 0 then t
    else t.(state := Start, read := r.read + [i.msg[r.labelStart..t.current]], labelStart := t.current)
  }

  lemma PartGrows(i: Input, from: nat, to: nat)
    requires from <= to < |i.msg|
    ensures i.msg[from..to + 1] == i.msg[from..to] + [i.msg[to]]
    ensures Cased(i.downcase, i.msg[from..to + 1]) ==
            Cased(i.downcase, i.msg[from..to]) + [if i.downcase then Lower(i.msg[to]) else i.msg[to]]
  {
    assert i.msg[from..to + 1] == i.msg[from..to] + [i.msg[to]];
  }

  lemma LabelEnds(i: Input, r: Regs)
    requires Control(i, r) && Count(i, r) && r.state == Ordinary && !r.done && r.n == 1 && r.current < |i.msg|
    ensures Control(i, OctetCopied(i, r)) && Count(i, OctetCopied(i, r))
  {
    var t := OctetCopied(i, r);
    var l := i.msg[r.labelStart..t.current];
    LabelEndsSound(i, r);
    PrependTwice(r.read, l, Parse(i.msg, t.current, r.biggestPointer, i.nmax - r.nused, i.permitted));
    assert Rest(i, r) == Prepend([l], Rest(i, t));
  }

  lemma LabelEndsSound(i: Input, r: Regs)
    requires Sound(i, r) && r.state == Ordinary && !r.done && r.n == 1 && r.current < |i.msg|
    ensures Sound(i, OctetCopied(i, r)) && OctetCopied(i, r).nused == r.nused
  {
    var l := i.msg[r.labelStart..r.current + 1];
    assert LegalLabel(l);
    WireSizeAppend(r.read, l);
  }

  lemma ImageGrows(i: Input, r: Regs)
    requires Sound(i, r) && r.state == Ordinary && !r.done && r.current < |i.msg|
    requires Sound(i, OctetCopied(i, r))
    ensures var c := i.msg[r.current];
            Image(i, OctetCopied(i, r)) == Image(i, r) + [if i.downcase then Lower(c) else c]
    ensures |Image(i, r)| < r.nused
  {
    WrittenSize(i.downcase, r.read);
    if r.n == 1 {
      ImageOfLastOctet(i, r);
    } else {
      ImageOfOctet(i, r);
    }
  }

  lemma Regroup(a: Octets, b: Octets, c: Octets, d: Octets)
    ensures a + (b + (c + d)) == (a + (b + c)) + d
    ensures (a + b) + (c + d) + [] == (a + (b + c)) + d
  {
  }

  lemma ImageOfOctet(i: Input, r: Regs)
    requires Sound(i, r) && r.state == Ordinary && !r.done && r.current < |i.msg| && r.n > 1
    requires Sound(i, OctetCopied(i, r))
    ensures var c := i.msg[r.current];
            Image(i, OctetCopied(i, r)) == Image(i, r) + [if i.downcase then Lower(c) else c]
  {
    var c := i.msg[r.current];
    var length: Octet := (r.current - r.labelStart) + r.n;
    PartGrows(i, r.labelStart, r.current);
    Regroup(Written(i.downcase, r.read), [length], Cased(i.downcase, i.msg[r.labelStart..r.current]),
            [if i.downcase then Lower(c) else c]);
  }

  lemma ImageOfLastOctet(i: Input, r: Regs)
    requires Sound(i, r) && r.state == Ordinary && !r.done && r.current < |i.msg| && r.n == 1
    requires Sound(i, OctetCopied(i, r))
    ensures var c := i.msg[r.current];
            Image(i, OctetCopied(i, r)) == Image(i, r) + [if i.downcase then Lower(c) else c]
  {
    var c := i.msg[r.current];
    var length: Octet := (r.current - r.labelStart) + r.n;
    var l := i.msg[r.labelStart..r.current + 1];
    PartGrows(i, r.labelStart, r.current);
    WrittenAppend(i.downcase, r.read, l);
    assert Image(i, OctetCopied(i, r)) == Written(i.downcase, r.read + [l]) + [];
    Regroup(Written(i.downcase, r.read), [length], Cased(i.downcase, i.msg[r.labelStart..r.current]),
            [if i.downcase then Lower(c) else c]);
  }

  lemma OctetCopies(i: Input, r: Regs)
    requires Control(i, r) && Count(i, r) && r.state == Ordinary && !r.done && r.current < |i.msg|
    ensures Control(i, OctetCopied(i, r)) && Count(i, OctetCopied(i, r))
    ensures var c := i.msg[r.current];
            Image(i, OctetCopied(i, r)) == Image(i, r) + [if i.downcase then Lower(c) else c]
    ensures |Image(i, r)| < r.nused
  {
    if r.n == 1 {
      LabelEnds(i, r);
    } else {
      LabelGoesOn(i, r);
    }
    ImageGrows(i, r);
  }

  lemma LabelGoesOn(i: Input, r: Regs)
    requires Control(i, r) && Count(i, r) && r.state == Ordinary && !r.done && r.n > 1 && r.current < |i.msg|
    ensures Control(i, OctetCopied(i, r)) && Count(i, OctetCopied(i, r))
  {
    assert Rest(i, OctetCopied(i, r)) == Rest(i, r);
  }

  ghost function PointerFollowed(i: Input, r: Regs): Regs
    requires r.current < |i.msg|
  {
    var p := r.newCurrent * 256 + i.msg[r.current];
    Bump(r).(newCurrent := p, biggestPointer := p, current := p, seenPointer := true, state := Start, labelStart := p)
  }

  lemma PointerFollows(i: Input, r: Regs)
    requires Control(i, r) && Count(i, r) && r.state == NewCurrent && !r.done && r.current < |i.msg|
    ensures var p := r.newCurrent * 256 + i.msg[r.current];
            if p >= r.biggestPointer then i.Outcome() == Failed(BadPointer)
            else
              var t := PointerFollowed(i, r);
              && Control(i, t) && Count(i, t) && Image(i, t) == Image(i, r)
              && t.biggestPointer < r.biggestPointer
  {
    var p := r.newCurrent * 256 + i.msg[r.current];
    if p < r.biggestPointer {
      PointerControl(i, r);
      PointerImage(i, r);
    }
  }

  lemma PointerControl(i: Input, r: Regs)
    requires Control(i, r) && Count(i, r) && r.state == NewCurrent && !r.done && r.current < |i.msg|
    requires r.newCurrent * 256 + i.msg[r.current] < r.biggestPointer
    ensures Control(i, PointerFollowed(i, r)) && Count(i, PointerFollowed(i, r))
  {
    var t := PointerFollowed(i, r);
    assert Rest(i, t) == Rest(i, r);
    assert Pending(t) == Pending(r) == 0;
  }

  lemma PointerImage(i: Input, r: Regs)
    requires Sound(i, r) && r.state == NewCurrent && !r.done && r.current < |i.msg| && Sound(i, PointerFollowed(i, r))
    ensures Image(i, PointerFollowed(i, r)) == Image(i, r)
  {
  }

  /** Write one octet after the `count` octets already written from `used` on. */
  method Put(target: array<Octet>, used: nat, count: nat, c: Octet)
    requires used + count < target.Length
    modifies target
    ensures target[..used] == old(target[..used])
    ensures target[used..used + count + 1] == old(target[used..used + count]) + [c]
  {
    target[used + count] := c;
  }

  lemma OneMoreOffset(offsets: seq<Octet>, i: Input, r: Regs, offset: Octet)
    requires Control(i, r) && r.state == Start && !r.done && r.current < |i.msg| && i.msg[r.current] < 64
    requires Table(offsets, r) && offset == r.nused
    ensures Table(offsets + [offset], LabelBegun(i, r))
  {
    assert r.read[..|r.read|] == r.read;
  }

  lemma OffsetsKept(offsets: seq<Octet>, i: Input, r: Regs)
    requires Control(i, r) && r.state == Ordinary && !r.done && r.current < |i.msg| && Table(offsets, r)
    ensures Table(offsets, OctetCopied(i, r))
  {
    var t := OctetCopied(i, r);
    assert forall k :: 0 <= k <= |r.read| ==> t.read[..k] == r.read[..k];
  }

  ghost predicate Facts(i: Input, r: Regs, out: Octets, offs: seq<Octet>) {
    Control(i, r) && Count(i, r) && out == Image(i, r) && |out| <= r.nused && Table(offs, r)
  }

  ghost predicate Seal(r: Regs) { true }

  /** `Facts`, stated so that they enter a proof only where `Seal(r)` is mentioned. */
  ghost predicate Tracks(i: Input, r: Regs, out: Octets, offs: seq<Octet>) {
    forall s {:trigger Seal(s)} :: Seal(s) && s == r ==> Facts(i, s, out, offs)
  }

  lemma Begins(i: Input, offs: seq<Octet>)
    requires i.start <= |i.msg| && i.nmax <= MAX_WIRE && offs == []
    ensures Tracks(i, Regs(Start, i.start, 0, i.start, 0, 0, 0, false, false, [], 0), [], offs)
  {
    assert Prepend([], i.Outcome()) == i.Outcome();
    assert Written(i.downcase, []) == [];
  }

  lemma AtLabelStart(i: Input, r: Regs, out: Octets, offs: seq<Octet>)
    requires Tracks(i, r, out, offs) && r.state == Start && !r.done && r.current < |i.msg|
    ensures var c := i.msg[r.current];
            && (c < 64 ==> |offs| < MAX_LABELS && r.nused < 256)
            && (c < 64 && r.nused + c + 1 <= i.nmax ==>
                  Tracks(i, LabelBegun(i, r), out + [c], offs + [r.nused]) && |out| == r.nused)
            && (c < 64 && r.nused + c + 1 > i.nmax ==> i.Outcome() == Failed(Full))
            && (64 <= c < 192 ==> i.Outcome() == Failed(BadLabelType))
            && (192 <= c && !i.permitted ==> i.Outcome() == Failed(Disallowed))
            && (192 <= c && i.permitted ==> Tracks(i, PointerBegun(i, r), out, offs))
  {
    assert Seal(r);
    NoLabelBegins(i, r);
    var c := i.msg[r.current];
    if c < 64 {
      LabelCount(r.read);
      if r.nused + c + 1 <= i.nmax {
        LabelBegins(i, r);
        OneMoreOffset(offs, i, r, r.nused);
      }
    } else if c >= 192 && i.permitted {
      PointerBegins(i, r);
    }
  }

  lemma AtLabelOctet(i: Input, r: Regs, out: Octets, offs: seq<Octet>)
    requires Tracks(i, r, out, offs) && r.state == Ordinary && !r.done && r.current < |i.msg|
    ensures r.n > 0 && r.labelStart <= r.current && |out| < r.nused <= i.nmax
    ensures var c := i.msg[r.current];
            Tracks(i, OctetCopied(i, r), out + [if i.downcase then Lower(c) else c], offs)
  {
    assert Seal(r);
    OctetCopies(i, r);
    OffsetsKept(offs, i, r);
  }

  lemma AtPointerOctet(i: Input, r: Regs, out: Octets, offs: seq<Octet>)
    requires Tracks(i, r, out, offs) && r.state == NewCurrent && !r.done && r.current < |i.msg|
    ensures var p := r.newCurrent * 256 + i.msg[r.current];
            if p >= r.biggestPointer then i.Outcome() == Failed(BadPointer)
            else Tracks(i, PointerFollowed(i, r), out, offs)
  {
    assert Seal(r);
    PointerFollows(i, r);
  }

  /** What is known when the loop is left. */
  lemma AtEnd(i: Input, r: Regs, out: Octets, offs: seq<Octet>)
    requires Tracks(i, r, out, offs) && (r.done || r.current >= |i.msg|)
    ensures !r.done ==> i.Outcome() == Failed(UnexpectedEnd)
    ensures r.done ==> i.Outcome() == Decoded(r.read) && Complete(i, r.read, r.nused, r.cused, out, offs)
  {
    assert Seal(r);
    if r.done {
      WrittenSize(i.downcase, r.read);
      LabelCount(r.read);
      assert r.read[..|r.read|] == r.read;
    }
  }

  /** The name is written out whole and the table says where its labels are. */
  ghost predicate Complete(i: Input, name: seq<Octets>, length: nat, cused: nat, out: Octets, offs: seq<Octet>) {
    && Legal(name) && cused == Consumed(i.msg, i.start)
    && length == WireSize(name) == |out| <= i.nmax && out == Written(i.downcase, name) + [0]
    && |offs| == |name| + 1 <= MAX_LABELS
    && forall k :: 0 <= k <= |name| ==> offs[k] == WireSize(name[..k]) - 1
  }

  /** The running decoder: the locals of the source function as fields. */
  class Decoder {
    const i: Input
    const target: array<Octet>
    const used: nat  // where the free space of the target begins
    const offsets: array<Octet>
    ghost const before: Octets  // what the target held already
    var state: Fw
    var current: nat
    var newCurrent: nat
    var biggestPointer: nat
    var n: nat  // octets still to come in the current label
    var nused: nat
    var labels: nat
    var ndata: nat  // octets written
    var cused: nat
    var done: bool
    var seenPointer: bool
    ghost var read: seq<Octets>
    ghost var labelStart: nat

    ghost function R(): Regs
      reads this
    {
      Regs(state, current, newCurrent, biggestPointer, n, nused, cused, done, seenPointer, read, labelStart)
    }

    ghost predicate Valid()
      reads this, target, offsets
    {
      && used + i.nmax <= target.Length && offsets.Length == MAX_LABELS && offsets != target
      && target[..used] == before
      && used + ndata <= target.Length && labels <= MAX_LABELS
      && Tracks(i, R(), target[used..used + ndata], offsets[..labels])
    }

    constructor (i: Input, target: array<Octet>, used: nat, offsets: array<Octet>)
      requires i.start <= |i.msg| && i.nmax <= MAX_WIRE && used + i.nmax <= target.Length
      requires offsets.Length == MAX_LABELS && offsets != target
      ensures Valid() && before == target[..used]
      ensures this.i == i && this.target == target && this.used == used && this.offsets == offsets
    {
      this.i, this.target, this.used, this.offsets, before := i, target, used, offsets, target[..used];
      state, current, newCurrent, biggestPointer, n := Start, i.start, 0, i.start, 0;
      nused, labels, ndata, cused, done, seenPointer := 0, 0, 0, 0, false, false;
      read, labelStart := [], 0;
      new;
      Begins(i, []);
      assert target[used..used] == [] && offsets[..0] == [];
    }

    method Advance()
      modifies this`current, this`cused
      ensures current == old(current) + 1
      ensures cused == if seenPointer then old(cused) else old(cused) + 1
    {
      current := current + 1;
      if !seenPointer {
        cused := cused + 1;
      }
    }

    /** Write the length octet of a label and get ready to copy the label. */
    method WriteLength(c: Octet)
      requires used + ndata < target.Length
      modifies this`nused, this`ndata, this`done, this`n, this`state, this`labelStart, target
      ensures nused == old(nused) + c + 1 && done == (c == 0 || old(done)) && n == c && state == Ordinary
      ensures labelStart == current && ndata == old(ndata) + 1
      ensures target[..used] == old(target[..used])
      ensures target[used..used + ndata] == old(target[used..used + ndata]) + [c]
    {
      nused := nused + c + 1;
      Put(target, used, ndata, c);
      ndata := ndata + 1;
      if c == 0 {
        done := true;
      }
      n := c;
      state := Ordinary;
      labelStart := current;
    }

    /** Copy one octet of a label. */
    method CopyOctet(octet: Octet)
      requires used + ndata < target.Length && n > 0 && labelStart <= current < |i.msg|
      modifies this, target
      ensures R() == OctetCopied(i, old(R())) && labels == old(labels) && ndata == old(ndata) + 1
      ensures target[..used] == old(target[..used])
      ensures target[used..used + ndata] ==
              old(target[used..used + ndata]) + [if i.downcase then Lower(octet) else octet]
    {
      StoreOctet(octet);
      if n == 0 {
        state := Start;
        read := read + [i.msg[labelStart..current]];
        labelStart := current;
      }
    }

    method StoreOctet(octet: Octet)
      requires used + ndata < target.Length && n > 0
      modifies this`current, this`cused, this`ndata, this`n, target
      ensures current == old(current) + 1 && cused == (if seenPointer then old(cused) else old(cused) + 1)
      ensures ndata == old(ndata) + 1 && n == old(n) - 1
      ensures target[..used] == old(target[..used])
      ensures target[used..used + ndata] ==
              old(target[used..used + ndata]) + [if i.downcase then Lower(octet) else octet]
    {
      Advance();
      var c := octet;
      if i.downcase {
        c := Lower(c);
      }
      Put(target, used, ndata, c);
      ndata := ndata + 1;
      n := n - 1;
    }

    /** Start a label that fits. */
    method BeginLabel(c: Octet)
      requires Valid() && !done && state == Start && current < |i.msg| && c == i.msg[current] < 64
      requires labels < MAX_LABELS && nused < 256
      modifies this, target, offsets
      ensures target[..used] == before
      ensures old(nused) + c + 1 <= i.nmax ==>
                Valid() && biggestPointer == old(biggestPointer) && current == old(current) + 1
    {
      ghost var r, out, offs := R(), target[used..used + ndata], offsets[..labels];
      AtLabelStart(i, r, out, offs);
      Advance();
      offsets[labels] := nused;
      labels := labels + 1;
      if nused + c + 1 > i.nmax {
        return;
      }
      assert offsets[..labels] == offs + [r.nused];
      WriteLength(c);
      assert R() == LabelBegun(i, r);
    }

    /** At the start of a label: a length octet, the first octet of a pointer, or an error. */
    method AtStart(c: Octet) returns (err: Option<Error>)
      requires Valid() && !done && state == Start && current < |i.msg| && c == i.msg[current]
      modifies this, target, offsets
      ensures err.Some? ==> i.Outcome() == Failed(err.value) && target[..used] == before
      ensures err.None? ==> Valid() && biggestPointer == old(biggestPointer) && current == old(current) + 1
    {
      ghost var r := R();
      AtLabelStart(i, r, target[used..used + ndata], offsets[..labels]);
      if c < 64 {
        var full := nused + c + 1 > i.nmax;
        BeginLabel(c);
        return if full then Some(Full) else None;
      } else if c >= 192 {
        Advance();
        if !i.permitted {
          return Some(Disallowed);
        }
        newCurrent := c - 192;
        state := NewCurrent;
        assert R() == PointerBegun(i, r);
        return None;
      } else {
        return Some(BadLabelType);
      }
    }

    /** Inside a label: copy one octet. */
    method InLabel(octet: Octet)
      requires Valid() && !done && state == Ordinary && current < |i.msg| && octet == i.msg[current]
      modifies this, target
      ensures Valid() && biggestPointer == old(biggestPointer) && current == old(current) + 1
    {
      AtLabelOctet(i, R(), target[used..used + ndata], offsets[..labels]);
      CopyOctet(octet);
    }

    /** At the second octet of a pointer: follow it if it leads back far enough. */
    method AtPointer(c: Octet) returns (err: Option<Error>)
      requires Valid() && !done && state == NewCurrent && current < |i.msg| && c == i.msg[current]
      modifies this
      ensures err.Some? ==> i.Outcome() == Failed(err.value) && target[..used] == before
      ensures err.None? ==> Valid() && biggestPointer < old(biggestPointer)
    {
      ghost var r := R();
      AtPointerOctet(i, r, target[used..used + ndata], offsets[..labels]);
      Advance();
      newCurrent := newCurrent * 256;
      newCurrent := newCurrent + c;
      if newCurrent >= biggestPointer {
        return Some(BadPointer);
      }
      biggestPointer := newCurrent;
      current := newCurrent;
      seenPointer := true;
      state := Start;
      labelStart := current;
      assert R() == PointerFollowed(i, r);
      return None;
    }

    /** Decode the whole name.  The loop ends because a pointer lowers `biggestPointer` and
        everything else moves forward. */
    method Run() returns (err: Option<Error>)
      requires Valid()
      modifies this, target, offsets
      ensures target[..used] == before
      ensures i.Outcome().Failed? ==> err == Some(i.Outcome().error)
      ensures i.Outcome().Decoded? ==>
                && err.None? && used + nused <= target.Length && labels <= offsets.Length
                && Complete(i, i.Outcome().labels, nused, cused, target[used..used + nused], offsets[..labels])
    {
      while current < |i.msg| && !done
        invariant Valid()
        decreases biggestPointer, |i.msg| - current
      {
        var c := i.msg[current];
        match state {
          case Start =>
            err := AtStart(c);
            if err.Some? {
              return;
            }
          case Ordinary =>
            InLabel(c);
          case NewCurrent =>
            err := AtPointer(c);
            if err.Some? {
              return;
            }
        }
      }
      AtEnd(i, R(), target[used..used + ndata], offsets[..labels]);
      if !done {
        return Some(UnexpectedEnd);
      }
      return None;
    }
  }

  lemma {:induction false} WireSizeGrows(name: seq<Octets>, k: nat)
    requires Legal(name) && k < |name|
    ensures WireSize(name[..k + 1]) == WireSize(name[..k]) + 1 + |name[k]|
  {
    assert name[..k + 1] == name[..k] + [name[k]];
    WireSizeAppend(name[..k], name[k]);
  }

  lemma {:induction false} WireSizeMonotone(name: seq<Octets>, k: nat, l: nat)
    requires Legal(name) && k < l <= |name|
    ensures WireSize(name[..k]) < WireSize(name[..l])
  {
    WireSizeGrows(name, l - 1);
    if k < l - 1 {
      WireSizeMonotone(name, k, l - 1);
    }
  }

  /** The offsets strictly ascend and each one is the place of its label's length octet. */
  lemma OffsetsPointAtLengths(i: Input, name: seq<Octets>, length: nat, cused: nat, out: Octets, offs: seq<Octet>)
    requires Complete(i, name, length, cused, out, offs)
    ensures forall k, l :: 0 <= k < l < |offs| ==> offs[k] < offs[l]
    ensures forall k :: 0 <= k < |offs| ==>
              offs[k] < |out| && out[offs[k]] == if k < |name| then |name[k]| else 0
  {
    forall k: nat, l: nat | k < l < |offs|
      ensures offs[k] < offs[l]
    {
      WireSizeMonotone(name, k, l);
    }
    forall k: nat | k < |offs|
      ensures offs[k] < |out| && out[offs[k]] == if k < |name| then |name[k]| else 0
    {
      LengthAt(i.downcase, name, k);
    }
  }

  lemma LengthAt(downcase: bool, name: seq<Octets>, k: nat)
    requires Legal(name) && k <= |name|
    ensures var out := Written(downcase, name) + [0];
            var at := WireSize(name[..k]) - 1;
            at < |out| && out[at] == if k < |name| then |name[k]| else 0
  {
    var c := CasedLabels(downcase, name);
    CasedLegal(downcase, name);
    assert c == c[..k] + c[k..] && CasedLabels(downcase, name[..k]) == c[..k];
    assert Legal(name[..k]);
    WrittenSize(downcase, name[..k]);
    LabelsWireConcat(c[..k], c[k..]);
    assert LabelsWire(c) == Written(downcase, name[..k]) + LabelsWire(c[k..]);
    if k < |name| {
      assert c[k..][0] == c[k];
    } else {
      assert c[k..] == [];
    }
  }

  class Source {
    const base: Octets
    const active: nat
    var current: nat

    ghost predicate Valid()
      reads this
    {
      current <= active <= |base|
    }

    constructor (base: Octets)
      ensures Valid() && this.base == base && active == |base| && current == 0
    {
      this.base, active, current := base, |base|, 0;
    }
  }

  class Target {
    const base: array<Octet>
    var used: nat

    ghost predicate Valid()
      reads this
    {
      used <= base.Length
    }

    constructor (size: nat)
      ensures Valid() && used == 0 && fresh(base) && base.Length == size
    {
      base := new Octet[size](_ => 0);
      used := 0;
    }
  }

  class DnsName {
    var ndata: nat  // where in the target the name is
    var length: nat
    var labels: nat
    var absolute: bool
    const offsets: array<Octet>
    const buffer: Target?

    constructor (buffer: Target?)
      ensures Empty() && this.buffer == buffer && fresh(offsets) && offsets.Length == MAX_LABELS
    {
      ndata, length, labels, absolute := 0, 0, 0, false;
      offsets := new Octet[MAX_LABELS](_ => 0);
      this.buffer := buffer;
    }

    ghost predicate Empty()
      reads this
    {
      ndata == 0 && length == 0 && labels == 0 && !absolute
    }
  }

  datatype Code = Success | End | BadLabel | NotAllowed | BadPtr | NameTooLong | NoSpace

  /** How a decoding error is reported, given the room there was. */
  function CodeOf(e: Error, nmax: nat): Code {
    match e
    case UnexpectedEnd => End
    case BadLabelType => BadLabel
    case Disallowed => NotAllowed
    case BadPointer => BadPtr
    case Full => if nmax == MAX_WIRE then NameTooLong else NoSpace
  }

  function Room(target: Target): nat
    requires target.Valid()
    reads target
  {
    if target.base.Length - target.used > MAX_WIRE then MAX_WIRE else target.base.Length - target.used
  }

  /** The name holds `labels`, written to the target and indexed by the offsets. */
  ghost predicate Filled(i: Input, labels: seq<Octets>, name: DnsName, target: Target)
    reads name, target, target.base, name.offsets
  {
    && name.absolute && target.Valid() && name.offsets.Length == MAX_LABELS
    && name.length == WireSize(labels) <= MAX_WIRE && name.labels == |labels| + 1 <= MAX_LABELS
    && target.used == name.ndata + name.length
    && Complete(i, labels, name.length, Consumed(i.msg, i.start),
                target.base[name.ndata..target.used], name.offsets[..name.labels])
  }

  /** Decode into the free part of the target and fill in the name. */
  method DecodeInto(i: Input, name: DnsName, target: Target) returns (err: Option<Error>, cused: nat)
    requires i.start <= |i.msg| && target.Valid() && i.nmax == Room(target)
    requires name.offsets.Length == MAX_LABELS && name.offsets != target.base && name.Empty()
    modifies name, target, target.base, name.offsets
    ensures target.Valid()
    ensures target.base[..old(target.used)] == old(target.base[..target.used])
    ensures i.Outcome().Failed? ==>
              err == Some(i.Outcome().error) && name.Empty() && target.used == old(target.used)
    ensures i.Outcome().Decoded? ==>
              && err.None? && cused == Consumed(i.msg, i.start)
              && name.ndata == old(target.used) && Filled(i, i.Outcome().labels, name, target)
  {
    var decoder := new Decoder(i, target.base, target.used, name.offsets);
    err := decoder.Run();
    cused := decoder.cused;
    if err.Some? {
      return;
    }
    name.ndata := target.used;
    name.labels := decoder.labels;
    name.length := decoder.nused;
    name.absolute := true;
    target.used := target.used + name.length;
  }

  /** The name function of the source.  The name at the current position is written to the free
      part of the target and the source moves past it; on failure neither buffer moves and the
      name is empty. */
  method NameFromWire(name: DnsName, source: Source, permitted: bool, downcase: bool, target: Target)
    returns (code: Code)
    requires source.Valid() && target.Valid()
    requires name.offsets.Length == MAX_LABELS && name.offsets != target.base
    modifies name, source, target, target.base, name.offsets
    ensures source.Valid() && target.Valid()
    ensures target.base[..old(target.used)] == old(target.base[..target.used])
    ensures var i := Input(source.base[..source.active], old(source.current), old(Room(target)), permitted, downcase);
            match i.Outcome()
            case Failed(e) =>
              && code == CodeOf(e, i.nmax) && name.Empty()
              && source.current == old(source.current) && target.used == old(target.used)
            case Decoded(labels) =>
              && code == Success && name.ndata == old(target.used) && Filled(i, labels, name, target)
              && source.current == old(source.current) + Consumed(i.msg, i.start)
  {
    name.ndata, name.length, name.labels, name.absolute := 0, 0, 0, false;
    var nmax := target.base.Length - target.used;
    if nmax > MAX_WIRE {
      nmax := MAX_WIRE;
    }
    var i := Input(source.base[..source.active], source.current, nmax, permitted, downcase);
    var err, cused := DecodeInto(i, name, target);
    if err.Some? {
      return CodeOf(err.value, nmax);
    }
    ConsumedFits(i);
    source.current := source.current + cused;
    return Success;
  }

  lemma {:induction false} ConsumedWithin(msg: Octets, pos: nat, limit: nat, room: nat, permitted: bool)
    requires Parse(msg, pos, limit, room, permitted).Decoded?
    ensures 0 < Consumed(msg, pos) && pos + Consumed(msg, pos) <= |msg|
    decreases |msg| - pos
  {
    if 0 < msg[pos] < 64 {
      ConsumedWithin(msg, pos + 1 + msg[pos], limit, room - (msg[pos] + 1), permitted);
    }
  }

  lemma ConsumedFits(i: Input)
    requires i.Outcome().Decoded?
    ensures 0 < Consumed(i.msg, i.start) && i.start + Consumed(i.msg, i.start) <= |i.msg|
  {
    ConsumedWithin(i.msg, i.start, i.start, i.nmax, i.permitted);
  }

  /** The same with the name's own buffer in place of a target: it is emptied first. */
  method NameFromWireOwnBuffer(name: DnsName, source: Source, permitted: bool, downcase: bool) returns (code: Code)
    requires source.Valid() && name.buffer != null
    requires name.offsets.Length == MAX_LABELS && name.offsets != name.buffer.base
    modifies name, source, name.buffer, name.buffer.base, name.offsets
    ensures source.Valid() && name.buffer.Valid()
    ensures code != Success ==> name.buffer.used == 0 && source.current == old(source.current) && name.Empty()
    ensures var room := if name.buffer.base.Length > MAX_WIRE then MAX_WIRE else name.buffer.base.Length;
            var i := Input(source.base[..source.active], old(source.current), room, permitted, downcase);
            match i.Outcome()
            case Failed(e) => code == CodeOf(e, room)
            case Decoded(labels) =>
              && code == Success && name.ndata == 0 && Filled(i, labels, name, name.buffer)
              && source.current == old(source.current) + Consumed(i.msg, i.start)
  {
    var target := name.buffer;
    target.used := 0;
    code := NameFromWire(name, source, permitted, downcase, target);
  }
}
