/** Names on the wire (sections 3.1 and 4.1.4 of RFC 1035): what a possibly compressed name in
a message stands for.

Labels are listed as they appear on the wire, the one furthest from the root first.
*/
module Wire {
  import opened Names

  datatype Error = UnexpectedEnd | BadLabelType | Disallowed | BadPointer | Full

  datatype Parsed = Decoded(labels: seq<Octets>) | Failed(error: Error)

  predicate LegalLabel(l: Octets) {
    1 <= |l| < 64
  }

  /** The uncompressed form of a list of labels, without the root label. */
  function LabelsWire(labels: seq<Octets>): (w: Octets)
    requires Legal(labels)
  {
    if labels == [] then []
    else
      assert LegalLabel(labels[0]);
      var length: Octet := |labels[0]|;
      [length] + labels[0] + LabelsWire(labels[1..])
  }

  ghost predicate Legal(labels: seq<Octets>) {
    forall i :: 0 <= i < |labels| ==> LegalLabel(labels[i])
  }

  function PointerTarget(hi: Octet, lo: Octet): (p: nat)
    requires hi >= 192
  {
    (hi - 192) * 256 + lo
  }

  function Prepend(labels: seq<Octets>, p: Parsed): Parsed {
    if p.Decoded? then Decoded(labels + p.labels) else p
  }

  /** Decode the name at `pos`, label by label.  A pointer has to lead below `limit`, the start
      of the segment it stands in, and at most `room` octets may come out. */
  function Parse(msg: Octets, pos: nat, limit: nat, room: nat, permitted: bool): (r: Parsed)
    decreases limit, |msg| - pos
  {
    if pos >= |msg| then Failed(UnexpectedEnd)
    else
      var c := msg[pos];
      if c < 64 then
        if c + 1 > room then Failed(Full)
        else if c == 0 then Decoded([])
        else if pos + 1 + c > |msg| then Failed(UnexpectedEnd)
        else Prepend([msg[pos + 1..pos + 1 + c]], Parse(msg, pos + 1 + c, limit, room - (c + 1), permitted))
      else if c >= 192 then
        if !permitted then Failed(Disallowed)
        else if pos + 1 >= |msg| then Failed(UnexpectedEnd)
        else
          var target := PointerTarget(c, msg[pos + 1]);
          if target >= limit then Failed(BadPointer) else Parse(msg, target, target, room, permitted)
      else Failed(BadLabelType)
  }

  /** The octets a name takes at `pos`: up to the root label or through the first pointer. */
  function Consumed(msg: Octets, pos: nat): (n: nat)
    decreases |msg| - pos
  {
    if pos >= |msg| then 0
    else if msg[pos] == 0 then 1
    else if msg[pos] < 64 then 1 + msg[pos] + Consumed(msg, pos + 1 + msg[pos])
    else 2
  }

  /** A stretch of labels written one after the other from `start`. */
  datatype Segment = Segment(start: nat, labels: seq<Octets>) {
    function End(): nat {
      start + WireSize(labels) - 1
    }
  }

  ghost predicate LabelsAt(msg: Octets, pos: nat, labels: seq<Octets>)
    decreases labels
  {
    if labels == [] then true
    else
      var l := labels[0];
      && LegalLabel(l) && pos + 1 + |l| <= |msg|
      && msg[pos] == |l| && msg[pos + 1..pos + 1 + |l|] == l
      && LabelsAt(msg, pos + 1 + |l|, labels[1..])
  }

  /** `segs` spells out a name in the message.  Every segment but the last ends in a pointer to
      the start of the next, which has to lie below `limit` for the first segment and below the
      segment's own start for the others; the last ends in the root label. */
  ghost predicate Spells(msg: Octets, limit: nat, segs: seq<Segment>) {
    && segs != [] && LabelsAt(msg, segs[0].start, segs[0].labels)
    && var end := segs[0].End();
       if |segs| == 1 then end < |msg| && msg[end] == 0
       else
         && end + 1 < |msg| && msg[end] >= 192
         && PointerTarget(msg[end], msg[end + 1]) == segs[1].start < limit
         && Spells(msg, segs[1].start, segs[1..])
  }

  function NameOf(segs: seq<Segment>): seq<Octets> {
    if segs == [] then [] else segs[0].labels + NameOf(segs[1..])
  }

  /** The name at `pos` is `labels`, spelled out by `segs`. */
  ghost predicate SpelledBy(msg: Octets, pos: nat, limit: nat, segs: seq<Segment>, labels: seq<Octets>) {
    Spells(msg, limit, segs) && segs[0].start == pos && NameOf(segs) == labels
  }

  lemma {:induction false} WireSizeConcat(a: seq<Octets>, b: seq<Octets>)
    ensures WireSize(a + b) == WireSize(a) + WireSize(b) - 1
  {
    if a == [] {
      assert a + b == b;
    } else {
      WireSizeConcat(a[1..], b);
      assert (a + b)[1..] == a[1..] + b;
    }
  }

  /** What a segment list becomes when its first label has been read. */
  ghost function AfterLabel(segs: seq<Segment>): (r: seq<Segment>)
    requires segs != [] && segs[0].labels != []
  {
    [Segment(segs[0].start + 1 + |segs[0].labels[0]|, segs[0].labels[1..])] + segs[1..]
  }

  lemma AfterLabelSpells(msg: Octets, limit: nat, segs: seq<Segment>)
    requires segs != [] && segs[0].labels != [] && Spells(msg, limit, segs)
    ensures Spells(msg, limit, AfterLabel(segs))
  {
    assert AfterLabel(segs)[1..] == segs[1..];
  }

  lemma ParseAtLabel(msg: Octets, pos: nat, limit: nat, room: nat, permitted: bool, l: Octets)
    requires LegalLabel(l) && pos + 1 + |l| <= |msg| && msg[pos] == |l| && msg[pos + 1..pos + 1 + |l|] == l
    ensures Parse(msg, pos, limit, room, permitted) ==
            if |l| + 1 > room then Failed(Full)
            else Prepend([l], Parse(msg, pos + 1 + |l|, limit, room - (|l| + 1), permitted))
  {
  }

  lemma ParseAtPointer(msg: Octets, pos: nat, limit: nat, room: nat)
    requires pos + 1 < |msg| && msg[pos] >= 192 && PointerTarget(msg[pos], msg[pos + 1]) < limit
    ensures var target := PointerTarget(msg[pos], msg[pos + 1]);
            Parse(msg, pos, limit, room, true) == Parse(msg, target, target, room, true)
  {
  }

  /** Completeness: whatever is spelled out by segments with backward pointers is decoded, if
      it fits; if it does not fit, that is the failure reported. */
  lemma {:induction false} SpelledIsDecoded(msg: Octets, limit: nat, segs: seq<Segment>, room: nat, permitted: bool)
    requires Spells(msg, limit, segs) && (permitted || |segs| == 1)
    ensures Decodes(msg, limit, segs, room, permitted)
    decreases |segs|, |segs[0].labels|
  {
    if segs[0].labels != [] {
      var l := segs[0].labels[0];
      AfterLabelSpells(msg, limit, segs);
      if |l| + 1 <= room {
        SpelledIsDecoded(msg, limit, AfterLabel(segs), room - (|l| + 1), permitted);
      }
      DecodesLabel(msg, limit, segs, room, permitted);
    } else if |segs| == 1 {
      DecodesRoot(msg, limit, segs, room, permitted);
    } else {
      SpelledIsDecoded(msg, segs[1].start, segs[1..], room, permitted);
      DecodesPointer(msg, limit, segs, room);
    }
  }

  /** The name spelled by the segments is read, if it fits. */
  ghost predicate Decodes(msg: Octets, limit: nat, segs: seq<Segment>, room: nat, permitted: bool)
    requires segs != []
  {
    Parse(msg, segs[0].start, limit, room, permitted) == Fits(NameOf(segs), room)
  }

  lemma DecodesLabel(msg: Octets, limit: nat, segs: seq<Segment>, room: nat, permitted: bool)
    requires segs != [] && segs[0].labels != [] && LabelsAt(msg, segs[0].start, segs[0].labels)
    requires var l := segs[0].labels[0];
             |l| + 1 <= room ==> Decodes(msg, limit, AfterLabel(segs), room - (|l| + 1), permitted)
    ensures Decodes(msg, limit, segs, room, permitted)
  {
    ParseAtLabel(msg, segs[0].start, limit, room, permitted, segs[0].labels[0]);
    FitsAfterLabel(segs, room);
  }

  lemma DecodesRoot(msg: Octets, limit: nat, segs: seq<Segment>, room: nat, permitted: bool)
    requires |segs| == 1 && segs[0].labels == [] && Spells(msg, limit, segs)
    ensures Decodes(msg, limit, segs, room, permitted)
  {
    assert NameOf(segs) == [];
  }

  lemma DecodesPointer(msg: Octets, limit: nat, segs: seq<Segment>, room: nat)
    requires |segs| > 1 && segs[0].labels == [] && Spells(msg, limit, segs)
    requires Decodes(msg, segs[1].start, segs[1..], room, true)
    ensures Decodes(msg, limit, segs, room, true)
  {
    ParseAtPointer(msg, segs[0].start, limit, room);
    assert NameOf(segs) == NameOf(segs[1..]);
  }

  ghost function Fits(labels: seq<Octets>, room: nat): Parsed {
    if WireSize(labels) <= room then Decoded(labels) else Failed(Full)
  }

  lemma FitsAfterLabel(segs: seq<Segment>, room: nat)
    requires segs != [] && segs[0].labels != []
    ensures var l := segs[0].labels[0];
            Fits(NameOf(segs), room) ==
            if |l| + 1 > room then Failed(Full)
            else Prepend([l], Fits(NameOf(AfterLabel(segs)), room - (|l| + 1)))
  {
    NameAfterLabel(segs);
    PrependSize(segs[0].labels[0], NameOf(AfterLabel(segs)));
  }

  lemma NameAfterLabel(segs: seq<Segment>)
    requires segs != [] && segs[0].labels != []
    ensures NameOf(segs) == [segs[0].labels[0]] + NameOf(AfterLabel(segs))
  {
    var rest := segs[1..];
    assert segs == [segs[0]] + rest;
    NameHead(segs[0], rest);
    NameHead(AfterLabel(segs)[0], rest);
    FirstLabel(segs[0].labels, NameOf(rest));
  }

  lemma NameHead(seg: Segment, rest: seq<Segment>)
    ensures NameOf([seg] + rest) == seg.labels + NameOf(rest)
  {
    assert ([seg] + rest)[1..] == rest;
  }

  lemma FirstLabel(a: seq<Octets>, b: seq<Octets>)
    requires a != []
    ensures a + b == [a[0]] + (a[1..] + b)
  {
  }

  lemma PrependSize(l: Octets, labels: seq<Octets>)
    ensures WireSize([l] + labels) == 1 + |l| + WireSize(labels)
  {
    assert ([l] + labels)[1..] == labels;
  }

  /** Soundness: what is decoded is spelled out by such segments and fits. */
  lemma {:induction false} DecodedIsSpelled(msg: Octets, pos: nat, limit: nat, room: nat, permitted: bool)
    returns (segs: seq<Segment>)
    requires Parse(msg, pos, limit, room, permitted).Decoded?
    ensures SpelledBy(msg, pos, limit, segs, Parse(msg, pos, limit, room, permitted).labels)
    ensures permitted || |segs| == 1
    ensures WireSize(Parse(msg, pos, limit, room, permitted).labels) <= room
    decreases limit, |msg| - pos
  {
    var c := msg[pos];
    if c == 0 {
      segs := [Segment(pos, [])];
    } else if c < 64 {
      var l := msg[pos + 1..pos + 1 + c];
      ParseAtLabel(msg, pos, limit, room, permitted, l);
      var rest := DecodedIsSpelled(msg, pos + 1 + c, limit, room - (c + 1), permitted);
      segs := LabelPrepended(msg, pos, limit, l, rest);
    } else {
      var target := PointerTarget(c, msg[pos + 1]);
      ParseAtPointer(msg, pos, limit, room);
      var rest := DecodedIsSpelled(msg, target, target, room, permitted);
      segs := PointerPrepended(msg, pos, limit, rest);
    }
  }

  lemma PointerPrepended(msg: Octets, pos: nat, limit: nat, rest: seq<Segment>) returns (segs: seq<Segment>)
    requires pos + 1 < |msg| && msg[pos] >= 192 && rest != [] && Spells(msg, rest[0].start, rest)
    requires PointerTarget(msg[pos], msg[pos + 1]) == rest[0].start < limit
    ensures SpelledBy(msg, pos, limit, segs, NameOf(rest))
  {
    var first := Segment(pos, []);
    segs := [first] + rest;
    NameHead(first, rest);
    assert first.labels + NameOf(rest) == NameOf(rest);
    SegmentPrepended(msg, limit, first, rest);
  }

  lemma LabelPrepended(msg: Octets, pos: nat, limit: nat, l: Octets, rest: seq<Segment>) returns (segs: seq<Segment>)
    requires LegalLabel(l) && pos + 1 + |l| <= |msg| && msg[pos] == |l| && msg[pos + 1..pos + 1 + |l|] == l
    requires Spells(msg, limit, rest) && rest[0].start == pos + 1 + |l|
    ensures SpelledBy(msg, pos, limit, segs, [l] + NameOf(rest)) && |segs| == |rest|
    ensures WireSize([l] + NameOf(rest)) == 1 + |l| + WireSize(NameOf(rest))
  {
    segs := [Segment(pos, [l] + rest[0].labels)] + rest[1..];
    assert segs[0].labels[1..] == rest[0].labels;
    assert AfterLabel(segs) == rest;
    NameAfterLabel(segs);
    PrependSize(l, NameOf(rest));
    LabelSpells(msg, limit, segs);
  }

  lemma LabelSpells(msg: Octets, limit: nat, segs: seq<Segment>)
    requires segs != [] && segs[0].labels != [] && Spells(msg, limit, AfterLabel(segs))
    requires var pos, l := segs[0].start, segs[0].labels[0];
             LegalLabel(l) && pos + 1 + |l| <= |msg| && msg[pos] == |l| && msg[pos + 1..pos + 1 + |l|] == l
    ensures Spells(msg, limit, segs)
  {
    assert AfterLabel(segs)[1..] == segs[1..];
  }

  /** Decoding gives exactly the names spelled out with backward pointers within the room. */
  lemma DecodesExactly(msg: Octets, pos: nat, room: nat, permitted: bool, labels: seq<Octets>)
    ensures Parse(msg, pos, pos, room, permitted) == Decoded(labels) <==>
            WireSize(labels) <= room &&
            exists segs :: SpelledBy(msg, pos, pos, segs, labels) && (permitted || |segs| == 1)
  {
    var r := Parse(msg, pos, pos, room, permitted);
    if r == Decoded(labels) {
      var segs := DecodedIsSpelled(msg, pos, pos, room, permitted);
    }
    forall segs | SpelledBy(msg, pos, pos, segs, labels) && (permitted || |segs| == 1) && WireSize(labels) <= room
      ensures r == Decoded(labels)
    {
      SpelledIsDecoded(msg, pos, segs, room, permitted);
    }
  }

  lemma {:induction false} DecodedLegal(msg: Octets, pos: nat, limit: nat, room: nat, permitted: bool)
    requires Parse(msg, pos, limit, room, permitted).Decoded?
    ensures Legal(Parse(msg, pos, limit, room, permitted).labels)
    decreases limit, |msg| - pos
  {
    var c := msg[pos];
    if 0 < c < 64 {
      DecodedLegal(msg, pos + 1 + c, limit, room - (c + 1), permitted);
    } else if c >= 192 {
      var target := PointerTarget(c, msg[pos + 1]);
      DecodedLegal(msg, target, target, room, permitted);
    }
  }

  lemma {:induction false} LabelsWireConcat(a: seq<Octets>, b: seq<Octets>)
    requires Legal(a) && Legal(b)
    ensures Legal(a + b) && LabelsWire(a + b) == LabelsWire(a) + LabelsWire(b)
  {
    if a == [] {
      assert a + b == b;
    } else {
      LabelsWireConcat(a[1..], b);
      assert (a + b)[0] == a[0] && (a + b)[1..] == a[1..] + b;
      assert forall i :: 0 <= i < |a + b| ==> LegalLabel((a + b)[i]);
      var head: Octets := [|a[0]|] + a[0];
      assert head + (LabelsWire(a[1..]) + LabelsWire(b)) == (head + LabelsWire(a[1..])) + LabelsWire(b);
    }
  }

  lemma {:induction false} LabelsWireSize(labels: seq<Octets>)
    requires Legal(labels)
    ensures |LabelsWire(labels)| == WireSize(labels) - 1
  {
    if labels != [] {
      LabelsWireSize(labels[1..]);
    }
  }

  /** Labels written into a message stand there. */
  lemma WrittenLabels(before: Octets, labels: seq<Octets>, after: Octets)
    requires Legal(labels)
    ensures LabelsAt(before + LabelsWire(labels) + after, |before|, labels)
  {
    var msg := before + LabelsWire(labels) + after;
    assert msg[|before|..|before| + |LabelsWire(labels)|] == LabelsWire(labels);
    StandingLabels(msg, |before|, labels);
  }

  lemma {:induction false} StandingLabels(msg: Octets, pos: nat, labels: seq<Octets>)
    requires Legal(labels) && pos + |LabelsWire(labels)| <= |msg|
    requires msg[pos..pos + |LabelsWire(labels)|] == LabelsWire(labels)
    ensures LabelsAt(msg, pos, labels)
    decreases labels
  {
    if labels != [] {
      var l, rest := labels[0], LabelsWire(labels[1..]);
      Split(msg, pos, [|l|] + l, rest);
      Split(msg, pos, [|l|], l);
      assert msg[pos] == msg[pos..pos + 1][0];
      StandingLabels(msg, pos + 1 + |l|, labels[1..]);
    }
  }

  lemma Split(msg: Octets, pos: nat, a: Octets, b: Octets)
    requires pos + |a + b| <= |msg| && msg[pos..pos + |a + b|] == a + b
    ensures msg[pos..pos + |a|] == a && msg[pos + |a|..pos + |a| + |b|] == b
  {
    var all := msg[pos..pos + |a + b|];
    assert msg[pos..pos + |a|] == all[..|a|];
    assert msg[pos + |a|..pos + |a| + |b|] == all[|a|..];
  }

  lemma {:induction false} LabelsStay(msg: Octets, more: Octets, pos: nat, labels: seq<Octets>)
    requires LabelsAt(msg, pos, labels)
    ensures LabelsAt(msg + more, pos, labels)
    decreases labels
  {
    if labels != [] {
      var l := labels[0];
      LabelsStay(msg, more, pos + 1 + |l|, labels[1..]);
      assert (msg + more)[pos + 1..pos + 1 + |l|] == msg[pos + 1..pos + 1 + |l|];
    }
  }

  /** A name already in a message is still there when the message has grown. */
  lemma {:induction false} SpellingStays(msg: Octets, more: Octets, limit: nat, segs: seq<Segment>)
    requires Spells(msg, limit, segs)
    ensures Spells(msg + more, limit, segs)
  {
    LabelsStay(msg, more, segs[0].start, segs[0].labels);
    if |segs| > 1 {
      SpellingStays(msg, more, segs[1].start, segs[1..]);
    }
  }

  /** Round trip without compression: the wire form of a legal name decodes to the name. */
  lemma PlainRoundTrip(before: Octets, labels: seq<Octets>, after: Octets, permitted: bool)
    requires Legal(labels) && WireSize(labels) <= MAX_WIRE
    ensures Parse(before + LabelsWire(labels) + [0] + after, |before|, |before|, MAX_WIRE, permitted) == Decoded(labels)
  {
    var msg := before + LabelsWire(labels) + [0] + after;
    var segs := [Segment(|before|, labels)];
    assert msg == before + LabelsWire(labels) + ([0] + after);
    WrittenLabels(before, labels, [0] + after);
    LabelsWireSize(labels);
    assert NameOf(segs) == labels;
    SpelledIsDecoded(msg, |before|, segs, MAX_WIRE, permitted);
  }

  /** The octets of a pointer. */
  function PointerTo(t: nat): (w: Octets)
    requires t < 64 * 256
    ensures |w| == 2 && w[0] >= 192 && PointerTarget(w[0], w[1]) == t
  {
    [192 + t / 256, t % 256]
  }

  /** Round trip with compression: some labels followed by a pointer to an earlier name decode
      to those labels in front of that name. */
  lemma CompressedRoundTrip(before: Octets, labels: seq<Octets>, tail: seq<Segment>, after: Octets)
    requires Legal(labels) && tail != [] && tail[0].start < |before| && tail[0].start < 64 * 256
    requires Spells(before, tail[0].start, tail) && WireSize(labels + NameOf(tail)) <= MAX_WIRE
    ensures Parse(before + LabelsWire(labels) + PointerTo(tail[0].start) + after, |before|, |before|, MAX_WIRE, true)
            == Decoded(labels + NameOf(tail))
  {
    var t := tail[0].start;
    var msg := before + LabelsWire(labels) + PointerTo(t) + after;
    var first := Segment(|before|, labels);
    PointerSpells(before, labels, tail, after);
    NameHead(first, tail);
    SpelledIsDecoded(msg, |before|, [first] + tail, MAX_WIRE, true);
  }

  lemma PointerSpells(before: Octets, labels: seq<Octets>, tail: seq<Segment>, after: Octets)
    requires Legal(labels) && tail != [] && tail[0].start < |before| && tail[0].start < 64 * 256
    requires Spells(before, tail[0].start, tail)
    ensures Spells(before + LabelsWire(labels) + PointerTo(tail[0].start) + after, |before|,
                   [Segment(|before|, labels)] + tail)
  {
    var wire, pointer := LabelsWire(labels), PointerTo(tail[0].start);
    var msg := before + wire + pointer + after;
    var first := Segment(|before|, labels);
    Pieces(before, wire, pointer, after);
    LabelsWireSize(labels);
    StandingLabels(msg, |before|, labels);
    SpellingStays(before, wire + pointer + after, tail[0].start, tail);
    SegmentPrepended(msg, |before|, first, tail);
  }

  /** Where the parts of a message stand. */
  lemma Pieces(before: Octets, wire: Octets, pointer: Octets, after: Octets)
    requires |pointer| == 2
    ensures var msg, end := before + wire + pointer + after, |before| + |wire|;
            && msg == before + (wire + pointer + after) && end + 1 < |msg|
            && msg[|before|..end] == wire && msg[end] == pointer[0] && msg[end + 1] == pointer[1]
  {
  }

  lemma SegmentPrepended(msg: Octets, limit: nat, first: Segment, rest: seq<Segment>)
    requires LabelsAt(msg, first.start, first.labels) && rest != [] && Spells(msg, rest[0].start, rest)
    requires first.End() + 1 < |msg| && msg[first.End()] >= 192
    requires PointerTarget(msg[first.End()], msg[first.End() + 1]) == rest[0].start < limit
    ensures Spells(msg, limit, [first] + rest)
  {
    var segs := [first] + rest;
    assert segs[0] == first && segs[1] == rest[0] && segs[1..] == rest;
  }
}
