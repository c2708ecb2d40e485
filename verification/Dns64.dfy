/** The reverse zones of DNS64 prefixes, answered without any data.

A name in such a zone is a list of nibble labels, the lowest first.  Together with the zone it
spells an IPv6 address in which an IPv4 address is embedded as in section 2.2 of RFC 6052:
octet 8 of the address, when it is not part of the prefix, is skipped and has to be zero.
*/
module Dns64 {
  import opened Names
  import opened Wire

  /** The value of a hexadecimal digit times 16, or 1. */
  function Hex16(o: Octet): (h: Octet)
    ensures h == 1 || h % 16 == 0
  {
    if 48 <= o <= 57 then 16 * (o - 48)
    else if 65 <= o <= 70 then 16 * (o - 55)
    else if 97 <= o <= 102 then 16 * (o - 87)
    else 1
  }

  predicate IsNibble(l: Octets) {
    |l| == 1 && Hex16(l[0]) != 1
  }

  predicate Nibbles(labels: seq<Octets>) {
    forall i :: 0 <= i < |labels| ==> IsNibble(labels[i])
  }

  function Digit(l: Octets): (d: nat)
    requires IsNibble(l)
    ensures d < 16
  {
    Hex16(l[0]) / 16
  }

  /** The nibbles counted from the zone down. */
  function Down(labels: seq<Octets>, t: nat): (d: nat)
    requires Nibbles(labels) && t < |labels|
    ensures d < 16
  {
    Digit(labels[|labels| - 1 - t])
  }

  /** The octets of the address that follow the prefix. */
  function Byte(labels: seq<Octets>, m: nat): Octet
    requires Nibbles(labels) && 2 * m + 1 < |labels|
  {
    16 * Down(labels, 2 * m) + Down(labels, 2 * m + 1)
  }

  predicate ZeroAt(labels: seq<Octets>, t: nat)
    requires Nibbles(labels)
  {
    t < |labels| ==> Down(labels, t) == 0
  }

  /** The prefix lengths of section 2.2 of RFC 6052, in octets. */
  predicate IsPrefix(p: nat) {
    4 <= p <= 8 || p == 12
  }

  /** The octets of the address between the prefix and octet 8. */
  function Skip(p: nat): nat
    requires p <= 8
  {
    8 - p
  }

  /** The length of the zone's name: a label for each nibble, and "ip6.arpa". */
  function ZoneLength(p: nat): nat {
    10 + 4 * p
  }

  /** The name exists: it is not too long, and what it has of octet 8 is zero. */
  predicate Present(p: nat, labels: seq<Octets>)
    requires IsPrefix(p) && Nibbles(labels)
  {
    && |labels| <= 32 - 2 * p
    && (p <= 8 ==> ZeroAt(labels, 2 * Skip(p)) && ZeroAt(labels, 2 * Skip(p) + 1))
  }

  /** Where the octets of the IPv4 address stand below the zone. */
  function Position(p: nat, m: nat): nat {
    if p <= 8 && m >= Skip(p) then m + 1 else m
  }

  /** The embedded IPv4 address. */
  function Embedded(p: nat, labels: seq<Octets>): (a: Octets)
    requires IsPrefix(p) && Nibbles(labels) && |labels| == 32 - 2 * p
    ensures |a| == 4
  {
    [Byte(labels, Position(p, 0)), Byte(labels, Position(p, 1)),
     Byte(labels, Position(p, 2)), Byte(labels, Position(p, 3))]
  }

  /** The address ends in 192.0.0.170 or 192.0.0.171. */
  predicate WellKnown(labels: seq<Octets>)
    requires Nibbles(labels)
  {
    EndsKnown(labels, |labels| / 2)
  }

  predicate EndsKnown(labels: seq<Octets>, n: nat)
    requires Nibbles(labels) && 2 * n <= |labels|
  {
    n >= 4 && KnownEnd(Byte(labels, n - 4), Byte(labels, n - 3), Byte(labels, n - 2), Byte(labels, n - 1))
  }

  predicate KnownEnd(a: Octet, b: Octet, c: Octet, d: Octet) {
    a == 192 && b == 0 && c == 0 && (d == 170 || d == 171)
  }

  function Decimal(c: Octet): (d: Octets)
    ensures 1 <= |d| <= 3
  {
    if c > 99 then [48 + c / 100, 48 + c % 100 / 10, 48 + c % 10]
    else if c > 9 then [48 + c / 10, 48 + c % 10]
    else [48 + c]
  }

  function Value(d: Octets): int {
    if d == [] then 0 else 10 * Value(d[..|d| - 1]) + d[|d| - 1] - 48
  }

  /** The decimal form denotes the octet, in digits, without leading zeros. */
  lemma DecimalValue(c: Octet)
    ensures Value(Decimal(c)) == c && (Decimal(c)[0] == 48 ==> c == 0)
    ensures forall i :: 0 <= i < |Decimal(c)| ==> 48 <= Decimal(c)[i] <= 57
  {
    var d := Decimal(c);
    if |d| == 3 {
      assert d[..2] == [48 + c / 100, 48 + c % 100 / 10] && d[..2][..1] == [48 + c / 100];
      assert Value(d[..2][..1]) == c / 100;
    } else if |d| == 2 {
      assert d[..1] == [48 + c / 10] && Value(d[..1]) == c / 10;
    }
  }

  const IN_ADDR: Octets := [105, 110, 45, 97, 100, 100, 114]
  const ARPA: Octets := [97, 114, 112, 97]
  const IPV4ONLY: Octets := [105, 112, 118, 52, 111, 110, 108, 121]

  /** The labels of the IPv4 address in in-addr.arpa, without the root. */
  function Digits(a: Octets): (r: seq<Octets>)
    ensures Legal(r) && |r| == |a|
    decreases |a|
  {
    if a == [] then [] else [Decimal(a[|a| - 1])] + Digits(a[..|a| - 1])
  }

  function ReverseName(a: Octets): (r: seq<Octets>)
    ensures Legal(r)
  {
    Digits(a) + [IN_ADDR, ARPA]
  }

  function NameWire(labels: seq<Octets>): Octets
    requires Legal(labels)
  {
    LabelsWire(labels) + [0]
  }

  datatype Answer = Apex | NotFound | Empty | Cname(ttl: nat, rdata: Octets) | Ptr(ttl: nat, rdata: Octets)

  const CNAME_TTL := 600
  const PTR_TTL := 3600

  function Answered(p: nat, labels: seq<Octets>): (r: Answer)
    requires IsPrefix(p)
  {
    if !Nibbles(labels) || !Present(p, labels) then NotFound
    else if |labels| < 32 - 2 * p then Empty
    else if WellKnown(labels) then Ptr(PTR_TTL, NameWire([IPV4ONLY, ARPA]))
    else Cname(CNAME_TTL, NameWire(ReverseName(Embedded(p, labels))))
  }

  // ---- The lookup itself ----

  lemma {:induction false} WireOfNibbles(labels: seq<Octets>)
    requires Nibbles(labels)
    ensures Legal(labels) && |LabelsWire(labels)| == 2 * |labels|
  {
    if labels != [] {
      assert forall i :: 0 <= i < |labels[1..]| ==> IsNibble(labels[1..][i]);
      WireOfNibbles(labels[1..]);
    }
  }

  /** The digit that ends up in nibble `s` of the array, when the first one goes to nibble `odd`. */
  ghost function Slot(labels: seq<Octets>, odd: nat, s: nat): (d: nat)
    ensures d < 16
  {
    if odd <= s < odd + |labels| && IsNibble(labels[s - odd]) then Digit(labels[s - odd]) else 0
  }

  /** An octet of the array after nibbles up to `i` have been shifted in from the top. */
  ghost function Shifted(labels: seq<Octets>, odd: nat, i: nat, m: nat): Octet {
    if 2 * m + 1 < i then Slot(labels, odd, 2 * m) + 16 * Slot(labels, odd, 2 * m + 1)
    else if 2 * m < i then 16 * Slot(labels, odd, 2 * m)
    else 0
  }

  ghost predicate Reads(labels: seq<Octets>, odd: nat, i: nat, v: array<Octet>)
    reads v
  {
    v.Length == 16 && forall m :: 0 <= m < 16 ==> v[m] == Shifted(labels, odd, i, m)
  }

  method ShiftIn(v: array<Octet>, i: nat, n: Octet, ghost labels: seq<Octets>, ghost odd: nat)
    requires i < 32 && Reads(labels, odd, i, v) && n % 16 == 0 && n == 16 * Slot(labels, odd, i)
    modifies v
    ensures Reads(labels, odd, i + 1, v)
  {
    ShiftedStep(labels, odd, i);
    v[i / 2] := n + v[i / 2] / 16;
  }

  /** Shifting one more nibble in changes one octet. */
  lemma ShiftedStep(labels: seq<Octets>, odd: nat, i: nat)
    ensures Shifted(labels, odd, i + 1, i / 2) == 16 * Slot(labels, odd, i) + Shifted(labels, odd, i, i / 2) / 16
    ensures forall m: nat :: m != i / 2 ==> Shifted(labels, odd, i + 1, m) == Shifted(labels, odd, i, m)
  {
  }

  lemma NextLabel(labels: seq<Octets>, ndata: Octets, t: nat)
    requires Legal(labels) && t <= |labels| && 2 * t < |ndata| && ndata[2 * t..] == LabelsWire(labels[t..])
    ensures t < |labels| && ndata[2 * t] == |labels[t]|
    ensures |labels[t]| == 1 ==>
              && 2 * t + 2 <= |ndata| && ndata[2 * t + 1] == labels[t][0]
              && ndata[2 * t + 2..] == LabelsWire(labels[t + 1..])
  {
    var rest := ndata[2 * t..];
    assert t < |labels| && labels[t..][0] == labels[t] && LegalLabel(labels[t]);
    assert labels[t..][1..] == labels[t + 1..];
    assert rest == [|labels[t]|] + labels[t] + LabelsWire(labels[t + 1..]);
    assert ndata[2 * t] == rest[0];
    if |labels[t]| == 1 {
      assert ndata[2 * t + 1] == rest[1];
      assert ndata[2 * t + 2..] == rest[2..];
    }
  }

  lemma HalfParity(n: nat)
    ensures n % 2 == if 2 * n % 4 == 2 then 1 else 0
  {
  }

  /** Read the nibbles, two to an octet.  With an odd number of them the lowest octet gets only
      one, in its upper half. */
  method ReadNibbles(labels: seq<Octets>, ndata: Octets, v: array<Octet>) returns (ok: bool)
    requires Legal(labels) && ndata == LabelsWire(labels) && |ndata| <= 64 && |ndata| % 2 == 0
    requires v.Length == 16 && forall m :: 0 <= m < 16 ==> v[m] == 0
    modifies v
    ensures ok <==> Nibbles(labels)
    ensures ok ==> Reads(labels, |labels| % 2, |labels| + |labels| % 2, v)
  {
    var i := if |ndata| % 4 == 2 then 1 else 0;
    ghost var odd := i;
    var j, at := |ndata|, 0;
    ghost var t := 0;
    while j != 0
      invariant t <= |labels| && at == 2 * t && j == |ndata| - at >= 0 && i == odd + t
      invariant ndata[at..] == LabelsWire(labels[t..])
      invariant forall k :: 0 <= k < t ==> IsNibble(labels[k])
      invariant Reads(labels, odd, i, v)
      decreases j
    {
      NextLabel(labels, ndata, t);
      if ndata[at] != 1 {
        return false;
      }
      var n := Hex16(ndata[at + 1]);
      if n == 1 {
        return false;
      }
      ShiftIn(v, i, n, labels, odd);
      j, at, i := j - 2, at + 2, i + 1;
      t := t + 1;
    }
    assert t == |labels|;
    WireOfNibbles(labels);
    HalfParity(|labels|);
    return true;
  }

  /** The octet that lies `x` octets below the zone. */
  lemma FromTheTop(labels: seq<Octets>, x: nat)
    requires Nibbles(labels) && 2 * x < |labels|
    ensures var odd := |labels| % 2;
            var last := (2 * |labels| - 1) / 4;
            && x <= last
            && Shifted(labels, odd, |labels| + odd, last - x) ==
               16 * Down(labels, 2 * x) + (if 2 * x + 1 < |labels| then Down(labels, 2 * x + 1) else 0)
  {
  }

  /** Write an octet as a decimal label. */
  method PutOctet(c: Octet, rdata: array<Octet>, j: nat) returns (next: nat)
    requires j + 4 <= rdata.Length
    modifies rdata
    ensures j < next <= j + 4
    ensures rdata[..next] == old(rdata[..j]) + LabelsWire([Decimal(c)])
  {
    next := j;
    var left: Octet := c;
    if c > 99 {
      rdata[next] := 3;
      rdata[next + 1] := 48 + left / 100;
      left := left % 100;
      rdata[next + 2] := 48 + left / 10;
      left := left % 10;
      rdata[next + 3] := 48 + left;
      next := next + 4;
    } else if c > 9 {
      rdata[next] := 2;
      rdata[next + 1] := 48 + left / 10;
      left := left % 10;
      rdata[next + 2] := 48 + left;
      next := next + 3;
    } else {
      rdata[next] := 1;
      rdata[next + 1] := 48 + left;
      next := next + 2;
    }
    DecimalLength(c);
    assert rdata[j..next] == [|Decimal(c)|] + Decimal(c);
    assert rdata[..next] == rdata[..j] + rdata[j..next];
    LabelWire(Decimal(c));
  }

  /** The digits, one by one. */
  lemma DecimalLength(c: Octet)
    ensures |Decimal(c)| == if c > 99 then 3 else if c > 9 then 2 else 1
    ensures c > 99 ==> Decimal(c) == [48 + c / 100, 48 + c % 100 / 10, 48 + c % 100 % 10]
  {
  }

  lemma LabelWire(l: Octets)
    requires LegalLabel(l)
    ensures LabelsWire([l]) == [|l|] + l
  {
    var labels := [l];
    assert labels[1..] == [];
  }

  const TAIL: Octets := [7] + IN_ADDR + [4] + ARPA + [0]

  lemma TailWire()
    ensures TAIL == NameWire([IN_ADDR, ARPA]) && |TAIL| == 14
  {
    LabelWire(IN_ADDR);
    LabelWire(ARPA);
    LabelsWireConcat([IN_ADDR], [ARPA]);
    assert [IN_ADDR] + [ARPA] == [IN_ADDR, ARPA];
  }

  /** Where the `m`th octet of the IPv4 address, the last first, stands in the array. */
  function Place(start: nat, m: nat): nat {
    if start < 7 <= start + m then start + m + 1 else start + m
  }

  /** The target of the CNAME, in a buffer of 30 octets. */
  method Dns64Rdata(v: array<Octet>, first: nat, rdata: array<Octet>, ghost a: Octets) returns (len: nat)
    requires v.Length == 16 && first <= 8 && rdata.Length == 30 && v != rdata
    requires |a| == 4 && forall m :: 0 <= m < 4 ==> v[Place(first, m)] == a[3 - m]
    modifies rdata
    ensures len <= 30 && rdata[..len] == NameWire(ReverseName(a))
  {
    var start, i, j := first, 0, 0;
    while i < 4
      invariant i <= 4 && j <= 4 * i && |Digits(a)| == 4 && start == Place(first, i)
      invariant rdata[..j] == LabelsWire(Digits(a)[..i])
    {
      var c := v[start];
      start := start + 1;
      if start == 7 {
        start := start + 1;
      }
      DigitsAt(a, i);
      j := PutOctet(c, rdata, j);
      LabelsWireConcat(Digits(a)[..i], [Decimal(c)]);
      assert Digits(a)[..i + 1] == Digits(a)[..i] + [Decimal(c)];
      i := i + 1;
    }
    DigitsAt(a, 3);
    assert Digits(a)[..4] == Digits(a);
    PutTail(rdata, j);
    TailWire();
    LabelsWireConcat(Digits(a), [IN_ADDR, ARPA]);
    return j + 14;
  }

  method PutTail(rdata: array<Octet>, j: nat)
    requires j + 14 <= rdata.Length
    modifies rdata
    ensures rdata[..j + 14] == old(rdata[..j]) + TAIL
  {
    TailWire();
    forall k | 0 <= k < 14 {
      rdata[j + k] := TAIL[k];
    }
    assert rdata[..j] == old(rdata[..j]) && rdata[j..j + 14] == TAIL;
    assert rdata[..j + 14] == rdata[..j] + rdata[j..j + 14];
  }

  lemma {:induction false} DigitsAt(a: Octets, i: nat)
    requires i < |a|
    ensures Digits(a)[i] == Decimal(a[|a| - 1 - i])
  {
    if |a| > 1 {
      DigitsAt(a[..|a| - 1], if i == 0 then 0 else i - 1);
    }
  }

  /** Where the last octet of the IPv4 address stands in the array, for each prefix length. */
  function Start(p: nat): nat
    requires IsPrefix(p)
  {
    if p == 4 then 8 else if p == 5 then 6 else if p == 6 then 5 else if p == 7 then 4 else if p == 8 then 3 else 0
  }

  lemma BottomOctet(labels: seq<Octets>, n: nat, m: nat)
    requires Nibbles(labels) && |labels| == 2 * n && m < n
    ensures Shifted(labels, 0, |labels|, m) == Byte(labels, n - 1 - m)
  {
  }

  lemma PlacedOctet(p: nat, m: nat)
    requires IsPrefix(p) && m < 4
    ensures Place(Start(p), m) < 16 - p && 16 - p - 1 - Place(Start(p), m) == Position(p, 3 - m)
  {
  }

  lemma PtrWire()
    ensures [8] + IPV4ONLY + [4] + ARPA + [0] == NameWire([IPV4ONLY, ARPA])
  {
    LabelWire(IPV4ONLY);
    LabelWire(ARPA);
    LabelsWireConcat([IPV4ONLY], [ARPA]);
    assert [IPV4ONLY] + [ARPA] == [IPV4ONLY, ARPA];
  }

  lemma AddressPlaced(p: nat, labels: seq<Octets>, v: array<Octet>)
    requires IsPrefix(p) && Nibbles(labels) && |labels| == 32 - 2 * p && Reads(labels, 0, |labels|, v)
    ensures forall m :: 0 <= m < 4 ==> v[Place(Start(p), m)] == Embedded(p, labels)[3 - m]
  {
    forall m | 0 <= m < 4
      ensures v[Place(Start(p), m)] == Embedded(p, labels)[3 - m]
    {
      AddressOctet(p, labels, v, m);
    }
  }

  lemma AddressOctet(p: nat, labels: seq<Octets>, v: array<Octet>, m: nat)
    requires IsPrefix(p) && Nibbles(labels) && |labels| == 32 - 2 * p && Reads(labels, 0, |labels|, v) && m < 4
    ensures Place(Start(p), m) < 16 && v[Place(Start(p), m)] == Embedded(p, labels)[3 - m]
  {
    PlacedOctet(p, m);
    BottomOctet(labels, 16 - p, Place(Start(p), m));
    EmbeddedAt(p, labels, 3 - m);
  }

  lemma EmbeddedAt(p: nat, labels: seq<Octets>, m: nat)
    requires IsPrefix(p) && Nibbles(labels) && |labels| == 32 - 2 * p && m < 4
    ensures 2 * Position(p, m) + 1 < |labels| && Embedded(p, labels)[m] == Byte(labels, Position(p, m))
  {
  }

  lemma EndRead(labels: seq<Octets>, n: nat, v: array<Octet>)
    requires Nibbles(labels) && |labels| == 2 * n && 4 <= n <= 16 && Reads(labels, 0, |labels|, v)
    ensures WellKnown(labels) <==> KnownEnd(v[3], v[2], v[1], v[0])
  {
    EndOctet(labels, n, v, 0);
    EndOctet(labels, n, v, 1);
    EndOctet(labels, n, v, 2);
    EndOctet(labels, n, v, 3);
    EndIs(labels, n, v[3], v[2], v[1], v[0]);
  }

  lemma EndIs(labels: seq<Octets>, n: nat, a: Octet, b: Octet, c: Octet, d: Octet)
    requires Nibbles(labels) && |labels| == 2 * n && n >= 4
    requires Byte(labels, n - 4) == a && Byte(labels, n - 3) == b
    requires Byte(labels, n - 2) == c && Byte(labels, n - 1) == d
    ensures WellKnown(labels) <==> KnownEnd(a, b, c, d)
  {
    assert |labels| / 2 == n;
  }

  lemma EndOctet(labels: seq<Octets>, n: nat, v: array<Octet>, m: nat)
    requires Nibbles(labels) && |labels| == 2 * n && m < n <= 16 && Reads(labels, 0, |labels|, v)
    ensures v[m] == Byte(labels, n - 1 - m)
  {
    BottomOctet(labels, n, m);
  }

  /** What is read of octet 8 decides whether the name exists. */
  lemma SkippedOctet(p: nat, labels: seq<Octets>)
    requires IsPrefix(p) && p <= 8 && Nibbles(labels) && |labels| <= 32 - 2 * p
    ensures |labels| <= 2 * Skip(p) ==> Present(p, labels)
    ensures |labels| > 2 * Skip(p) ==>
              var odd, last := |labels| % 2, (2 * |labels| - 1) / 4;
              && Skip(p) <= last < 16
              && (Shifted(labels, odd, |labels| + odd, last - Skip(p)) == 0 <==> Present(p, labels))
  {
    if |labels| > 2 * Skip(p) {
      FromTheTop(labels, Skip(p));
    }
  }

  /** A name of full length: the PTR of ipv4only.arpa, or the CNAME. */
  method FullName(ghost p: nat, ghost labels: seq<Octets>, v: array<Octet>, start: nat) returns (r: Answer)
    requires IsPrefix(p) && Nibbles(labels) && |labels| == 32 - 2 * p && Present(p, labels)
    requires Reads(labels, 0, |labels|, v) && start == Start(p)
    ensures r == Answered(p, labels)
  {
    AddressPlaced(p, labels, v);
    EndRead(labels, 16 - p, v);
    var rdata := new Octet[30];
    var len := Dns64Rdata(v, start, rdata, Embedded(p, labels));
    if (v[0] == 170 || v[0] == 171) && v[1] == 0 && v[2] == 0 && v[3] == 192 {
      PtrWire();
      return Ptr(3600, [8] + IPV4ONLY + [4] + ARPA + [0]);
    }
    return Cname(600, rdata[..len]);
  }

  /** The nibbles that map to octet 8 have to be zero. */
  method CheckSkipped(ghost p: nat, ghost labels: seq<Octets>, v: array<Octet>, nlen: nat, skip: Option<nat>)
    returns (there: bool)
    requires IsPrefix(p) && Nibbles(labels) && labels != [] && |labels| <= 32 - 2 * p && nlen == 2 * |labels|
    requires Reads(labels, |labels| % 2, |labels| + |labels| % 2, v)
    requires skip == if p <= 8 then Some(Skip(p)) else None
    ensures there <==> Present(p, labels)
  {
    there := true;
    if skip.Some? {
      SkippedOctet(p, labels);
      if nlen > 4 * skip.value {
        there := v[(nlen - 1) / 4 - skip.value] == 0;
      }
    }
  }

  /** The answer in a zone of prefix length `p`, once the nibbles have been read.  `skip` is the
      place of octet 8 below the zone. */
  method Settle(ghost p: nat, ghost labels: seq<Octets>, v: array<Octet>,
                zlen: nat, nlen: nat, skip: Option<nat>, start: nat)
    returns (r: Answer)
    requires IsPrefix(p) && Nibbles(labels) && labels != [] && |labels| <= 32 - 2 * p
    requires Reads(labels, |labels| % 2, |labels| + |labels| % 2, v)
    requires zlen == ZoneLength(p) && nlen == 2 * |labels| && start == Start(p)
    requires skip == if p <= 8 then Some(Skip(p)) else None
    ensures r == Answered(p, labels)
  {
    var there := CheckSkipped(p, labels, v, nlen, skip);
    if !there {
      return NotFound;
    }
    if nlen + zlen != 74 {
      return Empty;
    }
    assert |labels| == 2 * (16 - p) && |labels| % 2 == 0;
    r := FullName(p, labels, v, start);
  }

  /** What a name below the apex of a DNS64 zone has. */
  method Dns64Cname(zlen: nat, labels: seq<Octets>) returns (r: Answer)
    requires Legal(labels) && labels != []
    ensures forall p :: IsPrefix(p) && zlen == ZoneLength(p) ==> r == Answered(p, labels)
    ensures (forall p :: IsPrefix(p) ==> zlen != ZoneLength(p)) ==> r == NotFound
  {
    var ndata := LabelsWire(labels);
    var nlen := |ndata|;
    LengthsFit(zlen, labels);
    if zlen + nlen > 74 || zlen < 10 || nlen % 2 != 0 {
      return NotFound;
    }
    var v := new Octet[16](_ => 0);
    var ok := ReadNibbles(labels, ndata, v);
    if !ok {
      return NotFound;
    }
    WireOfNibbles(labels);
    r := Select(zlen, nlen, labels, v);
  }

  /** What the tests of the lengths rule out has no answer. */
  lemma LengthsFit(zlen: nat, labels: seq<Octets>)
    requires Legal(labels)
    ensures var nlen := |LabelsWire(labels)|;
            zlen + nlen > 74 || zlen < 10 || nlen % 2 != 0 ==>
              forall p :: IsPrefix(p) && zlen == ZoneLength(p) ==> Answered(p, labels) == NotFound
  {
    if Nibbles(labels) {
      WireOfNibbles(labels);
    }
  }

  /** The switch on the length of the zone. */
  method Select(zlen: nat, nlen: nat, ghost labels: seq<Octets>, v: array<Octet>) returns (r: Answer)
    requires Nibbles(labels) && labels != [] && nlen == 2 * |labels| && zlen + nlen <= 74
    requires Reads(labels, |labels| % 2, |labels| + |labels| % 2, v)
    ensures forall p :: IsPrefix(p) && zlen == ZoneLength(p) ==> r == Answered(p, labels)
    ensures (forall p :: IsPrefix(p) ==> zlen != ZoneLength(p)) ==> r == NotFound
  {
    match zlen {
      case 26 => r := Settle(4, labels, v, zlen, nlen, Some(4), 8);
      case 30 => r := Settle(5, labels, v, zlen, nlen, Some(3), 6);
      case 34 => r := Settle(6, labels, v, zlen, nlen, Some(2), 5);
      case 38 => r := Settle(7, labels, v, zlen, nlen, Some(1), 4);
      case 42 => r := Settle(8, labels, v, zlen, nlen, Some(0), 3);
      case 58 => r := Settle(12, labels, v, zlen, nlen, None, 0);
      case _ =>
        assert IsPrefix(4) && IsPrefix(5) && IsPrefix(6) && IsPrefix(7) && IsPrefix(8) && IsPrefix(12);
        r := NotFound;
    }
  }

  /** The apex has the zone's own records; everything else is computed. */
  method Lookup(zlen: nat, labels: seq<Octets>) returns (r: Answer)
    requires Legal(labels)
    ensures r == Apex <==> labels == []
    ensures labels != [] ==> forall p :: IsPrefix(p) && zlen == ZoneLength(p) ==> r == Answered(p, labels)
  {
    if labels == [] {
      return Apex;
    }
    r := Dns64Cname(zlen, labels);
  }

  // ---- What the answers mean ----

  /** The octets after the prefix of an address that embeds the IPv4 address `a`. */
  function Layout(p: nat, a: Octets, suffix: Octets): (b: Octets)
    requires IsPrefix(p) && |a| == 4 && (if p == 12 then suffix == [] else |suffix| == 11 - p)
    ensures |b| == 16 - p
  {
    if p == 12 then a else a[..Skip(p)] + [0] + a[Skip(p)..] + suffix
  }

  function HexLabel(d: nat): (l: Octets)
    requires d < 16
    ensures IsNibble(l) && Digit(l) == d
  {
    if d < 10 then [48 + d] else [87 + d]
  }

  /** The nibble labels of octets. */
  function LabelsOf(b: Octets): (labels: seq<Octets>)
    ensures |labels| == 2 * |b| && Nibbles(labels) && Legal(labels)
  {
    if b == [] then [] else LabelsOf(b[1..]) + [HexLabel(b[0] % 16), HexLabel(b[0] / 16)]
  }

  lemma {:induction false} ByteOfLabels(b: Octets, m: nat)
    requires m < |b|
    ensures Byte(LabelsOf(b), m) == b[m]
  {
    var rest := LabelsOf(b[1..]);
    if m > 0 {
      ByteOfLabels(b[1..], m - 1);
      ByteBelow(rest, [HexLabel(b[0] % 16), HexLabel(b[0] / 16)], m);
    }
  }

  /** Two more nibbles next to the zone move every octet down by one. */
  lemma ByteBelow(rest: seq<Octets>, top: seq<Octets>, m: nat)
    requires Nibbles(rest) && Nibbles(top) && |top| == 2 && 0 < m && 2 * m - 1 < |rest|
    ensures Nibbles(rest + top) && Byte(rest + top, m) == Byte(rest, m - 1)
  {
    var all := rest + top;
    assert forall t :: 0 <= t < |rest| ==> all[t] == rest[t];
    assert Down(all, 2 * m) == Down(rest, 2 * (m - 1)) && Down(all, 2 * m + 1) == Down(rest, 2 * (m - 1) + 1);
  }

  lemma LayoutAt(p: nat, a: Octets, suffix: Octets, m: nat)
    requires IsPrefix(p) && |a| == 4 && (if p == 12 then suffix == [] else |suffix| == 11 - p) && m < 4
    ensures Layout(p, a, suffix)[Position(p, m)] == a[m]
    ensures p <= 8 ==> Layout(p, a, suffix)[Skip(p)] == 0
  {
  }

  lemma LayoutRead(p: nat, a: Octets, suffix: Octets)
    requires IsPrefix(p) && |a| == 4 && (if p == 12 then suffix == [] else |suffix| == 11 - p)
    ensures var labels := LabelsOf(Layout(p, a, suffix));
            |labels| == 32 - 2 * p && Embedded(p, labels) == a && Present(p, labels)
  {
    var labels := LabelsOf(Layout(p, a, suffix));
    forall m | 0 <= m < 4
      ensures Embedded(p, labels)[m] == a[m]
    {
      LayoutAt(p, a, suffix, m);
      ByteOfLabels(Layout(p, a, suffix), Position(p, m));
      EmbeddedAt(p, labels, m);
    }
    LayoutPresent(p, a, suffix);
  }

  lemma LayoutPresent(p: nat, a: Octets, suffix: Octets)
    requires IsPrefix(p) && |a| == 4 && (if p == 12 then suffix == [] else |suffix| == 11 - p)
    ensures Present(p, LabelsOf(Layout(p, a, suffix)))
  {
    if p <= 8 {
      var b := Layout(p, a, suffix);
      LayoutAt(p, a, suffix, 0);
      ByteOfLabels(b, Skip(p));
      assert Byte(LabelsOf(b), Skip(p)) == 0;
    }
  }

  /** Every embedded IPv4 address is answered, by the CNAME to its own reverse name or, if the
      address ends like the well-known ones, by the PTR. */
  lemma EmbeddedIsAnswered(p: nat, a: Octets, suffix: Octets)
    requires IsPrefix(p) && |a| == 4 && (if p == 12 then suffix == [] else |suffix| == 11 - p)
    ensures var labels := LabelsOf(Layout(p, a, suffix));
            Answered(p, labels) == if WellKnown(labels) then Ptr(PTR_TTL, NameWire([IPV4ONLY, ARPA]))
                                   else Cname(CNAME_TTL, NameWire(ReverseName(a)))
  {
    LayoutRead(p, a, suffix);
  }

  /** With the suffix zero, only 192.0.0.170 and 192.0.0.171 behind a /96 prefix have the PTR. */
  lemma WellKnownAddresses(p: nat, a: Octets)
    requires IsPrefix(p) && |a| == 4
    ensures var suffix: Octets := if p == 12 then [] else seq(11 - p, _ => 0);
            WellKnown(LabelsOf(Layout(p, a, suffix))) <==> p == 12 && (a == [192, 0, 0, 170] || a == [192, 0, 0, 171])
  {
    var suffix: Octets := if p == 12 then [] else seq(11 - p, _ => 0);
    var b := Layout(p, a, suffix);
    WellKnownOctets(b);
    assert p == 12 ==> b == a;
    assert p != 12 ==> b[|b| - 1] == 0;
  }

  lemma WellKnownOctets(b: Octets)
    ensures WellKnown(LabelsOf(b)) <==>
            |b| >= 4 && KnownEnd(b[|b| - 4], b[|b| - 3], b[|b| - 2], b[|b| - 1])
  {
    forall m: nat | m < |b|
      ensures Byte(LabelsOf(b), m) == b[m]
    {
      ByteOfLabels(b, m);
    }
    WellKnownBytes(LabelsOf(b), b);
  }

  lemma WellKnownBytes(labels: seq<Octets>, b: Octets)
    requires Nibbles(labels) && |labels| == 2 * |b| && forall m: nat :: m < |b| ==> Byte(labels, m) == b[m]
    ensures WellKnown(labels) <==>
            |b| >= 4 && KnownEnd(b[|b| - 4], b[|b| - 3], b[|b| - 2], b[|b| - 1])
  {
    var n := |b|;
    if n >= 4 {
      EndIs(labels, n, b[n - 4], b[n - 3], b[n - 2], b[n - 1]);
    }
  }

  /** The PTR test looks at the end of the address, which is the suffix unless the prefix is a
      /96: an embedded address can be given the PTR instead of its CNAME. */
  lemma SuffixTakenForAddress()
    ensures var labels := LabelsOf(Layout(8, [10, 0, 0, 192], [0, 0, 170]));
            WellKnown(labels) && Answered(8, labels) == Ptr(PTR_TTL, NameWire([IPV4ONLY, ARPA]))
  {
    var b := Layout(8, [10, 0, 0, 192], [0, 0, 170]);
    assert b == [0, 10, 0, 0, 192, 0, 0, 170];
    WellKnownOctets(b);
    EmbeddedIsAnswered(8, [10, 0, 0, 192], [0, 0, 170]);
  }

  lemma ReverseLabels(a: Octets)
    requires |a| == 4
    ensures ReverseName(a) == [Decimal(a[3]), Decimal(a[2]), Decimal(a[1]), Decimal(a[0]), IN_ADDR, ARPA]
  {
    DigitsAt(a, 0);
    DigitsAt(a, 1);
    DigitsAt(a, 2);
    DigitsAt(a, 3);
    assert Digits(a) == [Decimal(a[3]), Decimal(a[2]), Decimal(a[1]), Decimal(a[0])];
  }

  /** The target fits its buffer and reads back as the reverse name. */
  lemma TargetReadsBack(a: Octets)
    requires |a| == 4
    ensures |NameWire(ReverseName(a))| <= 30
    ensures Parse(NameWire(ReverseName(a)), 0, 0, MAX_WIRE, false) == Decoded(ReverseName(a))
    ensures ReverseName(a) == [Decimal(a[3]), Decimal(a[2]), Decimal(a[1]), Decimal(a[0]), IN_ADDR, ARPA]
  {
    var name := ReverseName(a);
    ReverseLabels(a);
    SixLabels(name);
    LabelsWireSize(name);
    PlainRoundTrip([], name, [], false);
    assert [] + LabelsWire(name) + [0] + [] == NameWire(name);
  }

  lemma SixLabels(l: seq<Octets>)
    requires |l| == 6
    ensures WireSize(l) == 7 + |l[0]| + |l[1]| + |l[2]| + |l[3]| + |l[4]| + |l[5]|
  {
    assert l[1..][1..] == l[2..] && l[2..][1..] == l[3..] && l[3..][1..] == l[4..];
    assert l[4..][1..] == l[5..] && l[5..][1..] == [];
    assert WireSize(l[5..]) == 2 + |l[5]|;
    assert WireSize(l[4..]) == 3 + |l[4]| + |l[5]|;
    assert WireSize(l[2..]) == 5 + |l[2]| + |l[3]| + |l[4]| + |l[5]|;
  }

  predicate HasRecord(r: Answer) {
    r.Cname? || r.Ptr?
  }

  lemma DownBelow(ext: seq<Octets>, labels: seq<Octets>, t: nat)
    requires Nibbles(ext + labels) && Nibbles(labels)
    ensures t < |labels| ==> Down(ext + labels, t) == Down(labels, t)
    ensures |labels| <= t < |ext| + |labels| ==> Nibbles(ext) && Down(ext + labels, t) == Down(ext, t - |labels|)
  {
    var all := ext + labels;
    assert forall i :: 0 <= i < |ext| ==> ext[i] == all[i];
  }

  lemma BelowPresent(p: nat, ext: seq<Octets>, labels: seq<Octets>)
    requires IsPrefix(p) && Nibbles(ext + labels) && Present(p, ext + labels)
    ensures Nibbles(labels) && Present(p, labels)
  {
    assert forall i :: 0 <= i < |labels| ==> labels[i] == (ext + labels)[|ext| + i];
    if p <= 8 {
      DownBelow(ext, labels, 2 * Skip(p));
      DownBelow(ext, labels, 2 * Skip(p) + 1);
    }
  }

  /** Below a name that exists is one of full length. */
  lemma FullBelow(p: nat, labels: seq<Octets>) returns (ext: seq<Octets>)
    requires IsPrefix(p) && Nibbles(labels) && Present(p, labels)
    ensures Nibbles(ext + labels) && Present(p, ext + labels) && |ext + labels| == 32 - 2 * p
  {
    ext := seq(32 - 2 * p - |labels|, _ => HexLabel(0));
    assert Nibbles(ext + labels);
    if p <= 8 {
      DownBelow(ext, labels, 2 * Skip(p));
      DownBelow(ext, labels, 2 * Skip(p) + 1);
    }
  }

  /** A name exists exactly if it, or a name below it, has a record: no name is denied above one
      that is there, and no empty name is claimed without a cause. */
  lemma ExistsIffRecordBelow(p: nat, labels: seq<Octets>)
    requires IsPrefix(p)
    ensures Answered(p, labels) != NotFound <==> exists ext :: HasRecord(Answered(p, ext + labels))
  {
    forall ext | HasRecord(Answered(p, ext + labels))
      ensures Answered(p, labels) != NotFound
    {
      BelowPresent(p, ext, labels);
    }
    if Answered(p, labels) != NotFound {
      var ext := FullBelow(p, labels);
      assert HasRecord(Answered(p, ext + labels));
    }
  }
}
