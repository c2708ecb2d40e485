/** Octet strings, domain names and the canonical order of section 6.1 of RFC 4034.

A name is the sequence of its labels with the root end first and the root label itself
left out, in lower case.  "Below" is therefore the prefix relation, and the canonical
order is lexicographic on labels, each label comparing as an octet string.
*/
module Names {

  type Octet = x: int | 0 <= x < 256

  type Octets = seq<Octet>

  type Label = Octets

  type Name = seq<Label>

  datatype Option<+T> = None | Some(value: T)

  /** The longest name allowed, in octets. */
  const MAX_WIRE := 255

  /** The number of octets of a name, the root label included. */
  function WireSize(labels: seq<Octets>): (n: nat)
    ensures n > 0
  {
    if labels == [] then 1 else 1 + |labels[0]| + WireSize(labels[1..])
  }

  /** The number of leading elements two sequences share. */
  function Common<T(==)>(a: seq<T>, b: seq<T>): (k: nat)
    ensures k <= |a| && k <= |b|
    ensures a[..k] == b[..k]
    ensures k == |a| || k == |b| || a[k] != b[k]
  {
    if a != [] && b != [] && a[0] == b[0] then
      var k := 1 + Common(a[1..], b[1..]);
      assert a[..k] == [a[0]] + a[1..][..k - 1];
      assert b[..k] == [b[0]] + b[1..][..k - 1];
      k
    else 0
  }

  lemma Agree<T>(a: seq<T>, b: seq<T>, k: nat)
    requires k <= |a| && k <= |b| && a[..k] == b[..k]
    ensures forall i :: 0 <= i < k ==> a[i] == b[i]
  {
    forall i | 0 <= i < k
      ensures a[i] == b[i]
    {
      assert a[i] == a[..k][i];
    }
  }

  /** `Common` is the only length at which two sequences agree and then part. */
  lemma CommonIs<T>(a: seq<T>, b: seq<T>, k: nat)
    requires k <= |a| && k <= |b| && a[..k] == b[..k]
    requires k == |a| || k == |b| || a[k] != b[k]
    ensures Common(a, b) == k
  {
    Agree(a, b, k);
    Agree(a, b, Common(a, b));
  }

  lemma CommonAtLeast<T>(a: seq<T>, b: seq<T>, p: seq<T>)
    requires p <= a && p <= b
    ensures |p| <= Common(a, b)
  {
    assert a[..|p|] == p == b[..|p|];
    Agree(a, b, |p|);
    Agree(a, b, Common(a, b));
  }

  /** memcmp(a, b) < 0, with a proper prefix coming first. */
  predicate Precedes(a: Octets, b: Octets) {
    var k := Common(a, b);
    k < |b| && (k == |a| || a[k] < b[k])
  }

  lemma PrecedesIrreflexive(a: Octets)
    ensures !Precedes(a, a)
  {
    CommonIs(a, a, |a|);
  }

  lemma PrecedesTotal(a: Octets, b: Octets)
    ensures a == b || Precedes(a, b) || Precedes(b, a)
    ensures Precedes(a, b) ==> a != b && !Precedes(b, a)
  {
    var k := Common(a, b);
    CommonIs(b, a, k);
    if k == |a| && k == |b| {
      assert a == a[..k] && b == b[..k];
    }
  }

  lemma PrecedesTransitive(a: Octets, b: Octets, c: Octets)
    requires Precedes(a, b) && Precedes(b, c)
    ensures Precedes(a, c)
  {
    var i, j := Common(a, b), Common(b, c);
    var k := if i < j then i else j;
    assert a[..k] == a[..i][..k] == b[..i][..k] == b[..k];
    assert b[..k] == b[..j][..k] == c[..j][..k] == c[..k];
    if i < j {
      assert b[i] == b[..j][i] == c[..j][i] == c[i];
    } else if j < i {
      assert a[j] == a[..i][j] == b[..i][j] == b[j];
    }
    CommonIs(a, c, k);
  }

  /** The canonical order of names. */
  predicate Before(a: Name, b: Name) {
    var k := Common(a, b);
    k < |b| && (k == |a| || Precedes(a[k], b[k]))
  }

  lemma BeforeTotal(a: Name, b: Name)
    ensures a == b || Before(a, b) || Before(b, a)
    ensures Before(a, b) ==> a != b && !Before(b, a)
  {
    var k := Common(a, b);
    CommonIs(b, a, k);
    if k == |a| && k == |b| {
      assert a == a[..k] && b == b[..k];
    } else if k < |a| && k < |b| {
      PrecedesTotal(a[k], b[k]);
    }
  }

  /** A name comes before everything strictly below it. */
  lemma AncestorBefore(p: Name, n: Name)
    requires p <= n && p != n
    ensures Before(p, n)
  {
    CommonIs(p, n, |p|);
  }

  /** Subtrees are contiguous: a name between two names of a subtree is in the subtree. */
  lemma SubtreeContiguous(top: Name, a: Name, b: Name, c: Name)
    requires top <= a && top <= c
    requires a == b || Before(a, b)
    requires b == c || Before(b, c)
    ensures top <= b
  {
    var k := Common(top, b);
    if k < |top| {
      assert a[..k] == top[..k] == b[..k] == c[..k];
      CommonIs(a, b, k);
      CommonIs(b, c, k);
      if k < |b| {
        PrecedesTotal(top[k], b[k]);
      }
    }
  }

  /** An ancestor of `b` longer than what `b` shares with an earlier `a` lies after `a`. */
  lemma SpanAncestor(a: Name, b: Name, p: Name)
    requires Before(a, b) && p <= b && Common(a, b) < |p|
    ensures Before(a, p) && !(p <= a)
  {
    var k := Common(a, b);
    assert a[..k] == b[..k] == p[..k];
    if k < |a| {
      assert p[k] == b[k];
      PrecedesTotal(a[k], b[k]);
    }
    CommonIs(a, p, k);
  }
}
