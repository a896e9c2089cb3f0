/**
 * Keys and their order.
 *
 * A key is the 32-byte digest of an identifier.  Keys are compared the way
 * Python compares `bytes`: unsigned lexicographic order, a proper prefix
 * coming first.
 */
module Keys {
  import opened Bytes

  /** Width in bytes of every key (a SHA-256 digest). */
  const KeyWidth: nat := 32

  type Key = Bytes

  /** Python's `a < b` on `bytes`. */
  function Less(a: Bytes, b: Bytes): bool
  {
    if a == [] then b != []
    else if b == [] then false
    else a[0] < b[0] || (a[0] == b[0] && Less(a[1..], b[1..]))
  }

  lemma {:induction false} LessIrreflexive(a: Bytes)
    ensures !Less(a, a)
  {
    if a != [] {
      LessIrreflexive(a[1..]);
    }
  }

  lemma {:induction false} LessAsymmetric(a: Bytes, b: Bytes)
    requires Less(a, b)
    ensures !Less(b, a)
  {
    if a != [] && b != [] && a[0] == b[0] {
      LessAsymmetric(a[1..], b[1..]);
    }
  }

  lemma {:induction false} LessTransitive(a: Bytes, b: Bytes, c: Bytes)
    requires Less(a, b) && Less(b, c)
    ensures Less(a, c)
  {
    if a != [] && a[0] == b[0] && b[0] == c[0] {
      LessTransitive(a[1..], b[1..], c[1..]);
    }
  }

  /** Any two distinct byte strings are ordered one way or the other. */
  lemma {:induction false} LessTotal(a: Bytes, b: Bytes)
    ensures a == b || Less(a, b) || Less(b, a)
  {
    if a != [] && b != [] && a[0] == b[0] {
      LessTotal(a[1..], b[1..]);
      assert a == [a[0]] + a[1..] && b == [b[0]] + b[1..];
    }
  }

  /** Two strings that share a prefix are ordered by what follows it. */
  lemma {:induction false} LessCommonPrefix(p: Bytes, a: Bytes, b: Bytes)
    ensures Less(p + a, p + b) == Less(a, b)
  {
    if p != [] {
      assert (p + a)[0] == p[0] == (p + b)[0];
      assert (p + a)[1..] == p[1..] + a && (p + b)[1..] == p[1..] + b;
      LessCommonPrefix(p[1..], a, b);
    } else {
      assert p + a == a && p + b == b;
    }
  }

  /** Every key is strictly smaller than every key after it. */
  ghost predicate StrictlySorted(s: seq<Key>)
  {
    forall i, j :: 0 <= i < j < |s| ==> Less(s[i], s[j])
  }

  /** In a strictly sorted sequence each key occurs at one position only. */
  lemma SortedDistinct(s: seq<Key>, i: nat, j: nat)
    requires StrictlySorted(s)
    requires i < |s| && j < |s| && s[i] == s[j]
    ensures i == j
  {
    if i < j {
      LessIrreflexive(s[i]);
    } else if j < i {
      LessIrreflexive(s[j]);
    }
  }
}
