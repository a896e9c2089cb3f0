/**
 * The content store as a value: two parallel columns, `index` (keys in
 * strictly ascending order) and `content` (the encoded values), with the
 * pure meaning of the store's search, upsert, lookup and split.  The class
 * in module ByteCache implements these on mutable fields; the shard tree
 * keeps stores of this type in its leaves.
 */
module ContentStore {
  import opened Bytes
  import opened Keys
  import opened Wrappers

  /** `index[i]` is the key of the value `content[i]`. */
  datatype Store = Store(index: seq<Key>, content: seq<Bytes>)

  const Empty: Store := Store([], [])

  /** The two columns have the same length. */
  ghost predicate Aligned(s: Store)
  {
    |s.index| == |s.content|
  }

  /** The store invariant: aligned columns, strictly ascending keys, every key 32 bytes wide. */
  ghost predicate Valid(s: Store)
  {
    && Aligned(s)
    && StrictlySorted(s.index)
    && (forall i :: 0 <= i < |s.index| ==> |s.index[i]| == KeyWidth)
  }

  /** Entries `lo` up to (not including) `hi` of both columns. */
  function Slice(s: Store, lo: nat, hi: nat): (r: Store)
    requires Aligned(s) && lo <= hi <= |s.index|
    ensures Aligned(r) && |r.index| == hi - lo
  {
    Store(s.index[lo..hi], s.content[lo..hi])
  }

  /** The entries of `a` followed by those of `b`. */
  function Cat(a: Store, b: Store): (r: Store)
    requires Aligned(a) && Aligned(b)
    ensures Aligned(r) && |r.index| == |a.index| + |b.index|
  {
    Store(a.index + b.index, a.content + b.content)
  }

  /**
   * The insertion point of `k`: the length of the longest prefix of `index`
   * whose keys are all below `k`.
   */
  function Rank(index: seq<Key>, k: Key): (r: nat)
    ensures r <= |index|
    ensures forall i :: 0 <= i < r ==> Less(index[i], k)
    ensures r < |index| ==> !Less(index[r], k)
  {
    if index == [] || !Less(index[0], k) then 0 else 1 + Rank(index[1..], k)
  }

  /** A position with all keys before it below `k` and the key at it not below `k` is the insertion point. */
  lemma RankIsInsertionPoint(index: seq<Key>, k: Key, p: nat)
    requires p <= |index|
    requires forall i :: 0 <= i < p ==> Less(index[i], k)
    requires p < |index| ==> !Less(index[p], k)
    ensures Rank(index, k) == p
  {
  }

  /**
   * On a strictly sorted index every key after the insertion point is above
   * `k`, and `k` occurs in the index exactly when it sits at the insertion point.
   */
  lemma RankSorted(index: seq<Key>, k: Key)
    requires StrictlySorted(index)
    ensures forall i :: Rank(index, k) < i < |index| ==> Less(k, index[i])
    ensures k in index <==> Rank(index, k) < |index| && index[Rank(index, k)] == k
  {
    var r := Rank(index, k);
    forall i | r < i < |index|
      ensures Less(k, index[i])
    {
      LessTotal(index[r], k);
      if index[r] != k {
        LessTransitive(k, index[r], index[i]);
      }
    }
    if k in index {
      var j :| 0 <= j < |index| && index[j] == k;
      if j < r {
        LessIrreflexive(k);
      } else if j > r {
        LessIrreflexive(k);
      }
    }
  }

  /** Both columns with `(k, v)` inserted at position `p`. */
  function InsertAt(s: Store, p: nat, k: Key, v: Bytes): (r: Store)
    requires Aligned(s) && p <= |s.index|
    ensures Aligned(r) && |r.index| == |s.index| + 1
  {
    Store(s.index[..p] + [k] + s.index[p..], s.content[..p] + [v] + s.content[p..])
  }

  /** Python's `cache`: overwrite the value of a present key, otherwise insert at the insertion point in both columns. */
  function Upsert(s: Store, k: Key, v: Bytes): (r: Store)
    requires Aligned(s)
    ensures Aligned(r)
  {
    var p := Rank(s.index, k);
    if p < |s.index| && s.index[p] == k then Store(s.index, s.content[p := v])
    else InsertAt(s, p, k, v)
  }

  /** Python's `retrieve` before decompression: the value at the insertion point, if the key there is `k`. */
  function Lookup(s: Store, k: Key): Option<Bytes>
    requires Aligned(s)
  {
    var p := Rank(s.index, k);
    if p < |s.index| && s.index[p] == k then Some(s.content[p]) else None
  }

  /** The map from keys to values that a store represents (the first occurrence of a key wins). */
  function AsMap(s: Store): map<Key, Bytes>
    requires Aligned(s)
    decreases |s.index|
  {
    if s.index == [] then map[]
    else AsMap(Slice(s, 1, |s.index|))[s.index[0] := s.content[0]]
  }

  /** The keys of the map are the keys of the index. */
  lemma {:induction false} AsMapKeys(s: Store)
    requires Aligned(s)
    ensures forall k :: k in AsMap(s) <==> k in s.index
    decreases |s.index|
  {
    if s.index != [] {
      var t := Slice(s, 1, |s.index|);
      AsMapKeys(t);
      assert s.index == [s.index[0]] + t.index;
    }
  }

  /** In a sorted store the map sends each key to the value in the same position. */
  lemma {:induction false} AsMapAt(s: Store, i: nat)
    requires Aligned(s) && StrictlySorted(s.index) && i < |s.index|
    ensures s.index[i] in AsMap(s) && AsMap(s)[s.index[i]] == s.content[i]
    decreases i
  {
    if i > 0 {
      var t := Slice(s, 1, |s.index|);
      assert StrictlySorted(t.index);
      AsMapAt(t, i - 1);
      if s.index[i] == s.index[0] {
        SortedDistinct(s.index, i, 0);
      }
    }
  }

  /** The map of a concatenation: entries of the first part win over those of the second. */
  lemma {:induction false} AsMapCat(a: Store, b: Store)
    requires Aligned(a) && Aligned(b)
    ensures AsMap(Cat(a, b)) == AsMap(b) + AsMap(a)
    decreases |a.index|
  {
    if a.index != [] {
      var t := Slice(a, 1, |a.index|);
      assert Slice(Cat(a, b), 1, |Cat(a, b).index|) == Cat(t, b);
      AsMapCat(t, b);
    } else {
      assert Cat(a, b) == b;
    }
  }

  /** Overwriting the value at `p`, where the key is not repeated before `p`, updates the map at that key. */
  lemma {:induction false} AsMapOverwrite(s: Store, p: nat, v: Bytes)
    requires Aligned(s) && p < |s.index| && s.index[p] !in s.index[..p]
    ensures AsMap(Store(s.index, s.content[p := v])) == AsMap(s)[s.index[p] := v]
    decreases p
  {
    var r := Store(s.index, s.content[p := v]);
    var t := Slice(s, 1, |s.index|);
    if p == 0 {
      assert Slice(r, 1, |r.index|) == t;
    } else {
      assert s.index[p] != s.index[0];
      assert t.index[..p - 1] == s.index[1..p];
      assert Slice(r, 1, |r.index|) == Store(t.index, t.content[p - 1 := v]);
      AsMapOverwrite(t, p - 1, v);
    }
  }

  /** Inserting `(k, v)` at `p`, where `k` does not occur before `p`, updates the map at `k`. */
  lemma {:induction false} AsMapInsert(s: Store, p: nat, k: Key, v: Bytes)
    requires Aligned(s) && p <= |s.index| && k !in s.index[..p]
    ensures AsMap(InsertAt(s, p, k, v)) == AsMap(s)[k := v]
    decreases p
  {
    var r := InsertAt(s, p, k, v);
    if p == 0 {
      assert Slice(r, 1, |r.index|) == s;
    } else {
      var t := Slice(s, 1, |s.index|);
      assert k != s.index[0];
      assert t.index[..p - 1] == s.index[1..p];
      assert Slice(r, 1, |r.index|) == InsertAt(t, p - 1, k, v);
      AsMapInsert(t, p - 1, k, v);
    }
  }

  /** Lookup (the binary-search view) agrees with the map the store represents. */
  lemma LookupIsMapGet(s: Store, k: Key)
    requires Valid(s)
    ensures Lookup(s, k) == if k in AsMap(s) then Some(AsMap(s)[k]) else None
  {
    RankSorted(s.index, k);
    AsMapKeys(s);
    var p := Rank(s.index, k);
    if p < |s.index| && s.index[p] == k {
      AsMapAt(s, p);
    }
  }

  /** Inserting a key at a position between smaller and greater keys keeps the sequence sorted. */
  lemma InsertSorted(index: seq<Key>, p: nat, k: Key)
    requires StrictlySorted(index) && p <= |index|
    requires forall i :: 0 <= i < p ==> Less(index[i], k)
    requires forall i :: p <= i < |index| ==> Less(k, index[i])
    ensures StrictlySorted(index[..p] + [k] + index[p..])
  {
    var t := index[..p] + [k] + index[p..];
    forall i, j | 0 <= i < j < |t|
      ensures Less(t[i], t[j])
    {
      if i < p && j > p {
        LessTransitive(index[i], k, index[j - 1]);
      }
    }
  }

  /** Upsert keeps the store invariant and updates the represented map at `k` and nowhere else. */
  lemma UpsertSpec(s: Store, k: Key, v: Bytes)
    requires Valid(s) && |k| == KeyWidth
    ensures Valid(Upsert(s, k, v))
    ensures AsMap(Upsert(s, k, v)) == AsMap(s)[k := v]
  {
    var p := Rank(s.index, k);
    RankSorted(s.index, k);
    assert k !in s.index[..p] by {
      LessIrreflexive(k);
    }
    if p < |s.index| && s.index[p] == k {
      AsMapOverwrite(s, p, v);
    } else {
      AsMapInsert(s, p, k, v);
      if p < |s.index| {
        LessTotal(s.index[p], k);
      }
      InsertSorted(s.index, p, k);
    }
  }

  /** Upsert of a present key overwrites its value in place: the index and every other value are unchanged. */
  lemma UpsertPresent(s: Store, k: Key, v: Bytes, i: nat)
    requires Valid(s) && i < |s.index| && s.index[i] == k
    ensures Upsert(s, k, v) == Store(s.index, s.content[i := v])
  {
    RankSorted(s.index, k);
    SortedDistinct(s.index, i, Rank(s.index, k));
  }

  /**
   * Upsert of an absent key inserts it, with its value, at one position `p`
   * of both columns: the keys before `p` are below `k`, those after above it.
   */
  lemma UpsertAbsent(s: Store, k: Key, v: Bytes)
    requires Valid(s) && k !in s.index
    ensures |Upsert(s, k, v).index| == |s.index| + 1
    ensures exists p :: (
      && 0 <= p <= |s.index|
      && (forall i :: 0 <= i < p ==> Less(s.index[i], k))
      && (forall i :: p <= i < |s.index| ==> Less(k, s.index[i]))
      && Upsert(s, k, v).index == s.index[..p] + [k] + s.index[p..]
      && Upsert(s, k, v).content == s.content[..p] + [v] + s.content[p..])
  {
    RankSorted(s.index, k);
    var p := Rank(s.index, k);
    if p < |s.index| {
      LessTotal(s.index[p], k);
    }
  }

  /** A second upsert of the same key leaves one entry for it, with the second value, and no new entry. */
  lemma UpsertTwice(s: Store, k: Key, v1: Bytes, v2: Bytes)
    requires Valid(s) && |k| == KeyWidth
    ensures |Upsert(Upsert(s, k, v1), k, v2).index| == |Upsert(s, k, v1).index|
    ensures Upsert(Upsert(s, k, v1), k, v2) == Upsert(s, k, v2)
  {
    var s1 := Upsert(s, k, v1);
    var p := Rank(s.index, k);
    LessIrreflexive(k);
    if p < |s.index| && s.index[p] == k {
      assert s1.index == s.index;
      UpsertPresent(s1, k, v2, p);
    } else {
      assert s1.index[..p] == s.index[..p] && s1.index[p] == k;
      RankIsInsertionPoint(s1.index, k, p);
      assert s1.content[p := v2] == s.content[..p] + [v2] + s.content[p..];
    }
  }

  /** Python's `split` as intended: both columns cut at the same midpoint `n / 2`. */
  function SplitStore(s: Store): (r: (Store, Store))
    requires Aligned(s)
  {
    var m := |s.index| / 2;
    (Slice(s, 0, m), Slice(s, m, |s.index|))
  }

  /** A contiguous part of a valid store is a valid store. */
  lemma SliceValid(s: Store, lo: nat, hi: nat)
    requires Valid(s) && lo <= hi <= |s.index|
    ensures Valid(Slice(s, lo, hi))
  {
    var t := Slice(s, lo, hi);
    forall i, j | 0 <= i < j < |t.index|
      ensures Less(t.index[i], t.index[j])
    {
      assert t.index[i] == s.index[lo + i] && t.index[j] == s.index[lo + j];
    }
  }

  /** No key of a valid store occurs in both halves of a cut at `m`. */
  lemma CutDisjoint(s: Store, m: nat, k: Key)
    requires Valid(s) && m <= |s.index|
    requires k in s.index[..m]
    ensures k !in s.index[m..]
  {
    var i :| 0 <= i < m && s.index[i] == k;
    if k in s.index[m..] {
      var j :| m <= j < |s.index| && s.index[j] == k;
      SortedDistinct(s.index, i, j);
    }
  }

  /**
   * Split loses and duplicates nothing: the halves concatenate to the store,
   * the lesser half has `n / 2` entries, both halves are valid stores and
   * every lesser key is below every greater key.
   */
  lemma SplitStoreSpec(s: Store)
    requires Valid(s)
    ensures SplitStore(s).0.index + SplitStore(s).1.index == s.index
    ensures SplitStore(s).0.content + SplitStore(s).1.content == s.content
    ensures |SplitStore(s).0.index| == |s.index| / 2
    ensures Valid(SplitStore(s).0) && Valid(SplitStore(s).1)
    ensures forall i, j :: 0 <= i < |SplitStore(s).0.index| && 0 <= j < |SplitStore(s).1.index| ==>
      Less(SplitStore(s).0.index[i], SplitStore(s).1.index[j])
  {
    var m := |s.index| / 2;
    var l, g := Slice(s, 0, m), Slice(s, m, |s.index|);
    assert l.index + g.index == s.index;
    assert l.content + g.content == s.content;
    SliceValid(s, 0, m);
    SliceValid(s, m, |s.index|);
    forall i, j | 0 <= i < |l.index| && 0 <= j < |g.index|
      ensures Less(l.index[i], g.index[j])
    {
      assert l.index[i] == s.index[i] && g.index[j] == s.index[m + j];
    }
  }

  /** The maps of the two halves of a split are disjoint and together give the store's map. */
  lemma SplitStoreMaps(s: Store)
    requires Valid(s)
    ensures AsMap(SplitStore(s).0).Keys !! AsMap(SplitStore(s).1).Keys
    ensures AsMap(s) == AsMap(SplitStore(s).0) + AsMap(SplitStore(s).1)
  {
    var m := |s.index| / 2;
    var l, g := Slice(s, 0, m), Slice(s, m, |s.index|);
    assert s == Cat(l, g);
    AsMapCat(l, g);
    AsMapKeys(l);
    AsMapKeys(g);
    forall k | k in AsMap(l)
      ensures k !in AsMap(g)
    {
      CutDisjoint(s, m, k);
    }
    assert AsMap(g) + AsMap(l) == AsMap(l) + AsMap(g);
  }

  /**
   * Python's `split` as written (Code/byte_cache.py:138): the greater half's
   * values are taken from the key column.
   */
  function SplitAsWritten(s: Store): (r: (Store, Store))
    requires Aligned(s)
  {
    var m := |s.index| / 2;
    (Slice(s, 0, m), Store(s.index[m..], s.index[m..]))
  }

  /** A one-entry store whose value differs from its key: after the split as written, the key retrieves itself. */
  lemma SplitAsWrittenLosesValue()
    ensures var k := seq(KeyWidth, _ => 0) ; var s := Store([k], [[7]]);
      && Valid(s)
      && Lookup(s, k) == Some([7])
      && Lookup(SplitAsWritten(s).1, k) == Some(k)
      && Some(k) != Some([7])
  {
    var k: Key := seq(KeyWidth, _ => 0);
    var s := Store([k], [[7]]);
    LessIrreflexive(k);
    assert |k| == 32;
  }
}
