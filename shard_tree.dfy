/**
 * The shard tree of Code/cache_tree.py: a binary tree whose leaves each wrap
 * one store and whose internal nodes route a key left when it is below the
 * node's search key and right otherwise.  Nodes are values here: `Insert`
 * and `SplitLeaf` return the new node instead of rewriting fields in place.
 */
module ShardTree {
  import opened Bytes
  import opened Keys
  import opened Wrappers
  import opened ValueCodec
  import opened ContentStore

  /** A leaf (`cache` set) or an internal node (`search_key`, `left_child`, `right_child` set). */
  datatype Node = Leaf(store: Store) | Internal(searchKey: Key, left: Node, right: Node)

  /** Every leaf's store has columns of equal length. */
  ghost predicate LeavesAligned(n: Node)
  {
    match n
    case Leaf(s) => Aligned(s)
    case Internal(_, l, r) => LeavesAligned(l) && LeavesAligned(r)
  }

  /** The keys held by the leaves under `n`. */
  function KeysOf(n: Node): set<Key>
  {
    match n
    case Leaf(s) => set k | k in s.index
    case Internal(_, l, r) => KeysOf(l) + KeysOf(r)
  }

  /**
   * The tree invariant: every leaf holds a valid store, every search key is a
   * 32-byte key, and below every internal node the keys on the left are less
   * than its search key and the keys on the right are not.
   */
  ghost predicate TreeValid(n: Node)
  {
    match n
    case Leaf(s) => Valid(s)
    case Internal(sk, l, r) =>
      && |sk| == KeyWidth
      && TreeValid(l) && TreeValid(r)
      && (forall k :: k in KeysOf(l) ==> Less(k, sk))
      && (forall k :: k in KeysOf(r) ==> !Less(k, sk))
  }

  lemma {:induction false} TreeValidAligned(n: Node)
    requires TreeValid(n)
    ensures LeavesAligned(n)
  {
    if n.Internal? {
      TreeValidAligned(n.left);
      TreeValidAligned(n.right);
    }
  }

  /** The map from keys to stored values that the whole tree represents. */
  function Contents(n: Node): map<Key, Bytes>
    requires LeavesAligned(n)
  {
    match n
    case Leaf(s) => AsMap(s)
    case Internal(_, l, r) => Contents(l) + Contents(r)
  }

  lemma {:induction false} ContentsKeys(n: Node)
    requires LeavesAligned(n)
    ensures Contents(n).Keys == KeysOf(n)
  {
    match n
    case Leaf(s) =>
      AsMapKeys(s);
    case Internal(_, l, r) =>
      ContentsKeys(l);
      ContentsKeys(r);
  }

  /** `cache_tree_node.find`. */
  function Find(n: Node, key: Key, codec: Codec): Option<Bytes>
    requires LeavesAligned(n)
  {
    match n
    case Leaf(s) => Lookup(s, key).Map(codec.decompress)
    case Internal(sk, l, r) => if Less(key, sk) then Find(l, key, codec) else Find(r, key, codec)
  }

  /** `cache_tree_node.insert`. */
  function Insert(n: Node, key: Key, payload: Bytes, codec: Codec): (r: Node)
    requires LeavesAligned(n)
    ensures LeavesAligned(r)
  {
    match n
    case Leaf(s) => Leaf(Upsert(s, key, codec.compress(payload)))
    case Internal(sk, l, r) =>
      if Less(key, sk) then Internal(sk, Insert(l, key, payload, codec), r)
      else Internal(sk, l, Insert(r, key, payload, codec))
  }

  /**
   * `cache_tree_node.split`: the leaf becomes an internal node whose search
   * key is the smallest key of the greater half, over two new leaves.
   */
  function SplitLeaf(n: Node): (r: Node)
    requires n.Leaf? && Aligned(n.store) && n.store.index != []
    ensures LeavesAligned(r)
  {
    var (lesser, greater) := SplitStore(n.store);
    Internal(greater.index[0], Leaf(lesser), Leaf(greater))
  }

  /**
   * Routing correctness: the descent of `find` reaches the leaf that holds
   * `key` whenever the tree holds it, and otherwise ends in a miss.
   */
  lemma {:induction false} FindSpec(n: Node, key: Key, codec: Codec)
    requires TreeValid(n)
    ensures LeavesAligned(n)
    ensures Find(n, key, codec) == if key in Contents(n) then Some(codec.decompress(Contents(n)[key])) else None
  {
    TreeValidAligned(n);
    match n
    case Leaf(s) =>
      LookupIsMapGet(s, key);
    case Internal(sk, l, r) =>
      FindSpec(l, key, codec);
      FindSpec(r, key, codec);
      ContentsKeys(l);
      ContentsKeys(r);
      if Less(key, sk) {
        assert key !in Contents(r);
      } else {
        assert key !in Contents(l);
      }
  }

  lemma UpdateUnion(a: map<Key, Bytes>, b: map<Key, Bytes>, key: Key, v: Bytes)
    requires key !in b
    ensures a[key := v] + b == (a + b)[key := v]
  {
  }

  lemma UnionUpdate(a: map<Key, Bytes>, b: map<Key, Bytes>, key: Key, v: Bytes)
    ensures a + b[key := v] == (a + b)[key := v]
  {
  }

  /** Replacing the left child by one that holds the same entries updated at `key`, where `key` routes left. */
  lemma DescendLeft(sk: Key, l: Node, l2: Node, r: Node, key: Key, v: Bytes)
    requires TreeValid(Internal(sk, l, r)) && TreeValid(l2) && Less(key, sk)
    requires LeavesAligned(l) && LeavesAligned(l2) && LeavesAligned(r)
    requires Contents(l2) == Contents(l)[key := v]
    ensures TreeValid(Internal(sk, l2, r))
    ensures Contents(Internal(sk, l2, r)) == Contents(Internal(sk, l, r))[key := v]
  {
    ContentsKeys(l);
    ContentsKeys(l2);
    ContentsKeys(r);
    forall k | k in KeysOf(l2)
      ensures Less(k, sk)
    {
      assert k == key || k in Contents(l);
    }
    assert key !in Contents(r);
    UpdateUnion(Contents(l), Contents(r), key, v);
  }

  /** Replacing the right child by one that holds the same entries updated at `key`, where `key` routes right. */
  lemma DescendRight(sk: Key, l: Node, r: Node, r2: Node, key: Key, v: Bytes)
    requires TreeValid(Internal(sk, l, r)) && TreeValid(r2) && !Less(key, sk)
    requires LeavesAligned(l) && LeavesAligned(r) && LeavesAligned(r2)
    requires Contents(r2) == Contents(r)[key := v]
    ensures TreeValid(Internal(sk, l, r2))
    ensures Contents(Internal(sk, l, r2)) == Contents(Internal(sk, l, r))[key := v]
  {
    ContentsKeys(r);
    ContentsKeys(r2);
    forall k | k in KeysOf(r2)
      ensures !Less(k, sk)
    {
      assert k == key || k in Contents(r);
    }
    UnionUpdate(Contents(l), Contents(r), key, v);
  }

  /** Insert keeps the tree invariant and updates the tree's map at `key` and nowhere else. */
  lemma {:induction false} InsertSpec(n: Node, key: Key, payload: Bytes, codec: Codec)
    requires TreeValid(n) && |key| == KeyWidth
    ensures LeavesAligned(n)
    ensures TreeValid(Insert(n, key, payload, codec))
    ensures Contents(Insert(n, key, payload, codec)) == Contents(n)[key := codec.compress(payload)]
  {
    TreeValidAligned(n);
    match n
    case Leaf(s) =>
      UpsertSpec(s, key, codec.compress(payload));
    case Internal(sk, l, r) =>
      if Less(key, sk) {
        InsertSpec(l, key, payload, codec);
        DescendLeft(sk, l, Insert(l, key, payload, codec), r, key, codec.compress(payload));
      } else {
        InsertSpec(r, key, payload, codec);
        DescendRight(sk, l, r, Insert(r, key, payload, codec), key, codec.compress(payload));
      }
  }

  /** `find` after `insert` of the same key returns the inserted payload, for a lossless codec. */
  lemma FindAfterInsert(n: Node, key: Key, payload: Bytes, codec: Codec)
    requires TreeValid(n) && |key| == KeyWidth && Inverse(codec)
    ensures LeavesAligned(n)
    ensures Find(Insert(n, key, payload, codec), key, codec) == Some(payload)
  {
    InsertSpec(n, key, payload, codec);
    FindSpec(Insert(n, key, payload, codec), key, codec);
  }

  /** `insert` of one key does not change what `find` returns for any other key. */
  lemma FindAfterInsertOther(n: Node, key: Key, payload: Bytes, codec: Codec, other: Key)
    requires TreeValid(n) && |key| == KeyWidth && other != key
    ensures LeavesAligned(n)
    ensures Find(Insert(n, key, payload, codec), other, codec) == Find(n, other, codec)
  {
    InsertSpec(n, key, payload, codec);
    FindSpec(Insert(n, key, payload, codec), other, codec);
    FindSpec(n, other, codec);
  }

  /** Cutting a sorted index at `m`: the keys before `m` are below the key at `m`, the keys from `m` on are not. */
  lemma CutRoutes(index: seq<Key>, m: nat)
    requires StrictlySorted(index) && m < |index|
    ensures forall k :: k in index[..m] ==> Less(k, index[m])
    ensures forall k :: k in index[m..] ==> !Less(k, index[m])
  {
    forall k | k in index[m..]
      ensures !Less(k, index[m])
    {
      var j :| m <= j < |index| && index[j] == k;
      if j == m {
        LessIrreflexive(k);
      } else {
        LessAsymmetric(index[m], k);
      }
    }
  }

  /** The routing facts of a split leaf: left keys are below the search key, right keys are not. */
  lemma SplitLeafRoutes(n: Node)
    requires n.Leaf? && Valid(n.store) && n.store.index != []
    ensures TreeValid(SplitLeaf(n))
  {
    var s := n.store;
    var m := |s.index| / 2;
    SplitStoreSpec(s);
    CutRoutes(s.index, m);
    assert SplitLeaf(n) == Internal(s.index[m], Leaf(Slice(s, 0, m)), Leaf(Slice(s, m, |s.index|)));
  }

  /**
   * Split of a non-empty valid leaf: the search key is the smallest key of the
   * greater half, the left leaf holds only keys below it and the right leaf
   * only keys not below it, the two leaves together hold exactly the former
   * entries in order, and the tree's keys and map are unchanged.
   */
  lemma SplitLeafSpec(n: Node)
    requires n.Leaf? && Valid(n.store) && n.store.index != []
    ensures SplitLeaf(n).Internal? && SplitLeaf(n).left.Leaf? && SplitLeaf(n).right.Leaf?
    ensures SplitLeaf(n).searchKey == SplitLeaf(n).right.store.index[0]
    ensures SplitLeaf(n).left.store.index + SplitLeaf(n).right.store.index == n.store.index
    ensures SplitLeaf(n).left.store.content + SplitLeaf(n).right.store.content == n.store.content
    ensures TreeValid(SplitLeaf(n))
    ensures KeysOf(SplitLeaf(n)) == KeysOf(n)
    ensures Contents(SplitLeaf(n)) == Contents(n)
  {
    var s := n.store;
    SplitStoreSpec(s);
    SplitStoreMaps(s);
    SplitLeafRoutes(n);
    var (l, g) := SplitStore(s);
    forall k
      ensures k in KeysOf(SplitLeaf(n)) <==> k in KeysOf(n)
    {
      assert k in s.index <==> k in l.index + g.index;
    }
  }

  /** Split is invisible to `find`: every key finds what it found before. */
  lemma SplitLeafPreservesFind(n: Node, key: Key, codec: Codec)
    requires n.Leaf? && Valid(n.store) && n.store.index != []
    ensures Find(SplitLeaf(n), key, codec) == Find(n, key, codec)
  {
    SplitLeafSpec(n);
    FindSpec(SplitLeaf(n), key, codec);
    FindSpec(n, key, codec);
  }
}

/**
 * Design, not source: the split check the tree's `split_threshold` is meant
 * for.  Code/cache_tree.py stores the threshold but never tests it; here an
 * insert splits the leaf it has just written once that leaf holds more than
 * `threshold` entries.
 */
module ShardTreeDesign {
  import opened Bytes
  import opened Keys
  import opened Wrappers
  import opened ValueCodec
  import opened ContentStore
  import opened ShardTree

  function InsertSplitting(n: Node, key: Key, payload: Bytes, codec: Codec, threshold: nat): (r: Node)
    requires LeavesAligned(n)
    ensures LeavesAligned(r)
  {
    match n
    case Leaf(s) =>
      var s2 := Upsert(s, key, codec.compress(payload));
      if |s2.index| > threshold then SplitLeaf(Leaf(s2)) else Leaf(s2)
    case Internal(sk, l, r) =>
      if Less(key, sk) then Internal(sk, InsertSplitting(l, key, payload, codec, threshold), r)
      else Internal(sk, l, InsertSplitting(r, key, payload, codec, threshold))
  }

  /** Inserting with splits keeps the tree invariant and updates the tree's map at `key` only. */
  lemma {:induction false} InsertSplittingSpec(n: Node, key: Key, payload: Bytes, codec: Codec, threshold: nat)
    requires TreeValid(n) && |key| == KeyWidth
    ensures LeavesAligned(n)
    ensures TreeValid(InsertSplitting(n, key, payload, codec, threshold))
    ensures Contents(InsertSplitting(n, key, payload, codec, threshold)) == Contents(n)[key := codec.compress(payload)]
  {
    TreeValidAligned(n);
    match n
    case Leaf(s) =>
      var s2 := Upsert(s, key, codec.compress(payload));
      UpsertSpec(s, key, codec.compress(payload));
      if |s2.index| > threshold {
        SplitLeafSpec(Leaf(s2));
      }
    case Internal(sk, l, r) =>
      var v := codec.compress(payload);
      if Less(key, sk) {
        InsertSplittingSpec(l, key, payload, codec, threshold);
        DescendLeft(sk, l, InsertSplitting(l, key, payload, codec, threshold), r, key, v);
      } else {
        InsertSplittingSpec(r, key, payload, codec, threshold);
        DescendRight(sk, l, r, InsertSplitting(r, key, payload, codec, threshold), key, v);
      }
  }

  /** Every leaf holds at most `t` entries. */
  ghost predicate LeavesAtMost(n: Node, t: nat)
  {
    match n
    case Leaf(s) => |s.index| <= t
    case Internal(_, l, r) => LeavesAtMost(l, t) && LeavesAtMost(r, t)
  }

  /** With a positive threshold, no leaf ever holds more entries than the threshold. */
  lemma {:induction false} InsertSplittingBounded(n: Node, key: Key, payload: Bytes, codec: Codec, threshold: nat)
    requires LeavesAligned(n) && LeavesAtMost(n, threshold) && threshold > 0
    ensures LeavesAtMost(InsertSplitting(n, key, payload, codec, threshold), threshold)
  {
    match n
    case Leaf(s) =>
    case Internal(sk, l, r) =>
      if Less(key, sk) {
        InsertSplittingBounded(l, key, payload, codec, threshold);
      } else {
        InsertSplittingBounded(r, key, payload, codec, threshold);
      }
  }

  /** The identity codec, for the scenario below. */
  const Plain: Codec := Codec(p => p, p => p)

  lemma ScenarioSecondInsert(a: Key, b: Key, va: Bytes, vb: Bytes)
    requires Less(a, b)
    ensures InsertSplitting(Leaf(Store([a], [va])), b, vb, Plain, 2) == Leaf(Store([a, b], [va, vb]))
  {
    assert Rank([a], b) == 1;
  }

  lemma ScenarioThirdInsert(a: Key, b: Key, k3: Key, va: Bytes, vb: Bytes, vc: Bytes)
    requires Less(a, b) && Less(b, k3)
    ensures InsertSplitting(Leaf(Store([a, b], [va, vb])), k3, vc, Plain, 2)
         == Internal(b, Leaf(Store([a], [va])), Leaf(Store([b, k3], [vb, vc])))
  {
    LessTransitive(a, b, k3);
    assert Rank([a, b], k3) == 2;
    var s3 := Upsert(Store([a, b], [va, vb]), k3, vc);
    assert s3 == Store([a, b, k3], [va, vb, vc]);
    assert Slice(s3, 0, 1) == Store([a], [va]);
    assert Slice(s3, 1, 3) == Store([b, k3], [vb, vc]);
  }

  lemma ScenarioFinds(a: Key, b: Key, k3: Key, d: Key, va: Bytes, vb: Bytes, vc: Bytes)
    requires Less(a, b) && Less(b, k3) && Less(k3, d)
    ensures var t := Internal(b, Leaf(Store([a], [va])), Leaf(Store([b, k3], [vb, vc])));
      && LeavesAligned(t)
      && Find(t, a, Plain) == Some(va)
      && Find(t, b, Plain) == Some(vb)
      && Find(t, k3, Plain) == Some(vc)
      && Find(t, d, Plain) == None
  {
    LessIrreflexive(a);
    LessIrreflexive(b);
    LessIrreflexive(k3);
    LessAsymmetric(b, k3);
    LessTransitive(b, k3, d);
    LessAsymmetric(b, d);
    LessAsymmetric(k3, d);
    assert Rank([a], a) == 0;
    assert Rank([b, k3], b) == 0;
    assert Rank([b, k3], k3) == 1;
    assert Rank([b, k3], d) == 2;
  }

  /**
   * Threshold 2, three ascending keys inserted in order into an empty leaf
   * (such as 0x00..01, 0x00..02, 0x00..03): the third insert splits the leaf
   * at 3 / 2 = 1, so the lesser leaf holds the first key, the greater leaf the
   * other two, and the search key is the second key.  Every inserted key is
   * found; a fourth, greater key is not.
   */
  lemma ThreeKeyScenario(a: Key, b: Key, k3: Key, d: Key, va: Bytes, vb: Bytes, vc: Bytes)
    requires Less(a, b) && Less(b, k3) && Less(k3, d)
    ensures var t := InsertSplitting(InsertSplitting(InsertSplitting(Leaf(Empty),
        a, va, Plain, 2), b, vb, Plain, 2), k3, vc, Plain, 2);
      && t == Internal(b, Leaf(Store([a], [va])), Leaf(Store([b, k3], [vb, vc])))
      && Find(t, a, Plain) == Some(va)
      && Find(t, b, Plain) == Some(vb)
      && Find(t, k3, Plain) == Some(vc)
      && Find(t, d, Plain) == None
  {
    assert InsertSplitting(Leaf(Empty), a, va, Plain, 2) == Leaf(Store([a], [va]));
    ScenarioSecondInsert(a, b, va, vb);
    ScenarioThirdInsert(a, b, k3, va, vb, vc);
    ScenarioFinds(a, b, k3, d, va, vb, vc);
  }

  /** The keys 0x00..01 < 0x00..02 < 0x00..03 < 0x00..04 meet the scenario's requirement. */
  lemma SmallKeysAscend()
    ensures var z := seq(KeyWidth - 1, _ => 0);
      Less(z + [1], z + [2]) && Less(z + [2], z + [3]) && Less(z + [3], z + [4])
  {
    var z := seq(KeyWidth - 1, _ => 0);
    LessCommonPrefix(z, [1], [2]);
    LessCommonPrefix(z, [2], [3]);
    LessCommonPrefix(z, [3], [4]);
  }
}
