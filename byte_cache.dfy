/**
 * The store object of Code/byte_cache.py (and of its earlier twin,
 * html_cache.py): two lists kept in lockstep and updated in place.  Keys
 * are taken as given (the SHA-256 of the identifier is not part of this
 * model), values pass through a codec, and files are byte sequences.
 */
module ByteCache {
  import opened Bytes
  import opened Keys
  import opened Wrappers
  import opened ValueCodec
  import opened ContentStore
  import opened Format

  /** `xs` in front of the items of a partial parse, if it succeeded. */
  function Prepend<T>(xs: seq<T>, o: Option<(seq<T>, Bytes)>): (r: Option<(seq<T>, Bytes)>)
    ensures r.Some? <==> o.Some?
    ensures r.Some? ==> r.value == (xs + o.value.0, o.value.1)
  {
    match o
    case None => None
    case Some((ys, rest)) => Some((xs + ys, rest))
  }

  lemma PrependNil<T>(o: Option<(seq<T>, Bytes)>)
    ensures Prepend([], o) == o
  {
    if o.Some? {
      assert [] + o.value.0 == o.value.0;
    }
  }

  lemma PrependPrepend<T>(xs: seq<T>, ys: seq<T>, o: Option<(seq<T>, Bytes)>)
    ensures Prepend(xs, Prepend(ys, o)) == Prepend(xs + ys, o)
  {
    if o.Some? {
      assert xs + (ys + o.value.0) == (xs + ys) + o.value.0;
    }
  }

  /** The key-writing loop of `save`. */
  method WriteKeys(keys: seq<Key>) returns (out: Bytes)
    ensures out == Concat(keys)
  {
    out := [];
    var i := 0;
    while i < |keys|
      invariant 0 <= i <= |keys|
      invariant out == Concat(keys[..i])
    {
      ConcatSnoc(keys[..i], keys[i]);
      assert keys[..i + 1] == keys[..i] + [keys[i]];
      out := out + keys[i];
      i := i + 1;
    }
    assert keys[..i] == keys;
  }

  /** The record-writing loop of `save`; None where a length does not fit and `to_bytes` raises. */
  method WriteRecords(vs: seq<Bytes>, order: ByteOrder) returns (r: Option<Bytes>)
    ensures r.Some? <==> LengthsFit(vs)
    ensures r.Some? ==> r.value == Records(vs, order)
  {
    var out := [];
    var j := 0;
    while j < |vs|
      invariant 0 <= j <= |vs|
      invariant LengthsFit(vs[..j])
      invariant out == Records(vs[..j], order)
    {
      if |vs[j]| >= Pow256(IntWidth) {
        return None;
      }
      RecordsSnoc(vs[..j], vs[j], order);
      assert vs[..j + 1] == vs[..j] + [vs[j]];
      out := out + ToBytes(|vs[j]|, IntWidth, order) + vs[j];
      j := j + 1;
    }
    assert vs[..j] == vs;
    return Some(out);
  }

  /** The key-reading loop of `load` and `load_index`. */
  method ReadKeys(bs: Bytes, n: nat) returns (r: Option<(seq<Key>, Bytes)>)
    ensures r == ParseKeys(bs, n)
  {
    var keys: seq<Key> := [];
    var rest := bs;
    var i := 0;
    PrependNil(ParseKeys(bs, n));
    while i < n
      invariant 0 <= i <= n
      invariant ParseKeys(bs, n) == Prepend(keys, ParseKeys(rest, n - i))
    {
      if |rest| < KeyWidth {
        return None;
      }
      assert ParseKeys(rest, n - i) == Prepend([rest[..KeyWidth]], ParseKeys(rest[KeyWidth..], n - i - 1));
      PrependPrepend(keys, [rest[..KeyWidth]], ParseKeys(rest[KeyWidth..], n - i - 1));
      keys := keys + [rest[..KeyWidth]];
      rest := rest[KeyWidth..];
      i := i + 1;
    }
    assert keys + [] == keys;
    return Some((keys, rest));
  }

  /** The record-reading loop of `load`. */
  method ReadRecords(bs: Bytes, n: nat, order: ByteOrder) returns (r: Option<(seq<Bytes>, Bytes)>)
    ensures r == ParseRecords(bs, n, order)
  {
    var values: seq<Bytes> := [];
    var rest := bs;
    var i := 0;
    PrependNil(ParseRecords(bs, n, order));
    while i < n
      invariant 0 <= i <= n
      invariant ParseRecords(bs, n, order) == Prepend(values, ParseRecords(rest, n - i, order))
    {
      if |rest| < IntWidth {
        return None;
      }
      var len := FromBytes(rest[..IntWidth], order);
      var tail := rest[IntWidth..];
      if |tail| < len {
        return None;
      }
      assert ParseRecords(rest, n - i, order) == Prepend([tail[..len]], ParseRecords(tail[len..], n - i - 1, order));
      PrependPrepend(values, [tail[..len]], ParseRecords(tail[len..], n - i - 1, order));
      values := values + [tail[..len]];
      rest := tail[len..];
      i := i + 1;
    }
    assert values + [] == values;
    return Some((values, rest));
  }

  class ByteCache {
    /** Keys in strictly ascending order. */
    var index: seq<Key>
    /** `content[i]` is the compressed value of `index[i]`. */
    var content: seq<Bytes>

    function View(): Store
      reads this
    {
      Store(index, content)
    }

    ghost predicate Valid()
      reads this
    {
      ContentStore.Valid(View())
    }

    constructor ()
      ensures View() == Empty && Valid()
    {
      index := [];
      content := [];
    }

    /**
     * `_find_index`: binary search for `key`.  Returns its position when it
     * is present, and otherwise the insertion point, with every key before
     * it smaller and every key from it on greater.
     */
    method FindIndex(key: Key) returns (idx: nat, found: bool)
      requires StrictlySorted(index)
      ensures idx <= |index|
      ensures found <==> key in index
      ensures found ==> idx < |index| && index[idx] == key
      ensures !found ==> (
        && (forall i :: 0 <= i < idx ==> Less(index[i], key))
        && (forall i :: idx <= i < |index| ==> Less(key, index[i])))
      ensures index == [] ==> idx == 0 && !found
    {
      if index == [] {
        return 0, false;
      }
      var lo: int, hi: int := 0, |index| - 1;
      while lo <= hi
        invariant 0 <= lo <= hi + 1 <= |index|
        invariant forall i :: 0 <= i < lo ==> Less(index[i], key)
        invariant forall i :: hi < i < |index| ==> Less(key, index[i])
      {
        var m := (hi - lo) / 2 + lo;
        if Less(index[m], key) {
          forall i | 0 <= i < m
            ensures Less(index[i], key)
          {
            LessTransitive(index[i], index[m], key);
          }
          lo := m + 1;
        } else if Less(key, index[m]) {
          forall i | m < i < |index|
            ensures Less(key, index[i])
          {
            LessTransitive(key, index[m], index[i]);
          }
          hi := m - 1;
        } else {
          LessTotal(index[m], key);
          return m, true;
        }
      }
      if key in index {
        var j :| 0 <= j < |index| && index[j] == key;
        LessIrreflexive(key);
      }
      return lo, false;
    }

    /** `is_cached`: whether the key is in the index. */
    method IsCached(key: Key) returns (cached: bool)
      requires StrictlySorted(index)
      ensures cached <==> key in index
    {
      var _, found := FindIndex(key);
      cached := found;
    }

    /**
     * `cache`: store the compressed payload under `key`, overwriting the value
     * of a present key in place and otherwise inserting at the insertion point
     * of both lists.  The store stays valid and its map changes at `key` only.
     */
    method Cache(key: Key, payload: Bytes, codec: Codec)
      requires Valid() && |key| == KeyWidth
      modifies this
      ensures Valid()
      ensures View() == Upsert(old(View()), key, codec.compress(payload))
      ensures AsMap(View()) == AsMap(old(View()))[key := codec.compress(payload)]
    {
      var compressed := codec.compress(payload);
      var idx, found := FindIndex(key);
      UpsertSpec(View(), key, compressed);
      if found {
        forall i | 0 <= i < idx
          ensures Less(index[i], key)
        {
        }
        LessIrreflexive(key);
        RankIsInsertionPoint(index, key, idx);
        content := content[idx := compressed];
      } else {
        if idx < |index| {
          LessAsymmetric(key, index[idx]);
        }
        RankIsInsertionPoint(index, key, idx);
        index := index[..idx] + [key] + index[idx..];
        content := content[..idx] + [compressed] + content[idx..];
      }
    }

    /** `retrieve`: the decompressed value of `key`, or None when it is absent. */
    method Retrieve(key: Key, codec: Codec) returns (r: Option<Bytes>)
      requires Valid()
      ensures r.None? <==> key !in index
      ensures r == if key in AsMap(View()) then Some(codec.decompress(AsMap(View())[key])) else None
    {
      var idx, found := FindIndex(key);
      AsMapKeys(View());
      if !found {
        return None;
      }
      AsMapAt(View(), idx);
      r := Some(codec.decompress(content[idx]));
    }

    /**
     * `save`: the bytes of the shard file, or None where Python's `to_bytes`
     * raises because the count or a value length does not fit in IntWidth bytes.
     */
    method Save(order: ByteOrder) returns (r: Option<Bytes>)
      ensures r == if Fits(View()) then Some(Serialize(View(), order)) else None
    {
      if |index| >= Pow256(IntWidth) {
        return None;
      }
      var keys := WriteKeys(index);
      var records := WriteRecords(content, order);
      if records.None? {
        return None;
      }
      return Some(ToBytes(|index|, IntWidth, order) + keys + records.value);
    }

    /**
     * `load`: append the keys and values read from a shard file to both
     * lists.  Truncated input is rejected and leaves the store as it was.
     */
    method Load(bs: Bytes, order: ByteOrder) returns (ok: bool)
      modifies this
      ensures ok <==> Parse(bs, order).Some?
      ensures ok ==> (
        && index == old(index) + Parse(bs, order).value.index
        && content == old(content) + Parse(bs, order).value.content)
      ensures !ok ==> index == old(index) && content == old(content)
    {
      if |bs| < IntWidth {
        return false;
      }
      var n := FromBytes(bs[..IntWidth], order);
      var keys := ReadKeys(bs[IntWidth..], n);
      if keys.None? {
        return false;
      }
      var values := ReadRecords(keys.value.1, n, order);
      if values.None? {
        return false;
      }
      index := index + keys.value.0;
      content := content + values.value.0;
      return true;
    }

    /**
     * `load_index`: append only the keys read from a shard file, leaving the
     * values unread (the index-only mode used to probe membership).
     */
    method LoadIndex(bs: Bytes, order: ByteOrder) returns (ok: bool)
      modifies this`index
      ensures ok <==> ParseIndex(bs, order).Some?
      ensures index == if ok then old(index) + ParseIndex(bs, order).value else old(index)
    {
      if |bs| < IntWidth {
        return false;
      }
      var n := FromBytes(bs[..IntWidth], order);
      var keys := ReadKeys(bs[IntWidth..], n);
      if keys.None? {
        return false;
      }
      index := index + keys.value.0;
      return true;
    }

    /**
     * `split` as intended: two new stores holding entries `[0, n / 2)` and
     * `[n / 2, n)` of both lists, cut at the same midpoint.
     */
    method Split() returns (lesser: ByteCache, greater: ByteCache)
      requires Valid()
      ensures fresh(lesser) && fresh(greater)
      ensures (lesser.View(), greater.View()) == SplitStore(View())
      ensures lesser.Valid() && greater.Valid()
    {
      var m := |index| / 2;
      lesser := new ByteCache();
      greater := new ByteCache();
      lesser.index, lesser.content := index[..m], content[..m];
      greater.index, greater.content := index[m..], content[m..];
      SplitStoreSpec(View());
    }
  }
}
