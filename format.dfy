/**
 * The shard file layout written by `save` and read by `load` and `load_index`:
 *
 *   entry count                 IntWidth bytes
 *   entry count x key           KeyWidth bytes each, in index order
 *   entry count x (
 *     value length              IntWidth bytes
 *     value bytes               value length bytes )
 *
 * Integers are unsigned, in the byte order given as a parameter.  Unlike the
 * Python readers, which accept short reads, the parser here fails on
 * truncated input; like them, it ignores bytes after the last record.
 */
module Format {
  import opened Bytes
  import opened Keys
  import opened Wrappers
  import opened ContentStore

  /** Every value length fits in IntWidth bytes. */
  ghost predicate LengthsFit(vs: seq<Bytes>)
  {
    forall i :: 0 <= i < |vs| ==> |vs[i]| < Pow256(IntWidth)
  }

  /** Every count and length of `s` fits in IntWidth bytes (otherwise `to_bytes` raises). */
  ghost predicate Fits(s: Store)
  {
    |s.index| < Pow256(IntWidth) && LengthsFit(s.content)
  }

  /** A store that the layout can carry and bring back: aligned, 32-byte keys, every count fitting. */
  ghost predicate Framable(s: Store)
  {
    && Aligned(s)
    && (forall i :: 0 <= i < |s.index| ==> |s.index[i]| == KeyWidth)
    && Fits(s)
  }

  function Concat(parts: seq<Bytes>): Bytes
  {
    if parts == [] then [] else parts[0] + Concat(parts[1..])
  }

  lemma {:induction false} ConcatSnoc(parts: seq<Bytes>, x: Bytes)
    ensures Concat(parts + [x]) == Concat(parts) + x
  {
    if parts != [] {
      assert (parts + [x])[1..] == parts[1..] + [x];
      ConcatSnoc(parts[1..], x);
    } else {
      assert parts + [x] == [x];
    }
  }

  /** One value record: its length field followed by its bytes. */
  function Record(v: Bytes, order: ByteOrder): (r: Bytes)
    requires |v| < Pow256(IntWidth)
    ensures |r| == IntWidth + |v|
  {
    ToBytes(|v|, IntWidth, order) + v
  }

  function Records(vs: seq<Bytes>, order: ByteOrder): Bytes
    requires LengthsFit(vs)
  {
    if vs == [] then [] else Record(vs[0], order) + Records(vs[1..], order)
  }

  lemma {:induction false} RecordsSnoc(vs: seq<Bytes>, v: Bytes, order: ByteOrder)
    requires LengthsFit(vs)
    requires |v| < Pow256(IntWidth)
    ensures Records(vs + [v], order) == Records(vs, order) + Record(v, order)
  {
    if vs != [] {
      assert (vs + [v])[1..] == vs[1..] + [v];
      RecordsSnoc(vs[1..], v, order);
    } else {
      assert vs + [v] == [v];
    }
  }

  /** Python's `save`, as the bytes it writes. */
  function Serialize(s: Store, order: ByteOrder): Bytes
    requires Fits(s)
  {
    ToBytes(|s.index|, IntWidth, order) + Concat(s.index) + Records(s.content, order)
  }

  /** A fixed-width unsigned integer at the front of `bs`, and what follows it. */
  function ReadUint(bs: Bytes, order: ByteOrder): (r: Option<(nat, Bytes)>)
    ensures r.Some? <==> |bs| >= IntWidth
    ensures r.Some? ==> r.value.1 == bs[IntWidth..]
  {
    if |bs| < IntWidth then None else Some((FromBytes(bs[..IntWidth], order), bs[IntWidth..]))
  }

  /** `n` keys at the front of `bs`, and what follows them. */
  function ParseKeys(bs: Bytes, n: nat): Option<(seq<Key>, Bytes)>
    decreases n
  {
    if n == 0 then Some(([], bs))
    else if |bs| < KeyWidth then None
    else match ParseKeys(bs[KeyWidth..], n - 1)
      case None => None
      case Some((ks, rest)) => Some(([bs[..KeyWidth]] + ks, rest))
  }

  /** `n` value records at the front of `bs`, and what follows them. */
  function ParseRecords(bs: Bytes, n: nat, order: ByteOrder): Option<(seq<Bytes>, Bytes)>
    decreases n
  {
    if n == 0 then Some(([], bs))
    else match ReadUint(bs, order)
      case None => None
      case Some((len, tail)) =>
        if |tail| < len then None
        else match ParseRecords(tail[len..], n - 1, order)
          case None => None
          case Some((vs, rest)) => Some(([tail[..len]] + vs, rest))
  }

  /** Python's `load` into an empty store, failing on truncated input. */
  function Parse(bs: Bytes, order: ByteOrder): Option<Store>
  {
    match ReadUint(bs, order)
    case None => None
    case Some((n, tail)) =>
      match ParseKeys(tail, n)
      case None => None
      case Some((ks, tail2)) =>
        match ParseRecords(tail2, n, order)
        case None => None
        case Some((vs, _)) => Some(Store(ks, vs))
  }

  /** Python's `load_index`: the count and the keys, ignoring the value records. */
  function ParseIndex(bs: Bytes, order: ByteOrder): Option<seq<Key>>
  {
    match ReadUint(bs, order)
    case None => None
    case Some((n, tail)) =>
      match ParseKeys(tail, n)
      case None => None
      case Some((ks, _)) => Some(ks)
  }

  lemma {:induction false} ParseKeysConcat(ks: seq<Key>, rest: Bytes)
    requires forall i :: 0 <= i < |ks| ==> |ks[i]| == KeyWidth
    ensures ParseKeys(Concat(ks) + rest, |ks|) == Some((ks, rest))
  {
    if ks != [] {
      var bs := Concat(ks) + rest;
      assert bs == ks[0] + (Concat(ks[1..]) + rest);
      assert bs[..KeyWidth] == ks[0];
      assert bs[KeyWidth..] == Concat(ks[1..]) + rest;
      ParseKeysConcat(ks[1..], rest);
      assert [ks[0]] + ks[1..] == ks;
    } else {
      assert Concat(ks) + rest == rest;
    }
  }

  lemma {:induction false} ParseRecordsRecords(vs: seq<Bytes>, rest: Bytes, order: ByteOrder)
    requires LengthsFit(vs)
    ensures ParseRecords(Records(vs, order) + rest, |vs|, order) == Some((vs, rest))
  {
    if vs != [] {
      var v := vs[0];
      var bs := Records(vs, order) + rest;
      var tail := v + (Records(vs[1..], order) + rest);
      assert bs == ToBytes(|v|, IntWidth, order) + tail;
      assert bs[..IntWidth] == ToBytes(|v|, IntWidth, order);
      assert bs[IntWidth..] == tail;
      UintRoundTrip(|v|, IntWidth, order);
      assert tail[..|v|] == v;
      assert tail[|v|..] == Records(vs[1..], order) + rest;
      ParseRecordsRecords(vs[1..], rest, order);
      assert [v] + vs[1..] == vs;
    } else {
      assert Records(vs, order) + rest == rest;
    }
  }

  /** `load` of what `save` wrote reproduces both columns exactly. */
  lemma ParseSerialize(s: Store, order: ByteOrder)
    requires Framable(s)
    ensures Parse(Serialize(s, order), order) == Some(s)
  {
    var header := ToBytes(|s.index|, IntWidth, order);
    var body := Concat(s.index) + Records(s.content, order);
    assert Serialize(s, order) == header + body;
    assert (header + body)[..IntWidth] == header && (header + body)[IntWidth..] == body;
    UintRoundTrip(|s.index|, IntWidth, order);
    assert ReadUint(Serialize(s, order), order) == Some((|s.index|, body));
    var recs := Records(s.content, order);
    ParseKeysConcat(s.index, recs);
    assert ParseKeys(body, |s.index|) == Some((s.index, recs));
    ParseRecordsRecords(s.content, [], order);
    assert recs + [] == recs;
    assert ParseRecords(recs, |s.content|, order) == Some((s.content, []));
  }

  /** `load_index` of what `save` wrote reproduces the key column. */
  lemma ParseIndexSerialize(s: Store, order: ByteOrder)
    requires Framable(s)
    ensures ParseIndex(Serialize(s, order), order) == Some(s.index)
  {
    var header := ToBytes(|s.index|, IntWidth, order);
    var body := Concat(s.index) + Records(s.content, order);
    assert Serialize(s, order) == header + body;
    assert (header + body)[..IntWidth] == header && (header + body)[IntWidth..] == body;
    UintRoundTrip(|s.index|, IntWidth, order);
    assert ReadUint(Serialize(s, order), order) == Some((|s.index|, body));
    ParseKeysConcat(s.index, Records(s.content, order));
    assert ParseKeys(body, |s.index|) == Some((s.index, Records(s.content, order)));
  }

  /** The size of the value records: a length field plus the bytes, per value. */
  function RecordsSize(vs: seq<Bytes>): nat
  {
    if vs == [] then 0 else IntWidth + |vs[0]| + RecordsSize(vs[1..])
  }

  lemma {:induction false} ConcatLength(ks: seq<Key>)
    requires forall i :: 0 <= i < |ks| ==> |ks[i]| == KeyWidth
    ensures |Concat(ks)| == KeyWidth * |ks|
  {
    if ks != [] {
      ConcatLength(ks[1..]);
    }
  }

  lemma {:induction false} RecordsLength(vs: seq<Bytes>, order: ByteOrder)
    requires LengthsFit(vs)
    ensures |Records(vs, order)| == RecordsSize(vs)
  {
    if vs != [] {
      RecordsLength(vs[1..], order);
    }
  }

  /** A saved shard takes 5 + 32 n + the sum over values of (5 + length) bytes. */
  lemma SerializeLength(s: Store, order: ByteOrder)
    requires Framable(s)
    ensures |Serialize(s, order)| == IntWidth + KeyWidth * |s.index| + RecordsSize(s.content)
  {
    ConcatLength(s.index);
    RecordsLength(s.content, order);
  }

  lemma {:induction false} ParseKeysTruncated(ks: seq<Key>, k: nat)
    requires forall i :: 0 <= i < |ks| ==> |ks[i]| == KeyWidth
    requires k < |Concat(ks)|
    ensures ParseKeys(Concat(ks)[..k], |ks|) == None
  {
    var bs := Concat(ks)[..k];
    if k >= KeyWidth {
      assert Concat(ks) == ks[0] + Concat(ks[1..]);
      assert bs[KeyWidth..] == Concat(ks[1..])[..k - KeyWidth];
      ParseKeysTruncated(ks[1..], k - KeyWidth);
    }
  }

  lemma {:induction false} ParseRecordsTruncated(vs: seq<Bytes>, k: nat, order: ByteOrder)
    requires LengthsFit(vs)
    requires k < |Records(vs, order)|
    ensures ParseRecords(Records(vs, order)[..k], |vs|, order) == None
  {
    var v := vs[0];
    var bs := Records(vs, order)[..k];
    var tail := v + Records(vs[1..], order);
    assert Records(vs, order) == ToBytes(|v|, IntWidth, order) + tail;
    if k >= IntWidth {
      assert bs[..IntWidth] == ToBytes(|v|, IntWidth, order);
      UintRoundTrip(|v|, IntWidth, order);
      var t := bs[IntWidth..];
      assert t == tail[..k - IntWidth];
      if |t| >= |v| {
        assert t[|v|..] == Records(vs[1..], order)[..k - IntWidth - |v|];
        ParseRecordsTruncated(vs[1..], k - IntWidth - |v|, order);
      }
    }
  }

  /** Every proper prefix of a saved shard is rejected: truncation is never read as a smaller store. */
  lemma ParseRejectsTruncated(s: Store, order: ByteOrder, k: nat)
    requires Framable(s)
    requires k < |Serialize(s, order)|
    ensures Parse(Serialize(s, order)[..k], order) == None
  {
    var header := ToBytes(|s.index|, IntWidth, order);
    var keys := Concat(s.index);
    var recs := Records(s.content, order);
    var bs := Serialize(s, order)[..k];
    assert Serialize(s, order) == header + (keys + recs);
    if k >= IntWidth {
      assert bs[..IntWidth] == header;
      UintRoundTrip(|s.index|, IntWidth, order);
      var body := bs[IntWidth..];
      assert body == (keys + recs)[..k - IntWidth];
      if k - IntWidth < |keys| {
        assert body == keys[..k - IntWidth];
        ParseKeysTruncated(s.index, k - IntWidth);
      } else {
        assert body == keys + recs[..k - IntWidth - |keys|];
        ParseKeysConcat(s.index, recs[..k - IntWidth - |keys|]);
        ParseRecordsTruncated(s.content, k - IntWidth - |keys|, order);
      }
    }
  }
}
