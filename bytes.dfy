/**
 * Bytes and the fixed-width unsigned integers of the shard file layout.
 *
 * The stores write every count and every length field as an unsigned
 * integer of `IntWidth` (5) bytes.  The byte order is the host's in the
 * stores and `'little'` in the tree; here it is an explicit parameter of
 * every encoder and decoder, so that one value fixes it for a whole format.
 */
module Bytes {

  type byte = x: int | 0 <= x < 256
  type Bytes = seq<byte>

  /** The order in which the bytes of a fixed-width integer are written. */
  datatype ByteOrder = LittleEndian | BigEndian

  /** Width in bytes of the entry count and of every value length. */
  const IntWidth: nat := 5

  /** 256 to the power `w`: the first value that does not fit in `w` bytes. */
  function Pow256(w: nat): (r: nat)
    ensures r > 0
  {
    if w == 0 then 1 else 256 * Pow256(w - 1)
  }

  lemma Pow256IntWidth()
    ensures Pow256(IntWidth) == 0x100_0000_0000
  {
  }

  function Reverse<T>(s: seq<T>): (r: seq<T>)
    ensures |r| == |s|
    ensures forall i :: 0 <= i < |s| ==> r[i] == s[|s| - 1 - i]
  {
    if s == [] then [] else Reverse(s[1..]) + [s[0]]
  }

  lemma ReverseReverse<T>(s: seq<T>)
    ensures Reverse(Reverse(s)) == s
  {
    assert forall i :: 0 <= i < |s| ==> Reverse(Reverse(s))[i] == s[i];
  }

  /** The `w` little-endian digits of `x` in base 256. */
  function ToLittle(x: nat, w: nat): (r: Bytes)
    requires x < Pow256(w)
    ensures |r| == w
  {
    if w == 0 then [] else [(x % 256) as byte] + ToLittle(x / 256, w - 1)
  }

  /** The unsigned integer whose little-endian digits are `bs`. */
  function FromLittle(bs: Bytes): (r: nat)
    ensures r < Pow256(|bs|)
  {
    if bs == [] then 0 else bs[0] + 256 * FromLittle(bs[1..])
  }

  lemma {:induction false} FromToLittle(x: nat, w: nat)
    requires x < Pow256(w)
    ensures FromLittle(ToLittle(x, w)) == x
  {
    if w > 0 {
      FromToLittle(x / 256, w - 1);
      assert ToLittle(x, w)[1..] == ToLittle(x / 256, w - 1);
    }
  }

  /** Python's `x.to_bytes(w, order)`, for a value that fits. */
  function ToBytes(x: nat, w: nat, order: ByteOrder): (r: Bytes)
    requires x < Pow256(w)
    ensures |r| == w
  {
    match order
    case LittleEndian => ToLittle(x, w)
    case BigEndian => Reverse(ToLittle(x, w))
  }

  /** Python's `int.from_bytes(bs, order)`. */
  function FromBytes(bs: Bytes, order: ByteOrder): (r: nat)
    ensures r < Pow256(|bs|)
  {
    match order
    case LittleEndian => FromLittle(bs)
    case BigEndian => FromLittle(Reverse(bs))
  }

  /** Decoding a fixed-width integer gives back the integer that was encoded. */
  lemma UintRoundTrip(x: nat, w: nat, order: ByteOrder)
    requires x < Pow256(w)
    ensures FromBytes(ToBytes(x, w, order), order) == x
  {
    FromToLittle(x, w);
    if order == BigEndian {
      ReverseReverse(ToLittle(x, w));
    }
  }
}
