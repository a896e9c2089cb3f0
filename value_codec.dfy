/**
 * The compression boundary.  The stores compress a payload before storing it
 * and decompress it on retrieval (brotli in one store, blosc2 in the other);
 * the codecs themselves are not part of this model, so a codec is a pair of
 * functions, and the properties that need it to be lossless say so.
 */
module ValueCodec {
  import opened Bytes

  datatype Codec = Codec(compress: Bytes -> Bytes, decompress: Bytes -> Bytes)

  /** Decompression undoes compression. */
  ghost predicate Inverse(c: Codec)
  {
    forall p :: c.decompress(c.compress(p)) == p
  }
}
