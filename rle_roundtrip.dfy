/** rle_decompress undoes rle_compress: the voxel field a HermiteRLEField
    is built from comes back element for element (Geometry/RLE.h,
    Geometry/HermiteField.cpp). */
module RleRoundTrip {
  import opened Rle
  import opened RleCompress
  import opened RleOps

  /** Compressing s and decompressing the result into a slice of the
      field's length gives s back, for every field short enough for the
      15-bit data offsets. */
  method CompressDecompress<T(0,==)>(s: seq<T>) returns (out: array<T>)
    requires |s| < COMPRESSED_FLAG
    ensures out[..] == s
  {
    var seqs, data := Compress(s);
    out := new T[Total(seqs[..])];
    Decompress(out, seqs[..], data[..]);
  }
}
