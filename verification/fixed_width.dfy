/**
 * Fixed-width scalars as they reach the output stream.
 *
 * The writer copies the object representation of each scalar with
 * `ofstream.write(reinterpret_cast<const char*>(&value), sizeof(T))`.  The
 * model reads that representation as an unsigned number in native (here:
 * little-endian) byte order: `EncodeFixed(w, v)` is the `w` bytes of `v`,
 * least significant first, and keeps only `v mod 256^w`, which is what a
 * `static_cast` to a `w`-byte unsigned type does before the copy.
 */
module FixedWidth {

  newtype byte = b: int | 0 <= b < 256

  type Bytes = seq<byte>

  // Byte widths of the types the writer emits.  Their definitions live in
  // headers that are not part of this model; the values are Hyrise's.
  const CHUNK_OFFSET_WIDTH: nat := 4             // ChunkOffset (uint32_t)
  const CHUNK_ID_WIDTH: nat := 4                 // ChunkID::base_type (uint32_t)
  const COLUMN_ID_WIDTH: nat := 2                // ColumnID::base_type (uint16_t)
  const VALUE_ID_WIDTH: nat := 4                 // ValueID::base_type (uint32_t)
  const ATTRIBUTE_VECTOR_WIDTH_WIDTH: nat := 1   // AttributeVectorWidth (uint8_t)
  const ENCODING_TYPE_WIDTH: nat := 1            // EncodingType (enum class : uint8_t)
  const BOOL_AS_BYTE_WIDTH: nat := 1             // BoolAsByteType (uint8_t)
  const SIZE_T_WIDTH: nat := 8                   // size_t on a 64-bit target
  const UINT32_WIDTH: nat := 4                   // uint32_t

  /** 256^w: the number of distinct values of a w-byte unsigned integer. */
  function Pow256(w: nat): (p: nat)
    ensures p >= 1
  {
    if w == 0 then 1 else 256 * Pow256(w - 1)
  }

  /** The w-byte little-endian representation of v, truncated to w bytes. */
  function EncodeFixed(w: nat, v: nat): (r: Bytes)
    ensures |r| == w
  {
    if w == 0 then [] else [(v % 256) as byte] + EncodeFixed(w - 1, v / 256)
  }

  /** Reads a little-endian unsigned number back from its bytes. */
  function DecodeFixed(s: Bytes): (v: nat)
    ensures v < Pow256(|s|)
  {
    if s == [] then 0 else s[0] as nat + 256 * DecodeFixed(s[1..])
  }

  /** Reading back a w-byte scalar yields the value modulo 256^w. */
  lemma {:induction false} DecodeEncodeFixed(w: nat, v: nat)
    ensures DecodeFixed(EncodeFixed(w, v)) == v % Pow256(w)
  {
    if w > 0 {
      var e := EncodeFixed(w, v);
      assert e[1..] == EncodeFixed(w - 1, v / 256);
      DecodeEncodeFixed(w - 1, v / 256);
      ModOfProduct(v, Pow256(w - 1));
    }
  }

  /** Division by a positive divisor has exactly one quotient and remainder. */
  lemma DivModUnique(v: int, d: int, q: int, r: int)
    requires d > 0 && 0 <= r < d && v == d * q + r
    ensures v / d == q && v % d == r
  {
    var q', r' := v / d, v % d;
    assert d * (q - q') == r' - r;
    if q > q' {
      MulAtLeast(d, q - q');
    } else if q < q' {
      MulAtLeast(d, q' - q);
    }
  }

  lemma MulAtLeast(d: int, k: int)
    requires d > 0 && k >= 1
    ensures d * k >= d
  {
  }

  /** v mod 256p splits into its low byte and (v / 256) mod p. */
  lemma ModOfProduct(v: nat, p: nat)
    requires p >= 1
    ensures v % (256 * p) == v % 256 + 256 * ((v / 256) % p)
    ensures (v % (256 * p)) / 256 == (v / 256) % p
  {
    var q := v / 256;
    var r := v % 256;
    var q2 := q / p;
    var r2 := q % p;
    assert v == 256 * (p * q2 + r2) + r;
    assert v == (256 * p) * q2 + (256 * r2 + r);
    DivModUnique(v, 256 * p, q2, 256 * r2 + r);
    DivModUnique(256 * r2 + r, 256, r2, r);
  }

  /** A value that fits in w bytes survives the round trip unchanged. */
  lemma DecodeEncodeFits(w: nat, v: nat)
    requires v < Pow256(w)
    ensures DecodeFixed(EncodeFixed(w, v)) == v
  {
    DecodeEncodeFixed(w, v);
  }

  /** Only v mod 256^w reaches the stream: the narrowing cast is explicit. */
  lemma {:induction false} EncodeFixedTruncates(w: nat, v: nat)
    ensures EncodeFixed(w, v) == EncodeFixed(w, v % Pow256(w))
  {
    if w > 0 {
      var m := v % Pow256(w);
      ModOfProduct(v, Pow256(w - 1));
      assert m % 256 == v % 256;
      assert m / 256 == (v / 256) % Pow256(w - 1);
      EncodeFixedTruncates(w - 1, v / 256);
    }
  }
}
