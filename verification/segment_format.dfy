/**
 * The binary table format: the data model of a table as the writer sees it
 * (chunks of encoded segments) and the bytes the writer produces for it.
 *
 * Writing can stop early: `Fail`/`Assert` in the writer and a failing stream
 * operation throw, and whatever was written before stays in the stream.  A
 * `Written` value is therefore the bytes in the stream when writing stops,
 * together with the failure that stopped it, if any.
 *
 * The decoder for the format is in the `FormatDecoder` module; its
 * round-trip lemmas say that the layout is read back to the table, with
 * reference segments turned into value segments.  The lemmas about
 * reference segments at the end of this module state their exact bytes: no
 * null flags for scalars, and `2n` lengths for strings.
 */
module SegmentFormat {
  import opened Wrappers
  import opened FixedWidth
  import opened PrimitiveCodec

  // EncodingType values written as the one-byte segment tag.
  const UNENCODED: nat := 0
  const DICTIONARY: nat := 1
  const RUN_LENGTH: nat := 2

  datatype DataType = Int | Long | Float | Double | String

  /** The name `data_type_to_string` gives each data type, as ASCII bytes. */
  function DataTypeName(t: DataType): Bytes
  {
    match t
    case Int => [105, 110, 116]                  // "int"
    case Long => [108, 111, 110, 103]            // "long"
    case Float => [102, 108, 111, 97, 116]       // "float"
    case Double => [100, 111, 117, 98, 108, 101] // "double"
    case String => [115, 116, 114, 105, 110, 103] // "string"
  }

  /** sizeof of the C++ type behind each fixed-width data type. */
  function SizeOf(t: DataType): nat
    requires t != String
  {
    match t
    case Int => 4
    case Long => 8
    case Float => 4
    case Double => 8
  }

  /** How the values of a column are laid out: as strings or at a fixed width. */
  datatype ValueKind = StringKind | FixedKind(width: nat)

  function KindOfType(t: DataType): ValueKind
  {
    if t == String then StringKind else FixedKind(SizeOf(t))
  }

  /**
   * The values held by one vector of a segment.  A non-string value is opaque:
   * it is its object representation, read as a number of `width` bytes.
   */
  datatype Column = StringValues(strings: seq<Bytes>) | FixedValues(width: nat, values: seq<nat>)

  function ColumnSize(c: Column): nat
  {
    match c
    case StringValues(strs) => |strs|
    case FixedValues(_, vs) => |vs|
  }

  function KindOf(c: Column): ValueKind
  {
    match c
    case StringValues(_) => StringKind
    case FixedValues(w, _) => FixedKind(w)
  }

  /** `export_values` on a vector: the string path or the raw scalars. */
  function ColumnBytes(c: Column): Bytes
  {
    match c
    case StringValues(strs) => StringArrayBytes(strs)
    case FixedValues(w, vs) => FixedArrayBytes(w, vs)
  }

  /** The compressed-vector type of a dictionary segment's attribute vector. */
  datatype VectorType = FixedSize4ByteAligned | FixedSize2ByteAligned | FixedSize1ByteAligned | SimdBp128

  predicate IsFixedSizeByteAligned(vt: VectorType)
  {
    vt != SimdBp128
  }

  /** The byte width of an attribute vector entry; 0 for any other vector type. */
  function VectorWidth(vt: VectorType): (w: nat)
    ensures IsFixedSizeByteAligned(vt) <==> w in {1, 2, 4}
    ensures vt == FixedSize4ByteAligned <==> w == 4
    ensures vt == FixedSize2ByteAligned <==> w == 2
    ensures vt == FixedSize1ByteAligned <==> w == 1
    ensures !IsFixedSizeByteAligned(vt) <==> w == 0
  {
    match vt
    case FixedSize4ByteAligned => 4
    case FixedSize2ByteAligned => 2
    case FixedSize1ByteAligned => 1
    case SimdBp128 => 0
  }

  /**
   * A segment as the writer finds it.  A reference segment is given by the
   * values it resolves to, in row order (the external resolver's output).
   * OtherSegment stands for every encoding without a writer overload.
   */
  datatype Segment =
    | ValueSegment(nullable: bool, nullValues: seq<bool>, values: Column)
    | DictionarySegment(dictionary: Column, vectorType: Option<VectorType>, attributeVector: seq<nat>)
    | RunLengthSegment(runValues: Column, runNulls: seq<bool>, endPositions: seq<nat>)
    | ReferenceSegment(resolved: Column)
    | OtherSegment

  datatype ColumnDefinition = ColumnDefinition(name: Bytes, dataType: DataType, nullable: bool)

  datatype Chunk = Chunk(size: nat, segments: seq<Segment>)

  /** A table; a physically deleted chunk is None. */
  datatype Table = Table(maxChunkSize: nat, columns: seq<ColumnDefinition>, chunks: seq<Option<Chunk>>)

  datatype WriteError =
    | UnsupportedSegmentType      // the BaseSegment overload's Fail
    | UnsupportedAttributeVector  // a dictionary without a fixed-size byte-aligned attribute vector
    | DeletedChunk                // Assert(chunk) in _write_chunk
    | NothingInserted             // `ofstream << rdbuf()` inserting nothing sets failbit, which throws

  /** What the stream holds when writing stops, and why it stopped, if it failed. */
  datatype Written = Written(bytes: Bytes, failure: Option<WriteError>)

  /** Writing a and then, unless a failed, b. */
  function Then(a: Written, b: Written): Written
  {
    if a.failure.Some? then a else Written(a.bytes + b.bytes, b.failure)
  }

  lemma WholePrefix<T>(s: seq<T>, k: nat)
    requires k == |s|
    ensures s[..k] == s
  {
  }

  /** After a failure, nothing more is written. */
  lemma ThenAfterFailure(a: Written, b: Written)
    requires a.failure.Some?
    ensures Then(a, b) == a
  {
  }

  function TagBytes(tag: nat): Bytes
  {
    EncodeFixed(ENCODING_TYPE_WIDTH, tag)
  }

  // ---------------------------------------------------------------------
  // Segments
  // ---------------------------------------------------------------------

  function ValueSegmentBytes(nullable: bool, nulls: seq<bool>, values: Column): Bytes
  {
    TagBytes(UNENCODED) + (if nullable then BoolArrayBytes(nulls) else []) + ColumnBytes(values)
  }

  function DictionarySegmentBytes(dictionary: Column, width: nat, attributeVector: seq<nat>): Bytes
  {
    TagBytes(DICTIONARY)
    + EncodeFixed(ATTRIBUTE_VECTOR_WIDTH_WIDTH, width)
    + EncodeFixed(VALUE_ID_WIDTH, ColumnSize(dictionary))
    + ColumnBytes(dictionary)
    + FixedArrayBytes(width, attributeVector)
  }

  function RunLengthSegmentBytes(values: Column, nulls: seq<bool>, ends: seq<nat>): Bytes
  {
    TagBytes(RUN_LENGTH)
    + EncodeFixed(UINT32_WIDTH, ColumnSize(values))
    + ColumnBytes(values)
    + BoolArrayBytes(nulls)
    + FixedArrayBytes(CHUNK_OFFSET_WIDTH, ends)
  }

  /**
   * A reference segment, materialised as written: the Unencoded tag, nothing
   * more when it is empty, otherwise the resolved scalars, or for strings a
   * length vector pre-sized to n zeros with the n real lengths appended after
   * them, followed by the string bytes.
   */
  function ReferenceSegmentWritten(resolved: Column): Written
  {
    if ColumnSize(resolved) == 0 then Written(TagBytes(UNENCODED), None)
    else match resolved
      case FixedValues(w, vs) => Written(TagBytes(UNENCODED) + FixedArrayBytes(w, vs), None)
      case StringValues(strs) =>
        var lengths := TagBytes(UNENCODED) + FixedArrayBytes(SIZE_T_WIDTH, Zeros(|strs|) + Lengths(strs));
        if |Flatten(strs)| == 0 then Written(lengths, Some(NothingInserted))
        else Written(lengths + Flatten(strs), None)
  }

  function SegmentWritten(s: Segment): Written
  {
    match s
    case ValueSegment(nullable, nulls, values) => Written(ValueSegmentBytes(nullable, nulls, values), None)
    case DictionarySegment(dictionary, vt, av) =>
      if vt.None? || !IsFixedSizeByteAligned(vt.value) then Written([], Some(UnsupportedAttributeVector))
      else Written(DictionarySegmentBytes(dictionary, VectorWidth(vt.value), av), None)
    case RunLengthSegment(values, nulls, ends) => Written(RunLengthSegmentBytes(values, nulls, ends), None)
    case ReferenceSegment(resolved) => ReferenceSegmentWritten(resolved)
    case OtherSegment => Written([], Some(UnsupportedSegmentType))
  }

  /** The segments the writer can export, stated independently of the bytes. */
  predicate SegmentExportable(s: Segment)
  {
    match s
    case ValueSegment(_, _, _) => true
    case DictionarySegment(_, vt, _) => vt.Some? && vt.value in {FixedSize4ByteAligned, FixedSize2ByteAligned, FixedSize1ByteAligned}
    case RunLengthSegment(_, _, _) => true
    case ReferenceSegment(resolved) =>
      // n > 0 strings, all of them empty, leave nothing for the final insertion
      !(resolved.StringValues? && |resolved.strings| > 0 && |Flatten(resolved.strings)| == 0)
    case OtherSegment => false
  }

  /** Writing a segment fails exactly for the segments that are not exportable. */
  lemma SegmentFailsIffNotExportable(s: Segment)
    ensures SegmentWritten(s).failure.None? <==> SegmentExportable(s)
  {
  }

  // ---------------------------------------------------------------------
  // Chunks and the table
  // ---------------------------------------------------------------------

  /** The segments written one after another, in ascending column order. */
  function SegmentsWritten(segs: seq<Segment>): Written
  {
    if segs == [] then Written([], None)
    else Then(SegmentsWritten(segs[..|segs| - 1]), SegmentWritten(segs[|segs| - 1]))
  }

  function ChunkWritten(c: Option<Chunk>): Written
  {
    match c
    case None => Written([], Some(DeletedChunk))
    case Some(chunk) => Then(Written(EncodeFixed(CHUNK_OFFSET_WIDTH, chunk.size), None), SegmentsWritten(chunk.segments))
  }

  /** The chunks written one after another, in ascending chunk order. */
  function ChunksWritten(chunks: seq<Option<Chunk>>): Written
  {
    if chunks == [] then Written([], None)
    else Then(ChunksWritten(chunks[..|chunks| - 1]), ChunkWritten(chunks[|chunks| - 1]))
  }

  function TypeNames(cols: seq<ColumnDefinition>): (r: seq<Bytes>)
    ensures |r| == |cols|
  {
    seq(|cols|, i requires 0 <= i < |cols| => DataTypeName(cols[i].dataType))
  }

  function Nullables(cols: seq<ColumnDefinition>): (r: seq<bool>)
    ensures |r| == |cols|
  {
    seq(|cols|, i requires 0 <= i < |cols| => cols[i].nullable)
  }

  function Names(cols: seq<ColumnDefinition>): (r: seq<Bytes>)
    ensures |r| == |cols|
  {
    seq(|cols|, i requires 0 <= i < |cols| => cols[i].name)
  }

  function HeaderBytes(t: Table): Bytes
  {
    EncodeFixed(CHUNK_OFFSET_WIDTH, t.maxChunkSize)
    + EncodeFixed(CHUNK_ID_WIDTH, |t.chunks|)
    + EncodeFixed(COLUMN_ID_WIDTH, |t.columns|)
    + StringArrayBytes(TypeNames(t.columns))
    + BoolArrayBytes(Nullables(t.columns))
    + StringArrayBytes(Names(t.columns))
  }

  /** Everything `BinaryWriter::write` puts in the file. */
  function TableWritten(t: Table): Written
  {
    Then(Written(HeaderBytes(t), None), ChunksWritten(t.chunks))
  }

  predicate SegmentsExportable(segs: seq<Segment>)
  {
    forall j :: 0 <= j < |segs| ==> SegmentExportable(segs[j])
  }

  predicate ChunkExportable(c: Option<Chunk>)
  {
    c.Some? && SegmentsExportable(c.value.segments)
  }

  predicate ChunksExportable(chunks: seq<Option<Chunk>>)
  {
    forall i :: 0 <= i < |chunks| ==> ChunkExportable(chunks[i])
  }

  predicate TableExportable(t: Table)
  {
    ChunksExportable(t.chunks)
  }

  // ---------------------------------------------------------------------
  // Layout of a successful export
  // ---------------------------------------------------------------------

  /** The bytes of each segment of a list, in column order. */
  function SegmentParts(segs: seq<Segment>): (r: seq<Bytes>)
    ensures |r| == |segs|
  {
    seq(|segs|, j requires 0 <= j < |segs| => SegmentWritten(segs[j]).bytes)
  }

  /** The segment parts of a non-empty list: its first segment's bytes, then the rest's. */
  lemma SegmentPartsCons(segs: seq<Segment>)
    requires segs != []
    ensures SegmentParts(segs) == [SegmentWritten(segs[0]).bytes] + SegmentParts(segs[1..])
  {
  }

  /** A chunk's bytes: its row count, then its segments with no padding. */
  function ChunkBytes(c: Chunk): Bytes
  {
    EncodeFixed(CHUNK_OFFSET_WIDTH, c.size) + Flatten(SegmentParts(c.segments))
  }

  /** The bytes of each chunk of a list, in chunk order. */
  function ChunkParts(chunks: seq<Option<Chunk>>): (r: seq<Bytes>)
    ensures |r| == |chunks|
  {
    seq(|chunks|, i requires 0 <= i < |chunks| => if chunks[i].Some? then ChunkBytes(chunks[i].value) else [])
  }

  /** The chunk parts of a non-empty list: its first chunk's bytes, then the rest's. */
  lemma ChunkPartsCons(chunks: seq<Option<Chunk>>)
    requires chunks != [] && chunks[0].Some?
    ensures ChunkParts(chunks) == [ChunkBytes(chunks[0].value)] + ChunkParts(chunks[1..])
  {
  }

  /** Then fails iff one of its two parts fails; otherwise it concatenates. */
  lemma ThenLayout(a: Written, b: Written)
    ensures Then(a, b).failure.None? <==> a.failure.None? && b.failure.None?
    ensures a.failure.None? ==> Then(a, b).bytes == a.bytes + b.bytes
  {
  }

  /** The parts of all but the last segment. */
  lemma SegmentPartsInit(segs: seq<Segment>)
    requires segs != []
    ensures SegmentParts(segs)[..|segs| - 1] == SegmentParts(segs[..|segs| - 1])
  {
  }

  /** The bytes of a list of segments, split before its last segment. */
  lemma SegmentsSnoc(segs: seq<Segment>)
    requires segs != []
    ensures Flatten(SegmentParts(segs)) == Flatten(SegmentParts(segs[..|segs| - 1])) + SegmentWritten(segs[|segs| - 1]).bytes
  {
    SegmentPartsInit(segs);
  }

  /** A list of segments is exportable iff all but its last are and its last is. */
  lemma SegmentsExportableSnoc(segs: seq<Segment>)
    requires segs != []
    ensures SegmentsExportable(segs) <==> SegmentsExportable(segs[..|segs| - 1]) && SegmentExportable(segs[|segs| - 1])
  {
    assert forall j :: 0 <= j < |segs| - 1 ==> segs[j] == segs[..|segs| - 1][j];
  }

  /**
   * Writing the segments of a chunk fails iff one of them is not exportable;
   * otherwise it is the plain concatenation of the segments in column order.
   */
  lemma {:induction false} SegmentsLayout(segs: seq<Segment>)
    ensures SegmentsWritten(segs).failure.None? <==> SegmentsExportable(segs)
    ensures SegmentsWritten(segs).failure.None? ==> SegmentsWritten(segs).bytes == Flatten(SegmentParts(segs))
  {
    if segs != [] {
      var init := segs[..|segs| - 1];
      var last := segs[|segs| - 1];
      SegmentsLayout(init);
      assert SegmentsWritten(segs) == Then(SegmentsWritten(init), SegmentWritten(last));
      SegmentsSnoc(segs);
      SegmentsExportableSnoc(segs);
      SegmentFailsIffNotExportable(last);
      ThenLayout(SegmentsWritten(init), SegmentWritten(last));
    }
  }

  /** A chunk is written iff it exists and all its segments are exportable. */
  lemma ChunkLayout(c: Option<Chunk>)
    ensures ChunkWritten(c).failure.None? <==> ChunkExportable(c)
    ensures ChunkWritten(c).failure.None? ==> ChunkWritten(c).bytes == ChunkBytes(c.value)
  {
    if c.Some? {
      SegmentsLayout(c.value.segments);
    }
  }

  /** The parts of all but the last chunk. */
  lemma ChunkPartsInit(chunks: seq<Option<Chunk>>)
    requires chunks != []
    ensures ChunkParts(chunks)[..|chunks| - 1] == ChunkParts(chunks[..|chunks| - 1])
  {
  }

  /** The bytes of a list of chunks, split before its last chunk. */
  lemma ChunksSnoc(chunks: seq<Option<Chunk>>)
    requires chunks != []
    ensures Flatten(ChunkParts(chunks)) == Flatten(ChunkParts(chunks[..|chunks| - 1])) + ChunkParts(chunks)[|chunks| - 1]
  {
    ChunkPartsInit(chunks);
  }

  /** A list of chunks is exportable iff all but its last are and its last is. */
  lemma ChunksExportableSnoc(chunks: seq<Option<Chunk>>)
    requires chunks != []
    ensures ChunksExportable(chunks) <==> ChunksExportable(chunks[..|chunks| - 1]) && ChunkExportable(chunks[|chunks| - 1])
  {
    assert forall i :: 0 <= i < |chunks| - 1 ==> chunks[i] == chunks[..|chunks| - 1][i];
  }

  /** The same for the chunks of a table, in chunk order. */
  lemma {:induction false} ChunksLayout(chunks: seq<Option<Chunk>>)
    ensures ChunksWritten(chunks).failure.None? <==> ChunksExportable(chunks)
    ensures ChunksWritten(chunks).failure.None? ==> ChunksWritten(chunks).bytes == Flatten(ChunkParts(chunks))
  {
    if chunks != [] {
      var init := chunks[..|chunks| - 1];
      var last := chunks[|chunks| - 1];
      ChunksLayout(init);
      assert ChunksWritten(chunks) == Then(ChunksWritten(init), ChunkWritten(last));
      ChunksSnoc(chunks);
      ChunksExportableSnoc(chunks);
      ChunkLayout(last);
      ThenLayout(ChunksWritten(init), ChunkWritten(last));
    }
  }

  /**
   * `write` fails iff some chunk is deleted or holds a segment it cannot
   * export.  Otherwise the file is the header followed by every chunk's
   * bytes, chunk 0 first, with nothing in between.
   */
  lemma TableLayout(t: Table)
    ensures TableWritten(t).failure.None? <==> TableExportable(t)
    ensures TableExportable(t) ==> TableWritten(t).bytes == HeaderBytes(t) + Flatten(ChunkParts(t.chunks))
  {
    ChunksLayout(t.chunks);
  }

  /**
   * In the layout of an exported file (TableLayout), chunk i starts right
   * after the header and the bytes of chunks 0..i-1, whatever the chunks
   * around it are.
   */
  lemma ChunkPosition(t: Table, i: nat)
    requires i < |t.chunks| && t.chunks[i].Some?
    ensures var file := HeaderBytes(t) + Flatten(ChunkParts(t.chunks));
            var start := |HeaderBytes(t)| + |Flatten(ChunkParts(t.chunks)[..i])|;
            var chunk := ChunkBytes(t.chunks[i].value);
            start + |chunk| <= |file| && file[start..start + |chunk|] == chunk
  {
    PartAt(HeaderBytes(t), ChunkParts(t.chunks), i, ChunkBytes(t.chunks[i].value));
  }

  /**
   * A chunk's bytes start with its row count; segment j follows the row count
   * and the bytes of segments 0..j-1.
   */
  lemma SegmentPosition(c: Chunk, j: nat)
    requires j < |c.segments|
    ensures |ChunkBytes(c)| >= CHUNK_OFFSET_WIDTH
    ensures ChunkBytes(c)[..CHUNK_OFFSET_WIDTH] == EncodeFixed(CHUNK_OFFSET_WIDTH, c.size)
    ensures var start := CHUNK_OFFSET_WIDTH + |Flatten(SegmentParts(c.segments)[..j])|;
            var seg := SegmentWritten(c.segments[j]).bytes;
            start + |seg| <= |ChunkBytes(c)| && ChunkBytes(c)[start..start + |seg|] == seg
  {
    FlattenAtAfter(EncodeFixed(CHUNK_OFFSET_WIDTH, c.size), SegmentParts(c.segments), j);
  }

  /** Writing the first k + 1 segments: the first k, then segment k unless they failed. */
  lemma SegmentsPrefixSnoc(segs: seq<Segment>, k: nat)
    requires k < |segs|
    ensures SegmentsWritten(segs[..k + 1]) == Then(SegmentsWritten(segs[..k]), SegmentWritten(segs[k]))
  {
    assert segs[..k + 1][..k] == segs[..k];
  }

  /** Writing the first k + 1 chunks: the first k, then chunk k unless they failed. */
  lemma ChunksPrefixSnoc(chunks: seq<Option<Chunk>>, k: nat)
    requires k < |chunks|
    ensures ChunksWritten(chunks[..k + 1]) == Then(ChunksWritten(chunks[..k]), ChunkWritten(chunks[k]))
  {
    assert chunks[..k + 1][..k] == chunks[..k];
  }

  /** Once writing has failed, writing further segments adds nothing. */
  lemma {:induction false} SegmentFailureIsFinal(segs: seq<Segment>, k: nat)
    requires k <= |segs| && SegmentsWritten(segs[..k]).failure.Some?
    ensures SegmentsWritten(segs) == SegmentsWritten(segs[..k])
    decreases |segs| - k
  {
    if k < |segs| {
      SegmentsPrefixSnoc(segs, k);
      ThenAfterFailure(SegmentsWritten(segs[..k]), SegmentWritten(segs[k]));
      SegmentFailureIsFinal(segs, k + 1);
    } else {
      WholePrefix(segs, k);
    }
  }

  /**
   * A chunk whose first k segments are written and whose segment k fails:
   * the stream ends with the row count, those k segments and what segment k
   * wrote, and the chunk fails as segment k did.
   */
  lemma ChunkStopsAt(s: Bytes, c: Chunk, k: nat)
    requires k < |c.segments| && SegmentsWritten(c.segments[..k]).failure.None?
    requires SegmentWritten(c.segments[k]).failure.Some?
    ensures s + ChunkWritten(Some(c)).bytes
         == s + EncodeFixed(CHUNK_OFFSET_WIDTH, c.size) + SegmentsWritten(c.segments[..k]).bytes + SegmentWritten(c.segments[k]).bytes
    ensures ChunkWritten(Some(c)).failure == SegmentWritten(c.segments[k]).failure
  {
    SegmentsPrefixSnoc(c.segments, k);
    SegmentFailureIsFinal(c.segments, k + 1);
    AppendNested(s, EncodeFixed(CHUNK_OFFSET_WIDTH, c.size), SegmentsWritten(c.segments[..k]).bytes, SegmentWritten(c.segments[k]).bytes);
  }

  /** A chunk whose segments are all written: the row count, then the segments. */
  lemma ChunkCompletes(s: Bytes, c: Chunk)
    requires SegmentsWritten(c.segments).failure.None?
    ensures s + ChunkWritten(Some(c)).bytes == s + EncodeFixed(CHUNK_OFFSET_WIDTH, c.size) + SegmentsWritten(c.segments).bytes
    ensures ChunkWritten(Some(c)).failure.None?
  {
    AppendAll2(s, EncodeFixed(CHUNK_OFFSET_WIDTH, c.size), SegmentsWritten(c.segments).bytes);
  }

  /**
   * A table whose first k chunks are written and whose chunk k fails: the
   * file ends with the header, those k chunks and what chunk k wrote.
   */
  lemma TableStopsAt(t: Table, k: nat)
    requires k < |t.chunks| && ChunksWritten(t.chunks[..k]).failure.None?
    requires ChunkWritten(t.chunks[k]).failure.Some?
    ensures TableWritten(t).bytes == HeaderBytes(t) + ChunksWritten(t.chunks[..k]).bytes + ChunkWritten(t.chunks[k]).bytes
    ensures TableWritten(t).failure == ChunkWritten(t.chunks[k]).failure
  {
    ChunksPrefixSnoc(t.chunks, k);
    FailureIsFinal(t.chunks, k + 1);
    AppendAll2(HeaderBytes(t), ChunksWritten(t.chunks[..k]).bytes, ChunkWritten(t.chunks[k]).bytes);
  }

  /** Once writing has failed, writing further chunks adds nothing. */
  lemma {:induction false} FailureIsFinal(chunks: seq<Option<Chunk>>, k: nat)
    requires k <= |chunks| && ChunksWritten(chunks[..k]).failure.Some?
    ensures ChunksWritten(chunks) == ChunksWritten(chunks[..k])
    decreases |chunks| - k
  {
    if k < |chunks| {
      ChunksPrefixSnoc(chunks, k);
      ThenAfterFailure(ChunksWritten(chunks[..k]), ChunkWritten(chunks[k]));
      FailureIsFinal(chunks, k + 1);
    } else {
      WholePrefix(chunks, k);
    }
  }

  /**
   * A deleted chunk stops the export at its Assert: the file then holds the
   * header and the chunks before it, and the failure is DeletedChunk.
   */
  lemma DeletedChunkStopsExport(t: Table, i: nat)
    requires i < |t.chunks| && t.chunks[i].None?
    requires ChunksExportable(t.chunks[..i])
    ensures TableWritten(t) == Written(HeaderBytes(t) + Flatten(ChunkParts(t.chunks[..i])), Some(DeletedChunk))
  {
    var before := t.chunks[..i];
    var upTo := t.chunks[..i + 1];
    assert upTo[..i] == before && upTo[i] == t.chunks[i];
    ChunksLayout(before);
    assert ChunksWritten(upTo) == Then(ChunksWritten(before), ChunkWritten(t.chunks[i]));
    FailureIsFinal(t.chunks, i + 1);
  }

  // ---------------------------------------------------------------------
  // Reference segments, as written
  // ---------------------------------------------------------------------

  /**
   * A materialised fixed-width reference segment is byte for byte the value
   * segment of its resolved values with no null flags, whatever the
   * nullability of its column: no null flags are ever written for it.
   */
  lemma ReferenceWritesNoNullFlags(w: nat, vs: seq<nat>, nulls: seq<bool>)
    ensures SegmentWritten(ReferenceSegment(FixedValues(w, vs)))
         == SegmentWritten(ValueSegment(false, nulls, FixedValues(w, vs)))
    ensures |SegmentWritten(ReferenceSegment(FixedValues(w, vs))).bytes|
         == |SegmentWritten(ValueSegment(true, nulls, FixedValues(w, vs))).bytes| - |nulls|
  {
    BoolArrayLayout(nulls);
    if vs == [] {
      assert FixedArrayBytes(w, vs) == [];
    }
  }

  /** ReferenceSegmentWritten for n > 0 strings, unfolded. */
  lemma ReferenceStringsWritten(strs: seq<Bytes>)
    requires |strs| > 0
    ensures var lengths := TagBytes(UNENCODED) + FixedArrayBytes(SIZE_T_WIDTH, Zeros(|strs|) + Lengths(strs));
            SegmentWritten(ReferenceSegment(StringValues(strs)))
            == if |Flatten(strs)| == 0 then Written(lengths, Some(NothingInserted))
               else Written(lengths + Flatten(strs), None)
  {
  }

  /**
   * A materialised string reference segment of n > 0 strings writes 2n
   * lengths: n zeros from pre-sizing the length vector, then the n real
   * lengths, then the string bytes.  It fails when there are no string
   * bytes at all, because inserting an empty buffer sets failbit.
   */
  lemma ReferenceStringsAsWritten(strs: seq<Bytes>)
    requires |strs| > 0
    ensures SegmentWritten(ReferenceSegment(StringValues(strs))).failure.None?
        <==> exists i :: 0 <= i < |strs| && strs[i] != []
    ensures SegmentWritten(ReferenceSegment(StringValues(strs))).failure.None? ==>
              SegmentWritten(ReferenceSegment(StringValues(strs))).bytes
              == TagBytes(UNENCODED) + FixedArrayBytes(SIZE_T_WIDTH, Zeros(|strs|)) + StringArrayBytes(strs)
    ensures SegmentWritten(ReferenceSegment(StringValues(strs))).failure.Some? ==>
              SegmentWritten(ReferenceSegment(StringValues(strs)))
              == Written(TagBytes(UNENCODED) + FixedArrayBytes(SIZE_T_WIDTH, Zeros(2 * |strs|)), Some(NothingInserted))
  {
    var n := |strs|;
    var tag := TagBytes(UNENCODED);
    var zeros := FixedArrayBytes(SIZE_T_WIDTH, Zeros(n));
    var lengths := FixedArrayBytes(SIZE_T_WIDTH, Lengths(strs));
    var all := FixedArrayBytes(SIZE_T_WIDTH, Zeros(n) + Lengths(strs));
    assert all == zeros + lengths by {
      FixedArrayAppend(SIZE_T_WIDTH, Zeros(n), Lengths(strs));
    }
    ReferenceStringsWritten(strs);
    FlattenEmpty(strs);
    if |Flatten(strs)| == 0 {
      ZerosThenLengthsOfEmpty(strs);
    } else {
      assert tag + all + Flatten(strs) == tag + zeros + StringArrayBytes(strs) by {
        RegroupMiddle(tag, zeros, lengths, Flatten(strs));
      }
    }
  }

}
