/**
 * A decoder for the binary table format, used as the specification partner
 * of the writer: each round-trip lemma says that what the writer emits for a
 * well-formed table reads back to that table.  Reading needs what the file
 * itself does not repeat per segment: the column's value kind and
 * nullability (from the header) and the chunk's row count.
 */
module FormatDecoder {
  import opened Wrappers
  import opened FixedWidth
  import opened PrimitiveCodec
  import opened SegmentFormat

  /** Reads one w-byte scalar. */
  function ReadFixed(w: nat, s: Bytes): (r: Option<(nat, Bytes)>)
  {
    if |s| < w then None else Some((DecodeFixed(s[..w]), s[w..]))
  }

  function DecodeColumn(kind: ValueKind, s: Bytes, n: nat): Option<(Column, Bytes)>
  {
    match kind
    case StringKind =>
      var r :- DecodeStringArray(s, n);
      Some((StringValues(r.0), r.1))
    case FixedKind(w) =>
      var r :- DecodeFixedArray(w, s, n);
      Some((FixedValues(w, r.0), r.1))
  }

  function VectorTypeOfWidth(w: nat): VectorType
    requires w in {1, 2, 4}
  {
    if w == 4 then FixedSize4ByteAligned else if w == 2 then FixedSize2ByteAligned else FixedSize1ByteAligned
  }

  function DecodeSegment(kind: ValueKind, nullable: bool, rows: nat, s: Bytes): Option<(Segment, Bytes)>
  {
    var tag :- ReadFixed(ENCODING_TYPE_WIDTH, s);
    if tag.0 == UNENCODED then
      if nullable then
        var nulls :- DecodeBoolArray(tag.1, rows);
        var values :- DecodeColumn(kind, nulls.1, rows);
        Some((ValueSegment(true, nulls.0, values.0), values.1))
      else
        var values :- DecodeColumn(kind, tag.1, rows);
        Some((ValueSegment(false, [], values.0), values.1))
    else if tag.0 == DICTIONARY then
      var width :- ReadFixed(ATTRIBUTE_VECTOR_WIDTH_WIDTH, tag.1);
      if width.0 !in {1, 2, 4} then None
      else
        var size :- ReadFixed(VALUE_ID_WIDTH, width.1);
        var dictionary :- DecodeColumn(kind, size.1, size.0);
        var av :- DecodeFixedArray(width.0, dictionary.1, rows);
        Some((DictionarySegment(dictionary.0, Some(VectorTypeOfWidth(width.0)), av.0), av.1))
    else if tag.0 == RUN_LENGTH then
      var runs :- ReadFixed(UINT32_WIDTH, tag.1);
      var values :- DecodeColumn(kind, runs.1, runs.0);
      var nulls :- DecodeBoolArray(values.1, runs.0);
      var ends :- DecodeFixedArray(CHUNK_OFFSET_WIDTH, nulls.1, runs.0);
      Some((RunLengthSegment(values.0, nulls.0, ends.0), ends.1))
    else None
  }

  // ---------------------------------------------------------------------
  // Well-formed segments (the invariants of the storage layer)
  // ---------------------------------------------------------------------

  /** Every value fits the width the writer stores it in. */
  ghost predicate ColumnFits(c: Column)
  {
    match c
    case StringValues(strs) => LengthsFit(strs)
    case FixedValues(w, vs) => FitsWidth(w, vs)
  }

  /**
   * A segment of a column with the given value kind and nullability in a
   * chunk of the given row count: one value (and one null flag, if nullable)
   * per row, dictionary indices of the attribute vector's width, one null
   * flag and one end position per run, and counts that fit their fields.
   */
  ghost predicate SegmentWellFormed(seg: Segment, kind: ValueKind, nullable: bool, rows: nat)
  {
    match seg
    case ValueSegment(n, nulls, values) =>
      n == nullable && KindOf(values) == kind && ColumnSize(values) == rows && ColumnFits(values)
      && (if n then |nulls| == rows else nulls == [])
    case DictionarySegment(dictionary, vt, av) =>
      KindOf(dictionary) == kind && ColumnFits(dictionary) && ColumnSize(dictionary) < Pow256(VALUE_ID_WIDTH)
      && vt.Some? && |av| == rows && FitsWidth(VectorWidth(vt.value), av)
    case RunLengthSegment(values, nulls, ends) =>
      KindOf(values) == kind && ColumnFits(values) && ColumnSize(values) < Pow256(UINT32_WIDTH)
      && |nulls| == ColumnSize(values) && |ends| == ColumnSize(values) && FitsWidth(CHUNK_OFFSET_WIDTH, ends)
    case ReferenceSegment(resolved) =>
      KindOf(resolved) == kind && ColumnSize(resolved) == rows && ColumnFits(resolved)
    case OtherSegment => true
  }

  /** What a segment reads back as: a reference segment becomes a value segment. */
  function Materialize(seg: Segment): Segment
  {
    match seg
    case ReferenceSegment(resolved) => ValueSegment(false, [], resolved)
    case _ => seg
  }

  lemma ColumnRoundTrip(c: Column, rest: Bytes)
    requires ColumnFits(c)
    ensures DecodeColumn(KindOf(c), ColumnBytes(c) + rest, ColumnSize(c)) == Some((c, rest))
  {
    match c
    case StringValues(strs) => StringArrayRoundTrip(strs, rest);
    case FixedValues(w, vs) => FixedArrayRoundTrip(w, vs, rest);
  }

  lemma ReadFixedRoundTrip(w: nat, v: nat, rest: Bytes)
    requires v < Pow256(w)
    ensures ReadFixed(w, EncodeFixed(w, v) + rest) == Some((v, rest))
  {
    var s := EncodeFixed(w, v) + rest;
    assert s[..w] == EncodeFixed(w, v) && s[w..] == rest;
    DecodeEncodeFits(w, v);
  }

  lemma ValueSegmentRoundTrip(seg: Segment, kind: ValueKind, nullable: bool, rows: nat, rest: Bytes)
    requires seg.ValueSegment? && SegmentWellFormed(seg, kind, nullable, rows)
    ensures DecodeSegment(kind, nullable, rows, SegmentWritten(seg).bytes + rest) == Some((seg, rest))
  {
    var body := ColumnBytes(seg.values) + rest;
    ColumnRoundTrip(seg.values, rest);
    if nullable {
      Regroup3(TagBytes(UNENCODED), BoolArrayBytes(seg.nullValues), ColumnBytes(seg.values), rest);
      ReadFixedRoundTrip(ENCODING_TYPE_WIDTH, UNENCODED, BoolArrayBytes(seg.nullValues) + body);
      BoolArrayRoundTrip(seg.nullValues, body);
    } else {
      AppendEmpty(TagBytes(UNENCODED));
      Regroup2(TagBytes(UNENCODED), ColumnBytes(seg.values), rest);
      ReadFixedRoundTrip(ENCODING_TYPE_WIDTH, UNENCODED, body);
    }
  }

  lemma DictionarySegmentRoundTrip(seg: Segment, kind: ValueKind, nullable: bool, rows: nat, rest: Bytes)
    requires seg.DictionarySegment? && SegmentWellFormed(seg, kind, nullable, rows) && SegmentExportable(seg)
    ensures DecodeSegment(kind, nullable, rows, SegmentWritten(seg).bytes + rest) == Some((seg, rest))
  {
    var vt := seg.vectorType.value;
    var w := VectorWidth(vt);
    var dict := seg.dictionary;
    var avBytes := FixedArrayBytes(w, seg.attributeVector) + rest;
    var dictBytes := ColumnBytes(dict) + avBytes;
    var sizeBytes := EncodeFixed(VALUE_ID_WIDTH, ColumnSize(dict)) + dictBytes;
    var widthBytes := EncodeFixed(ATTRIBUTE_VECTOR_WIDTH_WIDTH, w) + sizeBytes;
    assert w in {1, 2, 4} && VectorTypeOfWidth(w) == vt;
    assert SegmentWritten(seg).bytes == DictionarySegmentBytes(dict, w, seg.attributeVector);
    Regroup5(TagBytes(DICTIONARY), EncodeFixed(ATTRIBUTE_VECTOR_WIDTH_WIDTH, w),
             EncodeFixed(VALUE_ID_WIDTH, ColumnSize(dict)), ColumnBytes(dict), FixedArrayBytes(w, seg.attributeVector), rest);
    ReadFixedRoundTrip(ENCODING_TYPE_WIDTH, DICTIONARY, widthBytes);
    ReadFixedRoundTrip(ATTRIBUTE_VECTOR_WIDTH_WIDTH, w, sizeBytes);
    ReadFixedRoundTrip(VALUE_ID_WIDTH, ColumnSize(dict), dictBytes);
    ColumnRoundTrip(dict, avBytes);
    FixedArrayRoundTrip(w, seg.attributeVector, rest);
    var decoded := DictionarySegment(dict, Some(VectorTypeOfWidth(w)), seg.attributeVector);
    assert decoded == seg;
    assert DecodeSegment(kind, nullable, rows, TagBytes(DICTIONARY) + widthBytes) == Some((decoded, rest));
  }

  lemma RunLengthSegmentRoundTrip(seg: Segment, kind: ValueKind, nullable: bool, rows: nat, rest: Bytes)
    requires seg.RunLengthSegment? && SegmentWellFormed(seg, kind, nullable, rows)
    ensures DecodeSegment(kind, nullable, rows, SegmentWritten(seg).bytes + rest) == Some((seg, rest))
  {
    var runs := ColumnSize(seg.runValues);
    var endBytes := FixedArrayBytes(CHUNK_OFFSET_WIDTH, seg.endPositions) + rest;
    var nullBytes := BoolArrayBytes(seg.runNulls) + endBytes;
    var valueBytes := ColumnBytes(seg.runValues) + nullBytes;
    var countBytes := EncodeFixed(UINT32_WIDTH, runs) + valueBytes;
    assert SegmentWritten(seg).bytes == RunLengthSegmentBytes(seg.runValues, seg.runNulls, seg.endPositions);
    Regroup5(TagBytes(RUN_LENGTH), EncodeFixed(UINT32_WIDTH, runs), ColumnBytes(seg.runValues),
             BoolArrayBytes(seg.runNulls), FixedArrayBytes(CHUNK_OFFSET_WIDTH, seg.endPositions), rest);
    ReadFixedRoundTrip(ENCODING_TYPE_WIDTH, RUN_LENGTH, countBytes);
    ReadFixedRoundTrip(UINT32_WIDTH, runs, valueBytes);
    ColumnRoundTrip(seg.runValues, nullBytes);
    BoolArrayRoundTrip(seg.runNulls, endBytes);
    FixedArrayRoundTrip(CHUNK_OFFSET_WIDTH, seg.endPositions, rest);
  }

  /**
   * A reference segment of a non-nullable fixed-width column reads back as
   * the value segment of its resolved values.
   */
  lemma ReferenceSegmentRoundTrip(seg: Segment, w: nat, rows: nat, rest: Bytes)
    requires seg.ReferenceSegment? && SegmentWellFormed(seg, FixedKind(w), false, rows)
    ensures DecodeSegment(FixedKind(w), false, rows, SegmentWritten(seg).bytes + rest) == Some((Materialize(seg), rest))
  {
    var vs := seg.resolved.values;
    var body := FixedArrayBytes(w, vs) + rest;
    assert SegmentWritten(seg).bytes + rest == TagBytes(UNENCODED) + body;
    ReadFixedRoundTrip(ENCODING_TYPE_WIDTH, UNENCODED, body);
    FixedArrayRoundTrip(w, vs, rest);
  }

  /** Segments a reader gets back unchanged, or, for references, materialised. */
  ghost predicate ReadsBack(seg: Segment, kind: ValueKind, nullable: bool, rows: nat)
  {
    && SegmentWellFormed(seg, kind, nullable, rows)
    && SegmentExportable(seg)
    && (seg.ReferenceSegment? ==> kind.FixedKind? && !nullable)
  }

  lemma SegmentRoundTrip(seg: Segment, kind: ValueKind, nullable: bool, rows: nat, rest: Bytes)
    requires ReadsBack(seg, kind, nullable, rows)
    ensures DecodeSegment(kind, nullable, rows, SegmentWritten(seg).bytes + rest) == Some((Materialize(seg), rest))
  {
    match seg
    case ValueSegment(_, _, _) => ValueSegmentRoundTrip(seg, kind, nullable, rows, rest);
    case DictionarySegment(_, _, _) => DictionarySegmentRoundTrip(seg, kind, nullable, rows, rest);
    case RunLengthSegment(_, _, _) => RunLengthSegmentRoundTrip(seg, kind, nullable, rows, rest);
    case ReferenceSegment(_) => ReferenceSegmentRoundTrip(seg, kind.width, rows, rest);
  }

  // ---------------------------------------------------------------------
  // Header, chunks and the whole file
  // ---------------------------------------------------------------------

  /** The data type `data_type_to_string` names, if the name is one of them. */
  function ParseDataType(name: Bytes): Option<DataType>
  {
    if name == DataTypeName(Int) then Some(Int)
    else if name == DataTypeName(Long) then Some(Long)
    else if name == DataTypeName(Float) then Some(Float)
    else if name == DataTypeName(Double) then Some(Double)
    else if name == DataTypeName(String) then Some(String)
    else None
  }

  /** Every data type name is parsed back to its data type (so names are distinct). */
  lemma ParseDataTypeRoundTrip(t: DataType)
    ensures ParseDataType(DataTypeName(t)) == Some(t)
  {
  }

  function ParseDataTypes(names: seq<Bytes>): (r: Option<seq<DataType>>)
    ensures r.Some? ==> |r.value| == |names|
  {
    if names == [] then Some([])
    else
      var t :- ParseDataType(names[0]);
      var ts :- ParseDataTypes(names[1..]);
      Some([t] + ts)
  }

  function DataTypes(cols: seq<ColumnDefinition>): (r: seq<DataType>)
    ensures |r| == |cols|
  {
    seq(|cols|, i requires 0 <= i < |cols| => cols[i].dataType)
  }

  lemma {:induction false} ParseDataTypesRoundTrip(cols: seq<ColumnDefinition>)
    ensures ParseDataTypes(TypeNames(cols)) == Some(DataTypes(cols))
  {
    if cols != [] {
      ParseDataTypeRoundTrip(cols[0].dataType);
      assert TypeNames(cols)[1..] == TypeNames(cols[1..]);
      ParseDataTypesRoundTrip(cols[1..]);
      assert [cols[0].dataType] + DataTypes(cols[1..]) == DataTypes(cols);
    }
  }

  /** The file header: max chunk size, chunk count and the column definitions. */
  datatype Header = Header(maxChunkSize: nat, chunkCount: nat, columns: seq<ColumnDefinition>)

  function ColumnDefinitions(names: seq<Bytes>, types: seq<DataType>, nullables: seq<bool>): (r: seq<ColumnDefinition>)
    requires |types| == |names| && |nullables| == |names|
    ensures |r| == |names|
  {
    seq(|names|, i requires 0 <= i < |names| => ColumnDefinition(names[i], types[i], nullables[i]))
  }

  function DecodeHeader(s: Bytes): Option<(Header, Bytes)>
  {
    var maxChunkSize :- ReadFixed(CHUNK_OFFSET_WIDTH, s);
    var chunkCount :- ReadFixed(CHUNK_ID_WIDTH, maxChunkSize.1);
    var columnCount :- ReadFixed(COLUMN_ID_WIDTH, chunkCount.1);
    var typeNames :- DecodeStringArray(columnCount.1, columnCount.0);
    var types :- ParseDataTypes(typeNames.0);
    var nullables :- DecodeBoolArray(typeNames.1, columnCount.0);
    var names :- DecodeStringArray(nullables.1, columnCount.0);
    var columns := ColumnDefinitions(names.0, types, nullables.0);
    Some((Header(maxChunkSize.0, chunkCount.0, columns), names.1))
  }

  /** The counts of the header fit their fields, and so do the names' lengths. */
  ghost predicate HeaderFits(t: Table)
  {
    && t.maxChunkSize < Pow256(CHUNK_OFFSET_WIDTH)
    && |t.chunks| < Pow256(CHUNK_ID_WIDTH)
    && |t.columns| < Pow256(COLUMN_ID_WIDTH)
    && LengthsFit(Names(t.columns))
  }

  lemma HeaderRoundTrip(t: Table, rest: Bytes)
    requires HeaderFits(t)
    ensures DecodeHeader(HeaderBytes(t) + rest) == Some((Header(t.maxChunkSize, |t.chunks|, t.columns), rest))
  {
    var cols := t.columns;
    var n := |cols|;
    var namesBytes := StringArrayBytes(Names(cols)) + rest;
    var nullBytes := BoolArrayBytes(Nullables(cols)) + namesBytes;
    var typeBytes := StringArrayBytes(TypeNames(cols)) + nullBytes;
    var countBytes := EncodeFixed(COLUMN_ID_WIDTH, n) + typeBytes;
    var chunkBytes := EncodeFixed(CHUNK_ID_WIDTH, |t.chunks|) + countBytes;
    Regroup6(EncodeFixed(CHUNK_OFFSET_WIDTH, t.maxChunkSize), EncodeFixed(CHUNK_ID_WIDTH, |t.chunks|),
             EncodeFixed(COLUMN_ID_WIDTH, n), StringArrayBytes(TypeNames(cols)), BoolArrayBytes(Nullables(cols)),
             StringArrayBytes(Names(cols)), rest);
    ReadFixedRoundTrip(CHUNK_OFFSET_WIDTH, t.maxChunkSize, chunkBytes);
    ReadFixedRoundTrip(CHUNK_ID_WIDTH, |t.chunks|, countBytes);
    ReadFixedRoundTrip(COLUMN_ID_WIDTH, n, typeBytes);
    assert LengthsFit(TypeNames(cols)) by {
      forall i | 0 <= i < n ensures |TypeNames(cols)[i]| < Pow256(SIZE_T_WIDTH) {
        assert |TypeNames(cols)[i]| <= 6;
        assert Pow256(SIZE_T_WIDTH) >= 256;
      }
    }
    StringArrayRoundTrip(TypeNames(cols), nullBytes);
    ParseDataTypesRoundTrip(cols);
    BoolArrayRoundTrip(Nullables(cols), namesBytes);
    StringArrayRoundTrip(Names(cols), rest);
    assert ColumnDefinitions(Names(cols), DataTypes(cols), Nullables(cols)) == cols;
  }

  /** Reads one segment per column, in column order. */
  function DecodeSegments(cols: seq<ColumnDefinition>, rows: nat, s: Bytes): (r: Option<(seq<Segment>, Bytes)>)
    ensures r.Some? ==> |r.value.0| == |cols|
  {
    if cols == [] then Some(([], s))
    else
      var seg :- DecodeSegment(KindOfType(cols[0].dataType), cols[0].nullable, rows, s);
      var segs :- DecodeSegments(cols[1..], rows, seg.1);
      Some(([seg.0] + segs.0, segs.1))
  }

  function DecodeChunk(cols: seq<ColumnDefinition>, s: Bytes): Option<(Chunk, Bytes)>
  {
    var rows :- ReadFixed(CHUNK_OFFSET_WIDTH, s);
    var segs :- DecodeSegments(cols, rows.0, rows.1);
    Some((Chunk(rows.0, segs.0), segs.1))
  }

  function DecodeChunks(cols: seq<ColumnDefinition>, count: nat, s: Bytes): (r: Option<(seq<Option<Chunk>>, Bytes)>)
    ensures r.Some? ==> |r.value.0| == count
  {
    if count == 0 then Some(([], s))
    else
      var c :- DecodeChunk(cols, s);
      var cs :- DecodeChunks(cols, count - 1, c.1);
      Some(([Some(c.0)] + cs.0, cs.1))
  }

  /** A whole file: the header, then exactly the announced chunks, then nothing. */
  function DecodeTable(s: Bytes): Option<Table>
  {
    var header :- DecodeHeader(s);
    var chunks :- DecodeChunks(header.0.columns, header.0.chunkCount, header.1);
    if chunks.1 != [] then None
    else Some(Table(header.0.maxChunkSize, header.0.columns, chunks.0))
  }

  function MaterializeAll(segs: seq<Segment>): (r: seq<Segment>)
    ensures |r| == |segs|
  {
    seq(|segs|, j requires 0 <= j < |segs| => Materialize(segs[j]))
  }

  lemma MaterializeAllCons(segs: seq<Segment>)
    requires segs != []
    ensures MaterializeAll(segs) == [Materialize(segs[0])] + MaterializeAll(segs[1..])
  {
  }

  function MaterializeChunk(c: Chunk): Chunk
  {
    Chunk(c.size, MaterializeAll(c.segments))
  }

  /** The table a reader gets back: every reference segment materialised. */
  function MaterializeTable(t: Table): Table
  {
    Table(t.maxChunkSize, t.columns,
          seq(|t.chunks|, i requires 0 <= i < |t.chunks| =>
            if t.chunks[i].Some? then Some(MaterializeChunk(t.chunks[i].value)) else None))
  }

  /** Each segment reads back in its column of a chunk whose row count fits. */
  ghost predicate ChunkReadsBack(c: Chunk, cols: seq<ColumnDefinition>)
  {
    && c.size < Pow256(CHUNK_OFFSET_WIDTH)
    && |c.segments| == |cols|
    && forall j :: 0 <= j < |cols| ==> ReadsBack(c.segments[j], KindOfType(cols[j].dataType), cols[j].nullable, c.size)
  }

  /** Every chunk is present and reads back. */
  ghost predicate ChunksReadBack(chunks: seq<Option<Chunk>>, cols: seq<ColumnDefinition>)
  {
    forall i :: 0 <= i < |chunks| ==> chunks[i].Some? && ChunkReadsBack(chunks[i].value, cols)
  }

  lemma ChunksReadBackCons(chunks: seq<Option<Chunk>>, cols: seq<ColumnDefinition>)
    requires chunks != [] && ChunksReadBack(chunks, cols)
    ensures chunks[0].Some? && ChunkReadsBack(chunks[0].value, cols)
    ensures ChunksReadBack(chunks[1..], cols)
  {
    assert forall i :: 0 <= i < |chunks| - 1 ==> chunks[1..][i] == chunks[i + 1];
  }

  ghost predicate TableReadsBack(t: Table)
  {
    HeaderFits(t) && ChunksReadBack(t.chunks, t.columns)
  }

  /** One step of DecodeSegments, for a first segment and a tail already read. */
  lemma DecodeSegmentsStep(cols: seq<ColumnDefinition>, rows: nat, s: Bytes, seg: Segment, mid: Bytes, segs: seq<Segment>, rest: Bytes)
    requires cols != []
    requires DecodeSegment(KindOfType(cols[0].dataType), cols[0].nullable, rows, s) == Some((seg, mid))
    requires DecodeSegments(cols[1..], rows, mid) == Some((segs, rest))
    ensures DecodeSegments(cols, rows, s) == Some(([seg] + segs, rest))
  {
  }

  /** One step of DecodeChunks, for a first chunk and the remaining ones already read. */
  lemma DecodeChunksStep(cols: seq<ColumnDefinition>, count: nat, s: Bytes, c: Chunk, mid: Bytes, cs: seq<Option<Chunk>>, rest: Bytes)
    requires count > 0
    requires DecodeChunk(cols, s) == Some((c, mid))
    requires DecodeChunks(cols, count - 1, mid) == Some((cs, rest))
    ensures DecodeChunks(cols, count, s) == Some(([Some(c)] + cs, rest))
  {
  }

  lemma {:induction false} SegmentsRoundTrip(segs: seq<Segment>, cols: seq<ColumnDefinition>, rows: nat, rest: Bytes)
    requires |segs| == |cols|
    requires forall j :: 0 <= j < |cols| ==> ReadsBack(segs[j], KindOfType(cols[j].dataType), cols[j].nullable, rows)
    ensures DecodeSegments(cols, rows, Flatten(SegmentParts(segs)) + rest) == Some((MaterializeAll(segs), rest))
  {
    if segs == [] {
      AppendEmpty(rest);
    } else {
      var parts := SegmentParts(segs);
      var tailParts := SegmentParts(segs[1..]);
      SegmentPartsCons(segs);
      FlattenCons(SegmentWritten(segs[0]).bytes, tailParts, rest);
      var tail := Flatten(tailParts) + rest;
      assert ReadsBack(segs[0], KindOfType(cols[0].dataType), cols[0].nullable, rows);
      SegmentRoundTrip(segs[0], KindOfType(cols[0].dataType), cols[0].nullable, rows, tail);
      forall j | 0 <= j < |cols| - 1
        ensures ReadsBack(segs[1..][j], KindOfType(cols[1..][j].dataType), cols[1..][j].nullable, rows)
      {
        assert ReadsBack(segs[j + 1], KindOfType(cols[j + 1].dataType), cols[j + 1].nullable, rows);
      }
      SegmentsRoundTrip(segs[1..], cols[1..], rows, rest);
      DecodeSegmentsStep(cols, rows, Flatten(parts) + rest, Materialize(segs[0]), tail, MaterializeAll(segs[1..]), rest);
      MaterializeAllCons(segs);
    }
  }

  lemma ChunkRoundTrip(c: Chunk, cols: seq<ColumnDefinition>, rest: Bytes)
    requires ChunkReadsBack(c, cols)
    ensures DecodeChunk(cols, ChunkBytes(c) + rest) == Some((MaterializeChunk(c), rest))
  {
    var body := Flatten(SegmentParts(c.segments)) + rest;
    assert ChunkBytes(c) + rest == EncodeFixed(CHUNK_OFFSET_WIDTH, c.size) + body;
    ReadFixedRoundTrip(CHUNK_OFFSET_WIDTH, c.size, body);
    SegmentsRoundTrip(c.segments, cols, c.size, rest);
  }

  /** The chunks a reader gets back, every one of them present. */
  function MaterializeChunks(chunks: seq<Option<Chunk>>): (r: seq<Option<Chunk>>)
    requires forall i :: 0 <= i < |chunks| ==> chunks[i].Some?
    ensures |r| == |chunks|
  {
    seq(|chunks|, i requires 0 <= i < |chunks| => Some(MaterializeChunk(chunks[i].value)))
  }

  /** When every chunk is present, the materialised table holds the materialised chunks. */
  lemma MaterializeTableChunks(t: Table)
    requires forall i :: 0 <= i < |t.chunks| ==> t.chunks[i].Some?
    ensures MaterializeTable(t).chunks == MaterializeChunks(t.chunks)
  {
  }

  lemma MaterializeChunksCons(chunks: seq<Option<Chunk>>)
    requires chunks != [] && forall i :: 0 <= i < |chunks| ==> chunks[i].Some?
    ensures MaterializeChunks(chunks) == [Some(MaterializeChunk(chunks[0].value))] + MaterializeChunks(chunks[1..])
  {
  }

  lemma {:induction false} ChunksRoundTrip(chunks: seq<Option<Chunk>>, cols: seq<ColumnDefinition>, rest: Bytes)
    requires ChunksReadBack(chunks, cols)
    ensures DecodeChunks(cols, |chunks|, Flatten(ChunkParts(chunks)) + rest) == Some((MaterializeChunks(chunks), rest))
  {
    if chunks == [] {
      AppendEmpty(rest);
    } else {
      var parts := ChunkParts(chunks);
      var tailParts := ChunkParts(chunks[1..]);
      ChunksReadBackCons(chunks, cols);
      ChunkPartsCons(chunks);
      FlattenCons(ChunkBytes(chunks[0].value), tailParts, rest);
      var tail := Flatten(tailParts) + rest;
      ChunkRoundTrip(chunks[0].value, cols, tail);
      ChunksRoundTrip(chunks[1..], cols, rest);
      DecodeChunksStep(cols, |chunks|, Flatten(parts) + rest, MaterializeChunk(chunks[0].value), tail,
                       MaterializeChunks(chunks[1..]), rest);
      MaterializeChunksCons(chunks);
    }
  }

  /** A table whose chunks all read back is exported without failure. */
  lemma TableReadsBackExportable(t: Table)
    requires TableReadsBack(t)
    ensures TableExportable(t)
  {
    forall i | 0 <= i < |t.chunks| ensures ChunkExportable(t.chunks[i]) {
      var c := t.chunks[i].value;
      assert ChunkReadsBack(c, t.columns);
      forall j | 0 <= j < |c.segments| ensures SegmentExportable(c.segments[j]) {
        assert ReadsBack(c.segments[j], KindOfType(t.columns[j].dataType), t.columns[j].nullable, c.size);
      }
    }
  }

  /**
   * The file written for a table whose segments all read back is read back
   * to that table, with reference segments materialised as value segments,
   * and with no bytes left over.
   */
  lemma TableRoundTrip(t: Table)
    requires TableReadsBack(t)
    ensures TableWritten(t).failure.None?
    ensures DecodeTable(TableWritten(t).bytes) == Some(MaterializeTable(t))
  {
    TableReadsBackExportable(t);
    TableLayout(t);
    var body := Flatten(ChunkParts(t.chunks));
    HeaderRoundTrip(t, body);
    ChunksRoundTrip(t.chunks, t.columns, []);
    AppendEmpty(body);
    MaterializeTableChunks(t);
  }
}
