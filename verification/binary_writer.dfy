/**
 * BinaryWriter: writes a table to an output file stream in the binary format
 * of SegmentFormat.
 *
 * The stream is the one stateful object of the writer: every helper takes it
 * by reference and appends to it.  Each method states the bytes it appends
 * (and the failure that stops it, if any) as a function of SegmentFormat; the
 * properties of the format, its layout and its round trip, are proved there
 * and in FormatDecoder.
 */
module BinaryExport {
  import opened Wrappers
  import opened FixedWidth
  import opened PrimitiveCodec
  import opened SegmentFormat

  /**
   * An output file stream opened in binary mode, with failbit and badbit
   * exceptions enabled.  Bytes written before an exception stay in the file:
   * the stream is closed, and flushed, when it goes out of scope.
   */
  class OutputFileStream {
    var contents: Bytes

    /** Opening a file for output truncates it. */
    constructor Open()
      ensures contents == []
    {
      contents := [];
    }

    /** `write`: appends the bytes. */
    method Write(bytes: Bytes)
      modifies this
      ensures contents == old(contents) + bytes
    {
      contents := contents + bytes;
    }

    /**
     * `<< streambuf`: inserts the buffer's characters.  Inserting none sets
     * failbit, which throws.
     */
    method InsertBuffer(buffer: Bytes) returns (failed: bool)
      modifies this
      ensures failed <==> |buffer| == 0
      ensures contents == old(contents) + buffer
    {
      failed := |buffer| == 0;
      contents := contents + buffer;
    }
  }

  // ---------------------------------------------------------------------
  // Primitive exports
  // ---------------------------------------------------------------------

  /** `export_value`: the object representation of one value of width w. */
  method ExportValue(ofstream: OutputFileStream, w: nat, value: nat)
    modifies ofstream
    ensures ofstream.contents == old(ofstream.contents) + EncodeFixed(w, value)
  {
    ofstream.Write(EncodeFixed(w, value));
  }

  /** `export_values` on a vector of scalars: its data block in one write. */
  method ExportValues(ofstream: OutputFileStream, w: nat, values: seq<nat>)
    modifies ofstream
    ensures ofstream.contents == old(ofstream.contents) + FixedArrayBytes(w, values)
  {
    ofstream.Write(FixedArrayBytes(w, values));
  }

  /** `export_values` on a vector of bools: converted to one byte each first. */
  method ExportBoolValues(ofstream: OutputFileStream, values: seq<bool>)
    modifies ofstream
    ensures ofstream.contents == old(ofstream.contents) + BoolArrayBytes(values)
  {
    var writableBools := BoolsAsBytes(values);
    ExportValues(ofstream, BOOL_AS_BYTE_WIDTH, writableBools);
  }

  /**
   * `export_string_values`: the lengths, written as size_t values; then,
   * unless every string is empty, all characters in one write from a buffer
   * of the total length.
   */
  method ExportStringValues(ofstream: OutputFileStream, values: seq<Bytes>)
    modifies ofstream
    ensures ofstream.contents == old(ofstream.contents) + StringArrayBytes(values)
  {
    ghost var entry := ofstream.contents;
    var stringLengths, totalLength := MeasureStrings(values);
    ExportValues(ofstream, SIZE_T_WIDTH, stringLengths);

    if totalLength == 0 {
      StringArrayWithoutCharacters(values);
      return;
    }

    var buffer := ConcatenateStrings(values, totalLength);
    ofstream.Write(buffer[..]);
    AppendAll2(entry, FixedArrayBytes(SIZE_T_WIDTH, Lengths(values)), Flatten(values));
  }

  /**
   * The first pass of `export_string_values`: each string's length, in a
   * vector pre-sized to the number of strings, and their total.
   */
  method MeasureStrings(values: seq<Bytes>) returns (stringLengths: seq<nat>, totalLength: nat)
    ensures stringLengths == Lengths(values)
    ensures totalLength == |Flatten(values)|
  {
    stringLengths := seq(|values|, _ => 0);
    totalLength := 0;
    var i := 0;
    while i < |values|
      invariant 0 <= i <= |values|
      invariant |stringLengths| == |values|
      invariant forall k :: 0 <= k < i ==> stringLengths[k] == |values[k]|
      invariant totalLength == |Flatten(values[..i])|
    {
      stringLengths := stringLengths[i := |values[i]|];
      FlattenPrefixSnoc(values, i);
      totalLength := totalLength + |values[i]|;
      i := i + 1;
    }
    assert values[..i] == values;
  }

  /**
   * The second pass of `export_string_values`: every string copied into a
   * buffer of the total length, each one right after the previous.
   */
  method ConcatenateStrings(values: seq<Bytes>, totalLength: nat) returns (buffer: array<byte>)
    requires totalLength == |Flatten(values)|
    ensures buffer[..] == Flatten(values)
  {
    buffer := new byte[totalLength];
    var start := 0;
    var j := 0;
    while j < |values|
      modifies buffer
      invariant 0 <= j <= |values|
      invariant start == |Flatten(values[..j])| <= totalLength
      invariant buffer[..start] == Flatten(values[..j])
    {
      var str := values[j];
      FlattenPrefixSnoc(values, j);
      FlattenPrefixLength(values, j + 1);
      MemCopy(buffer, start, str);
      start := start + |str|;
      j := j + 1;
    }
    assert values[..j] == values;
    assert buffer[..] == buffer[..start];
  }

  /**
   * `memcpy` of a string into a buffer at an offset: the string replaces the
   * bytes at the offset, and the bytes before and after it stay.
   */
  method MemCopy(buffer: array<byte>, start: nat, str: Bytes)
    requires start + |str| <= buffer.Length
    modifies buffer
    ensures buffer[..start + |str|] == old(buffer[..start]) + str
    ensures buffer[start + |str|..] == old(buffer[start + |str|..])
  {
    forall k | 0 <= k < |str| {
      buffer[start + k] := str[k];
    }
  }

  /** `export_values` on the values of a segment, strings or scalars. */
  method ExportColumn(ofstream: OutputFileStream, values: Column)
    modifies ofstream
    ensures ofstream.contents == old(ofstream.contents) + ColumnBytes(values)
  {
    match values
    case StringValues(strs) => ExportStringValues(ofstream, strs);
    case FixedValues(w, vs) => ExportValues(ofstream, w, vs);
  }

  // ---------------------------------------------------------------------
  // Header
  // ---------------------------------------------------------------------

  /**
   * `_write_header`: the three counts, then the type names, nullability
   * flags and names of the columns, gathered in one loop over the columns.
   */
  method WriteHeader(table: Table, ofstream: OutputFileStream)
    modifies ofstream
    ensures ofstream.contents == old(ofstream.contents) + HeaderBytes(table)
  {
    ghost var start := ofstream.contents;
    ExportValue(ofstream, CHUNK_OFFSET_WIDTH, table.maxChunkSize);
    ExportValue(ofstream, CHUNK_ID_WIDTH, |table.chunks|);
    ExportValue(ofstream, COLUMN_ID_WIDTH, |table.columns|);

    // The three vectors are pre-sized to the column count, then filled by index.
    var n := |table.columns|;
    var columnTypes: seq<Bytes> := seq(n, _ => []);
    var columnNames: seq<Bytes> := seq(n, _ => []);
    var columnsAreNullable: seq<bool> := seq(n, _ => false);
    var columnId := 0;
    while columnId < n
      invariant 0 <= columnId <= n
      invariant |columnTypes| == |columnNames| == |columnsAreNullable| == n
      invariant forall k :: 0 <= k < columnId ==> columnTypes[k] == DataTypeName(table.columns[k].dataType)
      invariant forall k :: 0 <= k < columnId ==> columnNames[k] == table.columns[k].name
      invariant forall k :: 0 <= k < columnId ==> columnsAreNullable[k] == table.columns[k].nullable
    {
      columnTypes := columnTypes[columnId := DataTypeName(table.columns[columnId].dataType)];
      columnNames := columnNames[columnId := table.columns[columnId].name];
      columnsAreNullable := columnsAreNullable[columnId := table.columns[columnId].nullable];
      columnId := columnId + 1;
    }
    assert columnTypes == TypeNames(table.columns);
    assert columnNames == Names(table.columns);
    assert columnsAreNullable == Nullables(table.columns);

    ExportStringValues(ofstream, columnTypes);
    ExportBoolValues(ofstream, columnsAreNullable);
    ExportStringValues(ofstream, columnNames);
    AppendAll6(start, EncodeFixed(CHUNK_OFFSET_WIDTH, table.maxChunkSize), EncodeFixed(CHUNK_ID_WIDTH, |table.chunks|),
      EncodeFixed(COLUMN_ID_WIDTH, |table.columns|), StringArrayBytes(TypeNames(table.columns)),
      BoolArrayBytes(Nullables(table.columns)), StringArrayBytes(Names(table.columns)));
  }

  // ---------------------------------------------------------------------
  // Segments
  // ---------------------------------------------------------------------

  /** A value segment: the tag, the null flags if it is nullable, the values. */
  method WriteValueSegment(nullable: bool, nullValues: seq<bool>, values: Column, ofstream: OutputFileStream)
    modifies ofstream
    ensures ofstream.contents == old(ofstream.contents) + ValueSegmentBytes(nullable, nullValues, values)
  {
    ghost var start := ofstream.contents;
    ExportValue(ofstream, ENCODING_TYPE_WIDTH, UNENCODED);
    if nullable {
      ExportBoolValues(ofstream, nullValues);
    } else {
      AppendEmpty(ofstream.contents);
    }
    ExportColumn(ofstream, values);
    AppendAll3(start, TagBytes(UNENCODED), if nullable then BoolArrayBytes(nullValues) else [], ColumnBytes(values));
  }

  /**
   * A reference segment, materialised: the Unencoded tag and nothing more
   * when it is empty.  For strings, a length vector pre-sized to the segment's
   * size has every length pushed back behind its zeros, the characters are
   * collected in a string stream, and the stream's buffer is inserted into
   * the file; other values are written one by one.
   */
  method WriteReferenceSegment(resolved: Column, ofstream: OutputFileStream) returns (failure: Option<WriteError>)
    modifies ofstream
    ensures ofstream.contents == old(ofstream.contents) + ReferenceSegmentWritten(resolved).bytes
    ensures failure == ReferenceSegmentWritten(resolved).failure
  {
    ghost var start := ofstream.contents;
    ExportValue(ofstream, ENCODING_TYPE_WIDTH, UNENCODED);
    failure := None;
    if ColumnSize(resolved) == 0 {
      return;
    }
    match resolved
    case StringValues(strs) =>
      failure := WriteReferenceStrings(strs, ofstream);
      if failure.None? {
        AppendAll3(start, TagBytes(UNENCODED), FixedArrayBytes(SIZE_T_WIDTH, Zeros(|strs|) + Lengths(strs)), Flatten(strs));
      } else {
        AppendAll2(start, TagBytes(UNENCODED), FixedArrayBytes(SIZE_T_WIDTH, Zeros(|strs|) + Lengths(strs)));
      }
    case FixedValues(w, vs) =>
      WriteReferenceValues(w, vs, ofstream);
      AppendAll2(start, TagBytes(UNENCODED), FixedArrayBytes(w, vs));
  }

  /**
   * The string path of a non-empty reference segment: the lengths behind
   * their zeros, then the characters inserted from the string stream, which
   * fails when there are none.
   */
  method WriteReferenceStrings(strs: seq<Bytes>, ofstream: OutputFileStream) returns (failure: Option<WriteError>)
    modifies ofstream
    ensures failure.None? <==> |Flatten(strs)| > 0
    ensures failure.Some? ==> failure == Some(NothingInserted)
    ensures ofstream.contents == old(ofstream.contents) + FixedArrayBytes(SIZE_T_WIDTH, Zeros(|strs|) + Lengths(strs))
                                 + (if failure.None? then Flatten(strs) else [])
  {
    ghost var start := ofstream.contents;
    var stringLengths, values := CollectStrings(strs);
    ExportValues(ofstream, SIZE_T_WIDTH, stringLengths);
    var failed := ofstream.InsertBuffer(values);
    if failed {
      failure := Some(NothingInserted);
      AppendEmpty(start + FixedArrayBytes(SIZE_T_WIDTH, stringLengths));
    } else {
      failure := None;
    }
  }

  /** The scalar path of a non-empty reference segment: each resolved value in row order. */
  method WriteReferenceValues(w: nat, vs: seq<nat>, ofstream: OutputFileStream)
    modifies ofstream
    ensures ofstream.contents == old(ofstream.contents) + FixedArrayBytes(w, vs)
  {
    ghost var start := ofstream.contents;
    var i := 0;
    while i < |vs|
      invariant 0 <= i <= |vs|
      invariant ofstream.contents == start + FixedArrayBytes(w, vs[..i])
    {
      FixedArraySnoc(w, vs[..i + 1]);
      assert vs[..i + 1][..i] == vs[..i];
      ExportValue(ofstream, w, vs[i]);
      i := i + 1;
    }
    assert vs[..i] == vs;
  }

  /**
   * The `for_each` over a string reference segment: every length pushed back
   * onto a vector that already holds one zero per row, and every string
   * appended to a string stream.
   */
  method CollectStrings(strs: seq<Bytes>) returns (stringLengths: seq<nat>, values: Bytes)
    ensures stringLengths == Zeros(|strs|) + Lengths(strs)
    ensures values == Flatten(strs)
  {
    stringLengths := Zeros(|strs|);
    values := [];
    var i := 0;
    while i < |strs|
      invariant 0 <= i <= |strs|
      invariant stringLengths == Zeros(|strs|) + Lengths(strs[..i])
      invariant values == Flatten(strs[..i])
    {
      LengthsPrefixSnoc(strs, i);
      FlattenPrefixSnoc(strs, i);
      stringLengths := stringLengths + [|strs[i]|];
      values := values + strs[i];
      i := i + 1;
    }
    assert strs[..i] == strs;
  }

  /**
   * `_export_attribute_vector`: the entries at the vector's width; any vector
   * that is not fixed-size byte-aligned fails.
   */
  method ExportAttributeVector(ofstream: OutputFileStream, vectorType: VectorType, attributeVector: seq<nat>)
    returns (failure: Option<WriteError>)
    modifies ofstream
    ensures failure.None? <==> IsFixedSizeByteAligned(vectorType)
    ensures failure.None? ==>
      ofstream.contents == old(ofstream.contents) + FixedArrayBytes(VectorWidth(vectorType), attributeVector)
    ensures failure.Some? ==> ofstream.contents == old(ofstream.contents) && failure == Some(UnsupportedAttributeVector)
  {
    match vectorType
    case FixedSize4ByteAligned =>
      ExportValues(ofstream, 4, attributeVector);
      failure := None;
    case FixedSize2ByteAligned =>
      ExportValues(ofstream, 2, attributeVector);
      failure := None;
    case FixedSize1ByteAligned =>
      ExportValues(ofstream, 1, attributeVector);
      failure := None;
    case SimdBp128 =>
      failure := Some(UnsupportedAttributeVector);
  }

  /**
   * A dictionary segment: the checks on the attribute vector come before any
   * write; then the tag, the attribute vector width, the dictionary size, the
   * dictionary and the attribute vector.
   */
  method WriteDictionarySegment(dictionary: Column, vectorType: Option<VectorType>, attributeVector: seq<nat>,
                                ofstream: OutputFileStream)
    returns (failure: Option<WriteError>)
    modifies ofstream
    ensures ofstream.contents == old(ofstream.contents) + SegmentWritten(DictionarySegment(dictionary, vectorType, attributeVector)).bytes
    ensures failure == SegmentWritten(DictionarySegment(dictionary, vectorType, attributeVector)).failure
  {
    if vectorType.None? || !IsFixedSizeByteAligned(vectorType.value) {
      AppendEmpty(ofstream.contents);
      return Some(UnsupportedAttributeVector);
    }
    ghost var start := ofstream.contents;
    ExportValue(ofstream, ENCODING_TYPE_WIDTH, DICTIONARY);
    var attributeVectorWidth := VectorWidth(vectorType.value);
    ExportValue(ofstream, ATTRIBUTE_VECTOR_WIDTH_WIDTH, attributeVectorWidth);
    ExportValue(ofstream, VALUE_ID_WIDTH, ColumnSize(dictionary));
    ExportColumn(ofstream, dictionary);
    failure := ExportAttributeVector(ofstream, vectorType.value, attributeVector);
    AppendAll5(start, TagBytes(DICTIONARY), EncodeFixed(ATTRIBUTE_VECTOR_WIDTH_WIDTH, attributeVectorWidth),
      EncodeFixed(VALUE_ID_WIDTH, ColumnSize(dictionary)), ColumnBytes(dictionary),
      FixedArrayBytes(attributeVectorWidth, attributeVector));
  }

  /** A run-length segment: the tag, the run count, the run values, their null flags, the end positions. */
  method WriteRunLengthSegment(values: Column, nullValues: seq<bool>, endPositions: seq<nat>, ofstream: OutputFileStream)
    modifies ofstream
    ensures ofstream.contents == old(ofstream.contents) + RunLengthSegmentBytes(values, nullValues, endPositions)
  {
    ghost var start := ofstream.contents;
    ExportValue(ofstream, ENCODING_TYPE_WIDTH, RUN_LENGTH);
    ExportValue(ofstream, UINT32_WIDTH, ColumnSize(values));
    ExportColumn(ofstream, values);
    ExportBoolValues(ofstream, nullValues);
    ExportValues(ofstream, CHUNK_OFFSET_WIDTH, endPositions);
    AppendAll5(start, TagBytes(RUN_LENGTH), EncodeFixed(UINT32_WIDTH, ColumnSize(values)), ColumnBytes(values),
      BoolArrayBytes(nullValues), FixedArrayBytes(CHUNK_OFFSET_WIDTH, endPositions));
  }

  /** `_write_segment` on a segment resolved to its encoding. */
  method WriteSegment(segment: Segment, ofstream: OutputFileStream) returns (failure: Option<WriteError>)
    modifies ofstream
    ensures ofstream.contents == old(ofstream.contents) + SegmentWritten(segment).bytes
    ensures failure == SegmentWritten(segment).failure
  {
    match segment
    case ValueSegment(nullable, nullValues, values) =>
      WriteValueSegment(nullable, nullValues, values, ofstream);
      failure := None;
    case DictionarySegment(dictionary, vectorType, attributeVector) =>
      failure := WriteDictionarySegment(dictionary, vectorType, attributeVector, ofstream);
    case RunLengthSegment(values, nullValues, endPositions) =>
      WriteRunLengthSegment(values, nullValues, endPositions, ofstream);
      failure := None;
    case ReferenceSegment(resolved) =>
      failure := WriteReferenceSegment(resolved, ofstream);
    case OtherSegment =>
      AppendEmpty(ofstream.contents);
      failure := Some(UnsupportedSegmentType);
  }

  // ---------------------------------------------------------------------
  // Chunks and the table
  // ---------------------------------------------------------------------

  /** `_write_chunk`: a deleted chunk fails; otherwise its size, then its segments in column order. */
  method WriteChunk(table: Table, ofstream: OutputFileStream, chunkId: nat) returns (failure: Option<WriteError>)
    requires chunkId < |table.chunks|
    modifies ofstream
    ensures ofstream.contents == old(ofstream.contents) + ChunkWritten(table.chunks[chunkId]).bytes
    ensures failure == ChunkWritten(table.chunks[chunkId]).failure
  {
    var chunk := table.chunks[chunkId];
    if chunk.None? {
      AppendEmpty(ofstream.contents);
      return Some(DeletedChunk);
    }
    var c := chunk.value;
    ghost var start := ofstream.contents;
    ExportValue(ofstream, CHUNK_OFFSET_WIDTH, c.size);
    ghost var written: Bytes := [];
    assert c.segments[..0] == [];
    AppendEmpty(ofstream.contents);
    var columnId := 0;
    failure := None;
    while columnId < |c.segments|
      invariant 0 <= columnId <= |c.segments| && failure.None?
      invariant SegmentsWritten(c.segments[..columnId]) == Written(written, None)
      invariant ofstream.contents == start + EncodeFixed(CHUNK_OFFSET_WIDTH, c.size) + written
    {
      failure := WriteSegment(c.segments[columnId], ofstream);
      if failure.Some? {
        ChunkStopsAt(start, c, columnId);
        return;
      }
      SegmentsPrefixSnoc(c.segments, columnId);
      AppendAll2(start + EncodeFixed(CHUNK_OFFSET_WIDTH, c.size), written, SegmentWritten(c.segments[columnId]).bytes);
      written := written + SegmentWritten(c.segments[columnId]).bytes;
      columnId := columnId + 1;
    }
    assert c.segments[..columnId] == c.segments;
    ChunkCompletes(start, c);
  }

  /**
   * `write`: opens (and so truncates) the file, writes the header and then
   * every chunk in order; the first failure ends the export.
   */
  method Write(table: Table) returns (ofstream: OutputFileStream, failure: Option<WriteError>)
    ensures fresh(ofstream)
    ensures ofstream.contents == TableWritten(table).bytes
    ensures failure == TableWritten(table).failure
  {
    ofstream := new OutputFileStream.Open();
    WriteHeader(table, ofstream);
    ghost var written: Bytes := [];
    assert table.chunks[..0] == [];
    AppendEmpty(ofstream.contents);
    var chunkId := 0;
    failure := None;
    while chunkId < |table.chunks|
      invariant 0 <= chunkId <= |table.chunks| && failure.None?
      invariant ChunksWritten(table.chunks[..chunkId]) == Written(written, None)
      invariant ofstream.contents == HeaderBytes(table) + written
    {
      failure := WriteChunk(table, ofstream, chunkId);
      if failure.Some? {
        TableStopsAt(table, chunkId);
        return;
      }
      ChunksPrefixSnoc(table.chunks, chunkId);
      AppendAll2(HeaderBytes(table), written, ChunkWritten(table.chunks[chunkId]).bytes);
      written := written + ChunkWritten(table.chunks[chunkId]).bytes;
      chunkId := chunkId + 1;
    }
    assert table.chunks[..chunkId] == table.chunks;
  }
}
