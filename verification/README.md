# Hyrise: binary table export, file types, the Limit-in-EXISTS rule and the SQL pipeline

This project models four pieces of the Hyrise in-memory database in Dafny and
proves properties of them.

- **Binary export** (`BinaryWriter`). A table is written to a file as:
  - a header: the maximum chunk size, the chunk count and the column count,
    then the column type names, the nullability flags and the column names;
  - then every chunk in order: its row count, followed by each of its
    segments in column order.

  Each segment starts with a one-byte encoding tag:
  - Unencoded: the null flags if the segment is nullable, then the values;
  - Dictionary: the attribute-vector width, the dictionary size, the
    dictionary, then the attribute vector;
  - RunLength: the run count, the values, the null flags, then the end
    positions.

  Reference segments are materialized and written as Unencoded segments.
  Integers are written in fixed widths and strings as an array of lengths
  followed by the bytes. The output file stream is a class whose contents
  grow as the export methods append to it. `SegmentFormat` states the bytes
  of every part as functions. A separate decoder, `FormatDecoder`, serves as
  the independent partner for the round-trip lemmas.
- **File types** (`file_type.cpp`). The file type is chosen by the
  extension of a file name, following the `std::filesystem::path` rules for
  the last path component. An IMPORT statement's import type also maps to a
  file type.
- **InsertLimitInExistsRule**. This optimizer rule puts a `LIMIT 1` on top of
  every EXISTS subquery plan whose root is not already a Limit, among the
  expressions that Predicate and Projection nodes hold. It
  reports whether it changed anything. The rule is a set of methods, proved
  against a functional specification of the walk.
- **SQLPipeline**. The constructor cuts a multi-statement SQL string into
  trimmed per-statement strings, using the statement lengths the parser
  reports, and decides whether planning must wait for execution. Lazy
  getters compute per-statement products once and cache them.
  `get_result_tables` is a small state machine over the pipeline status, the
  collected tables and the failed statement. `get_sql` is the field `sql`,
  and `statement_count` is the function `StatementCount`.

Three behaviours of the code are modelled as written, although a reader of
the format might expect otherwise:
- A materialized Reference segment of strings is written as `2n` lengths:
  `n` zeros, then the `n` string lengths. The vector is created with `n`
  entries and then appended to (binary_writer.cpp:168-172). So the
  string-length array of such a segment does not have one entry per string,
  and the bytes differ from those of the equivalent Value segment.
- A Reference segment writes no null flags, whatever the nullability of the
  values it refers to.
- When every string of a non-empty Reference segment is empty, nothing is
  inserted from the string stream. That sets the failbit, and the stream was
  told to throw on it. The model reports this as the `NothingInserted`
  failure.

Because of the first two, the round trip of the format covers Reference
segments only when they hold fixed-width values of a non-nullable column;
nullable and string Reference segments are outside it.

Failures (`Fail`, `Assert`, a throwing stream) are modelled as values. The
writer returns the bytes written so far together with the failure, so the
partial file content is stated exactly. Values of fixed-width types are
natural numbers written little-endian in `sizeof(T)` bytes, truncated the way
`static_cast` to an unsigned type truncates. A signed value such as an
`int32_t` or `int64_t` is modelled by its two's-complement bit pattern,
that is, `v mod 256^w`.

## Model

| member | source | states |
|---|---|---|
| BinaryExport.OutputFileStream.Write | src/lib/import_export/binary/binary_writer.cpp:60-63 | `ofstream.write` appends exactly the given bytes to the stream |
| BinaryExport.OutputFileStream.InsertBuffer | src/lib/import_export/binary/binary_writer.cpp:177 | inserting a string buffer appends it, and fails exactly when the buffer is empty (nothing inserted sets failbit) |
| BinaryExport.ExportValue | src/lib/import_export/binary/binary_writer.cpp:86-90 | appends the value's `w` bytes, truncated to the width |
| BinaryExport.ExportValues | src/lib/import_export/binary/binary_writer.cpp:60-63 | appends the fixed-width encodings of all values in order, with no gaps |
| BinaryExport.ExportBoolValues | src/lib/import_export/binary/binary_writer.cpp:71-77 | appends one byte per bool, 1 for true and 0 for false, in order |
| BinaryExport.ExportStringValues | src/lib/import_export/binary/binary_writer.cpp:34-58 | appends the `size_t` lengths of all strings and then their bytes concatenated; nothing after the lengths when all strings are empty |
| BinaryExport.MeasureStrings | src/lib/import_export/binary/binary_writer.cpp:35-42 | the first loop yields each string's length in order and their total |
| BinaryExport.ConcatenateStrings | src/lib/import_export/binary/binary_writer.cpp:49-55 | the copy loop fills the buffer with exactly the concatenation of the strings |
| BinaryExport.MemCopy | src/lib/import_export/binary/binary_writer.cpp:53 | `memcpy` places the string at `start` and keeps the bytes before and after it |
| BinaryExport.ExportColumn | src/lib/import_export/binary/binary_writer.cpp:60-69 | a value vector goes to the string-array path or the fixed-width path by its type |
| BinaryExport.WriteHeader | src/lib/import_export/binary/binary_writer.cpp:109-127 | appends max chunk size, chunk count and column count, then type names as a string array, nullability bools, column names |
| BinaryExport.WriteValueSegment | src/lib/import_export/binary/binary_writer.cpp:146-155 | appends the Unencoded tag, the null flags only when nullable, then the values |
| BinaryExport.WriteReferenceSegment | src/lib/import_export/binary/binary_writer.cpp:157-185 | appends the Unencoded tag and, when there are rows, the materialized values; strings as `2n` lengths then bytes, failing when no bytes are inserted |
| BinaryExport.WriteReferenceStrings | src/lib/import_export/binary/binary_writer.cpp:166-177 | appends the `n` zeros and `n` lengths, then the characters; fails with nothing inserted exactly when there are no characters |
| BinaryExport.WriteReferenceValues | src/lib/import_export/binary/binary_writer.cpp:179-183 | appends every resolved scalar at its width, in row order |
| BinaryExport.CollectStrings | src/lib/import_export/binary/binary_writer.cpp:166-174 | the lengths vector is `n` zeros followed by the `n` lengths, and the stream holds the concatenated strings |
| BinaryExport.ExportAttributeVector | src/lib/import_export/binary/binary_writer.cpp:238-253 | writes the vector in its 4, 2 or 1 byte width; fails, writing nothing, for any other vector type |
| BinaryExport.WriteDictionarySegment | src/lib/import_export/binary/binary_writer.cpp:187-221 | fails before writing for a missing or non byte-aligned vector type; otherwise appends tag, width, dictionary size, dictionary and attribute vector |
| BinaryExport.WriteRunLengthSegment | src/lib/import_export/binary/binary_writer.cpp:223-236 | appends tag, the run count as 32 bits, values, null flags and end positions |
| BinaryExport.WriteSegment | src/lib/import_export/binary/binary_writer.cpp:136-144 | dispatches on the segment kind; any other segment kind fails without writing |
| BinaryExport.WriteChunk | src/lib/import_export/binary/binary_writer.cpp:129-140 | a deleted chunk fails; otherwise appends the row count and the segments in column order, stopping at the first failing segment |
| BinaryExport.Write | src/lib/import_export/binary/binary_writer.cpp:96-107 | a fresh stream ends up holding the header and then the chunks in id order, stopping at the first failure, which is returned |
| FixedWidth.EncodeFixed | src/lib/import_export/binary/binary_writer.cpp:86-90 | a fixed-width value occupies exactly its width in bytes |
| FixedWidth.DecodeEncodeFixed | src/lib/import_export/binary/binary_writer.cpp:110-112 | reading back a written value gives it modulo `256^w`: the `static_cast` truncation |
| FixedWidth.DecodeEncodeFits | src/lib/import_export/binary/binary_writer.cpp:86-90 | a value that fits its width reads back unchanged |
| FixedWidth.EncodeFixedTruncates | src/lib/import_export/binary/binary_writer.cpp:110-112 | writing a value and writing its truncation produce the same bytes |
| PrimitiveCodec.FixedArrayLength | src/lib/import_export/binary/binary_writer.cpp:62 | an array of `n` values of width `w` takes `w * n` bytes |
| PrimitiveCodec.FixedArrayAt | src/lib/import_export/binary/binary_writer.cpp:60-63 | value `i` sits at bytes `w*i .. w*i+w` |
| PrimitiveCodec.FixedArrayRoundTrip | src/lib/import_export/binary/binary_writer.cpp:60-63 | fitting values read back in order, with whatever follows left untouched |
| PrimitiveCodec.BoolArrayLayout | src/lib/import_export/binary/binary_writer.cpp:71-77 | as many bytes as bools, byte `i` is 1 exactly when bool `i` is true |
| PrimitiveCodec.BoolArrayRoundTrip | src/lib/import_export/binary/binary_writer.cpp:71-77 | a bool array reads back unchanged |
| PrimitiveCodec.FlattenLength | src/lib/import_export/binary/binary_writer.cpp:39-42 | the concatenation is as long as the sum of the string lengths |
| PrimitiveCodec.StringArrayLayout | src/lib/import_export/binary/binary_writer.cpp:34-58 | total size is `8n` plus the sum of lengths; entry `i` holds the length of string `i`; string `i` sits after the lengths and the earlier strings |
| PrimitiveCodec.StringArrayLengthAt | src/lib/import_export/binary/binary_writer.cpp:39-44 | length entry `i` encodes the length of string `i` |
| PrimitiveCodec.StringArrayStringAt | src/lib/import_export/binary/binary_writer.cpp:49-57 | string `i` is found right after the length array and the earlier strings, with no separators |
| PrimitiveCodec.EmptyStringsWriteOnlyLengths | src/lib/import_export/binary/binary_writer.cpp:46-47 | all-empty strings give exactly `n` zero lengths of 8 bytes each |
| PrimitiveCodec.TakeStringsRoundTrip | src/lib/import_export/binary/binary_writer.cpp:49-57 | cutting the concatenation by the lengths gives back the strings |
| PrimitiveCodec.StringArrayRoundTrip | src/lib/import_export/binary/binary_writer.cpp:34-58 | a string array whose lengths fit `size_t` reads back unchanged |
| SegmentFormat.VectorWidth | src/lib/import_export/binary/binary_writer.cpp:195-208 | the width is 4, 2 or 1 exactly for the byte-aligned vector types, and 0 otherwise |
| SegmentFormat.SegmentFailsIffNotExportable | src/lib/import_export/binary/binary_writer.cpp:142-144 | a segment fails exactly when its kind is unsupported, its dictionary vector is not byte-aligned, or it is a non-empty all-empty string reference |
| SegmentFormat.SegmentsLayout | src/lib/import_export/binary/binary_writer.cpp:135-139 | the segments succeed iff each does, and then their bytes are concatenated in column order |
| SegmentFormat.ChunkLayout | src/lib/import_export/binary/binary_writer.cpp:129-140 | a chunk succeeds iff it exists and its segments do, and then it is its row count followed by its segments |
| SegmentFormat.ChunksLayout | src/lib/import_export/binary/binary_writer.cpp:103-105 | the chunks succeed iff each does, and then they are concatenated in id order |
| SegmentFormat.TableLayout | src/lib/import_export/binary/binary_writer.cpp:96-107 | an exportable table is its header followed by all chunks, with no padding |
| SegmentFormat.ChunkPosition | src/lib/import_export/binary/binary_writer.cpp:103-105 | in the exported layout, a present chunk `i` sits right after the header and chunks `0..i-1` |
| SegmentFormat.SegmentPosition | src/lib/import_export/binary/binary_writer.cpp:132-139 | a chunk starts with its row count; segment `j` sits after it and segments `0..j-1` |
| SegmentFormat.SegmentFailureIsFinal | src/lib/import_export/binary/binary_writer.cpp:135-139 | after the first failing segment nothing more of the chunk is written |
| SegmentFormat.FailureIsFinal | src/lib/import_export/binary/binary_writer.cpp:103-105 | after the first failing chunk nothing more of the table is written |
| SegmentFormat.DeletedChunkStopsExport | src/lib/import_export/binary/binary_writer.cpp:130-131 | a deleted chunk after exportable ones leaves the header and the earlier chunks, and fails |
| SegmentFormat.ReferenceWritesNoNullFlags | src/lib/import_export/binary/binary_writer.cpp:157-183 | a fixed-width reference segment writes what a non-nullable value segment with the same values writes |
| SegmentFormat.ReferenceStringsAsWritten | src/lib/import_export/binary/binary_writer.cpp:166-177 | it succeeds iff some string is non-empty, and then it is the tag, `n` zero lengths and the string array of the values |
| FormatDecoder.ReadFixedRoundTrip | src/lib/import_export/binary/binary_writer.cpp:86-90 | a value that fits reads back, leaving the rest |
| FormatDecoder.ColumnRoundTrip | src/lib/import_export/binary/binary_writer.cpp:60-69 | a value vector reads back by its kind and size |
| FormatDecoder.ValueSegmentRoundTrip | src/lib/import_export/binary/binary_writer.cpp:146-155 | a well-formed value segment reads back unchanged |
| FormatDecoder.DictionarySegmentRoundTrip | src/lib/import_export/binary/binary_writer.cpp:187-221 | an exportable dictionary segment reads back with the same dictionary, vector type and attribute vector |
| FormatDecoder.RunLengthSegmentRoundTrip | src/lib/import_export/binary/binary_writer.cpp:223-236 | a run-length segment reads back unchanged |
| FormatDecoder.ReferenceSegmentRoundTrip | src/lib/import_export/binary/binary_writer.cpp:179-183 | a fixed-width reference segment in a non-nullable column reads back as the value segment of its materialized values |
| FormatDecoder.SegmentRoundTrip | src/lib/import_export/binary/binary_writer.cpp:136-139 | every segment that reads back does so as its materialization |
| FormatDecoder.ParseDataTypeRoundTrip | src/lib/import_export/binary/binary_writer.cpp:120 | every data type's name parses back to it |
| FormatDecoder.ParseDataTypesRoundTrip | src/lib/import_export/binary/binary_writer.cpp:119-124 | the column type names parse back to the column types |
| FormatDecoder.HeaderRoundTrip | src/lib/import_export/binary/binary_writer.cpp:109-127 | the header reads back as max chunk size, chunk count and column definitions |
| FormatDecoder.SegmentsRoundTrip | src/lib/import_export/binary/binary_writer.cpp:135-139 | a chunk's segments read back in column order |
| FormatDecoder.ChunkRoundTrip | src/lib/import_export/binary/binary_writer.cpp:129-140 | a chunk reads back as its materialization |
| FormatDecoder.ChunksRoundTrip | src/lib/import_export/binary/binary_writer.cpp:103-105 | the chunks read back in id order |
| FormatDecoder.TableRoundTrip | src/lib/import_export/binary/binary_writer.cpp:96-107 | a table that reads back is written without failure and decodes to its materialization |
| FileTypes.ImportTypeToFileType | src/lib/import_export/file_type.cpp:7-14 | CSV imports are CSV files, TBL imports are TBL files, and no import is binary |
| FileTypes.FileName | src/lib/import_export/file_type.cpp:17 | the last path component: a suffix of the path without `/` that is the whole path or follows a `/` |
| FileTypes.Extension | src/lib/import_export/file_type.cpp:17 | the extension is empty exactly when the last component is `.` or `..` or has no dot after its first character; otherwise it is the suffix of the last component from its last dot, which is not the component's first character |
| FileTypes.FileTypeFromFilename | src/lib/import_export/file_type.cpp:16-26 | a file name is accepted only as the file type whose extension is its own; otherwise the error names the extension, and no file type has it |
| FileTypes.FileTypeOfExtension | src/lib/import_export/file_type.cpp:18-25 | an accepted extension is the accepted file type's; a rejected one is no file type's and is named in the error |
| FileTypes.ExtensionClassified | src/lib/import_export/file_type.cpp:18-25 | an extension is accepted iff it is `.csv`, `.tbl` or `.bin`, as that file type; any other is rejected with a message naming it, compared exactly |
| FileTypes.ClassifiedByExtension | src/lib/import_export/file_type.cpp:16-26 | a file name is classified iff its extension is some file type's, as that type; otherwise the error names the extension |
| FileTypes.SelectsByExtension | src/lib/import_export/file_type.cpp:18-23 | the extension of a file type selects that type |
| FileTypes.ExtensionOfLastComponent | src/lib/import_export/file_type.cpp:17 | the extension depends on the last path component alone |
| FileTypes.ExtensionAfterName | src/lib/import_export/file_type.cpp:17 | a non-empty name followed by a dot suffix has that suffix as its extension |
| FileTypes.AppendedExtensionSelects | src/lib/import_export/file_type.cpp:16-24 | appending `.csv`, `.tbl` or `.bin` to a name selects that type, whatever dots come earlier |
| FileTypes.DirectoryDotsIgnored | src/lib/import_export/file_type.cpp:17-25 | a last component without a dot fails with an empty extension, even under a directory such as `dir.bin` |
| FileTypes.TrailingDotIsExtension | src/lib/import_export/file_type.cpp:17-25 | a last component ending in a dot, other than `.` and `..`, has the extension `.` and fails |
| FileTypes.HiddenFileHasNoExtension | src/lib/import_export/file_type.cpp:17-25 | a hidden file such as `.csv` has no extension and fails |
| InsertLimitInExists.NodeRewrite | src/lib/optimizer/strategy/insert_limit_in_exists.cpp:15-24 | after the rule every examined EXISTS has a Limit root; the flag is set iff that was not already so; an already limited plan is left unchanged; the result is the input with a `LIMIT 1` inserted over the old root of each examined EXISTS plan not rooted at a Limit, and every other node (its kind, row count, unexamined expressions and inputs in order) and every other expression kept, user-written Limits included |
| InsertLimitInExists.NodesRewrite | src/lib/optimizer/strategy/insert_limit_in_exists.cpp:22 | the same for a list of inputs: each input in order, with the same insert-only relation |
| InsertLimitInExists.ExprRewrite | src/lib/optimizer/strategy/insert_limit_in_exists.cpp:28-41 | the same for one expression: an EXISTS over a plan not rooted at a Limit gets exactly one new `LIMIT 1` over its old plan, keeps its parameters, and every other expression keeps its kind and parts |
| InsertLimitInExists.ExprsRewrite | src/lib/optimizer/strategy/insert_limit_in_exists.cpp:26-44 | the same for a list of expressions: each in order, with the same insert-only relation |
| InsertLimitInExists.ChangedIffDifferent | src/lib/optimizer/strategy/insert_limit_in_exists.cpp:15-44 | the rule reports a change exactly when the plan it returns differs from its input |
| InsertLimitInExists.Idempotent | src/lib/optimizer/strategy/insert_limit_in_exists.cpp:32-37 | applying the rule to its own output changes nothing and reports no change |
| InsertLimitInExists.WrapCommutes | src/lib/optimizer/strategy/insert_limit_in_exists.cpp:36-41 | walking the new Limit node walks its input and nothing else |
| InsertLimitInExists.ApplyToNode | src/lib/optimizer/strategy/insert_limit_in_exists.cpp:15-24 | `apply_to` on a node computes the specified rewrite and flag |
| InsertLimitInExists.ApplyToInputs | src/lib/optimizer/strategy/insert_limit_in_exists.cpp:22 | the inputs are rewritten in order, with the flags OR-ed |
| InsertLimitInExists.ApplyToExpressions | src/lib/optimizer/strategy/insert_limit_in_exists.cpp:26-44 | the loop rewrites each expression in order, with the flags OR-ed |
| InsertLimitInExists.ApplyToExpression | src/lib/optimizer/strategy/insert_limit_in_exists.cpp:29-41 | a non-Limit EXISTS plan gets a one-row Limit; subquery plans and arguments are walked |
| SqlPipeline.TrimLeftDropsLeadingSpace | src/lib/sql/sql_pipeline.cpp:80 | left trimming drops a whitespace prefix and stops at the first non-space |
| SqlPipeline.TrimRightDropsTrailingSpace | src/lib/sql/sql_pipeline.cpp:80 | right trimming drops a whitespace suffix and stops at the last non-space |
| SqlPipeline.TrimRemovesOnlyWhitespace | src/lib/sql/sql_pipeline.cpp:80 | `trim_copy` keeps an infix and removes only whitespace; the result starts and ends with a non-space |
| SqlPipeline.TrimIdempotent | src/lib/sql/sql_pipeline.cpp:80 | trimming a trimmed statement string changes nothing |
| SqlPipeline.OffsetMonotone | src/lib/sql/sql_pipeline.cpp:56-81 | the statement offset only moves forward |
| SqlPipeline.RawPiece | src/lib/sql/sql_pipeline.cpp:79-81 | the untrimmed text of statement `i` has exactly the length the parser reported |
| SqlPipeline.StatementStringTrimmed | src/lib/sql/sql_pipeline.cpp:79-80 | statement string `i` is its raw piece with only whitespace removed from either end, and neither starts nor ends with whitespace |
| SqlPipeline.PiecesTile | src/lib/sql/sql_pipeline.cpp:56-81 | the raw pieces laid end to end are exactly a prefix of the SQL text |
| SqlPipeline.StatementsFollowParse | src/lib/sql/sql_pipeline.cpp:44-87 | one pipeline statement per parsed statement in parse order, holding its statement string and parse result |
| SqlPipeline.AnyAlteringExists | src/lib/sql/sql_pipeline.cpp:51-76 | the flag scanned statement by statement is set iff one of the scanned statements is an Import, Create, Drop, Alter or Rename |
| SqlPipeline.SplitStatements | src/lib/sql/sql_pipeline.cpp:51-87 | the splitting loop builds those statements and notes whether any statement alters the schema |
| SqlPipeline.FirstRolledBack | src/lib/sql/sql_pipeline.cpp:221-223 | the first statement that rolled back, or none when none did |
| SqlPipeline.RunStatements | src/lib/sql/sql_pipeline.cpp:219-241 | a run ends in Success or RolledBack; it fails iff a statement is named; a success adds one table per statement |
| SqlPipeline.ExecuteStatements | src/lib/sql/sql_pipeline.cpp:219-241 | the result loop computes that run |
| SqlPipeline.SuccessKeepsEveryTable | src/lib/sql/sql_pipeline.cpp:235-241 | on success the tables are the earlier ones then one per statement, in statement order, and no statement rolled back |
| SqlPipeline.RollbackStopsAtFirstFailure | src/lib/sql/sql_pipeline.cpp:221-233 | RolledBack iff some statement rolls back; the first one is recorded; tables are cleared under a transaction context and otherwise are those before it |
| SqlPipeline.SQLPipeline.constructor | src/lib/sql/sql_pipeline.cpp:17-92 | the statements follow the parse, execution is required iff some statement alters the schema among several, and caches start empty |
| SqlPipeline.SQLPipeline.StatementCount | src/lib/sql/sql_pipeline.cpp:255 | a pipeline has at least one statement, one per parse result, and a single statement never requires execution first |
| SqlPipeline.SQLPipeline.RequiresExecutionFlag | src/lib/sql/sql_pipeline.cpp:257 | set exactly when there are several statements and one of them is an Import, Create, Drop, Alter or Rename |
| SqlPipeline.SQLPipeline.MustExecuteFirst | src/lib/sql/sql_pipeline.cpp:127-129 | the getters' Assert fires exactly while nothing has run, there are several statements and one of them alters the schema |
| SqlPipeline.SQLPipeline.GetSqlPerStatement | src/lib/sql/sql_pipeline.cpp:96-107 | returns the statement strings, filling the cache once |
| SqlPipeline.SQLPipeline.GetParsedSqlStatements | src/lib/sql/sql_pipeline.cpp:109-120 | returns the parse results, filling the cache once |
| SqlPipeline.SQLPipeline.GetUnoptimizedLogicalPlans | src/lib/sql/sql_pipeline.cpp:122-137 | a filled cache is returned as is; otherwise fails when execution must come first, else fills it with every statement's plan |
| SqlPipeline.SQLPipeline.GetOptimizedLogicalPlans | src/lib/sql/sql_pipeline.cpp:139-162 | as above for the optimized plans; filling them empties the unoptimized-plan cache |
| SqlPipeline.SQLPipeline.GetPhysicalPlans | src/lib/sql/sql_pipeline.cpp:164-179 | as above for the physical plans |
| SqlPipeline.SQLPipeline.GetTasks | src/lib/sql/sql_pipeline.cpp:181-196 | as above for the tasks |
| SqlPipeline.SQLPipeline.GetResultTables | src/lib/sql/sql_pipeline.cpp:214-242 | a pipeline that has run returns its stored status and tables; otherwise it runs the statements, records a rollback without leaving NotExecuted, and becomes Success otherwise |
| SqlPipeline.SQLPipeline.GetResultTable | src/lib/sql/sql_pipeline.cpp:198-207 | runs as `get_result_tables` does, with the same status, tables and failed statement; on success it returns the last collected table, which on a first run is the last statement's table; no table on any other status |

## Left out

- Opening, closing and the exception mask of the output file stream (binary_writer.cpp:97-99, 106) are left out. The stream is an in-memory byte sequence, and only the failure the code can provoke (nothing inserted) is modelled.
- Float and double values are opaque natural numbers of their width; their bit patterns are not modelled.
- Byte order is taken to be little-endian, the native order of the machines Hyrise runs on.
- The widths of the type aliases (`ChunkOffset`, `ChunkID`, `ColumnID`, `ValueID`, `AttributeVectorWidth`, `EncodingType`, `BoolAsByteType`) come from headers that are not part of this model. They are named constants with Hyrise's values.
- `FormatDecoder` is not Hyrise code. It is a reader written only as the partner of the writer for the round-trip lemmas. The real binary parser is not part of this model.
- `_size` (binary_writer.cpp:255-263) is used only on the string path, where it is the string's length. Its generic `sizeof` branch is never reached and is not modelled.
- `resolve_data_and_segment_type` and segment iteration are taken as given. A segment arrives already resolved to its kind, with its values in row order. A reference segment arrives with its values already materialized.
- WriteReferenceSegment: a 32-bit or 64-bit length whose value does not fit is written truncated, like every fixed-width value.
- ExportStringValues: the `size_t` wrap-around of `total_length` (binary_writer.cpp:41) is not modelled; the total is an unbounded count.
- InsertLimitInExists.ApplyToNode: plans are trees of values. Sharing of sub-plans between several parents, and the in-place update of a subquery's plan that other holders would see, are not modelled.
- InsertLimitInExists.ApplyToInputs: `_apply_to_inputs` is defined outside the rule. It is modelled as applying the rule to every input in order and OR-ing the flags.
- The rule's `name()` is not modelled.
- The SQL parser is a parameter: the kind and the text length of each statement. The constructor takes the case of a valid, non-empty parse. Invalid SQL (`AssertInput`, sql_pipeline.cpp:41) is not modelled.
- Parse timing, DTRACE probes and the metrics (sql_pipeline.cpp:34-39, 259-298) are not modelled.
- The `DebugAssert`s on the transaction context and on statement statuses are not modelled. A statement result other than RolledBack is treated as Success, as a release build does.
- SqlPipeline.SQLPipeline.constructor: the parser's statement lengths are required to lie within the SQL text. `std::string::substr` clipping a length that runs past the end, or throwing for an offset past the end, is not modelled. Nor is the wrap-around of the 32-bit `sql_string_offset`.
- What each pipeline statement yields (plans, tasks, result status and table) is fixed per statement. The model stores it in the statement as opaque handles, because the per-statement translation, optimization, compilation and execution are not part of this model.
- The rvalue overloads of `get_result_table` and `get_result_tables` only copy the result, and are not modelled separately.
- `transaction_context()` is not modelled: the model records only whether a transaction context exists.
- `failed_pipeline_statement()` is the field `failedStatement`, an index instead of a pointer.
