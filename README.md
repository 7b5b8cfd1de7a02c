# CubeStore SQL value layer and S3 key mapping, in Dafny

This project models two small pure parts of CubeStore, the storage engine of
cube.js, and proves properties about them:

* the value-conversion and validation layer of the SQL service
  (`rust/cubestore/src/sql/mod.rs`): mapping SQL column types to CubeStore
  column types, decoding hex and binary literals, converting INSERT cells,
  scattering each INSERT row into table order, chunking rows for the
  write-ahead log (WAL), the character classes of the MySQL dialect, the
  fixed answers to workbench probes, and the checks `exec_query` makes on a
  parsed statement before it calls the meta store, the WAL store or the
  query planner;
* the key mapping of the S3 remote file system
  (`rust/cubestore/src/remotefs/s3.rs`): remote paths become bucket keys
  under an optional sub-path, and listed keys are mapped back.

The SQL text parser is not modelled: parsed SQL is a datatype (`SqlTypes`,
`SqlService.Statement`) and `SqlService.ExecQuery` takes the parser as a
parameter. Every call into a store is returned as a `SqlService.Action`
naming its arguments. Foreign code is passed in as total functions: the
decimal/float parser, datafusion's timestamp parser and the HyperLogLog
sketch reader (`SqlTypes.Oracles`), and the RFC 3339 parser (`S3`).
Errors are a datatype (`SqlTypes.Error`) whose constructors name the user
error the source reports and carry its payload. A Rust panic is the error
`Panicked(..)`: an index out of bounds, or `chunks(0)`.

Modules, one per file:

| file | module | models |
|---|---|---|
| wrappers.dfy | `Wrappers` | `Option` and `Result` |
| text.dfy | `Text` | UTF-8 bytes of a string, ASCII lower-casing, `str::split` on one character |
| int64.dfy | `Int64` | `i64::from_str` and decimal formatting |
| hex.dfy | `Hex` | `decode_byte` and pairwise hex decoding by `from_hex` |
| sql_types.dfy | `SqlTypes` | parsed SQL values, column types, table values, errors |
| columns.dfy | `ColumnConversion` | `convert_columns_type` |
| cells.dfy | `Cells` | `parse_binary_string`, `parse_hyper_log_log`, `extract_data` |
| chunk.dfy | `Chunk` | `parse_chunk` |
| insert.dfy | `Insert` | `insert_data` and WAL chunking |
| dialect.dfy | `Dialect` | `MySqlDialectWithBackTicks` |
| workbench.dfy | `Workbench` | `handle_workbench_queries` |
| service.dfy | `SqlService` | `exec_query`: quote rewrite, statement checks |
| s3.dfy | `S3` | `s3_path`, `list_with_metadata`, `list` |

The imperative parts of the source are imperative here. `convert_columns_type`,
`parse_chunk` (over a fresh `array` per row) and the two loops of
`insert_data` are methods with loop invariants. Each is proved equal to a
specification function (`ConvertedColumns`, `ParseRow`/`ParseRows`,
`WalWrites`). The properties are lemmas about those functions.

## Model

| member | source | states |
|---|---|---|
| Text.ToLower | rust/cubestore/src/sql/mod.rs:269 | lower-casing keeps the length, works character by character, and leaves no upper-case ASCII letter |
| Text.ToLowerIdempotent | rust/cubestore/src/sql/mod.rs:269 | lower-casing an already lowered text changes nothing |
| Text.ToLowerEqualIffIgnoringCase | rust/cubestore/src/sql/mod.rs:473 | two texts lower to the same text iff they differ only in the case of ASCII letters (stated without lower-casing) |
| Text.Utf8StringAppend | rust/cubestore/src/sql/mod.rs:512 | the UTF-8 bytes of a concatenation are the concatenated bytes |
| Text.Utf8StringAscii | rust/cubestore/src/sql/mod.rs:538 | an ASCII string's bytes are its character codes, one per character |
| Text.JoinSplit | rust/cubestore/src/sql/mod.rs:543 | joining the pieces of `split(sep)` with `sep` gives back the string |
| Text.SplitPiecesHaveNoSeparator | rust/cubestore/src/sql/mod.rs:543 | no piece of `split(sep)` contains `sep` |
| Text.SplitJoin | rust/cubestore/src/sql/mod.rs:543 | splitting a join of separator-free pieces gives back the pieces |
| Hex.DecodeHexDigit | rust/cubestore/src/sql/mod.rs:516-521 | a byte has a digit value iff it is 0-9, A-F or a-f, and the value is below 16 |
| Hex.DecodeByte | rust/cubestore/src/sql/mod.rs:511-525 | `decode_byte` of a quoted-binary piece; its meaning is stated by `Hex.DecodeByteSpec` and its inverse by `Hex.DecodeEncodeByte` |
| Hex.FromHex | rust/cubestore/src/sql/mod.rs:551 | odd length fails with OddLength and only then; a success has half as many bytes as the input; an invalid character is reported with its position and value |
| Hex.DecodeByteSpec | rust/cubestore/src/sql/mod.rs:511-525 | `decode_byte` succeeds iff the text is exactly two hex digits, either case, and yields 16·hi + lo |
| Hex.DecodeEncodeByte | rust/cubestore/src/sql/mod.rs:511-525 | `decode_byte` inverts two-digit lower-case hex encoding of every byte |
| Hex.EncodeDecodeByte | rust/cubestore/src/sql/mod.rs:511-525 | re-encoding a decoded byte gives the input, lower-cased |
| Hex.FromHexToHex | rust/cubestore/src/sql/mod.rs:551 | a hex literal of any byte string decodes back to that byte string |
| Hex.FromHexMixedCase | rust/cubestore/src/sql/mod.rs:1923-1937 | X'deADbeef' decodes to de ad be ef |
| Int64.ParseI64 | rust/cubestore/src/sql/mod.rs:579 | every parsed value is in the i64 range, a negative one needs a leading '-', and Empty is reported exactly for the empty text |
| Int64.ParseI64Spec | rust/cubestore/src/sql/mod.rs:579 | `parse::<i64>` succeeds iff after an optional sign there is a non-empty run of digits whose signed value is in the i64 range, and returns that value |
| Int64.ParseI64InRange | rust/cubestore/src/sql/mod.rs:579 | every parsed value is in the i64 range |
| Int64.ParseFormat | rust/cubestore/src/sql/mod.rs:579 | parsing the decimal text of any i64 gives it back |
| ColumnConversion.ColumnTypeOf | rust/cubestore/src/sql/mod.rs:436-488 | a type is refused iff it is RegClass or a custom name that lowers to none of mediumint, varbinary, hyperloglog; HyperLogLog comes only from a custom name; a Decimal comes only from DECIMAL and has scale ≤ precision ≤ 18 |
| ColumnConversion.DecimalType | rust/cubestore/src/sql/mod.rs:449-465 | DECIMAL defaults to (18, 5); the result has scale ≤ precision ≤ 18, and scale in 0..5 or exactly 10 |
| ColumnConversion.DecimalTypeKeepsSupported | rust/cubestore/src/sql/mod.rs:449-465 | a supported precision and scale are kept as written |
| ColumnConversion.DecimalTypeLargeScale | rust/cubestore/src/sql/mod.rs:455-460 | a scale above 5 becomes 10, and precision is raised to at least 10 |
| ColumnConversion.CustomTypeCaseInsensitive | rust/cubestore/src/sql/mod.rs:472-481 | a supported custom type name is recognised in any letter case |
| ColumnConversion.FirstRefusedFrom | rust/cubestore/src/sql/mod.rs:433-492 | finds the first column at or after a position whose type is refused |
| ColumnConversion.ConvertedColumns | rust/cubestore/src/sql/mod.rs:430-494 | conversion succeeds iff every type converts; then one column per definition with its name, its converted type and index = position; otherwise the first refused type's error |
| ColumnConversion.ConvertColumnsType | rust/cubestore/src/sql/mod.rs:430-494 | the loop fails iff some type is refused (Regclass, an unknown custom type), with the first one's error; else one column per input, name kept, index i; it equals `ConvertedColumns` |
| Cells.ParseBinaryString | rust/cubestore/src/sql/mod.rs:536-557 | a number always converts; only numbers, quoted strings and hex literals convert; a failure is CannotConvertToBinary of the value, or InvalidHex for a hex literal |
| Cells.DecodeAll | rust/cubestore/src/sql/mod.rs:545-550 | decoding the pieces succeeds iff every piece decodes, with one byte per piece in order |
| Cells.QuotedBinarySpec | rust/cubestore/src/sql/mod.rs:542-550 | a quoted string converts iff every non-empty space-separated piece is a byte in hex, giving one byte per piece |
| Cells.BinaryStringRoundTrip | rust/cubestore/src/sql/mod.rs:542-550 | the space-separated hex of any byte string converts back to it |
| Cells.QuotedBinaryExample | rust/cubestore/src/sql/mod.rs:1923-1934 | '01 ff 1a' converts to [1, 255, 26] |
| Cells.NumberBinaryExample | rust/cubestore/src/sql/mod.rs:1939-1942 | the number 456 converts to the bytes of "456" |
| Cells.ParseHyperLogLog | rust/cubestore/src/sql/mod.rs:527-534 | succeeds iff the value is a binary string and the sketch reader accepts its bytes, returning those bytes; otherwise the binary-string error, or the sketch reader's error |
| Cells.IntCell | rust/cubestore/src/sql/mod.rs:576-603 | an accepted Int cell is in the i64 range; which cells are accepted is stated by `Cells.IntColumnAccepts` and `Cells.IntColumnRoundTrip` |
| Cells.ExtractData | rust/cubestore/src/sql/mod.rs:559-656 | a value is Null iff the cell is NULL; a non-NULL cell past the end of the columns panics; an accepted non-NULL cell has the variant of its column type, an Int within the i64 range |
| Cells.Negate64 | rust/cubestore/src/sql/mod.rs:586 | `v * -1` stays in the i64 range and is −v except at the minimum |
| Cells.NullForEveryColumn | rust/cubestore/src/sql/mod.rs:560-562 | a NULL cell is Null for every column type and any column position |
| Cells.IntColumnRoundTrip | rust/cubestore/src/sql/mod.rs:576-603 | an Int column accepts any i64 written as a number or quoted string, and as a negated number |
| Cells.IntColumnAccepts | rust/cubestore/src/sql/mod.rs:576-603 | an Int column accepts only NULL, a number, a quoted string or a negated number |
| Cells.NegativeNumberExample | rust/cubestore/src/sql/mod.rs:905-914 | −153 is stored as Int(−153) |
| Cells.BooleanColumn | rust/cubestore/src/sql/mod.rs:637-648 | a quoted string is true iff its lower-case form is "true"; a boolean literal is itself; anything else is an error |
| Cells.StringColumn | rust/cubestore/src/sql/mod.rs:565-575 | a String column accepts exactly the quoted strings, keeping their text; anything else is SingleQuotedStringExpected |
| Chunk.StepCell | rust/cubestore/src/sql/mod.rs:500-502 | storing one converted cell keeps the row's width |
| Chunk.ParseRow | rust/cubestore/src/sql/mod.rs:499-502 | a converted row is as wide as the listed columns (not the table); its contents are stated by `Chunk.RowPrefixOk`, `Chunk.RowPrefixUnwritten` and `Chunk.RowPrefixLastWriter` |
| Chunk.ParseRows | rust/cubestore/src/sql/mod.rs:496-509 | one converted row per input row; row k is stated by `Chunk.ParseRowsAt` |
| Chunk.RowPrefixOk | rust/cubestore/src/sql/mod.rs:500-502 | a row converts iff every cell converts and its column's index lies inside the row |
| Chunk.RowPrefixUnwritten | rust/cubestore/src/sql/mod.rs:499-502 | positions no cell is written to stay Int(0) |
| Chunk.RowPrefixLastWriter | rust/cubestore/src/sql/mod.rs:500-502 | cell i is found at position `column[i].index` unless a later cell writes there |
| Chunk.ConvertedCellsOnlyPanic | rust/cubestore/src/sql/mod.rs:500-502 | when every cell converts, a row can fail only with the index-out-of-bounds panic of storing a cell |
| Chunk.NarrowListPanics | rust/cubestore/src/sql/mod.rs:499-502 | a cell whose table position is at or past the number of listed columns panics with IndexOutOfBounds, as when a strict subset of the table's columns is listed |
| Chunk.SubsetInsertExample | rust/cubestore/src/sql/mod.rs:499-502 | example: for table (a, b), `INSERT INTO t (b) VALUES (NULL)` panics |
| Chunk.ParseRowsAt | rust/cubestore/src/sql/mod.rs:498-504 | output row k is the conversion of input row k |
| Chunk.ReorderedColumnsLandInTableOrder | rust/cubestore/src/sql/mod.rs:843-846 | with a reordering of the table's columns, each cell lands at its column's table position |
| Chunk.FillRow | rust/cubestore/src/sql/mod.rs:499-503 | the array-filling loop computes `ParseRow` |
| Chunk.ParseChunk | rust/cubestore/src/sql/mod.rs:496-509 | `parse_chunk` fails iff some row fails, with the first error; else the frame of the listed columns and one converted row per input row |
| Insert.FindColumn | rust/cubestore/src/sql/mod.rs:181-183 | the first table column with the given name, or none when no column has it |
| Insert.Chunks | rust/cubestore/src/sql/mod.rs:194-199 | no chunk is empty and none is longer than n; there are chunks iff there are rows |
| Insert.WalWrites | rust/cubestore/src/sql/mod.rs:194-207 | at most one frame per chunk, one per chunk when nothing fails, each over the listed columns |
| Insert.ChunksSpec | rust/cubestore/src/sql/mod.rs:194-199 | chunking loses and reorders no row; each chunk is non-empty and at most n long, all but the last exactly n |
| Insert.WalWritesAreParseRows | rust/cubestore/src/sql/mod.rs:194-203 | writing chunk by chunk fails iff converting all rows at once fails, with the same error, and otherwise writes exactly those rows |
| Insert.ResolveColumns | rust/cubestore/src/sql/mod.rs:178-191 | every listed column must be in the table; the first one that is not is reported with schema and table |
| Insert.WriteChunks | rust/cubestore/src/sql/mod.rs:194-203 | the chunk loop hands the log the frames of `WalWrites` and stops at the first failing chunk |
| Insert.InsertData | rust/cubestore/src/sql/mod.rs:165-225 | an unknown column fails before any write; a zero chunk size panics; otherwise the written frames are `WalWrites`, then a failed job gives InsertJobFailed, else the row count; an empty insert writes nothing and returns 0 |
| Dialect.IsDelimitedIdentifierStart | rust/cubestore/src/sql/mod.rs:232-234 | a double quote or a back-tick opens a delimited identifier; see `Dialect.DelimitersAreNotIdentifierCharacters` |
| Dialect.IsIdentifierStart | rust/cubestore/src/sql/mod.rs:236-245 | ASCII letters, '_', '$' and U+0080..U+FFFF start an identifier; see `Dialect.IdentifierCharactersOutsideAscii` |
| Dialect.IsIdentifierPart | rust/cubestore/src/sql/mod.rs:247-249 | identifier starts and ASCII digits continue one; see `Dialect.PartIsStartOrDigit` |
| Dialect.PartIsStartOrDigit | rust/cubestore/src/sql/mod.rs:236-249 | every identifier start is an identifier part, and the only other parts are the ASCII digits |
| Dialect.DelimitersAreNotIdentifierCharacters | rust/cubestore/src/sql/mod.rs:231-250 | double quote and back-tick delimit identifiers and are not identifier characters |
| Dialect.IdentifierCharactersOutsideAscii | rust/cubestore/src/sql/mod.rs:236-249 | characters above U+FFFF are not identifier characters; ASCII ones are letters, digits, '_' and '$' only |
| Workbench.HandleWorkbenchQueries | rust/cubestore/src/sql/mod.rs:2080-2143 | every answer is a well-formed frame with at most one row; which queries are answered is stated by `Workbench.WorkbenchAnswers` |
| Workbench.WorkbenchAnswers | rust/cubestore/src/sql/mod.rs:2080-2143 | a query is answered iff it is one of the two SHOW SESSION probes exactly or lower-cases to one of the six others; every answer is a well-formed frame of String columns with at most one row |
| Workbench.WorkbenchIgnoresCase | rust/cubestore/src/sql/mod.rs:2105-2141 | apart from the two exact probes, the answer depends only on the lower-cased query |
| SqlService.EscapeQuotes | rust/cubestore/src/sql/mod.rs:262 | the rewrite keeps the query's length; what it changes is stated by the five `EscapeQuotes` lemmas below |
| SqlService.EscapeQuotesPointwise | rust/cubestore/src/sql/mod.rs:262 | the rewrite keeps the length and changes a character only by turning a backslash that precedes a quote into a quote |
| SqlService.EscapeQuotesKeeps | rust/cubestore/src/sql/mod.rs:262 | every character other than a backslash is kept at its position |
| SqlService.EscapeQuotesRewritesPairs | rust/cubestore/src/sql/mod.rs:262 | every backslash-quote pair becomes two quotes |
| SqlService.EscapeQuotesRemovesPairs | rust/cubestore/src/sql/mod.rs:262 | without a doubled backslash in the query, the parsed text holds no backslash-quote pair |
| SqlService.EscapeQuotesWithoutBackslash | rust/cubestore/src/sql/mod.rs:262 | a query without backslashes is parsed as it is |
| SqlService.EscapeQuotesExample | rust/cubestore/src/sql/mod.rs:262 | `it\'s` becomes `it''s` |
| SqlService.IndexDefs | rust/cubestore/src/sql/mod.rs:81-88 | at most one definition per clause; the exact result is stated by the next three lemmas |
| SqlService.IndexDefsAllIndexes | rust/cubestore/src/sql/mod.rs:81-88 | when every clause is CREATE INDEX, there is one definition per clause and definition k has clause k's name and column renderings |
| SqlService.IndexDefsNoIndexes | rust/cubestore/src/sql/mod.rs:82 | clauses that are not CREATE INDEX give no definition |
| SqlService.IndexDefsAppend | rust/cubestore/src/sql/mod.rs:81-88 | collecting definitions distributes over concatenation, so with the two cases above the result is exactly the CREATE INDEX clauses in order |
| SqlService.IndexColumnNames | rust/cubestore/src/sql/mod.rs:347-358 | index columns are accepted iff all are plain identifiers, giving their names in order; else the first other expression is reported |
| SqlService.ExecQuery | rust/cubestore/src/sql/mod.rs:254-265 | workbench probes first, then the rewritten text is parsed and executed; stated by `SqlService.WorkbenchFirst` |
| SqlService.ShowTargetOf | rust/cubestore/src/sql/mod.rs:268-283 | SHOW succeeds iff the lower-cased variable is one of the five targets, and otherwise reports Unknown SHOW with the lower-cased name |
| SqlService.Execute | rust/cubestore/src/sql/mod.rs:267-426 | the statement checks and store calls of `exec_query`; stated case by case by the five lemmas below |
| SqlService.WorkbenchFirst | rust/cubestore/src/sql/mod.rs:258-265 | workbench probes are answered before parsing; other queries depend only on the parse of the rewritten text, and a parse error is returned as it is |
| SqlService.ShowVariableCases | rust/cubestore/src/sql/mod.rs:268-283 | SHOW succeeds iff the lower-cased variable is schemas, tables, chunks, indexes or partitions; otherwise Unknown SHOW with the lower-cased name; letter case is ignored |
| SqlService.CreateTableNames | rust/cubestore/src/sql/mod.rs:300-323 | CREATE TABLE fails unless the name has two parts; then it fails iff a column type is refused; otherwise schema and table are the two parts, the columns are exactly `ConvertedColumns`, the indexes exactly `IndexDefs`, and the location is kept for an external table and dropped otherwise |
| SqlService.CreateIndexNames | rust/cubestore/src/sql/mod.rs:325-361 | CREATE INDEX fails unless the table name has two parts and every column is an identifier; otherwise it creates the index on those column names |
| SqlService.InsertNames | rust/cubestore/src/sql/mod.rs:383-406 | INSERT needs VALUES (checked first) and a two-part name, both errors quoting the query; otherwise it inserts the rows into schema.table |
| SqlService.DropCases | rust/cubestore/src/sql/mod.rs:362-381 | DROP handles schemas and tables only; a schema is the first name, a table the first two parts of the first name, and a missing name or part is an index-out-of-bounds panic |
| S3.StripPrefix | rust/cubestore/src/remotefs/s3.rs:121-129 | removes the prefix once when the key starts with it, and leaves the key unchanged otherwise |
| S3.S3RemoteFs.S3Path | rust/cubestore/src/remotefs/s3.rs:151-160 | without a sub-path the key is "/" + p; with sub-path s it is s + "/" + p |
| S3.S3PathExtendsRoot | rust/cubestore/src/remotefs/s3.rs:151-160 | every key is the key of the empty path followed by the remote path |
| S3.StripS3Path | rust/cubestore/src/remotefs/s3.rs:121-129 | stripping the key prefix from an upload key gives back its remote path |
| S3.StripLeavesForeignKeys | rust/cubestore/src/remotefs/s3.rs:121-129 | a listed key outside the sub-path is returned unchanged |
| S3.StripOnlyOnce | rust/cubestore/src/remotefs/s3.rs:121-129 | example: with no sub-path the key "//a" lists as "/a", one anchored occurrence of the root "/" removed (the general law is `S3.StripPrefix`'s contract) |
| S3.S3PathInjective | rust/cubestore/src/remotefs/s3.rs:151-160 | distinct remote paths have distinct keys |
| S3.S3RemoteFs.ListWithMetadata | rust/cubestore/src/remotefs/s3.rs:119-137 | one file per listed object on success; paths and failures are stated by `S3.S3RemoteFs.ToRemoteFiles` and `S3.ListRoundTrip` |
| S3.S3RemoteFs.List | rust/cubestore/src/remotefs/s3.rs:110-117 | succeeds iff `list_with_metadata` does, with one path per listed object |
| S3.S3RemoteFs.ToRemoteFiles | rust/cubestore/src/remotefs/s3.rs:122-135 | listing succeeds iff every timestamp parses; then one file per object, in order, with the stripped key; else the first bad timestamp is reported |
| S3.ListedPathsKeepPrefix | rust/cubestore/src/remotefs/s3.rs:119-137 | when every listed key is under the request prefix, every listed path starts with the requested remote prefix |
| S3.ListRoundTrip | rust/cubestore/src/remotefs/s3.rs:110-137 | listing the upload keys of some paths lists exactly those paths, in order |
| S3.ListIsProjection | rust/cubestore/src/remotefs/s3.rs:110-117 | `list` succeeds iff `list_with_metadata` does, with its remote paths, same count and order |

## Left out

- Store, WAL, planner, executor and cluster calls are not modelled, because they are I/O and distributed job coordination. This covers `create_schema`, `create_table`, `create_index`, `get_table`, `add_wal`, job listeners and query planning. `exec_query` returns the call it would make as an `Action`.
- The SQL text parser (`CubeStoreParser`, sqlparser) is a parameter of `SqlService.ExecQuery`. The display text of names comes from `SqlTypes.IdentText`, and the display of index columns is a field of the parsed value.
- Decimal and Float cells (`parse_decimal`, f64) are the `decimalText` oracle, because the source works in floating point.
- Timestamp cells (`string_to_timestamp_nanos`) and HyperLogLog validation (`cubehll`) are oracles. So is the RFC 3339 parsing of `last_modified` in `list_with_metadata`: these are foreign libraries.
- The error text of each user error is not modelled: an error constructor carries the values the message prints.
- The waits for the table-import and WAL jobs of an external CREATE TABLE, and the "Create table failed" error, are not modelled: that is job coordination.
- `insert_data`'s wait for WAL partitioning jobs is the parameter `jobError`: the first job error, or none. It is consulted only when some frame was written; with no WAL ids there are no jobs to fail, and an empty insert returns 0.
- Text.ToLower: lowers ASCII letters only, where Rust's `to_lowercase` is full Unicode. Where the lowered text is compared with an ASCII constant (SHOW targets, custom type names, workbench probes, boolean cells) the two agree except on U+212A KELVIN SIGN, which Rust lowers to ASCII 'k'. The lowered SHOW variable is also the payload of Unknown SHOW (mod.rs:269, 281); there a non-ASCII upper-case letter stays upper-case in the model: `SHOW ÉTAT` reports "État" where the source reports "état".
- Int64.ParseI64: validates each character before checking the accumulated value for overflow. A Rust release that checks the multiplication's overflow before validating the current character reports PosOverflow or NegOverflow where this model reports InvalidDigit, on a text that overflows exactly at an invalid character; only the error kind differs. The error kinds are those of Rust 1.55 and later: a lone sign is InvalidDigit and overflow is PosOverflow or NegOverflow, where earlier toolchains report Empty for a lone sign and name the overflow kinds Overflow and Underflow.
- Cells.Negate64: models `v * -1` as a release build computes it, where the minimum wraps to itself; a debug build panics there.
- S3.S3RemoteFs.ListWithMetadata: requires a sub-path without regular-expression metacharacters. With metacharacters, the anchored pattern built from the sub-path is not a literal prefix (or does not compile), and that case is not modelled.
- The S3 bucket operations, the local directory, `RwLock`, timing, logging and status-code checks are not modelled (`upload_file`, `download_file`, `delete_file`, `local_path`, `local_file`): they are network and file I/O.
- The statement `trace!` logging in `exec_query` is not modelled; it has no effect on the result.
- The `#[cfg(test)]` integration tests of `rust/cubestore/src/sql/mod.rs` are used only as evidence for the example lemmas.
- `packages/cubejs-schema-compiler/src/compiler/PrepareCompiler.js` and `packages/cubejs-server/tests/index.test.js` are not part of this model. The first wires together classes whose source is not available; the second is an HTTP-server test against mocks.
