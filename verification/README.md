# osproxy: byte machinery and protocols, verified

This project models the parts of the proxy where a fast, stateful or crash-exposed
implementation must keep a simple meaning, and proves that it does.

- **JSON over raw bytes.** One grammar with a printer (`JsonText`, after RFC 8259
  sections 2, 6 and 7) is the reference for everything that reads or rewrites JSON: the
  cursor scanner (`JsonScan` to `JsonPath`, with the methods in `JsonParser` and
  `StringBoundary`), the field splice (`Fields`), the query wrapper (`Query`,
  `QueryMeaning`) and the streaming search transform (`SearchScan` to `SearchOracle`)
  beside the buffered one (`ReadShaping`, over the raw values of `JsonRaw`). Documents are
  concrete syntax trees, so "every other byte unchanged" and "whatever the whitespace" are
  statements about trees. The grammar is unambiguous (`JsonUnique`). `JsonValue` gives
  the value a tree denotes, as a tree-building parser sees it; which numbers such a parser
  takes is a parameter, `fits`.
- **Write-ahead log.** `Crc`, `WalCodec` and `WalLog` are the checksum, the encodings and
  what each operation does to the two files; `Wal` is the process's object and the drain
  loop; `WalRuns` is every interleaving of appends, fetches, broker answers, commits,
  compactions and restarts. `WalStale` is one run that goes wrong, `WalCrash` the crashes
  inside an operation that writes twice.
- **Fleet migration.** `Placement` is the shared table and its gate; `Migration` is the
  control plane, as an object and as a state machine in which controllers, writers,
  backend failures, restarts and the clock interleave between every two atomic steps;
  `MigrationGate` is what the gate lets through, and `MigrationRules` what goes wrong
  without each rule of operation.
- **Bulk.** `Ndjson` and `BulkOps` frame and parse a body, buffered and streamed;
  `BulkDemux` buffers per target, flushes, gates, and re-interleaves by ordinal;
  `BulkIngest` joins them into the buffered and the streamed path.
- **Ids and cursors.** `IdTemplate` and `Addressing` for the two template walkers and
  the round trip from a write to a later read; `Affinity` and `Cursor` for the bounded
  cursor cache and the signed cursor envelope.

Code that advances a cursor, fills a buffer or updates fields is a class or a method with
loops, proved against a specification function; the lemmas speak about those functions.
Checking everything takes a few minutes: `dafny verify dfyconfig.toml`.

## Where the code and its description part

Each of these is a lemma: the exact condition, or a run that goes wrong.

- The skipping scanner takes any byte after a backslash and a number of any size, so
  `validate` and the splice accept more than a parser does (`Fields.SameVerdictIffStrict`,
  `Fields.LenientIsSpliced`, `Fields.UnfitIsSpliced`). On a hit with such a string or number
  the buffered search path fails (`ReadShaping.ShapeHitsOf`) and the stream forwards the hit
  unshaped (`SearchOracle.HitTransformIsLike`).
- A refused `_update` injection can leave `doc` already stamped
  (`Fields.RefusedUpdateUntouchedIff`).
- The streaming search transform shapes the first member named `hits`, a parser keeps the
  last (`SearchOracle.StreamEqualsBuffered`). The buffered one passes a response through
  unshaped when one of its top-level names does not decode (`ReadShaping.ShapeHitsOf`,
  `SearchUnnamed.UnnamedIsUnshaped`).
- `maybe_compact` moves a live tail through the framing path and then cuts the file to the
  tail's own length, which loses every pending record (`WalLog.LiveTailIsLost`,
  `WalLog.CompactionKeepsIff`). It also shrinks the log before it resets the checkpoint
  (`WalLog.StaleCheckpoint`): a crash in between, which an ordinary run can reach, loses what
  is accepted next (`WalCrash.DrainedRun`, `WalCrash.CutThenCrash`).
- A commit empties the checkpoint file before it writes it. A crash there loses nothing, but
  everything acknowledged since the last compaction is delivered again, not only the last
  record (`WalCrash.TornCheckpoint`).
- A record appended behind a torn tail goes when the tail does, unless its frame repeats
  the tail (`WalLog.BehindTheTear`). Once the tail is discarded its bytes stay in the file
  past the end of the log, and a restart replays them if a frame reads there
  (`WalLog.ReopenKeepsIff`, `WalStale.StaleRestart`).
- `WalRuns.SafeIff`: apart from crashes inside an operation these, and a log cut short of its
  checkpoint, are exactly the steps after which the file no longer holds the queue. On all
  other runs delivery is proved first-in first-out.
- `complete_migration` treats a state it cannot read as "not in cutover" and then skips the
  barrier (`MigrationRules.ReachesFlipIff`, `MigrationRules.UnreadableStrands`); so does
  one that read the state before the same controller entered cutover
  (`MigrationRules.OverlapStrands`).
- The incremental NDJSON reader drops one carriage return that the buffered splitter keeps
  (`Ndjson.FramedIsNonBlankIff`), and does not reset its search offset when it takes an
  unterminated last line, so the next call is out of range (`BulkOps.SameEndIff`).

## Model

| member | source | states |
|---|---|---|
| `JsonScan.SkipValueOver` | crates/osproxy-core/src/json.rs:253-311 | skipping consumes exactly one value: over the text of any well-formed value it stops at what follows |
| `JsonSound.ValidIffDocument` | crates/osproxy-core/src/json.rs:124-132 | `validate` accepts exactly the documents of the grammar: whitespace, one value, whitespace; escapes are any byte after a backslash, as the code has it, which is more than RFC 8259 section 7 allows |
| `JsonTop.TopLevelIffObject` | crates/osproxy-core/src/json.rs:72-89 | `object_top_level` succeeds exactly on the objects whose member names decode, returning those names in order, whether there are any, and the offset just past the brace; it says not-an-object exactly on the documents that hold another value |
| `JsonTop.TopLevelOfDocument` | crates/osproxy-core/src/json.rs:157-192 | what the top-level scan answers for each document, including names that do not decode |
| `JsonSpelling.StringDecodesIffSpelled` | crates/osproxy-core/src/json.rs:348-433 | a string decodes to a text exactly when it spells it: literal UTF-8, short escapes, `\u` escapes and surrogate pairs in any mixture (RFC 8259 section 7) |
| `JsonString.ReadStringOver` | crates/osproxy-core/src/json.rs:320-383 | the decoder and the skipping scanner stop at the same cursor, and the decoder returns what the string denotes |
| `JsonString.DecodedIsSkipped` | crates/osproxy-core/src/json.rs:320-441 | whatever the decoder reads, the skipping scanner skips to the same place, on every input |
| `JsonString.ShortEscapeIff` | crates/osproxy-core/src/json.rs:384-400 | the eight short escapes and the characters they stand for |
| `Bytes.HexValIff` | crates/osproxy-core/src/json.rs:435-446 | the sixteen hexadecimal digits, in either case |
| `JsonPath.ScalarAtDocument` | crates/osproxy-core/src/json.rs:99-116 | `scalar_at_path` returns, on every document, the scalar the syntax tree has under the path, entering the first member of each name |
| `JsonPath.ScalarOfIs` | crates/osproxy-core/src/json.rs:227-241 | which values are scalars: a string's meaning, and a number or a truth value as it is spelled |
| `JsonPath.FirstIsLast` | crates/osproxy-core/src/json.rs:197-225 | the first member of a name, which the walk enters, has the value a parser keeps if and only if it denotes what the last member of the name does; the two are one member when the name occurs once |
| `StringBoundary.NextStringBoundary` | crates/osproxy-core/src/json.rs:514-544 | the 32-lane scan returns the least index of a boundary byte, or none, across chunk seams and the tail |
| `JsonParser.Parser.SkipWs` | crates/osproxy-core/src/json.rs:149-155 | advances the cursor past the whitespace and no further |
| `JsonParser.Parser.SkipValue` | crates/osproxy-core/src/json.rs:253-265 | the cursor ends where the specification function says, or the value is refused |
| `JsonParser.Parser.SkipObject` | crates/osproxy-core/src/json.rs:267-290 | the member loop consumes exactly one object |
| `JsonParser.Parser.SkipArray` | crates/osproxy-core/src/json.rs:292-311 | the element loop consumes exactly one array |
| `JsonParser.Parser.SkipString` | crates/osproxy-core/src/json.rs:320-343 | skipping by bulk jumps equals skipping byte by byte |
| `JsonParser.Parser.StringDecode` | crates/osproxy-core/src/json.rs:348-380 | decoding by bulk copies equals decoding byte by byte, and checks UTF-8 |
| `JsonParser.Parser.DecodeUnicodeEscape` | crates/osproxy-core/src/json.rs:404-423 | one `\u` escape, with the surrogate pair it may start |
| `JsonParser.Parser.Number` | crates/osproxy-core/src/json.rs:448-484 | consumes exactly an RFC 8259 number, refusing leading zeros and empty digit runs |
| `JsonParser.Parser.ObjectMembers` | crates/osproxy-core/src/json.rs:157-192 | collects the decoded names, the empty flag and the insertion offset |
| `JsonParser.Parser.EnterField` | crates/osproxy-core/src/json.rs:197-222 | positions the cursor at the value of the first member of the name |
| `JsonParser.Parser.ScalarString` | crates/osproxy-core/src/json.rs:227-241 | strings decoded, numbers and truth values as written, nothing else |
| `JsonParser.ObjectTopLevel` | crates/osproxy-core/src/json.rs:72-89 | the entry point returns what `TopLevelIffObject` characterises: the located object, not-an-object, or invalid |
| `JsonParser.ScalarAtPath` | crates/osproxy-core/src/json.rs:99-116 | the entry point returns the scalar that `ScalarAtDocument` characterises, or nothing |
| `JsonParser.Validate` | crates/osproxy-core/src/json.rs:124-132 | the entry point accepts exactly what `ValidIffDocument` characterises |
| `SearchScan.ChunkIndependence` | crates/osproxy-engine/src/search_scan.rs:220-248 | however the response is cut into chunks, the bytes emitted are those of one run over the whole of it |
| `SearchScanner.SearchHitsScanner.Feed` | crates/osproxy-engine/src/search_scan.rs:220-242 | feeding a chunk, with its bulk-copy shortcut, does what stepping over each byte does, and drains the output |
| `SearchScanner.SearchHitsScanner.Step` | crates/osproxy-engine/src/search_scan.rs:250-272 | one byte is dispatched until it is consumed; the loop terminates |
| `SearchScanner.SearchHitsScanner.AtObjExpectValue` | crates/osproxy-engine/src/search_scan.rs:326-351 | entering the root `hits` object, its `hits` array, or a skip |
| `SearchScanner.SearchHitsScanner.AtSkipValue` | crates/osproxy-engine/src/search_scan.rs:354-391 | the depth and string cursor of a skipped value |
| `SearchScanner.SearchHitsScanner.ReadElem` | crates/osproxy-engine/src/search_scan.rs:425-468 | buffering one element until it is complete |
| `SearchScanner.SearchHitsScanner.FinishElem` | crates/osproxy-engine/src/search_scan.rs:511-516 | a complete element is emitted only through the transform |
| `SearchScanner.StreamAll` | crates/osproxy-engine/src/search_scan.rs:220-248 | the scanner over a whole response emits what the run function says |
| `SearchTree.RunSkippedValue` | crates/osproxy-engine/src/search_scan.rs:354-391 | a member value that is not looked into is forwarded whole, whatever it contains |
| `SearchTree.RunElement` | crates/osproxy-engine/src/search_scan.rs:405-516 | an element of the array is framed exactly, replaced by the transform, and nothing else is touched |
| `SearchResponse.StreamShapesDocument` | crates/osproxy-engine/src/search_scan.rs:250-516 | for every document and every cutting, the output is the document with exactly the elements of the first `hits.hits` array replaced and every other byte unchanged |
| `SearchConserve.Conservation` | crates/osproxy-engine/src/search_scan.rs:245-272 | on every input, malformed or truncated, the input is an ordered interleaving of bytes forwarded once, complete elements emitted only through the transform, and at most one pending element |
| `ReadShaping.ShapeHitsOf` | crates/osproxy-engine/src/read.rs:228-268 | what the buffered path returns for any response document: the raw top level with its `hits` shaped, the body unchanged when it is no map of raw values, an error when it is not raw or its `hits` holds a string that does not decode or a number that does not fit |
| `SearchOracle.ReshapedTop` | crates/osproxy-engine/src/read.rs:228-268 | member by member over the raw top level, every sibling the upstream's own span, the streamed tree equals the map the buffered path writes if and only if the `hits` members are unique or every hit already has its logical form |
| `SearchOracle.StreamEqualsBuffered` | crates/osproxy-engine/src/read.rs:228-268 | that equivalence for the emitted bytes of any response and cutting; where the buffered path passes the body through, the stream does exactly when every framed element is reshaped to itself; and exactly which responses the buffered path refuses |
| `SearchOracle.StreamUnchangedIff` | crates/osproxy-engine/src/search_scan.rs:63-74 | on any response and cutting the stream emits the body it was given if and only if every element of `hits.hits` is reshaped to itself |
| `SearchUnnamed.UnnamedIsUnshaped` | crates/osproxy-engine/src/read.rs:242-253 | one top-level name that does not decode and the buffered path passes the hits through unshaped; the stream shapes them |
| `SearchOracle.HitTransformIsLike` | crates/osproxy-engine/src/search_scan.rs:63-74 | the per-hit transform the proxy runs satisfies what the streaming results ask of one: a hit whose strings decode and whose numbers fit is parsed, shaped and written back, any other is forwarded raw |
| `ReadShaping.ShapedHitIsLogical` | crates/osproxy-engine/src/read.rs:274-292 | a hit that is no object is untouched; any other shows the client's index and no routing, its source, if an object, loses exactly the injected fields, and everything else of it and of its source is kept |
| `ReadShaping.LogicalIdIs` | crates/osproxy-engine/src/read.rs:281-288 | the id shown is what lies between the rule's prefix and suffix; without a rule, for an id that is no string, for a template that cannot be read back and for an id that does not fit, it is the hit's own id |
| `ReadShaping.ShapedIdAddresses` | crates/osproxy-engine/src/read.rs:274-292 | a shaped hit shows the id a client addresses the document by |
| `BulkDemux.SuccessLine` | crates/osproxy-engine/src/bulk.rs:517-529 | an acknowledged operation's line echoes its logical index and id and the upstream status; it is an error from status 400 on, a conflict exactly at 409, not found exactly at 404, and otherwise says whether the document was created |
| `JsonValue.WriteStringDecodes` | crates/osproxy-rewrite/src/fields.rs:102-111 | the writer's spelling of a string decodes to the string |
| `JsonValue.WrittenByte` | crates/osproxy-rewrite/src/fields.rs:102-111 | how the writer spells each byte of a string |
| `JsonValue.WriterExists` | crates/osproxy-rewrite/src/fields.rs:102-111 | whatever numbers fit, there is a writer whose text of every value reads back as that value, as the results about written values assume |
| `Fields.Document.Inject` | crates/osproxy-rewrite/src/fields.rs:35-50 | all or nothing: the fields are added, or the first colliding name is reported and the document is untouched |
| `Fields.InjectedIsStamped` | crates/osproxy-rewrite/src/fields.rs:35-50 | a document takes the fields exactly when it is an object that has none of their names; it then has each of them with its value and every other member unchanged, and a refusal names the first collision or the document that is no object |
| `Fields.Document.Strip` | crates/osproxy-rewrite/src/fields.rs:165-173 | exactly the named members go, and the count is how many were there |
| `Fields.Document.InjectUpdate` | crates/osproxy-rewrite/src/fields.rs:144-155 | the `doc` and then the `upsert` sub-document are stamped in place, with the outcome `AcceptedUpdate` and `RefusedUpdateReason` characterise |
| `Fields.RefusedUpdateUntouchedIff` | crates/osproxy-rewrite/src/fields.rs:144-155 | unlike a plain injection a refused update can be half stamped; exactly when it is left as it was |
| `Fields.AcceptedUpdate` | crates/osproxy-rewrite/src/fields.rs:144-155 | an update is accepted exactly when it is an object and each of `doc` and `upsert` that it has can take the fields; then both are stamped, every other member is unchanged, and stripping the two gives the update back |
| `Fields.RefusedUpdateReason` | crates/osproxy-rewrite/src/fields.rs:144-155 | which error a refused update gets: that of the whole, of `doc`, or of `upsert`, in this order |
| `Fields.InjectThenStrip` | crates/osproxy-rewrite/src/fields.rs:35-173 | stripping the injected names gives the original document back |
| `Fields.InjectFieldsBytes` | crates/osproxy-rewrite/src/fields.rs:84-126 | the splice over the raw bytes: not an object, invalid, the first colliding name, the body verbatim when there is nothing to inject, or the spliced bytes of `SplicedDocument` |
| `Fields.SplicedIs` | crates/osproxy-rewrite/src/fields.rs:84-126 | on every body: which refusal it gets, the body verbatim when there is nothing to inject, and otherwise the text of the tree with the fields in front |
| `Fields.SplicedDocument` | crates/osproxy-rewrite/src/fields.rs:117-126 | the spliced bytes are the same document with the fields as its first members |
| `Fields.SpliceCommutes` | crates/osproxy-rewrite/src/fields.rs:84-126 | splicing then parsing is parsing then injecting: same error on a collision, even for escaped names, otherwise a document that denotes the injected tree |
| `Fields.SameVerdictIffStrict` | crates/osproxy-rewrite/src/fields.rs:84-126 | the byte form and the tree form give the same verdict on a document exactly when all its strings decode and all its numbers fit, or a top-level name does not decode |
| `Fields.UnfitIsSpliced` | crates/osproxy-core/src/json.rs:448-484 | whatever number the parser refuses, `{"a":<number>}` is spliced although it does not parse |
| `Fields.HugeText` | crates/osproxy-core/src/json.rs:448-484 | `{"a":1e999}` is such a document, for a parser that refuses `1e999` |
| `Fields.LenientIsSpliced` | crates/osproxy-core/src/json.rs:331-341 | the document `{"a":"\q"}` is spliced although it does not parse |
| `Fields.MalformedIsRefused` | crates/osproxy-rewrite/src/fields.rs:84-91 | a body that is no document is refused by both forms |
| `Query.ParseTopOf` | crates/osproxy-rewrite/src/query.rs:123-137 | the top-level map of an object of raw values; not-an-object for any other raw value; invalid for a document that cannot be kept raw |
| `Query.ParseTopOther` | crates/osproxy-rewrite/src/query.rs:123-137 | a blank body has no members, and any other that is no document is invalid |
| `Query.GlobalIffReachable` | crates/osproxy-rewrite/src/query.rs:168-181 | the recursive search finds a `global` aggregation exactly when one is reachable along `aggs` or `aggregations`, at any depth |
| `Query.AcceptedIsFilterable` | crates/osproxy-rewrite/src/query.rs:144-162 | a body passes the screen exactly when it has no `suggest`, and every string of its aggregations decodes, every number fits and none is global at any depth |
| `Query.RejectedNames` | crates/osproxy-rewrite/src/query.rs:144-162 | what a refusal names: `suggest` first, then the first bad tree of `aggs` and `aggregations`, invalid or holding a global aggregation |
| `Query.WrappedIff` | crates/osproxy-rewrite/src/query.rs:56-81 | a body is wrapped unless it does not parse, or there is a filter and the screen refuses it; only the query changes |
| `Query.BuildFilteredQuery` | crates/osproxy-rewrite/src/query.rs:85-117 | assembles the bytes of the filtered query, the client's own bytes inside |
| `Query.FilteredIsText` | crates/osproxy-rewrite/src/query.rs:85-117 | the assembled bytes are the text of a `bool` query with one `must` and the filter terms |
| `QueryMeaning.FilteredReads` | crates/osproxy-rewrite/src/query.rs:85-117 | read back independently, the query has exactly the client's query under `must` and exactly the terms under `filter` |
| `Query.WriteTop` | crates/osproxy-rewrite/src/query.rs:78-81 | the written object reads back as the map it was written from |
| `Query.WrapQuery` | crates/osproxy-rewrite/src/query.rs:56-81 | every error case, and otherwise a document whose members are the client's except for the wrapped query |
| `QueryMeaning.WrappedMatches` | crates/osproxy-rewrite/src/query.rs:56-112 | the wrapped query matches a document if and only if the client's query does (or there is none) and every filter term holds; all other members are kept; a filtered body passed the screen |
| `QueryMeaning.SemanticsExists` | crates/osproxy-rewrite/src/query.rs:85-117 | a semantics of `bool` and `term` as `WrappedMatches` assumes it exists, whatever terms and other queries mean |
| `Crc.ComputeCrc32` | crates/osproxy-kafka-wal/src/segment.rs:187-197 | the bitwise loop computes the specified checksum |
| `Crc.CheckValue` | crates/osproxy-kafka-wal/src/segment.rs:187-197 | the checksum of `123456789` is the check value of CRC-32/ISO-HDLC |
| `Crc.BurstDetected` | crates/osproxy-kafka-wal/src/segment.rs:187-197 | any two bodies of equal length that differ only within four consecutive bytes have different checksums (IEEE 802.3 section 3.2.9) |
| `Crc.LittleEndianWord` | crates/osproxy-kafka-wal/src/segment.rs:130-140 | `from_le_bytes` inverts `to_le_bytes` |
| `WalCodec.BodyRoundTrip` | crates/osproxy-kafka-wal/src/segment.rs:158-184 | `decode_body` inverts `encode_body`, and only encodings decode |
| `WalCodec.BodyLayout` | crates/osproxy-kafka-wal/src/segment.rs:158-168 | the body byte by byte: two bytes of topic length, the topic, four of key length, the key, the payload, lengths lowest byte first |
| `WalCodec.FrameLayout` | crates/osproxy-kafka-wal/src/segment.rs:125-133 | the frame byte by byte: four bytes of body length, the checksum of the body, the body |
| `WalLog.CkptLayout` | crates/osproxy-kafka-wal/src/segment.rs:200-219 | the checkpoint file byte by byte, lowest first; a shorter file reads as zero |
| `WalCodec.ReadFrameOver` | crates/osproxy-kafka-wal/src/segment.rs:125-153 | reading over a written frame returns its record and the offset past it |
| `WalCodec.TornFrame` | crates/osproxy-kafka-wal/src/segment.rs:135-153 | a frame cut short at the end of the file does not read |
| `WalCodec.DamagedFrame` | crates/osproxy-kafka-wal/src/segment.rs:135-153 | a frame whose body was damaged within four consecutive bytes does not read |
| `Wal.Encode` | crates/osproxy-kafka-wal/src/segment.rs:158-168 | the encoder filling one buffer |
| `Wal.Decode` | crates/osproxy-kafka-wal/src/segment.rs:170-184 | the decoder advancing one cursor |
| `Wal.Log.constructor` | crates/osproxy-kafka-wal/src/segment.rs:42-61 | opening resumes at the checkpoint or the end of the log, whichever is smaller |
| `Wal.Log.Append` | crates/osproxy-kafka-wal/src/segment.rs:65-74 | appends one frame, or refuses and changes nothing: oversize length fields, the byte cap, a body too long to frame |
| `Wal.Log.Fetch` | crates/osproxy-kafka-wal/src/segment.rs:79-89 | the next record, or the end; a frame that does not read ends the log there |
| `Wal.Log.Commit` | crates/osproxy-kafka-wal/src/segment.rs:94-97 | moves the cursor and persists it |
| `Wal.Log.MaybeCompact` | crates/osproxy-kafka-wal/src/segment.rs:106-123 | the compaction as written, including its write through the framing path |
| `Wal.Log.ReadRecord` | crates/osproxy-kafka-wal/src/segment.rs:135-153 | the record framed at an offset, if the frame is whole, intact and decodes |
| `Wal.Drain` | crates/osproxy-kafka-wal/src/lib.rs:150-194 | the drain loop over any script of broker answers delivers what the turn function says; at each refused send it waits the base, doubled once for every refusal since the last acknowledgement and capped |
| `Wal.CaughtUpEmpties` | crates/osproxy-kafka-wal/src/lib.rs:158-172 | a turn that finds nothing to deliver resets both cursors, and if anything was acknowledged it empties the file and zeroes the checkpoint |
| `Wal.AckedTurn` | crates/osproxy-kafka-wal/src/lib.rs:174-188 | after an acknowledgement the cursor and the checkpoint are past the record; once the interval has elapsed the file is emptied if nothing is left, a tail past the threshold is moved, and any other is left alone |
| `Wal.RefusedTurn` | crates/osproxy-kafka-wal/src/lib.rs:189-193 | a refused send changes nothing |
| `Wal.AppendedIff` | crates/osproxy-kafka-wal/src/segment.rs:65-74 | an append is accepted exactly when its lengths fit their fields and its frame fits under the cap; it then lies at the end of the log |
| `Wal.RoomAgain` | crates/osproxy-kafka-wal/src/segment.rs:65-123 | after a turn that finds nothing to deliver an append is accepted exactly when an empty log would accept it |
| `Wal.TurnIsRun` | crates/osproxy-kafka-wal/src/lib.rs:150-194 | a turn of the loop is a fetch and a park, a nack, or an acknowledgement and a commit, among the steps of `WalRuns` |
| `Wal.DrainIsFifo` | crates/osproxy-kafka-wal/src/lib.rs:150-194 | over any script of broker answers in which no turn compacts while a record is pending, and with no append in between, the loop delivers the accepted records in order and leaves the rest replayable |
| `WalLog.RecoverCut` | crates/osproxy-kafka-wal/src/segment.rs:42-97 | a log of whole frames cut at any byte replays exactly the records whose whole frames remain, in order, and then ends |
| `WalLog.ReplayHeld` | crates/osproxy-kafka-wal/src/segment.rs:79-97 | a running log replays what is pending, then whatever stale bytes lie past its end |
| `WalLog.SoundNext` | crates/osproxy-kafka-wal/src/segment.rs:79-89 | a read never runs past the end of the log, so the live length of a compaction is never negative |
| `WalLog.LiveTailIsLost` | crates/osproxy-kafka-wal/src/segment.rs:106-133 | compacting a live tail frames it a second time and cuts the end off: nothing reads any more |
| `WalLog.CompactionKeepsIff` | crates/osproxy-kafka-wal/src/segment.rs:106-123 | compaction keeps the pending records if and only if nothing was acknowledged, nothing is live, the threshold is not reached, or the tail is too long to frame |
| `WalCodec.ReadIsFrame` | crates/osproxy-kafka-wal/src/segment.rs:135-153 | whatever reads is, byte for byte, the frame of the record it reads as |
| `WalLog.StaleCheckpoint` | crates/osproxy-kafka-wal/src/segment.rs:118-122 | with a checkpoint left ahead of a shortened log, later appends survive the next restart if and only if the checkpoint was 0 or there are none |
| `WalLog.StaleBytesClearedIff` | crates/osproxy-kafka-wal/src/segment.rs:79-123 | the stale bytes of a discarded tail leave the file with the next drained compaction exactly when something was acknowledged before them |
| `WalLog.ReopenKeepsIff` | crates/osproxy-kafka-wal/src/segment.rs:42-61 | while they are there, reopening the log loses nothing if and only if no frame reads at its end |
| `WalRuns.RestartKeeps` | crates/osproxy-kafka-wal/src/segment.rs:42-61 | reopening after a cut past the checkpoint leaves the whole frames before the cut and at most part of one more; a cut among stale bytes keeps everything when no frame reads there |
| `WalRuns.StepKeeps` | crates/osproxy-kafka-wal/src/segment.rs:65-123 | every safe step keeps the queue: acknowledged stays acknowledged, a failed send moves no cursor, a clean restart loses nothing, the cap holds |
| `WalRuns.SafeIff` | crates/osproxy-kafka-wal/src/segment.rs:42-123 | the safe steps are exactly those after which the file still holds the queue |
| `WalRuns.RunDelivers` | crates/osproxy-kafka-wal/src/lib.rs:150-194 | on every safe run the acknowledged records are a prefix of the accepted appends, in order, and the log stays within its cap |
| `WalRuns.PendingReplays` | crates/osproxy-kafka-wal/src/segment.rs:42-97 | the accepted records not yet acknowledged are what the file replays if and only if no frame reads among the stale bytes past the end of the log |
| `WalRuns.DrainsAll` | crates/osproxy-kafka-wal/src/lib.rs:150-194 | once the broker answers, one fetch, send and commit per record deliver everything |
| `WalLog.BehindTheTear` | crates/osproxy-kafka-wal/src/segment.rs:65-89 | behind any torn tail an accepted record survives if and only if its frame repeats the junk in front of it and nothing reads in what is left over |
| `WalLog.OneByteTear` | crates/osproxy-kafka-wal/src/segment.rs:65-89 | behind a single stray zero byte no record survives |
| `WalStale.StaleRestart` | crates/osproxy-kafka-wal/src/segment.rs:42-89 | a run from an empty directory after whose clean restart a record is replayed that was never appended: any record, buried in the payload of one that a crash cut |
| `WalCrash.RunBehind` | crates/osproxy-kafka-wal/src/segment.rs:94-123 | on every safe run the frames of the records acknowledged since the last compaction lie in front of the read cursor |
| `WalCrash.TornCheckpoint` | crates/osproxy-kafka-wal/src/segment.rs:211-219 | a crash while the checkpoint is rewritten loses nothing accepted, and makes exactly the records acknowledged since the last compaction pending again, in order |
| `WalCrash.CutThenCrash` | crates/osproxy-kafka-wal/src/segment.rs:118-122 | a crash between cutting a drained log and resetting the checkpoint: what is accepted after the next start survives the start after that if and only if there is none of it |
| `WalCrash.DrainedRun` | crates/osproxy-kafka-wal/src/segment.rs:94-123 | a run from an empty directory leads to such a compaction |
| `Placement.PlacementTable.Register` | crates/osproxy-tenancy/src/placement_table.rs:77-84 | registers a placement under a fresh epoch |
| `Placement.PlacementTable.Apply` | crates/osproxy-tenancy/src/placement_table.rs:220-233 | a transition moves one entry under a fresh epoch, or fails and changes nothing |
| `Placement.OthersUnmoved` | crates/osproxy-tenancy/src/placement_table.rs:92-157 | a transition of one partition is invisible to the others |
| `MigrationGate.TransitionTable` | crates/osproxy-tenancy/src/placement_table.rs:92-157 | every transition from every state: where it leads, under which epoch, and why it is refused |
| `MigrationGate.AdmitsIff` | crates/osproxy-tenancy/src/placement_table.rs:192-202 | a write is admitted exactly when its epoch is current and its partition is settled or draining, and goes where reads go |
| `MigrationGate.AdmittedIffUnmoved` | crates/osproxy-tenancy/src/placement_table.rs:192-202 | on any run, a write that was resolved is admitted exactly when its partition still has the entry it was resolved at, out of cutover; it is then in flight to where it was resolved to |
| `MigrationGate.UndisturbedIsAdmitted` | crates/osproxy-tenancy/src/migration.rs:59-72 | a write resolved while its partition is settled or draining is in flight after the gate, if nothing tries to move the partition in between |
| `MigrationGate.BeginIsStep` | crates/osproxy-control/src/migration.rs:207-213 | a migration begins on a settled partition and on no other |
| `MigrationGate.EnterIsSteps` | crates/osproxy-control/src/migration.rs:220-224 | cutover is entered from draining only, published and then stamped |
| `MigrationGate.AbortIsSteps` | crates/osproxy-control/src/migration.rs:266-270 | a migration that is called off leads back to where it came from, without a stamp |
| `MigrationGate.RemainingIs` | crates/osproxy-control/src/migration.rs:233-253 | nothing is left to wait exactly when the barrier has passed since the stamp, and what is left is exactly how long to wait |
| `Migration.ControlPlane.Begin` | crates/osproxy-control/src/migration.rs:207-213 | begins a migration, or is refused unchanged |
| `Migration.ControlPlane.Enter` | crates/osproxy-control/src/migration.rs:220-224 | publishes cutover and only then stamps the barrier's start |
| `Migration.ControlPlane.Complete` | crates/osproxy-control/src/migration.rs:233-259 | waits out the barrier, then flips; the remaining wait, the stamp and the table in every case |
| `Migration.ControlPlane.Abort` | crates/osproxy-control/src/migration.rs:266-270 | returns the partition to its origin and clears its stamp |
| `Migration.GateKeeps` | crates/osproxy-tenancy/src/placement_table.rs:192-202 | a write the gate admits is bound for the current placement; which writes it admits is `MigrationGate.AdmitsIff` |
| `Migration.FlipKeeps` | crates/osproxy-control/src/migration.rs:233-259 | after a full barrier no write to the partition is in flight, so the flip strands none |
| `Migration.ReadSteady` | crates/osproxy-control/src/migration.rs:233-259 | the barrier check lets a flip proceed only once the barrier has passed since cutover; a controller without a stamp waits a whole one |
| `Migration.StepKeeps` | crates/osproxy-control/src/migration.rs:207-270 | every lawful step of controllers, writers, backend failures, restarts and the clock keeps the invariant |
| `Migration.NothingInFlightAtFlip` | crates/osproxy-control/src/migration.rs:254-258 | at a successful completion no admitted write to the partition is in flight |
| `Migration.RunIsSafe` | crates/osproxy-control/src/migration.rs:207-270 | on every lawful run every write in flight is bound for the placement reads go to |
| `MigrationRules.SafeIffBarrierCoversTimeout` | crates/osproxy-control/src/migration.rs:46-49 | the runs that follow a set of rules are all safe if and only if the set has every rule and writes time out within the barrier |
| `MigrationRules.ShortBarrierStrands` | crates/osproxy-control/src/migration.rs:46-49 | with a shorter barrier a lawful run strands a write |
| `MigrationRules.ReachesFlipIff` | crates/osproxy-control/src/migration.rs:233-253 | a completion reaches the flip exactly when the state could not be read, or the controller's own stamp says the barrier has passed |
| `MigrationRules.CompleteIsSteps` | crates/osproxy-control/src/migration.rs:233-259 | the object's completion is the four steps of the state machine run without interruption |
| `MigrationRules.EarlyFlipStrands` | crates/osproxy-control/src/migration.rs:254-258 | a flip with a write of the partition still in flight leaves that write bound for the old placement |
| `MigrationRules.UnreadableStrands` | crates/osproxy-control/src/migration.rs:233-259 | a run whose only fault is one state that could not be read strands a write, whatever the barrier |
| `MigrationRules.SecondControllerStrands` | crates/osproxy-control/src/migration.rs:245-258 | a run whose only fault is a second controller, completing on the stamp of an earlier cutover, strands a write |
| `MigrationRules.OverlapStrands` | crates/osproxy-control/src/migration.rs:220-259 | a run whose only fault is that one controller completes while it enters cutover strands a write |
| `MigrationRules.ReregisterStrands` | crates/osproxy-tenancy/src/placement_table.rs:77-84 | a run whose only fault is registering a partition twice strands a write |
| `BulkDemux.Demux.Gate` | crates/osproxy-engine/src/bulk.rs:456-467 | splits a flush by the gate, keeping order on both sides |
| `BulkDemux.Demux.ApplyResults` | crates/osproxy-engine/src/bulk.rs:495-511 | each result lands on its own ordinal and no other line changes; what the line says is `EveryOrdinalDecided` |
| `BulkDemux.Demux.Flush` | crates/osproxy-engine/src/bulk.rs:409-420 | every flushed operation gets the line its verdict and its own result decide |
| `BulkDemux.Demux.BufferAndFlush` | crates/osproxy-engine/src/bulk.rs:371-392 | buffers one operation and flushes at either threshold, never before; between operations every buffer is below both and its size is the sum of its bytes |
| `BulkDemux.SizeIsWeight` | crates/osproxy-engine/src/bulk.rs:394-403 | a buffer's size is the bytes of its documents, a delete having none |
| `BulkDemux.Demux.Accept` | crates/osproxy-engine/src/bulk.rs:81-98 | one turn of the demux loop keeps the invariant |
| `BulkDemux.Demux.FlushRemaining` | crates/osproxy-engine/src/bulk.rs:426-450 | what is left is flushed, each target once, in whatever order the targets complete |
| `BulkDemux.Ingest` | crates/osproxy-engine/src/bulk.rs:66-105 | the whole demux, for any thresholds, leaves every operation flushed and settled, having sent full batches and then one remainder for each target that has one |
| `BulkDemux.SinkSeesBodyOrder` | crates/osproxy-engine/src/bulk.rs:371-492 | each target receives its admitted operations, all of them, in the body's order |
| `BulkDemux.EveryOrdinalDecided` | crates/osproxy-engine/src/bulk.rs:66-105 | if the sink answers for every operation of a batch or fails it, every ordinal has exactly one line, with its own action, index and id: its failed preparation, 409 stale epoch if the gate held it, 502 upstream failed if its batch failed, and otherwise the status and outcome of its own result |
| `BulkDemux.FailedBatchIsReported` | crates/osproxy-engine/src/bulk.rs:504-543 | the operations reported as 502 upstream failed, under their own index and id, are exactly the admitted ones of the batches the sink failed |
| `BulkDemux.EqualsSimple` | crates/osproxy-engine/src/bulk.rs:66-105 | the response equals applying each operation on its own, whatever the thresholds and completion order, the operations of the batches the sink failed reported as lost |
| `BulkDemux.EqualsSimpleUnfailing` | crates/osproxy-engine/src/bulk.rs:66-105 | with a sink that fails no batch, no operation is lost |
| `BulkDemux.RankFinds` | crates/osproxy-engine/src/bulk.rs:495-503 | an admitted entry and its result are paired, rejected neighbours notwithstanding |
| `BulkDemux.HasErrors` | crates/osproxy-engine/src/bulk.rs:111-126 | the `errors` flag |
| `Ndjson.NonBlankLines` | crates/osproxy-rewrite/src/ndjson.rs:10-23 | the buffered splitter yields the lines that are not blank |
| `Ndjson.SplitIs` | crates/osproxy-rewrite/src/ndjson.rs:10-23 | for a body put together from lines, the splitter finds those that are not blank, and the reader the same less a carriage return before each newline |
| `Ndjson.TrimCrIs` | crates/osproxy-engine/src/bulk.rs:238-240 | one carriage return at the end of a line goes, and nothing else |
| `Ndjson.Reader.Next` | crates/osproxy-engine/src/bulk.rs:231-274 | one call of the incremental reader, with its resumed search, against its specification; once the offset lies past the buffer it faults |
| `Ndjson.NextLineFrames` | crates/osproxy-engine/src/bulk.rs:231-274 | however the body is cut, a call takes the next line off what is left; the reader is spent exactly after an unterminated last line |
| `Ndjson.UnendedLine` | crates/osproxy-engine/src/bulk.rs:255-268 | a line that has not ended is refused as too large as soon as more of it than the cap has been read; a stream that breaks before that has failed |
| `Ndjson.FramedIsTrimmed` | crates/osproxy-engine/src/bulk.rs:238-240 | the reader's lines are the splitter's, less one carriage return where a newline follows |
| `Ndjson.FramedIsNonBlankIff` | crates/osproxy-engine/src/bulk.rs:238-240 | the two agree outright exactly when no terminated line ends in a carriage return |
| `BulkOps.ParseBulk` | crates/osproxy-rewrite/src/bulk.rs:93-117 | the buffered parser returns the operations of the non-blank lines in order, or the first error |
| `BulkOps.NextOp` | crates/osproxy-engine/src/bulk.rs:207-228 | one operation off any stream: an action line, and its source line if it has one, or the reason there is none |
| `BulkOps.ReadOps` | crates/osproxy-engine/src/bulk.rs:145-173 | reading any stream to its end yields its operations one after the other, and the reason it ended |
| `BulkOps.FramesDoNotMatter` | crates/osproxy-engine/src/bulk.rs:145-173 | however the body is cut, a stream that does not fail and has no line over the cap yields the operations of its framed lines |
| `BulkOps.ActionIsVerb` | crates/osproxy-rewrite/src/bulk.rs:197-214 | an action line is one member named by a verb |
| `BulkOps.ActionLineIff` | crates/osproxy-rewrite/src/bulk.rs:197-230 | an action line parses exactly when it is one member named `index`, `create`, `update` or `delete`; its metadata gives the index, id, routing and whether a precondition is set |
| `BulkOps.ParsedIff` | crates/osproxy-rewrite/src/bulk.rs:93-117 | parsing succeeds exactly when the lines spell the operations one after the other, an action line each and a source unless it deletes; otherwise the first place where none can be read decides the error |
| `BulkOps.StreamedIsBuffered` | crates/osproxy-rewrite/src/bulk.rs:93-117 | the stream yields the operations of the buffered parser, each source less at most one carriage return |
| `BulkOps.SameEndIff` | crates/osproxy-engine/src/bulk.rs:250-254 | the stream ends as the buffered parse does if and only if the body is newline-terminated or parsing stops at a bad line |
| `BulkIngest.IngestBuffered` | crates/osproxy-engine/src/bulk.rs:66-105 | the buffered path end to end: the body refused before anything is sent, or the response to its operations |
| `BulkIngest.IngestStreamed` | crates/osproxy-engine/src/bulk.rs:145-176 | the streamed path end to end over any frames, at the proxy's own line cap and thresholds: the response, or why the stream broke off and which operations had been taken by then |
| `BulkIngest.StreamedAnswersIff` | crates/osproxy-engine/src/bulk.rs:133-176 | however the body is cut into frames, the two paths answer alike if and only if the last line is ended by a newline or parsing stops at a bad line; for any preparation and sink that answer an operation alike with and without one trailing carriage return, and lose the same operations |
| `IdTemplate.ConstructIdWith` | crates/osproxy-rewrite/src/id.rs:76-130 | the walker that builds the id computes what `WalkersAgree` relates to the frame |
| `IdTemplate.ComputeIdFrame` | crates/osproxy-rewrite/src/id.rs:179-215 | the walker that renders the frame succeeds where `ReversibleIffOneKey` says |
| `Addressing.ReversibleIffOneKey` | crates/osproxy-rewrite/src/id.rs:179-215 | a template can be read back exactly when it is well formed around one natural key |
| `Addressing.FrameRender` | crates/osproxy-rewrite/src/id.rs:179-215 | the frame of a well-formed template is the text around its one natural key; with none, or with a second one, the template is irreversible |
| `Addressing.FlawIsNamed` | crates/osproxy-rewrite/src/id.rs:76-215 | on any other template both walkers name the first brace that is not closed or placeholder that is unknown, unless a part that cannot be resolved, or a second natural key, comes before it |
| `Addressing.WalkersAgree` | crates/osproxy-rewrite/src/id.rs:76-215 | on a reversible template the constructed id is the frame around the resolved key |
| `Addressing.MappingsInverse` | crates/osproxy-rewrite/src/id.rs:132-175 | the two id mappings are mutually inverse |
| `Addressing.WriteThenRead` | crates/osproxy-engine/src/read.rs:103-141 | the id a write echoes rebuilds the same physical id and routing exactly when the template is reversible |
| `Addressing.LogicalWriteIdIs` | crates/osproxy-engine/src/read.rs:129-141 | a write echoes the key inside the template's frame, and the stored id itself if there is no rule, no frame or no fit |
| `Addressing.RoutedAndMapped` | crates/osproxy-engine/src/read.rs:103-122 | the routing is the hint, or else the partition, exactly when the rule asks for it; the id sent is the client's inside the template's frame |
| `Addressing.BulkWriteThenRead` | crates/osproxy-engine/src/bulkprep.rs:252-293 | the same for a bulk index or create, with the client's own id or a constructed one |
| `Addressing.IndexIdIs` | crates/osproxy-engine/src/bulkprep.rs:252-287 | a client's own id is stored inside the template's frame and echoed as it is, a missing one is constructed |
| `Affinity.CursorAffinity.Pin` | crates/osproxy-control/src/affinity.rs:90-110 | sweeps, evicts one oldest binding exactly when the live ones fill the capacity, and binds; the map stays within its capacity |
| `Affinity.CursorAffinity.Resolve` | crates/osproxy-control/src/affinity.rs:115-122 | answers only with the latest pin of the history that is not evicted and fewer than TTL ticks old, and always with it if no pin has used a later clock reading at which it was older |
| `Affinity.CursorAffinity.Release` | crates/osproxy-control/src/affinity.rs:125-127 | drops the binding |
| `Affinity.CursorAffinity.Sweep` | crates/osproxy-control/src/affinity.rs:93-93 | keeps exactly the bindings pinned fewer than TTL ticks ago |
| `Affinity.YoungerThanTtl` | crates/osproxy-control/src/affinity.rs:142-144 | a binding lives for fewer ticks than the TTL, counted from its pin |
| `Affinity.CursorAffinity.Oldest` | crates/osproxy-control/src/affinity.rs:94-100 | a binding pinned no later than any other |
| `Cursor.HexEq` | crates/osproxy-core/src/cursor.rs:90-104 | the comparison without early return holds exactly when the text decodes to the tag |
| `Cursor.UnHexIff` | crates/osproxy-core/src/cursor.rs:119-131 | hexadecimal decodes to a text exactly when it spells it in either case |
| `Cursor.WrapCursor` | crates/osproxy-core/src/cursor.rs:38-50 | the token, framed into one buffer |
| `Cursor.TokenLayout` | crates/osproxy-core/src/cursor.rs:38-83 | the token field by field, and what its tag signs |
| `Cursor.HexSpells` | crates/osproxy-core/src/cursor.rs:107-114 | two lower-case digits for each byte, the high half first |
| `Cursor.UnwrapToken` | crates/osproxy-core/src/cursor.rs:56-73 | the verification accepts exactly the tokens of `AcceptsOnlyWrapped` |
| `Cursor.UnwrapInvertsWrap` | crates/osproxy-core/src/cursor.rs:38-73 | unwrapping inverts wrapping for every cluster and cursor, dots included |
| `Cursor.AcceptsOnlyWrapped` | crates/osproxy-core/src/cursor.rs:56-73 | a token is accepted exactly when it spells the wrapping of its result up to hexadecimal case |
| `Cursor.BindingInjective` | crates/osproxy-core/src/cursor.rs:77-83 | clusters without the separator cannot trade bytes with the cursor |

## Left out

- Sockets, TLS, HTTP and gRPC, the Kafka and etcd clients, the async runtime: the sink, the
  broker and the backend are parameters that answer as they like; locks are atomic steps.
- I/O errors of the log and checkpoint files, other than a body too long to frame; the
  process aborting on a failed allocation; `fsync` timing beyond "a crash cuts the log
  somewhere", which `WalRuns` takes at or past the checkpoint.
- `Wal.Log.Append`: adds offsets as natural numbers, where the code saturates at the top of
  64 bits; the two differ only for a file of 2^64 bytes.
- `WalRuns.RunDelivers`: speaks of runs whose steps are safe in the sense of `WalRuns.Safe`,
  which `WalRuns.SafeIff` shows to be exactly the steps that keep the queue on disk. Crashes
  between the writes of one operation are not among the steps: `WalCrash` says what they
  leave, except for one inside the overwriting of a live tail, which is lost in any case.
- `Wal.DrainIsFifo`: covers scripts in which no turn compacts while a record is pending, with
  no append during the script; `WalRuns.RunDelivers` interleaves appends and restarts.
- `Migration.RunIsSafe`: assumes that one controller drives each partition, one operation at
  a time, that a partition is registered once and that its state can be read; no code
  enforces these. `MigrationRules.SafeIffBarrierCoversTimeout` shows that each is needed.
- `Migration.ControlPlane.Complete`: reads the state and takes the stamp in one step, as do
  the fleet's runs; the code awaits in between, which operations in other lanes could use.
- `IdTemplate.ConstructIdWith`: takes the lookup of a body path as a parameter; `JsonPath.ScalarAt`
  is the lookup used on raw bodies.
- `BulkDemux.EqualsSimple`: takes the gate's verdict on an operation and the sink's answer to
  it as functions of the operation, where the sink may fail any batch whole; that each is
  asked once is part of the demux.
- `prepare` and its resolution cache, the update and delete branches of bulk preparation, the
  async fan-out, `_mget` and `_msearch`: they add cases, not a harder property.
- `Query.WrapQuery`: takes the map's entries in any order, where a `BTreeMap` sorts them, and
  leaves out the unreachable error of re-checking the assembled bytes as UTF-8.
- `SearchOracle.StreamEqualsBuffered`: speaks of responses that are documents; on other
  bytes `SearchConserve.Conservation` says what the stream does.
- `BulkIngest.IngestStreamed`: takes preparation as a function of the operation. On body
  streams that fail or have a line over the cap it is held to one call after the other
  (`BulkOps.StreamOps`), and on all others to the buffered path.
- `serde_json` itself: parsing is the grammar's one reading, writing is any function whose
  text reads back. Which numbers it refuses as out of range is left open (`fits`), as is how
  it rounds and normalises the others: they keep their spelling.
- `ReadShaping.ShapeHit`, `ReadShaping.ShapeHits`, `Fields.InjectTree`: work on values; the
  code edits a tree through mutable references. `Fields.Document` is that object for
  injection and stripping.
- The recursion limits of the parser and of `serde_json`, and stack depth; depth counters are
  natural numbers.
- SIMD instructions: the lanes of the boundary scan are sequences of 32 comparisons.
- HMAC: the cursor tag is any deterministic function; the timing of the comparisons.
- Byte strings stand for Rust strings; only where UTF-8 validity decides something is it
  checked, with the code's own test.
- Metrics, traces, configuration, header filters, response envelopes other than those above:
  shallow.
