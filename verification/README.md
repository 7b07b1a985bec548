# Takyon store: a Dafny model

Takyon is an in-memory record store whose processes share one mapped arena. Its
TypeScript SDK splits the arena into regions by a header table, allocates records
and strings from two bump words, compiles field schemas to byte offsets, writes
fields in place through a get/set trap, and offers every write to a log ring that
may refuse it. Beside the store stand a catalog of table descriptors, a scrubber
for sealed envelopes, and a relational layer: tables with secondary maps,
statements, batches, filters, joins, columnar kernels and order-preserving keys.

This project models that SDK and proves what it promises. The code is taken as
written: same branches, same order of effects, same constants.

| file | subject |
|---|---|
| `Bytes`, `Options`, `Utf8`, `JsText`, `Values` | bytes and words, UTF-8, JavaScript strings, numbers and cells |
| `Layout`, `RecordSchema` | region table, field offsets |
| `ArenaModel`, `ArenaStore` | the store as functions on bytes, and as an object that updates them in place |
| `ArenaHeap`, `ArenaRefinement` | the record invariant, refinement of a plain map |
| `PlainStore`, `CallOutcome` | the store as a machine without bytes, and exactly when each call succeeds |
| `ArenaLog` | memory against the log |
| `BumpAllocator` | the two bump words under arbitrary interleavings |
| `CatalogCodec` | the fixed-width catalog record |
| `Crc32`, `CrcPolynomial`, `Scrub` | checksum, what it is, envelopes, extent walker |
| `RelationalSchema`, `TableModel`, `RelationalTable`, `Executor`, `Transaction`, `CommitOutcome` | table definitions, rows, tables, UPDATE and DELETE, batches |
| `Like`, `Filter`, `Sql`, `Join`, `Aggregation`, `Pushdown` | query transformations |
| `IndexKeys`, `IndexRuns` | order-preserving keys, several indexes on one key space |

Operations that change state are methods, on an array or on an object, proved
against a function of the old state; what the store promises is proved about those
functions, for all inputs and all runs. The engine below the SDK stays abstract:
its index is a finite map (in key-byte order where order matters), its ring is an
append-only sequence of attempts, and each of its answers is a parameter, so every
theorem holds for every pattern of refusals.

## Domain

- Strings in the arena and in index keys are sequences of Unicode scalar values.
  Relational text is UTF-16 code units.
- Numbers are exact reals with NaN and the two infinities; an arena float64 is
  eight opaque bytes. How the host renders a number or a byte array, and reads a
  number from text, are parameters of the relational layer.
- At the start the record region is zeroed, no key is bound, and each bump word is
  zero, at its seed or above it; index region, ring and strings hold anything.
  Requests in total stay below the 32-bit wrap of a bump word; there is no vacuum.
- No collection name followed by a colon starts another one, nor the catalog's
  prefix; colon-free names never do.

## Where the code and its documentation disagree

The model follows the code.

- The default text decoder drops a leading U+FEFF (`src/sdk/client/proxy.ts:372`),
  so a stored text that starts with it reads back without it: `Utf8.HostRoundTrip`
  gives the exact condition.
- Assigning `""` to a string field always throws and the field keeps its value,
  because a zero-length announcement is refused: `ArenaRefinement.StringStoredIff`
  says exactly which assignments take effect.
- Collection names with a colon are accepted, and some pairs of them share index
  keys: `ArenaRefinement.NamesCollideIff` says exactly which.
- An index offset at or above 0x7FFFFFFF is hidden by lookup; `FindHits`,
  `FindAfterRun` and `LoadAfterRun` carry that condition.
- `Transaction.commit` is documented as clearing its buffer either way and, in its
  class comment, as applying nothing partially. The buffer survives a failure and a
  prefix of the batch stays applied: `CommitOutcome.CommitSucceedsIff` says exactly
  when a batch commits, `CommitOutcome.FailedCommitChangesIff` exactly when a failure
  leaves changes, `Transaction.FailedCommitCanLeaveRows` gives an input.
- `padI64Hex16` is documented as encoding -1 above 0; negatives sort first:
  `IndexKeys.I64HexOrder`.
- `scan_range` is documented as excluding its upper bound; it includes it. Of the
  top value's entries only those whose primary key is empty, starts below U+FFFF or
  is U+FFFF itself are returned: `IndexKeys.RangeIsExact`.
- A catalog table name of at most 64 characters but more than 64 UTF-8 bytes
  encodes to a record that never decodes: `CatalogCodec.OverlongTableRejected`.
- A `find` whose namespaced key exceeds 256 bytes throws, although its comment calls
  that unreachable; the model has that outcome.
- An UPDATE that assigns the primary key can stop half way: `Executor.PartialUpdateIff`.
- The columnar kernels are documented as giving the row plan's answers. Under `ne`
  they select non-numeric cells as NaN, and a compensated sum turns NaN after an
  infinite cell: `Pushdown.PlansAgreeIff` states exactly when they agree,
  `Pushdown.NotEqualDiffers` shows a case where they do not.
- Compiled LIKE wildcards stop at line terminators: `Like.AgreesEverywhereIff`.
- A cut within the first ten bytes of an envelope is reported as corruption, not as
  truncation: `Scrub.CutLocated`.

## Model

| member | source | states |
|---|---|---|
| `Utf8.DecodeEncode` | src/sdk/client/proxy.ts:400-403 | UTF-8 of any scalar-value text (section 3 of RFC 3629) decodes to exactly that text |
| `Utf8.EncodeDecode` | src/sdk/client/proxy.ts:371-372 | every byte sequence the strict decoder accepts is the encoding of what it decodes to, so decoding is injective |
| `Utf8.HostRoundTrip` | src/sdk/client/proxy.ts:716-731 | encoding then reading with the SDK's default text decoder gives a string back if and only if it does not start with U+FEFF, and then without that one character |
| `Utf8.EncodePreservesOrder` | src/sdk/client/relational/secondary_native.ts:184-224 | byte order of encodings is code point order, both ways |
| `Utf8.EncodeConcat` | src/sdk/takyon.ts:58-60 | the encoding of a concatenation is the concatenation of the encodings (key namespacing) |
| `Utf8.EncodeOneLayout` | src/sdk/client/proxy.ts:400-403 | the shortest form of section 3 of RFC 3629: lead byte by length, six bits to a continuation byte |
| `Utf8.Utf16LengthIs` | src/sdk/takyon.ts:15-26 | the length the checks compare is the number of UTF-16 code units |
| `Bytes.LittleEndian` | src/sdk/client/layout.ts:274-287 | words are read least significant byte first |
| `Layout.WriteRegions` | src/sdk/client/layout.ts:274-287 | writes exactly the header words of the region table, each field modulo 2^32, into the buffer and nothing else, or refuses a short buffer unchanged |
| `Layout.HeaderRoundTrip` | src/sdk/client/layout.ts:170-204 | reading a header that was just written over any bytes returns the table with every field modulo 2^32: the same table if and only if all its fields are u32 |
| `Layout.ValidIsOrdered` | src/sdk/client/layout.ts:215-242 | a table the validator accepts has ring, record bump word, records, index, string bump word and strings in this order without overlap, inside the arena |
| `Layout.AcceptedIff` | src/sdk/client/layout.ts:215-242 | exactly which tables the validator accepts: the mapping's size, a power of two of at least 16 ring slots, an aligned index, and the regions in order |
| `Layout.TableIff` | src/sdk/client/layout.ts:170-204 | exactly which buffers read as a table, which of the four refusals the others get, and the byte position of every field |
| `Layout.BitTrick` | src/sdk/client/layout.ts:215-242 | the capacity test `n & (n - 1)` accepts exactly the powers of two, for every n |
| `Layout.DefaultAcceptedIff` | src/sdk/client/layout.ts:254-267 | the default table leaves no gaps, and is accepted if and only if at least eight string bytes fit above the string region start |
| `RecordSchema.Compile` | src/sdk/client/schema.ts:68-111 | the layout loop: every declared field gets its aligned offset in declaration order and the total is padded to the record alignment; empty and unknown-type definitions are refused |
| `RecordSchema.PackedIsWellLaid` | src/sdk/client/schema.ts:68-111 | for distinct names the compiled fields are pairwise disjoint, aligned and inside the total size, which is a multiple of 8 |
| `RecordSchema.FieldsSitTight` | src/sdk/client/schema.ts:68-111 | one, four or eight bytes by type, words on multiples of 4 and floats and strings on multiples of 8, each field on the first boundary after the one before |
| `ArenaStore.Store.Poke` | src/sdk/client/proxy.ts:773-785 | writes the given bytes in place and changes no other byte of the arena |
| `ArenaStore.Store.AllocateRecordOffset` | src/sdk/takyon.ts:334-358 | seeds and advances the record bump word in place; refuses past the region end after having moved it, exactly as the model says |
| `ArenaStore.Store.PublishPayload` | src/sdk/client/proxy.ts:766-784 | copies a payload above the string bump and offers its announcement, in that order |
| `ArenaStore.Store.WriteText` | src/sdk/client/proxy.ts:746-789 | allocate, copy, announce, store the pointer, push the pointer, in this order, stopping at each refusal exactly where the model does |
| `ArenaStore.Store.Assign` | src/sdk/client/proxy.ts:741-830 | the set trap on every field type and value: new bytes, log attempts and thrown fault equal the model's |
| `ArenaStore.Store.FillRecord` | src/sdk/takyon.ts:120-124 | the field-assignment loop stops at the first throw; state, log and count equal the model's |
| `ArenaStore.Store.Search` | src/sdk/takyon.ts:147-155 | key lookup with the reserved-offset and region checks |
| `ArenaStore.Store.InsertRow` | src/sdk/takyon.ts:96-127 | insert: allocation before the index write, so a refused index write leaves the bump moved and the index as it was |
| `ArenaStore.Store.UpdateRow` | src/sdk/takyon.ts:205-214 | update of a present key fills the record in place; an absent key changes nothing |
| `ArenaStore.Store.UpsertRow` | src/sdk/takyon.ts:232-243 | upsert is update when the key is found and insert otherwise |
| `ArenaStore.Store.DeleteRow` | src/sdk/takyon.ts:174-184 | delete unbinds the key and touches no arena byte |
| `ArenaStore.Store.Save` | src/sdk/client/relational/catalog_record.ts:281-307 | catalog save on the shared string bump word |
| `ArenaStore.Store.Load` | src/sdk/client/relational/catalog_record.ts:326-346 | catalog load: the name check that throws, header checks, length from the column count, decode |
| `ArenaHeap.TakeRecordOk` | src/sdk/takyon.ts:334-358 | moving the record bump word keeps every record readable and well formed |
| `ArenaHeap.TakeStringOk` | src/sdk/client/proxy.ts:766-771 | moving the string bump word keeps every record readable and well formed |
| `ArenaHeap.FreshRecordOk` | src/sdk/takyon.ts:334-358 | a freshly allocated extent reads as a record of zeros and empty strings and meets no other record |
| `ArenaHeap.FieldWriteOk` | src/sdk/client/proxy.ts:741-830 | an in-place field write changes that field's cell and no cell of any record, its own included |
| `ArenaHeap.SetFieldOk` | src/sdk/client/proxy.ts:741-830 | one assignment, under every refusal pattern, leaves all records well formed: the field holds the new value or keeps the old one, and nothing else changes |
| `ArenaRefinement.NamespaceInjective` | src/sdk/takyon.ts:58-60 | under one collection name, or two that cannot share a key, no two (collection, key) pairs share an index key |
| `ArenaRefinement.NamesCollideIff` | src/sdk/takyon.ts:58-60 | exactly which names break that: two collection names can share an index key if and only if one name with its colon starts the other with its colon |
| `ArenaRefinement.ColonFreeApart` | src/sdk/takyon.ts:58-60 | different names without colons never share one |
| `ArenaRefinement.StepOk` | src/sdk/takyon.ts:96-243 | every call, under arbitrary refusals, keeps arena, index and the abstract map of typed records in agreement |
| `ArenaRefinement.RunKeeps` | src/sdk/takyon.ts:96-243 | so does every run of calls, interleaving inserts, updates, upserts, deletes, catalog saves and other allocations |
| `ArenaRefinement.FindHits` | src/sdk/takyon.ts:147-155 | find hits exactly the keys of the abstract map whose offset is not reserved |
| `ArenaRefinement.FindReads` | src/sdk/client/proxy.ts:712-739 | each field of a found record reads the abstract cell |
| `ArenaRefinement.FindAfterRun` | src/sdk/takyon.ts:96-243 | after any run on an arena no client has used, its bump words zero, seeded or above, the store is a plain map from (collection, key) to typed record: find succeeds exactly on its keys and every field reads its value |
| `ArenaRefinement.OtherRowsKept` | src/sdk/takyon.ts:96-243 | no call, however it ends, changes what find answers for any other key or what any field of that record reads |
| `ArenaRefinement.SuccessAppliesAll` | src/sdk/takyon.ts:96-243 | a call that does not throw has applied every entry and says truthfully whether it created the row |
| `ArenaRefinement.LastValueWins` | src/sdk/takyon.ts:120-124 | the last value assigned to a field wins and a field never assigned keeps its cell |
| `ArenaRefinement.StringStoredIff` | src/sdk/client/proxy.ts:755-788 | for every text: the assignment takes effect exactly when the string region is inside the arena, the bytes fit, the announcement is accepted and the text is not empty; it succeeds exactly when the pointer message is accepted too |
| `ArenaRefinement.LoadAfterRun` | src/sdk/client/relational/catalog_record.ts:281-346 | catalog saves interleaved with string writes on one bump word: load throws for a name outside 1 to 64 characters, else returns the last saved column list or null, never a bad-record error |
| `PlainStore.KeyAdmittedIff` | src/sdk/takyon.ts:15-26 | the key check accepts exactly one to 256 UTF-8 bytes without a NUL |
| `PlainStore.AssignmentMeans` | src/sdk/client/proxy.ts:741-830 | one assignment, on bytes, ends, moves the string word and offers messages exactly as the byte-free model says: a message counts as accepted if and only if the engine answered 0 and it is not empty |
| `PlainStore.AssignmentsMean` | src/sdk/takyon.ts:120-124 | the same for the whole assignment loop |
| `PlainStore.StepMeans` | src/sdk/takyon.ts:96-243 | every call reports, logs, moves both counters and binds exactly as a machine on plain maps does from the call and the engine's answers alone |
| `PlainStore.RunMeans` | src/sdk/takyon.ts:96-243 | so does every run, report by report and message by message |
| `PlainStore.StoreIsPlain` | src/sdk/takyon.ts:96-243 | after any run on an arena no client has used, reports and log are the machine's, and find, every field read and catalog load answer from its maps |
| `CallOutcome.AllAssignedIff` | src/sdk/client/proxy.ts:741-830 | the entries of a call all take effect if and only if each value suits its field and is accepted by the engine and the texts together fit the string region |
| `CallOutcome.CellsAre` | src/sdk/client/proxy.ts:712-739 | what a field reads: the number, bits or text assigned last, a text without a leading U+FEFF; zeros and the empty text before that |
| `CallOutcome.InsertOutcome` | src/sdk/takyon.ts:96-127 | a key is bound, to the next record offset, exactly when it is valid, the record fits, the full key has at most 256 bytes and the index answers 0; any other answer throws, binds nothing and still spends the record; the call succeeds exactly when all entries are assigned too |
| `CallOutcome.UpdateOutcome` | src/sdk/takyon.ts:205-214 | a row is filled exactly when it is found, an absent key changes nothing and does not throw, and no binding or record space moves |
| `CallOutcome.UpsertOutcome` | src/sdk/takyon.ts:232-243 | a key is bound exactly when it is not found and an insert would bind it; success exactly when all entries are assigned |
| `CallOutcome.DeleteOutcome` | src/sdk/takyon.ts:174-184 | a key is unbound exactly when it is valid, short enough and the engine does not fail; true exactly when it was bound; the arena is untouched |
| `CallOutcome.SaveOutcome` | src/sdk/client/relational/catalog_record.ts:281-307 | a table is bound exactly when it encodes, fits the mapping, is announced, has no NUL and the index answers 0; its string space is spent whenever it encodes |
| `ArenaLog.StepLogged` | src/sdk/client/proxy.ts:575-606 | every call keeps memory and log in relation: a region byte the replay gets wrong was last covered by a refused message |
| `ArenaLog.RunLogged` | src/sdk/client/proxy.ts:575-606 | so does every run |
| `ArenaLog.UnloggedIff` | src/sdk/client/proxy.ts:575-606 | `unlogged` means exactly: the last message over the byte was refused |
| `ArenaLog.ReplayDiffersOnlyWhereRefused` | docs/architecture/README.md:36-46 | for every run the log is the sequence of messages the calls make with the engine's answers, and replay of the accepted ones differs from memory only in extents whose last message the engine refused |
| `ArenaLog.ReplayRebuildsMemory` | docs/architecture/README.md:36-46 | when the engine answers 0 to every message of a run and no empty text is announced, replay rebuilds every record and string byte |
| `ArenaLog.AnnouncedNeverRewritten` | src/sdk/client/proxy.ts:766-784 | announced extents hold the same bytes after any further calls, so replay does not depend on when they are copied |
| `ArenaLog.PrefixResolves` | src/sdk/client/proxy.ts:766-788 | in the replay of any prefix a string field is empty or points at an extent announced earlier in that prefix holding a value once assigned to it |
| `ArenaLog.EveryPrefixResolves` | src/sdk/client/proxy.ts:766-788 | the same for every run from an arena no client has used, every prefix, every record and every string field |
| `BumpAllocator.ScheduleKeeps` | src/sdk/takyon.ts:334-358 | under any interleaving of compare-exchange seed, atomic add and limit check the claims in flight and granted stay disjoint |
| `BumpAllocator.GrantsAreSafe` | src/sdk/takyon.ts:334-358 | from bump words zero, seeded or above, all granted record, string and catalog extents are pairwise disjoint, inside their region and clear of header, ring, index and bump words; records are 8-aligned when the region start and the record word are |
| `BumpAllocator.AloneIsTheClient` | src/sdk/takyon.ts:334-358 | one worker's three steps alone are the client's own allocation for records, strings and catalog records: same base, same words, and a grant exactly where the limit check passes |
| `CatalogCodec.EncodeCatalogRecord` | src/sdk/client/relational/catalog_record.ts:118-140 | the encoder loop over a zeroed array writes exactly the specified record or reports the specified refusal |
| `CatalogCodec.EncodeIsRecord` | src/sdk/client/relational/catalog_record.ts:118-140 | writing over zeros, field by field, gives header, padded names, type and flag bytes in order |
| `CatalogCodec.EncodesIff` | src/sdk/client/relational/catalog_record.ts:118-140 | exactly which tables encode: name of 1 to 64 characters, 1 to 32 columns named with 1 to 64 bytes, and with one column a name of at most 131 bytes |
| `CatalogCodec.RecordBytes` | src/sdk/client/relational/catalog_record.ts:118-140 | every byte position of a record: tag, version, count, table name, and per column name, type code and flag bits |
| `CatalogCodec.DecodeCatalogRecord` | src/sdk/client/relational/catalog_record.ts:179-211 | the validating decoder's branches, in order, with the first fault reported |
| `CatalogCodec.DecodesIff` | src/sdk/client/relational/catalog_record.ts:179-211 | exactly which buffers decode, in terms of their bytes |
| `CatalogCodec.DecodeAfterEncodeIff` | src/sdk/client/relational/catalog_record.ts:118-211 | decode of an encoding returns table, names, types and flags if and only if the table name's UTF-8 fits 64 bytes and no name starts with U+FEFF |
| `CatalogCodec.OverlongTableRejected` | src/sdk/client/relational/catalog_record.ts:118-140 | a table name of at most 64 characters but more than 64 UTF-8 bytes encodes, or throws, and never decodes |
| `CatalogCodec.EncodeAfterDecode` | src/sdk/client/relational/catalog_record.ts:179-211 | an accepted buffer with zero table-name padding and losslessly decoded names re-encodes to the same bytes |
| `CatalogCodec.ReencodesIff` | src/sdk/client/relational/catalog_record.ts:179-211 | an accepted buffer is the encoding of what it decodes to if and only if its table padding is zero and all its names decode losslessly |
| `Crc32.Crc32Ieee` | src/sdk/client/scrub.ts:37-44 | the bitwise loop computes the register-level CRC-32 of section 8 of RFC 1952 |
| `Crc32.StepInjective` | src/sdk/client/scrub.ts:37-44 | one shift step is invertible |
| `Crc32.WindowIsWord` | src/sdk/client/scrub.ts:37-44 | four bytes enter the register as one word, so four-byte windows map one to one |
| `Crc32.BurstDetected` | src/sdk/client/scrub.ts:37-44 | two equal-length inputs of any length that differ only inside a window of at most four bytes have different CRC-32 |
| `CrcPolynomial.RemainderExists` | src/sdk/client/scrub.ts:37-44 | the register holds the remainder of the message polynomial, its first 32 coefficients complemented, on division by the generator of section 8.1.1.6.2 of ITU-T V.42 |
| `CrcPolynomial.RemainderUnique` | src/sdk/client/scrub.ts:37-44 | that division has one quotient and one remainder |
| `CrcPolynomial.CrcIsRemainder` | src/sdk/client/scrub.ts:37-44 | for all data the checksum is the complement of the remainder, bit i of it belonging to x^(31-i) |
| `Scrub.SealRecord` | src/sdk/client/scrub.ts:61-71 | fills the envelope in place: magic, version, length, payload, checksum |
| `Scrub.SealVerifies` | src/sdk/client/scrub.ts:61-86 | every sealed payload verifies, alone and with any bytes behind it |
| `Scrub.SealBytes` | src/sdk/client/scrub.ts:61-71 | tag, version, length, checksum over header and payload, payload, each at its place |
| `Scrub.VerifiesIff` | src/sdk/client/scrub.ts:78-86 | verification accepts exactly the buffers that begin with a sealed payload |
| `Scrub.ScrubRecords` | src/sdk/client/scrub.ts:131-158 | the extent walk terminates and reports what the recursive walk reports, on every buffer |
| `Scrub.FoundIsReported` | src/sdk/client/scrub.ts:131-158 | `ok` and `bytes` are the count and total length of verified envelopes that concatenate to a prefix of the buffer |
| `Scrub.FoundIsMaximal` | src/sdk/client/scrub.ts:131-158 | no other sequence of verified envelopes is a longer prefix, on every buffer |
| `Scrub.ReportIsExact` | src/sdk/client/scrub.ts:131-158 | `corrupt` is at most 1 and never with `truncated`, and each verdict holds exactly under its condition on the first unverified bytes |
| `Scrub.SealedWalksClean` | src/sdk/client/scrub.ts:131-158 | sealed payloads followed by zeros are all reported, nothing corrupt or truncated |
| `Scrub.CutLocated` | src/sdk/client/scrub.ts:131-158 | a cut inside any envelope is located at that envelope; inside its first 10 bytes it reads as corruption, later as truncation |
| `Scrub.DamageLocated` | src/sdk/client/scrub.ts:131-158 | damage outside the length field, of any width in magic and version, is reported as corruption at exactly the damaged envelope, whatever follows |
| `Scrub.OneByteIsDamage` | src/sdk/client/scrub.ts:78-86 | any change of one byte outside the length field is such damage |
| `TableModel.ValidateRow` | src/sdk/client/relational/codec.ts:42-75 | the validation loop reports the first faulting column in declaration order, then a missing key, and accepts exactly the rows all of whose cells their columns admit |
| `TableModel.RowFaultIs` | src/sdk/client/relational/codec.ts:42-75 | the error of a refused row: wrong type, null or left-out key for its first unusable cell, a missing key when all are usable |
| `TableModel.MergeIff` | src/sdk/client/relational/codec.ts:42-75 | validity is per column: merging a patch into a valid row is valid if and only if the patch is |
| `Values.KeyTexts` | src/sdk/client/relational/utils.ts:18-23 | a row is stored under the rendering of its key, a byte array under its digits; null and undefined are refused |
| `Values.RenderingsDiffer` | src/sdk/client/relational/utils.ts:18-23 | texts render as themselves and no two of the booleans, null and undefined render alike |
| `RelationalSchema.Compile` | src/sdk/client/relational/schema.ts:39-65 | the compiler loop accepts exactly valid names, 1 to 32 valid distinct columns and one non-nullable primary key, and packs the columns in order behind the bitmap |
| `RelationalSchema.ColumnsApart` | src/sdk/client/relational/schema.ts:47-60 | columns never overlap each other or the four-byte null bitmap and all end inside the row |
| `RelationalSchema.ColumnsBackToBack` | src/sdk/client/relational/schema.ts:47-60 | columns start at byte 4 and follow each other without gaps |
| `RelationalSchema.TypeSizes` | src/sdk/client/relational/types.ts:34-57 | the width of every column type |
| `RelationalSchema.LimitsAre` | src/sdk/client/relational/schema.ts:39-65 | the limits: 1 to 32 columns, column names of at most 64 characters, no nullable key |
| `RelationalSchema.IdentifierIff` | src/sdk/client/relational/schema.ts:40-42 | names are letters, digits and underscores, not starting with a digit |
| `RelationalSchema.NullBitsDiffer` | src/sdk/client/relational/codec.ts:24-26 | two columns share a null mask exactly when their positions differ by a multiple of 32, so never within one table |
| `RelationalSchema.NullBitIs` | src/sdk/client/relational/codec.ts:24-26 | masks start at 1 and double per column, the 32nd being the sign bit |
| `TableModel.InsertSeen` | src/sdk/client/relational/table.ts:58-67 | insert succeeds exactly for a valid row with a free key; the row comes last in a scan, is found under its key, and no other lookup changes |
| `TableModel.UpdateSeen` | src/sdk/client/relational/table.ts:117-130 | update succeeds exactly for a valid patch that keeps the key; the merged row takes the old one's place in a scan and no other lookup changes |
| `TableModel.RekeyFaultIs` | src/sdk/client/relational/table.ts:117-130 | a patch keeps the key when it leaves it out or names a value stored under the same text; otherwise which error it gets |
| `TableModel.DeleteSeen` | src/sdk/client/relational/table.ts:139-145 | delete closes the gap in a scan, makes the key absent and changes no other lookup |
| `TableModel.SelectIs` | src/sdk/client/relational/table.ts:94-100 | a filtered scan holds exactly the matching keys, each once |
| `TableModel.SelectIsSubsequence` | src/sdk/client/relational/table.ts:94-100 | a filtered scan keeps insertion order |
| `TableModel.InsertKeeps` | src/sdk/client/relational/table.ts:58-67 | insert keeps every row valid and stored under the encoding of its own key; refused inserts change nothing |
| `TableModel.UpdateKeeps` | src/sdk/client/relational/table.ts:117-130 | update keeps the same and the row order; refused updates change nothing |
| `TableModel.DeleteKeeps` | src/sdk/client/relational/table.ts:139-145 | delete keeps the same |
| `RelationalTable.GroupsExactly` | src/sdk/client/relational/table.ts:154-175 | a secondary map has an entry for exactly the values some row renders to, holding exactly those rows' keys |
| `RelationalTable.AddGroups` | src/sdk/client/relational/table.ts:154-164 | indexing a new row keeps the grouping |
| `RelationalTable.RemoveGroups` | src/sdk/client/relational/table.ts:166-175 | deindexing a row keeps the grouping and drops the value when its set empties |
| `RelationalTable.RelationalTable.constructor` | src/sdk/client/relational/table.ts:32-37 | a new table has an empty map per unique or primary-key column |
| `RelationalTable.RelationalTable.IndexRow` | src/sdk/client/relational/table.ts:154-164 | adds the key under each indexed column's rendered value, columns one by one |
| `RelationalTable.RelationalTable.DeindexRow` | src/sdk/client/relational/table.ts:166-175 | removes the key under each indexed column's rendered value |
| `RelationalTable.RelationalTable.InsertRow` | src/sdk/client/relational/table.ts:58-67 | new rows go last; the secondary maps still group the rows; a refusal changes nothing |
| `RelationalTable.RelationalTable.FindRow` | src/sdk/client/relational/table.ts:77-81 | lookup under the encoded key, throwing only for an unrenderable key |
| `RelationalTable.RelationalTable.Scan` | src/sdk/client/relational/table.ts:94-100 | the rows that satisfy the clause, in insertion order, with the clause compiled once |
| `RelationalTable.RelationalTable.UpdateRow` | src/sdk/client/relational/table.ts:117-130 | merge in place under validation and key immutability; the secondary maps still group the rows; a refusal changes nothing |
| `RelationalTable.RelationalTable.DeleteRow` | src/sdk/client/relational/table.ts:139-145 | removes the row and its secondary entries, order otherwise kept |
| `Executor.ExecuteUpdate` | src/sdk/client/relational/executor.ts:169-185 | the UPDATE loop: scan first, then one update per scanned row, stopping where one throws |
| `Executor.ExecuteDelete` | src/sdk/client/relational/executor.ts:186-198 | the DELETE loop over the scanned rows |
| `Executor.LastAssignmentWins` | src/sdk/client/relational/executor.ts:179-183 | of several assignments to one column in a SET list the last one wins |
| `Executor.UpdateAllOrNothing` | src/sdk/client/relational/executor.ts:169-185 | an UPDATE that leaves the primary key alone fails before any change, exactly when a row matches and the patch is invalid, or merges the patch into exactly the matching rows in place and counts them |
| `Executor.UpdateAssigningKey` | src/sdk/client/relational/executor.ts:169-185 | an UPDATE that assigns the key: complete outcome by number of matches and the first match's key |
| `Executor.PartialUpdateIff` | src/sdk/client/relational/executor.ts:169-185 | exactly when a failing UPDATE leaves the table changed: it assigns the key, several rows match, the first already has that key and the valid patch alters it |
| `Executor.DeleteLeavesTheRest` | src/sdk/client/relational/executor.ts:186-198 | DELETE leaves exactly the non-matching rows, in order, never fails, and counts the rest |
| `Transaction.RelationalDatabase.CreateTable` | src/sdk/client/relational/database.ts:31-36 | adds an empty table exactly when the name is free and the definition is accepted; otherwise nothing changes |
| `Transaction.RelationalDatabase.ApplyOne` | src/sdk/client/relational/transaction.ts:96-101 | one buffered operation on the table objects equals the model's step on the whole database |
| `Transaction.Transaction.CheckBatch` | src/sdk/client/relational/transaction.ts:80-95 | the pre-pass loop with its seen-sets |
| `Transaction.Transaction.ApplyBatch` | src/sdk/client/relational/transaction.ts:96-101 | the apply loop stops at the first operation that throws |
| `Transaction.Transaction.CommitBatch` | src/sdk/client/relational/transaction.ts:76-103 | commit: new database, remaining buffer and error equal the model's, on every batch |
| `Transaction.PrePassIff` | src/sdk/client/relational/transaction.ts:80-95 | the pre-pass passes if and only if every table exists and the insert keys are distinct per table and absent at the start |
| `Transaction.SameKey` | src/sdk/client/relational/transaction.ts:80-95 | for a valid row not keyed by bytes the pre-pass and the table compute the same key |
| `Transaction.ApplyNeverDuplicates` | src/sdk/client/relational/transaction.ts:96-101 | after the pre-pass no operation of the apply loop can fail with a duplicate key, whatever the other operations do |
| `Transaction.ValidBatchApplies` | src/sdk/client/relational/transaction.ts:96-101 | a batch of valid rows and patches that passes the pre-pass applies completely |
| `Transaction.CommitOfValidBatch` | src/sdk/client/relational/transaction.ts:76-103 | a valid batch commits exactly when its inserts are fresh, to the sequential result with the buffer emptied; otherwise nothing changes |
| `Transaction.FailureIsPrefix` | src/sdk/client/relational/transaction.ts:96-101 | a batch that throws has applied a proper prefix in full, and the next operation is the one that throws |
| `Transaction.FailedCommit` | src/sdk/client/relational/transaction.ts:76-103 | a failed commit keeps the buffer, and leaves either no change (pre-pass) or the effect of a proper prefix |
| `Transaction.FailedCommitCanLeaveRows` | src/sdk/client/relational/transaction.ts:62-103 | a concrete batch whose failed commit leaves a row behind and whose retry then reports that row as a duplicate |
| `CommitOutcome.FineIff` | src/sdk/client/relational/transaction.ts:96-101 | whether one operation throws, and which keys it leaves live, follows from the schemas and the live keys alone |
| `CommitOutcome.BatchStopsAt` | src/sdk/client/relational/transaction.ts:96-101 | the apply loop stops at the first operation that is not fine for the initial keys plus earlier inserts minus earlier deletes, having applied all before it |
| `CommitOutcome.CommitSucceedsIff` | src/sdk/client/relational/transaction.ts:76-103 | an arbitrary batch commits if and only if its inserts are fresh and every operation is fine |
| `CommitOutcome.CommitSucceedsByKeys` | src/sdk/client/relational/transaction.ts:76-103 | the same in the keys rows are stored under: no insert's key was there at the start or is inserted twice |
| `CommitOutcome.ChangedIff` | src/sdk/client/relational/transaction.ts:96-101 | operations that all apply change the database if and only if a key comes or goes for good or the patches to some initial row alter it |
| `CommitOutcome.FailedCommitChangesIff` | src/sdk/client/relational/transaction.ts:62-103 | a failed commit leaves the database changed if and only if the inserts are fresh, some operation is not fine, and those before the first such one have a net effect |
| `Like.LikeToRegExp` | src/sdk/client/relational/filter.ts:36-52 | the loop emits, character by character, the specified pattern text |
| `Like.ParseEmit` | src/sdk/client/relational/filter.ts:36-52 | the emitted text, parsed under section 22.2.1 of ECMA-262, denotes exactly the pattern's literals and wildcards in order |
| `Like.Alphabets` | src/sdk/client/relational/filter.ts:36-52 | the escaped characters are the syntax characters of section 22.2.1 of ECMA-262, the wildcards are the percent sign and the underscore |
| `Like.TestIff` | src/sdk/client/relational/filter.ts:110-115 | the compiled test holds exactly when the string splits into one substring per pattern character with every wildcard on one line |
| `Like.LikeOnOneLine` | src/sdk/client/relational/filter.ts:36-52 | on every string without line terminators the compiled test is the LIKE predicate of section 8.5 of ISO/IEC 9075-2 |
| `Like.TestImpliesLike` | src/sdk/client/relational/filter.ts:36-52 | on other strings it never accepts more than LIKE |
| `Like.AgreesEverywhereIff` | src/sdk/client/relational/filter.ts:36-52 | compiled LIKE is LIKE on all strings if and only if the pattern has no wildcard |
| `Filter.CompileColumn` | src/sdk/client/relational/filter.ts:67-116 | the checks pushed for one column, lists of eight or more turned into sets, all hold exactly when every named operator does |
| `Filter.CompilePerColumn` | src/sdk/client/relational/filter.ts:64-118 | one check list per column of the clause |
| `Filter.Test` | src/sdk/client/relational/filter.ts:119-136 | the short-circuit run over columns and checks decides the AND of all operators |
| `Filter.Matches` | src/sdk/client/relational/filter.ts:183-186 | compiling and running a clause decides exactly what the clause means; no clause accepts every row |
| `Filter.LikeIsLike` | src/sdk/client/relational/filter.ts:110-115 | a `like` condition on a one-line text cell is the LIKE predicate |
| `Filter.EqualityMeans` | src/sdk/client/relational/filter.ts:67-81 | equality with a text, boolean, null or number, as glyph, operator or bare value, holds exactly of a column that is there and holds just that, NaN never |
| `Filter.AmongMeans` | src/sdk/client/relational/filter.ts:101-109 | membership holds exactly of a column that is there and holds a member, NaN included |
| `Filter.OrderMeans` | src/sdk/client/relational/filter.ts:82-100 | ordered comparisons hold of numbers only, against what the operand coerces to, infinities included |
| `Values.ComparisonsOrder` | src/sdk/client/relational/filter.ts:82-100 | the comparisons are the order of the extended reals, NaN apart |
| `Filter.SingleWhereMeans` | src/sdk/client/relational/executor.ts:36-54 | what each of the six glyphs decides for every cell and every operand; any other glyph, or no column, drops the condition, so the statement meets every row |
| `Filter.SingleWhereOnNumbers` | src/sdk/client/relational/executor.ts:36-54 | on finite numbers the glyphs are the six comparisons |
| `Sql.SplitListLoop` | src/sdk/client/relational/sql.ts:133-159 | the character loop returns the trimmed non-empty parts or reports an open quote |
| `Sql.SplitRejectedIff` | src/sdk/client/relational/sql.ts:133-159 | a text is rejected if and only if its quotes are odd in number, that is, one is left open |
| `Sql.PartsBalanced` | src/sdk/client/relational/sql.ts:133-159 | every part of an accepted text has balanced quotes |
| `Sql.ItemsJoinBack` | src/sdk/client/relational/sql.ts:133-159 | the raw parts joined with commas are the text |
| `Sql.ParseRender` | src/sdk/client/relational/sql.ts:169-182 | parsing a rendered literal returns its value, for strings with any quotes, numerals, booleans and null |
| `Sql.ParseSpelling` | src/sdk/client/relational/sql.ts:169-182 | the same with keywords in any case and blanks around the literal |
| `Sql.Marks` | src/sdk/client/relational/sql.ts:133-182 | the quote, comma, minus and point the parser looks for |
| `Sql.NumeralWorth` | src/sdk/client/relational/sql.ts:180 | digits are worth the number they spell, k fraction digits that number over ten to the k, and a minus sign negates |
| `Sql.IntegerParses` | src/sdk/client/relational/sql.ts:180 | the decimal text of every integer parses to it |
| `Sql.LiteralIff` | src/sdk/client/relational/sql.ts:169-182 | exactly which texts are literals: quoted ones and spellings, blanks aside |
| `Sql.UnescapeKeepsIff` | src/sdk/client/relational/sql.ts:174 | unescaping changes a text exactly when two quotes meet in it |
| `Sql.SplitThenParse` | src/sdk/client/relational/sql.ts:133-182 | any list of literals, keywords in any case and blanks around them, splits into their texts and parses to their values in order |
| `Sql.InsertValuesInOrder` | src/sdk/client/relational/sql.ts:203-215 | the value list of an INSERT, however its literals are spelled, arrives in order and in full, or is refused for the counts alone |
| `Join.HashJoin` | src/sdk/client/relational/join.ts:31-51 | build and probe loops return the nested-loop join of the two scans |
| `Join.MergeRows` | src/sdk/client/relational/executor.ts:99-102 | the merge loop spreads the left row, then the right row over it |
| `Join.FilterRows` | src/sdk/client/relational/executor.ts:103-104 | the filter loop keeps exactly the merged rows the compiled clause accepts |
| `Join.ProjectRows` | src/sdk/client/relational/executor.ts:105-112 | the projection loop lists the named columns of each row |
| `Join.StagesAreOutput` | src/sdk/client/relational/executor.ts:95-115 | merging, filtering and projecting in separate passes gives the output defined pair by pair |
| `Join.JoinLists` | src/sdk/client/relational/join.ts:31-51 | the join as row-number pairs: ascending by right row then left row, equal rendered keys, and every such pair once |
| `Join.ExecuteJoin` | src/sdk/client/relational/executor.ts:95-115 | the join statement on two table objects: hash join, merge, clause, projection, limit |
| `Join.RightWins` | src/sdk/client/relational/executor.ts:99-102 | in a merged row the right table's cell wins, a cell set to undefined included |
| `Join.OutputPicks` | src/sdk/client/relational/executor.ts:95-115 | before the limit the output is, in join order, exactly the joined pairs whose merged row passes the clause, each with exactly the named columns and the cells it has under them |
| `Join.LimitKeepsFirst` | src/sdk/client/relational/executor.ts:113 | a limit keeps the first rows, all of them when there are no more |
| `Aggregation.Aggregate` | src/sdk/client/relational/aggregation.ts:29-67 | count is the number of rows; the single pass computes sum, mean, minimum and maximum of the numeric cells, 0 when there are none, and throws without a column |
| `Aggregation.ExtremesOfColumn` | src/sdk/client/relational/aggregation.ts:39-67 | minimum and maximum are NaN when the first number is, else members of the column that are numbers and that no member is beyond |
| `Aggregation.SumAndMean` | src/sdk/client/relational/aggregation.ts:39-67 | on finite cells the sum is the exact sum and the mean times the count gives it back |
| `Aggregation.SumNaNIff` | src/sdk/client/relational/aggregation.ts:39-54 | a plain sum is NaN exactly when it meets NaN or both infinities |
| `Aggregation.SumInfiniteIff` | src/sdk/client/relational/aggregation.ts:39-54 | a plain sum is an infinity exactly when it meets that one and neither NaN nor the other |
| `Aggregation.MeanFollowsSum` | src/sdk/client/relational/aggregation.ts:39-67 | a mean is infinite or NaN with its sum |
| `Pushdown.Columnize` | src/sdk/client/relational/pushdown.ts:323-336 | the dense array holds each row's number or NaN in place, and the valid list the numeric rows |
| `Pushdown.FilterF64` | src/sdk/client/relational/pushdown.ts:82-86 | the fallback filter returns the matching positions |
| `Pushdown.FilterU32` | src/sdk/client/relational/pushdown.ts:75-79 | ascending positions of exactly the cells that compare true against the target taken modulo 2^32 |
| `Pushdown.Uint32Of` | src/sdk/client/relational/pushdown.ts:103-121 | the target modulo 2^32, fractions dropped toward zero, 0 for NaN and the infinities |
| `Pushdown.U32AgreesIff` | src/sdk/client/relational/pushdown.ts:103-121 | the u32 filter compares as numbers do on all cells if and only if the target is a whole number from 0 to 2^32-1 |
| `Pushdown.NumericAtIs` | src/sdk/client/relational/pushdown.ts:323-336 | the valid list is ascending and holds exactly the rows with a number |
| `Pushdown.AcceptedIs` | src/sdk/client/relational/filter.ts:183-186 | the row filter's positions are ascending and exactly the rows that satisfy the clause |
| `Pushdown.SelectionAgrees` | src/sdk/client/relational/pushdown.ts:57-86 | for all six operators, any rows and any numeric target, columnize then filter selects exactly the rows the row filter accepts |
| `Pushdown.SumSelected` | src/sdk/client/relational/pushdown.ts:178-189 | the compensated loop, stopping at an index past the end |
| `Pushdown.TakenIsPrefix` | src/sdk/client/relational/pushdown.ts:178-189 | a selection is read up to its first index past the end |
| `Pushdown.MinSelected` | src/sdk/client/relational/pushdown.ts:250-271 | the selected minimum loop |
| `Pushdown.MaxSelected` | src/sdk/client/relational/pushdown.ts:284-305 | the selected maximum loop |
| `Pushdown.KahanIs` | src/sdk/client/relational/pushdown.ts:178-189 | over exact reals compensation stays zero: the compensated sum is the plain sum unless a cell is NaN or something follows an infinite cell, and then it is NaN |
| `Pushdown.ExtremesAgreeIff` | src/sdk/client/relational/pushdown.ts:250-305 | columnar and row minimum and maximum are equal if and only if nothing is selected or the first selected number is not NaN |
| `Pushdown.SumsAgreeIff` | src/sdk/client/relational/pushdown.ts:178-189 | columnar and row sums are equal exactly under the stated condition on the selected cells |
| `Pushdown.PlansAgree` | src/sdk/client/relational/pushdown.ts:57-336 | for every operator but `ne`: equal minimum and maximum, equal sum on finite cells, and 0 on an empty selection |
| `Pushdown.PlansAgreeIff` | src/sdk/client/relational/pushdown.ts:57-336 | for all six operators, exactly when each aggregate agrees |
| `Pushdown.NotEqualDiffers` | src/sdk/client/relational/pushdown.ts:308-336 | under `ne` one text cell makes the columnar sum NaN and its minimum infinite where the row plan gives 0 |
| `IndexKeys.PaddedIsFixed` | src/sdk/client/relational/secondary_native.ts:37-62 | padding the shortest hex rendering gives the fixed-width digits |
| `IndexKeys.U32HexOrder` | src/sdk/client/relational/secondary_native.ts:37-42 | u32 padding is strictly monotone and injective both ways, always eight digits |
| `IndexKeys.I64HexOrder` | src/sdk/client/relational/secondary_native.ts:56-62 | signed padding is strictly monotone and injective over all safe integers, negatives first, always sixteen digits |
| `IndexKeys.U32HexIs` | src/sdk/client/relational/secondary_native.ts:37-42 | unsigned padding is defined on exactly the u32 range and spells the number in eight lower-case digits |
| `IndexKeys.I64HexIs` | src/sdk/client/relational/secondary_native.ts:56-62 | signed padding is defined on exactly the safe integers and spells the number plus 2^63 in sixteen digits |
| `IndexKeys.SuffixOrder` | src/sdk/client/relational/secondary_native.ts:99-101 | separator-terminated keys compare by value and then by primary key, for values above U+001F |
| `IndexKeys.OrderKeptIff` | src/sdk/client/relational/secondary_native.ts:99-101 | for any two ordered values: their keys keep the order under all primary keys if and only if the larger does not continue the smaller with a character at or below the separator |
| `IndexKeys.KeyOrder` | src/sdk/client/relational/secondary_native.ts:99-113 | the same order on the encoded index keys |
| `IndexKeys.KeyInjective` | src/sdk/client/relational/secondary_native.ts:99-101 | one key belongs to one (value, primary key) pair |
| `IndexKeys.EntryKeyOkIff` | src/sdk/client/relational/secondary_native.ts:99-101 | the key's text, and that the bridge refuses exactly more than 256 bytes or a NUL in it |
| `IndexKeys.BoundOkIff` | src/sdk/client/relational/secondary_native.ts:207-224 | a range bound is refused exactly for its length with separator and sentinel or a NUL |
| `IndexKeys.RangeAcceptedIff` | src/sdk/client/relational/secondary_native.ts:207-224 | exactly which range lookups the bridge answers, in terms of the texts and the cap |
| `IndexKeys.UnprintableValuesMisorder` | src/sdk/client/relational/secondary_native.ts:99-101 | a value with a control character does sort wrongly |
| `IndexKeys.BindRepresents` | src/sdk/client/relational/secondary_native.ts:162-173 | adding an entry updates the represented mapping at exactly that pair |
| `IndexKeys.UnbindRepresents` | src/sdk/client/relational/secondary_native.ts:239-245 | removing an entry removes exactly that pair, and `true` means it was there |
| `IndexKeys.IndexesApart` | src/sdk/client/relational/secondary_native.ts:99-113 | indexes over different colon-free tables or columns never see each other's entries |
| `IndexKeys.OtherEntriesIrrelevant` | src/sdk/client/relational/secondary_native.ts:128-145 | index writes under other prefixes leave what an index represents alone |
| `IndexKeys.RangeIsExact` | src/sdk/client/relational/secondary_native.ts:207-224 | up to the cap, a range lookup lists precisely the pairs with lo <= value <= hi in (value, primary key) order; at the top value those whose key the sentinel admits |
| `IndexKeys.NumericRangeIsExact` | src/sdk/client/relational/secondary_native.ts:261-271 | a numeric range lookup lists exactly the entries whose number lies in the range, in order; at the top number those whose primary key the sentinel admits |
| `IndexKeys.ValuePrefixIff` | src/sdk/client/relational/secondary_native.ts:111-113 | the prefix of an exact lookup picks out that value and no other |
| `IndexKeys.LookupIsExact` | src/sdk/client/relational/secondary_native.ts:184-189 | an exact lookup lists all of that value's entries in key order and no other value's |
| `IndexKeys.UniqueKept` | src/sdk/client/relational/secondary_native.ts:162-173 | storing only after an empty exact lookup keeps one primary key per value |
| `IndexRuns.RunMeans` | src/sdk/client/relational/secondary_native.ts:162-245 | every run of adds and removes on the shared index, several indexes interleaved with foreign index writes and engine refusals: each answer is the one plain maps give, each index represents its map, unique indexes stay unique |
| `IndexRuns.StoredIff` | src/sdk/client/relational/secondary_native.ts:162-173 | an add is stored exactly when the engine takes it, its key is accepted and, in a unique index, no entry has the value |
| `IndexRuns.RangeAfterRun` | src/sdk/client/relational/secondary_native.ts:207-224 | after any such run from an empty index, a range lookup on any index lists precisely its in-range pairs in order up to the cap |
| `IndexKeys.NativeSecondaryIndex.Lookup` | src/sdk/client/relational/secondary_native.ts:184-189 | the capped prefix scan, or the bridge's refusal of the prefix |
| `IndexKeys.NativeSecondaryIndex.Add` | src/sdk/client/relational/secondary_native.ts:162-173 | outcome and new index for every engine answer: only a stored entry changes the index |
| `IndexKeys.NativeSecondaryIndex.LookupRange` | src/sdk/client/relational/secondary_native.ts:207-224 | inclusive bounds built with separator and sentinel; empty bounds are open |
| `IndexKeys.NativeSecondaryIndex.LookupNumericRange` | src/sdk/client/relational/secondary_native.ts:261-271 | padded bounds; inverted, non-u32 or refused bounds throw |
| `IndexKeys.NativeSecondaryIndex.Remove` | src/sdk/client/relational/secondary_native.ts:239-245 | presence is reported and only that key is removed |

## Left out

- The engine: radix tree, ring slots, WAL, snapshots, recovery, vacuum and the commit barrier are represented by their answers only.
- The engine's own writes in the string region appear only as allocations of arbitrary payloads; index and delete messages in the log are not modelled, so replay concerns arena bytes.
- Wrap-around of a 32-bit bump word: runs are limited to total requests below it.
- Typed-array alignment errors for a region start that is not a multiple of four.
- Lone surrogates and malformed UTF-8 on the write side; float64 rounding everywhere.
- Sealed payloads of 2^32 bytes or more, whose length field would wrap.
- JavaScript object details: integer-like keys enumerate first, columns named like members of Object.prototype, a byte array given as a bare clause value.
- Tables keyed by a byte-array column, in the theorems on duplicates, valid batches and changed databases: the pre-pass and the table render such keys differently. When a batch commits is stated for them too.
- CatalogCodec.DecodeCatalogRecord: name bytes that are not UTF-8 decode to a marker, where the host substitutes replacement characters.
- The cache of compiled clauses keyed by object identity; clauses are values here.
- Dropping and listing tables, executing an INSERT statement (one table insert); reading a whole column's sum, which is the selected sum without the selection.
- Statement-level regular expressions, SELECT planning, ordering and projection: host regular expressions, sorting and slicing.
- Choosing between native kernels and their fallbacks: only the fallbacks are modelled.
- JSON catalog files, error classes, explicit constraint checks, mirrors, samplers: small or I/O-bound.
- Pushdown.PlansAgree: over exact reals, so it does not bound the rounding difference between a compensated and a plain sum.
