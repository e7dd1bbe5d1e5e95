# Verified model of an embedded graph database

This project models the parts of an embedded property-graph database (C++) where a mistake is hardest to see, and
proves what those parts are for. Everything is stated for all inputs, all runs or all reachable states. `dafny verify
dfyconfig.toml` checks the whole project; the files do not depend on anything outside it.

* **Catalog** (`CatalogChains`, `CatalogRuns`, `CatalogRename`, `CatalogSet`). Every name maps to a chain of versions
  stamped with a commit timestamp or with the identifier of the transaction that is writing. Runs with one writer and
  any number of readers are shown to be runs over a plain history of maps, one per commit. From that follow snapshot
  stability, atomic commit and rename, exact rollback, and a checkpoint that comes back as it was written.
* **Text of nested values** (`NestedValues`, `NestedScan`, `NestedRoundTrip`, `NestedParser`). Lists, structs and maps
  are printed and cast back. The cast returns the printed value, for every value of every nested type, except that a
  list of one null comes back empty.
* **Null masks** (`NullMask`). Copying, filling and summarising ranges of bits word by word, against the bit-by-bit
  meaning, and the flag that promises that a mask holds no nulls.
* **MD5** (`Md5`). The buffered hasher, whatever the block function, against the padding and folding of sections 3.1 to
  3.4 of RFC 1321, for every way of cutting up the message.
* **Comparison and hashing of nested values** (`BaseValues`, `ValueVectors`, `NestedCompare`, `VectorHash`). The order
  of base and nested values is a strict partial order, and a total one under an exact condition on the types; equality
  is equality of values, not-a-number aside; hashing column by column is the hash of the value in each slot.
* **Transactions of a connection** (`TransactionProtocol`). Prepare and execute, automatic and manual transactions,
  failures at every point, and steps of other connections in between.
* **Group-by keys** (`GroupByKeys`), **substring search** (`StringFind`), **slicing of lists for lambdas**
  (`ListSlices`) and **CASE** (`CaseExpression`): each fast form against a simple one.
* **Decimals** (`Decimals`). Sums, products, casts and rounding on unscaled integers of 16, 32, 64 or 128 bits, from the
  operand types to the check.

What several files share is in `Basics`.

## Where the code does not do what it is meant to do

Each of these is kept in the model as it is in the code, with the exact condition under which the promise holds.

* A rename onto a name in use leaves a deleted entry behind that no undo record knows of, and the next writer who
  alters and commits that table makes it vanish (`CatalogRename.RenameSoundIff`,
  `CatalogRename.AlterAfterFailedRenameLosesTable`). The alter operator checks the new name first.
* A list whose only element is null prints like the empty list (`NestedRoundTrip.RoundTripIff`).
* Copies of at most three bits take 32-bit positions, so they are exact only below 2^32
  (`NullMasks.SmallExactIff`). Inverted, such a copy can write nulls and report none
  (`NullMasks.NullMask.CopyFromNullBits`). The union of two masks does not update the flag that promises no nulls
  (`NullMasks.NullMask.OrWith`).
* Intervals are equal when their three fields are and ordered by their normalized fields, so thirty days and one month
  are neither equal nor ordered (`BaseValues.IntervalsOrderedIff`, `BaseValues.MonthIsThirtyDays`). Types of structs are
  compared without their field names, while equality of struct values compares the names and the order does not. Two
  matching types order all their values if and only if they agree on every field name and have no interval and no
  floating-point number as a leaf at any depth; otherwise there are two values that are each less than the other
  (`NestedCompare.OrderedIff`, `NestedCompare.LessIsConverseIff`).
* A null struct is hashed by what its fields still hold (`VectorHash.AgreesIffFaithful`).
* A cast between decimals converts to the target's storage first and checks the digits after that, so 65540 as a decimal
  of four digits is 4 (`Decimals.CastLosesDigits`). Every value is cast or refused as it should be if and only if the
  source, at the target's scale, has no more digits than the target's storage is used for: 4, 9 or 18. In 64 bits one
  digit more is still told apart unless a product overflows, and 128 bits refuse by themselves
  (`Decimals.CastRightIff`). The casts of operands to the type of a sum stay inside that condition
  (`Decimals.SumCastsSafe`).
* The number of hashed list elements is counted in 32 bits, so hashing a vector of lists ends if and only if they have
  fewer than 2^32 elements (`VectorHash.DataLoopEndsIff`).
* BEGIN switches the connection to manual mode before it asks for the transaction. When another connection is writing
  and the request is refused, the connection is left in manual mode without a transaction
  (`TransactionProtocol.TransactionContext.BeginManual`, `TransactionProtocol.TransactionContext.RunStatement`). This is
  what the assertion at `src/main/client_context.cpp:577` excludes at the next statement.
* A primary key is unique within one table only. For a variable that ranges over several tables, grouping by the
  primary key alone merges rows that differ in the other keys (`GroupByKeys.GroupsKeptIffAnchored`).
* Searching for the empty string computes its answer and then overwrites it
  (`StringFind.Operation`).
* `getEntryOfOID` compares the identifier of a chain's newest entry and returns the visible one. It agrees with the
  lookup by name if and only if, for each name the transaction sees, the newest entry that is not a deletion is still
  that object (`CatalogRename.OIDLookupIff`, with a failing run in `CatalogRename.OIDLookupStale`).
* A checkpoint decides by the newest entry of a chain whether a name is durable, and writes the committed one. It writes
  the durable part of the committed catalog if and only if the two agree on that for every committed name
  (`CatalogSets.PersistedIsDurable`). While a writer is active, a function it has dropped is written and a table it has
  replaced by a function is lost (`CatalogSets.DroppedFunctionPersists`, `CatalogSets.ReplacedTableLost`). The
  transaction manager waits for all transactions to end before a checkpoint, and then the two agree
  (`CatalogSets.QuietKindsAgree`).

## Model

| member | source | states |
|---|---|---|
| CatalogChains.LastSeen | src/catalog/catalog_set.cpp:121-135 | the version a transaction sees is the newest one that is its own or committed by its start, and none newer is visible |
| CatalogRuns.StepRefines | src/catalog/catalog_set.cpp:65-208 | every create, drop, alter, rename, begin, commit and rollback on the chains keeps the invariant and is the same step on a history of maps |
| CatalogRuns.RunRefines | src/catalog/catalog_set.cpp:65-208 | every run of the chains from a loaded catalog is the run over plain maps |
| CatalogRuns.SnapshotStable | src/catalog/catalog_set.cpp:121-135 | whatever other transactions do, commit or roll back, the catalog a reader sees does not change |
| CatalogRuns.TraversalFinds | src/catalog/catalog_set.cpp:121-135 | in every reachable state every transaction finds an entry in every chain, so a traversal never runs off its end |
| CatalogRuns.ChainShape | src/catalog/catalog_set.cpp:105-111 | in every reachable state a chain is committed entries in commit order below one block of the active writer's entries |
| CatalogRuns.RollbackUndoes | src/storage/undo_buffer.cpp:171-176 | begin, any statements and rollback leave every transaction, present or future, with the catalog it would have seen without them |
| CatalogRuns.CommitAtomic | src/storage/undo_buffer.cpp:164-169 | at a commit earlier transactions keep their view and every later one sees all of the writer's changes |
| CatalogRuns.RenameAtomic | src/catalog/catalog_set.cpp:182-195 | a committed rename removes the old name and binds the new one to the same object, in one step for everyone |
| CatalogRuns.OIDsUnique | src/catalog/catalog_set.cpp:65-80 | in every view of every reachable state different names carry different object identifiers |
| CatalogRuns.UndoExact | src/storage/undo_buffer.cpp:94-101 | the undo records point at exactly the entries the active writer pushed |
| CatalogRuns.CommitAllAt | src/storage/undo_buffer.cpp:199-204 | committing the records stamps exactly the writer's entries and changes nothing else |
| CatalogRuns.RollbackAllAt | src/storage/undo_buffer.cpp:253-270 | rolling the records back from the end removes exactly the writer's entries, each from the top of its chain |
| CatalogRuns.CreateStep | src/catalog/catalog_set.cpp:81-103 | a create adds the name for the writer unless it is there, and no one else sees it |
| CatalogRuns.DropStep | src/catalog/catalog_set.cpp:159-169 | a drop removes the name for the writer alone, and fails if it is not there |
| CatalogRuns.AlterStep | src/catalog/catalog_set.cpp:196-205 | an alteration changes the payload for the writer alone |
| CatalogRuns.RenameStep | src/processor/operator/ddl/alter.cpp:151-159 | with the new name free, a rename is a drop and a create in the writer's view |
| CatalogRuns.CommitStep | src/transaction/transaction_manager.cpp:63-74 | a commit appends the writer's view to the history at the next timestamp |
| CatalogRuns.BeginWriteStep | src/transaction/transaction_manager.cpp:33-47 | a new writer starts from the last committed view |
| CatalogRuns.ReaderSeesHistory | src/catalog/catalog_set.cpp:121-135 | a transaction that wrote nothing sees the committed catalog as of its start |
| CatalogRename.RenameSoundIff | src/catalog/catalog_set.cpp:182-195 | the catalog's rename keeps the invariant if and only if the new name is the old one or is not visible to the writer |
| CatalogRename.RenameLeavesTombstone | src/catalog/catalog_set.cpp:182-195 | renaming onto a visible name throws after the deleted entry was pushed and logs nothing |
| CatalogRename.AlterAfterFailedRenameLosesTable | src/storage/undo_buffer.cpp:199-204 | after such a rename the next writer alters the table without error and its commit makes the table vanish |
| CatalogRename.OIDLookupForWriter | src/catalog/catalog_set.cpp:223-237 | for the writer the lookup by identifier always agrees with the lookup by name |
| CatalogRename.OIDLookupWhenQuiet | src/catalog/catalog_set.cpp:223-237 | it also agrees for a reader that began after the last commit, while no writer is active |
| CatalogRename.OIDLookupIff | src/catalog/catalog_set.cpp:223-237 | in every reachable state, for every transaction, the lookup by identifier agrees with the lookup by name if and only if no name it sees has been given to another object since |
| CatalogRename.OIDLookupStale | src/catalog/catalog_set.cpp:223-237 | a run in which a reader begins and a writer drops a name, creates it again and commits: the reader is given the old object for the identifier of the new one |
| CatalogRuns.RunMarked | src/catalog/catalog_set.cpp:159-169 | in every reachable state a deleted entry lies on the entry it deletes and carries its identifier |
| CatalogSets.CatalogSet.Traverse | src/catalog/catalog_set.cpp:121-135 | the loop over a chain finds the version the transaction sees |
| CatalogSets.CatalogSet.CommittedEntry | src/catalog/catalog_set.cpp:137-145 | the loop finds the newest committed version |
| CatalogSets.CatalogSet.ContainsEntry | src/catalog/catalog_set.cpp:38-47 | true exactly for the names in the transaction's view |
| CatalogSets.CatalogSet.GetEntry | src/catalog/catalog_set.cpp:54-63 | the entry in the transaction's view, or an error exactly when there is none |
| CatalogSets.CatalogSet.GetEntries | src/catalog/catalog_set.cpp:210-221 | exactly the transaction's view |
| CatalogSets.CatalogSet.GetEntryOfOID | src/catalog/catalog_set.cpp:223-237 | a visible entry under a name whose newest entry has the identifier, or nothing when there is no such name |
| CatalogSets.CatalogSet.constructor | src/catalog/catalog_set.cpp:20-24 | an empty set, with its counter high for internal entries |
| CatalogSets.CatalogSet.Emplace | src/catalog/catalog_set.cpp:105-111 | the entry goes on top of the chain of its name |
| CatalogSets.CatalogSet.CreateNoLock | src/catalog/catalog_set.cpp:81-103 | base entry, new entry and undo record of a create, or nothing when it is refused |
| CatalogSets.CatalogSet.DropNoLock | src/catalog/catalog_set.cpp:159-169 | deleted entry and undo record of a drop, or nothing when it is refused |
| CatalogSets.CatalogSet.RenameNoLock | src/catalog/catalog_set.cpp:182-195 | both halves of a rename, or the first half alone when the second throws |
| CatalogSets.CatalogSet.ChangeNoLock | src/catalog/catalog_set.cpp:196-205 | the changed copy on top and the record at the visible entry |
| CatalogSets.CatalogSet.CreateEntry | src/catalog/catalog_set.cpp:65-103 | the new chains, counter and undo records of a create, also when it is refused |
| CatalogSets.CatalogSet.DropEntry | src/catalog/catalog_set.cpp:147-169 | the new chains and undo records of a drop, also when it is refused |
| CatalogSets.CatalogSet.AlterTableEntry | src/catalog/catalog_set.cpp:171-208 | the new chains, counter and undo records of an alteration or a rename, also when it throws half-way |
| CatalogSets.CatalogSet.CommitUndo | src/storage/undo_buffer.cpp:164-169 | the loop over the records is the commit of all of them |
| CatalogSets.CatalogSet.RollbackUndo | src/storage/undo_buffer.cpp:171-176 | the reverse loop over the records is the rollback of all of them |
| CatalogSets.CatalogSet.UndoOne | src/storage/undo_buffer.cpp:253-270 | unlinks one entry from the middle or the top of its chain |
| CatalogSets.CatalogSet.Serialize | src/catalog/catalog_set.cpp:239-267 | writes each durable committed entry once, and the counter |
| CatalogSets.CatalogSet.Deserialize | src/catalog/catalog_set.cpp:269-285 | one committed entry per record, and the counter |
| CatalogSets.LoadedView | src/catalog/catalog_set.cpp:269-285 | every transaction on a loaded catalog sees exactly what was written |
| CatalogSets.PersistedIsDurable | src/catalog/catalog_set.cpp:239-267 | what is written is the last committed catalog without functions and foreign tables, if and only if for every committed name the newest entry is persisted just when the committed one is |
| CatalogSets.QuietKindsAgree | src/catalog/catalog_set.cpp:239-267 | that is so whenever no writer is active |
| CatalogSets.CheckpointRoundTrip | src/catalog/catalog_set.cpp:239-285 | under the same condition, checkpoint and reload show every transaction the durable part of what one beginning at the checkpoint saw |
| CatalogSets.CheckpointAndReload | src/catalog/catalog_set.cpp:239-285 | writing a set and loading it again keeps its counter and shows every transaction exactly what was persisted |
| CatalogSets.RestartIsInitial | src/catalog/catalog_set.cpp:269-285 | a reloaded catalog is an initial state again, so all results about runs hold after a restart |
| CatalogSets.DroppedFunctionPersists | src/catalog/catalog_set.cpp:241-262 | after a writer began and dropped a function, the function is written although functions are not durable |
| CatalogSets.ReplacedTableLost | src/catalog/catalog_set.cpp:241-262 | after a writer began, dropped a durable entry and gave its name to a function or foreign table, the committed entry is not written |
| NestedRoundTrip.CastPrint | src/function/cast_from_string_functions.cpp:861-1053 | casting the text of a nested value gives the value back, with each list of one null emptied |
| NestedRoundTrip.RoundTripIff | src/common/type_utils.cpp:183-266 | the text casts back to the same value if and only if no list in it is a lone null |
| NestedValues.CollapseKeepsIff | src/common/type_utils.cpp:184-198 | a value is changed by that loss exactly when some list in it is a lone null |
| NestedRoundTrip.SplitPrinted | src/function/cast_from_string_functions.cpp:301-349 | a printed list splits into the texts of its elements, brackets inside elements included |
| NestedRoundTrip.StructParts | src/function/cast_from_string_functions.cpp:590-649 | a printed struct is read back as its field names and the texts of its fields, in order |
| NestedRoundTrip.CastMap | src/function/cast_from_string_functions.cpp:433-543 | a printed map casts back entry by entry, keys distinct |
| NestedParser.SkipWhitespace | src/function/cast_from_string_functions.cpp:180-193 | the first character that is not white space |
| NestedParser.TrimRightWhitespace | src/function/cast_from_string_functions.cpp:195-199 | the end without trailing white space |
| NestedParser.SkipToCloseQuotes | src/function/cast_from_string_functions.cpp:210-221 | the matching quote, or failure at the end of the text |
| NestedParser.SkipToCloseBracket | src/function/cast_from_string_functions.cpp:223-249 | the closing bracket past nested brackets and quotes, with the level as the source keeps it |
| NestedParser.SplitCStringList | src/function/cast_from_string_functions.cpp:301-349 | the loop delivers the pieces of the list, or failure |
| NestedParser.ParseStructFieldValue | src/function/cast_from_string_functions.cpp:563-588 | the comma or brace that ends a field value |
| NestedParser.ParseKeyOrValue | src/function/cast_from_string_functions.cpp:460-491 | the equals sign that ends a key, or the comma or brace that ends a value |
| NestedParser.ParseStructPart | src/function/cast_from_string_functions.cpp:617-637 | one field: its name up to the colon and its value, blanks and quotes trimmed, and where the next one begins |
| NestedParser.ParseMapPart | src/function/cast_from_string_functions.cpp:512-519 | one entry: its key up to the equals sign and its value, and where the next one begins |
| NestedParser.ParseParts | src/function/cast_from_string_functions.cpp:493-525 | the key and value texts of a struct or map, or failure |
| NestedParser.TryCastStringToStruct | src/function/cast_from_string_functions.cpp:590-649 | each field gets the cast of its text by name, an unknown name fails, absent fields stay null |
| NestedParser.CastStringToMap | src/function/cast_from_string_functions.cpp:433-457 | entries in order, a null or repeated key fails |
| NestedParser.CastPieces | src/function/cast_from_string_functions.cpp:285-299 | each piece is trimmed and cast in order, and one failure fails the list |
| NestedParser.CastText | src/function/cast_from_string_functions.cpp:861-1053 | the whole cast by loops and recursion is the cast function |
| NestedParser.ToString | src/common/type_utils.cpp:105-111 | printing by loops and recursion is the print function |
| NestedParser.ListToString | src/common/type_utils.cpp:183-198 | the loop over the elements of a list |
| NestedParser.MapToString | src/common/type_utils.cpp:200-227 | the loop over the entries of a map |
| NestedParser.EntryToString | src/common/type_utils.cpp:200-206 | key, equals sign and value |
| NestedParser.StructToString | src/common/type_utils.cpp:229-266 | the loop over the fields of a struct |
| NullMasks.CopyNullMask | src/common/null_mask.cpp:23-71 | more than three bits: exactly the bits of the range are copied, inverted if asked, no other bit changes, and the flag says whether a null was written; up to three: the same with positions cut to 32 bits and the flag about the source; the two masks may be ranges of one buffer that lie apart |
| NullMasks.CopyUnaligned | src/common/null_mask.cpp:73-135 | word by word, in all three alignments, the bit-by-bit copy and its flag |
| NullMasks.CopyStep | src/common/null_mask.cpp:79-133 | one step of shifting and masking extends the copied range by its bits |
| NullMasks.SomeSetStep | src/common/null_mask.cpp:126-132 | the flag of a step is about exactly the bits of the step |
| NullMasks.CopyAligned | src/common/null_mask.cpp:38-66 | first bits, whole bytes and last bits together are the bit-by-bit copy and its flag |
| NullMasks.CopyBytes | src/common/null_mask.cpp:49-57 | copying whole bytes copies their bits |
| NullMasks.WriteBits | src/common/null_mask.cpp:127-132 | the target word gets the bits of the step in its range, keeps the others, and reports whether there are any |
| NullMasks.SetNull | src/common/null_mask.cpp:13-21 | one bit is set or cleared |
| NullMasks.CopySmall | src/common/null_mask.cpp:27-35 | bit by bit with positions cut to 32 bits, and a flag about the source bits read |
| NullMasks.SmallCopyExact | src/common/null_mask.cpp:27-35 | below 2^32 that is the exact copy |
| NullMasks.SmallExactIff | src/common/null_mask.cpp:27-35 | the path for at most three bits is exact for all masks if and only if both ranges lie below 2^32 |
| NullMasks.FarTargetFails | src/include/common/null_mask.h:107-119 | a target range beyond 2^32 is not written |
| NullMasks.FarSourceFails | src/include/common/null_mask.h:107-119 | a source range beyond 2^32 is not read |
| NullMasks.SetNullRange | src/common/null_mask.cpp:164-207 | exactly the bits of the range are set or cleared, over any number of words |
| NullMasks.GetMinMax | src/common/null_mask.cpp:216-278 | all bits set, and some bit set, over any non-empty range |
| NullMasks.CheckRest | src/common/null_mask.cpp:254-277 | comparing full words and the last part with the bits before them decides the whole range |
| NullMasks.NullMask.constructor | src/include/common/null_mask.h:81-87 | enough words, no nulls, and the flag says so |
| NullMasks.NullMask.SetNullFromRange | src/common/null_mask.cpp:156-162 | sets the range and keeps the no-nulls flag truthful |
| NullMasks.NullMask.CopyFromNullBits | src/common/null_mask.cpp:145-154 | copies, and the no-nulls flag stays truthful if and only if it was given up before, or the copy is not one of one to three inverted bits from a source without nulls |
| NullMasks.NullMask.CopyFrom | src/include/common/null_mask.h:148-157 | the same for a copy from another mask, whose own flag saves reading it |
| NullMasks.NullMask.OrWith | src/common/null_mask.cpp:209-214 | the union, and the flag stays truthful if and only if it was set or the other mask has no nulls |
| Md5.CounterAdds | src/common/md5.cpp:142-147 | two 32-bit words with carry count the message bits modulo 2^64, for every chunk length |
| Md5.BufferedBytes | src/common/md5.cpp:149 | the buffered byte count read off the low word is the message length modulo 64, even after the counter wraps |
| Md5.DigestShort | src/common/md5.cpp:204-214 | with at least nine free bytes the padding ends in the same block |
| Md5.DigestLong | src/common/md5.cpp:196-214 | otherwise the length goes into a block of its own |
| Md5.MD5.constructor | src/include/common/md5.h:40-43 | no message, no result |
| Md5.MD5.Init | src/common/md5.cpp:129-137 | starts an empty message |
| Md5.MD5.Update | src/common/md5.cpp:139-181 | appends a chunk of any size to the message: state, counter and buffer again stand for the whole message |
| Md5.MD5.UpdateBlocks | src/common/md5.cpp:170-176 | folds every whole block of the data |
| Md5.MD5.Final | src/common/md5.cpp:183-218 | the digest of the padded message, and a fresh hasher |
| Md5.MD5.PadOut | src/common/md5.cpp:184-207 | what is in state and buffer before the length is written leads to the digest in both padding cases |
| Md5.MD5.AddToMD5 | src/include/common/md5.h:74-80 | starts a message when needed and appends |
| Md5.MD5.FinishMD5 | src/include/common/md5.h:85-93 | the digest text of everything added since the last finish, or the previous text when nothing was |
| Md5.HashChunks | test/test_runner/test_runner.cpp:340-347 | for every way of cutting a message into chunks the digest is that of the whole |
| ValueVectors.ReadConforms | src/function/comparison_functions.cpp:122-127 | what a slot denotes has the type of its vector |
| BaseValues.TextIsLex | src/common/types/ku_string.cpp:63-76 | comparing the four-byte prefix, then all shared bytes, then the lengths is the lexicographic order of byte strings |
| BaseValues.IntervalsOrderedIff | src/common/types/interval_t.cpp:23-25 | two intervals are equal or ordered if and only if they are the same or normalize differently |
| BaseValues.MonthIsThirtyDays | src/common/types/interval_t.cpp:340-371 | thirty days and one month are different and neither is greater |
| BaseValues.BaseIrreflexive | src/common/types/types.cpp:44-46 | no base value of any type is greater than itself |
| BaseValues.BaseTransitive | src/common/types/interval_t.cpp:355-371 | the order of base values is transitive for every type, intervals and floating-point numbers included |
| BaseValues.BaseTotal | src/function/comparison_functions.cpp:11-102 | it is total for all base types but intervals and floating-point numbers |
| BaseValues.UnorderedPair | src/common/types/interval_t.cpp:23-25 | intervals and floating-point numbers each have two values that are neither equal nor ordered |
| NestedCompare.Irreflexive | src/function/comparison_functions.cpp:166-222 | no nested value is greater than itself, whatever its leaves |
| NestedCompare.Transitive | src/function/comparison_functions.cpp:166-222 | the order of nested values is transitive, nulls, different lengths and all leaves included |
| NestedCompare.Trichotomy | src/function/comparison_functions.cpp:166-222 | of two values of one type without intervals and floating-point numbers, exactly one of greater, equal and less holds |
| NestedCompare.OrderedIff | src/common/types/types.cpp:404-406 | matching types order all their values if and only if they agree on every field name and no leaf is an interval or a floating-point number |
| NestedCompare.UnrelatedPair | src/function/comparison_functions.cpp:153-163 | for any two matching types with a different field name or such a leaf, at any depth, there are values that are neither equal nor ordered |
| NestedCompare.NestedEqual | src/function/comparison_functions.cpp:104-113 | true exactly when the two slots denote the same value and no not-a-number is inside it |
| NestedCompare.Equals | src/function/comparison_functions.cpp:11-102 | true exactly when types match and the values are the same |
| NestedCompare.ListEquals | src/function/comparison_functions.cpp:115-133 | the loop over elements decides equality of the lists, wherever they are stored |
| NestedCompare.StructEquals | src/function/comparison_functions.cpp:135-164 | the loops over fields and names decide equality of the structs |
| NestedCompare.NestedGreaterThan | src/function/comparison_functions.cpp:166-184 | greater, and if not greater, equal |
| NestedCompare.ListGreaterThan | src/function/comparison_functions.cpp:186-204 | the loop with early return is the lexicographic order of the lists |
| NestedCompare.StructGreaterThan | src/function/comparison_functions.cpp:206-222 | the loop over the fields is the lexicographic order of the structs |
| NestedCompare.LessIsConverseIff | src/include/function/comparison/comparison_functions.h:54-103 | less is greater with the sides exchanged, and less or equal is that or equal, for all values of matching types, if and only if the types agree on every field name and have no such leaf; otherwise two values are each less than the other |
| VectorHash.SlotIsValue | src/function/vector_hash_functions.cpp:147-202 | the hash of a faithful slot is the hash of its value, for every base hash and way of combining |
| VectorHash.EqualSlotsHashEqually | src/function/vector_hash_functions.cpp:147-202 | slots that compare equal have the same hash, in any two vectors at any two positions |
| VectorHash.AgreesIffFaithful | src/function/vector_hash_functions.cpp:172-202 | slot and value hash alike under every hasher if and only if every null struct reached has fields that hash like nulls |
| VectorHash.ComputeHash | src/function/vector_hash_functions.cpp:204-226 | every selected slot's hash is in its place and nothing else changed, for every type and selection |
| VectorHash.HashBase | src/function/vector_hash_functions.cpp:21-63 | the no-null guarantee and an unfiltered selection change nothing |
| VectorHash.HashData | src/function/vector_hash_functions.cpp:123-145 | hashing the data vector in chunks of the vector capacity, counted in 32 bits, hashes every element |
| VectorHash.DataLoopEndsIff | src/function/vector_hash_functions.cpp:131-143 | the loop over the chunks ends if and only if the data vector has fewer than 2^32 values |
| VectorHash.FinalizeLists | src/function/vector_hash_functions.cpp:147-164 | the fold over a list's element hashes, or the null hash |
| VectorHash.HashStruct | src/function/vector_hash_functions.cpp:185-198 | combining field by field in place is the fold over the fields |
| VectorHash.CombineHash | src/function/vector_hash_functions.cpp:89-121 | each selected hash is combined with its partner, or with the single one on either side, also when an operand is the result itself |
| TransactionProtocol.TransactionManager.BeginTransaction | src/transaction/transaction_manager.cpp:20-54 | refused exactly when a second writer would arise; at most one writer at any time |
| TransactionProtocol.TransactionManager.CommitTx | src/transaction/transaction_manager.cpp:56-81 | a failed commit leaves the transaction open, a failed checkpoint comes after it was committed and closed |
| TransactionProtocol.TransactionManager.RollbackTx | src/transaction/transaction_manager.cpp:86-102 | the transaction is closed as rolled back; it is always one that is open |
| TransactionProtocol.TransactionManager.Interleave | src/transaction/transaction_manager.cpp:20-102 | steps of other connections touch no transaction of this one |
| TransactionProtocol.TransactionContext.BeginManual | src/transaction/transaction_context.cpp:18-28 | mode and transaction go together afterwards if and only if the manager did not refuse |
| TransactionProtocol.TransactionContext.BeginAuto | src/transaction/transaction_context.cpp:30-39 | a transaction of the statement's kind, or none when refused; the mode stays |
| TransactionProtocol.TransactionContext.CommitActive | src/transaction/transaction_context.cpp:55-61 | the connection's transaction is committed, or still open, or closed while the context still points to it |
| TransactionProtocol.TransactionContext.RollbackActive | src/transaction/transaction_context.cpp:63-75 | the connection's transaction is rolled back and the mode is automatic |
| TransactionProtocol.TransactionContext.Perform | src/processor/operator/transaction.cpp:21-80 | what each transaction statement does with and without an open transaction |
| TransactionProtocol.TransactionContext.RunAction | src/main/client_context.cpp:574-596 | a transaction statement leaves mode and transaction together if and only if no write transaction was refused |
| TransactionProtocol.TransactionContext.RunWork | src/main/client_context.cpp:574-596 | work runs in the open transaction or a new one, which is left open, committed or rolled back as asked, whatever fails |
| TransactionProtocol.TransactionContext.Finish | src/main/client_context.cpp:583-595 | the two kinds of clean-up after a failure, so that nothing is rolled back twice |
| TransactionProtocol.TransactionContext.Analyze | src/main/client_context.cpp:431-458 | reading the statement's kind leaves no transaction; a rejected write leaves the manual transaction open |
| TransactionProtocol.TransactionContext.Prepare | src/main/client_context.cpp:441-488 | a query outside a manual transaction leaves its own transaction open to be run in; failures roll back |
| TransactionProtocol.TransactionContext.RunQueryStatement | src/main/client_context.cpp:490-546 | in a manual transaction any failure but a rejected write rolls everything back; alone, a query is committed unless it fails for another reason than a checkpoint |
| TransactionProtocol.TransactionContext.RunTransactionStatement | src/main/client_context.cpp:490-546 | a commit or rollback always ends the manual transaction, a misplaced statement rolls it back |
| TransactionProtocol.TransactionContext.RunStatement | src/main/client_context.cpp:357-361 | after any statement mode and transaction go together; with no step of others in between, this fails if and only if the statement is a BEGIN for writing outside a transaction, reaches execution, and another connection is writing, and then the connection is in manual mode without a transaction |
| TransactionProtocol.TransactionContext.RunQuery | src/main/client_context.cpp:346-392 | at the end of any query text mode and transaction go together, unless its last statement was a refused begin; with no step of others in between, that is if and only if the statement that stopped it is a BEGIN for writing, reaches execution, no transaction is open by the statements before it, and another connection is writing |
| TransactionProtocol.TransactionContext.PrepareStatement | src/main/client_context.cpp:266-292 | preparing alone leaves no transaction behind that was not there |
| GroupByKeys.ResolveKeysAndDependentKeys | src/optimizer/agg_key_dependency_optimizer.cpp:41-88 | the loops split the keys into the two kinds, each in input order |
| GroupByKeys.IsPrimaryKey | src/binder/expression/property_expression.cpp:9-16 | true exactly when the property is the primary key of all its tables |
| GroupByKeys.CollectPrimaryVariables | src/optimizer/agg_key_dependency_optimizer.cpp:48-57 | the variables of which some primary key or internal ID is a key |
| GroupByKeys.Partition | src/optimizer/agg_key_dependency_optimizer.cpp:58-87 | no key is lost and none is added |
| GroupByKeys.GroupsKeptIffAnchored | src/optimizer/agg_key_dependency_optimizer.cpp:41-88 | the reduced keys group every table like all of the keys if and only if every variable with dependent keys has its internal ID among them or ranges over one table |
| GroupByKeys.AnchoredKeeps | src/optimizer/agg_key_dependency_optimizer.cpp:69-82 | then rows that agree on the reduced keys agree on the dependent ones, so these are constant in a group |
| GroupByKeys.UnanchoredBreaks | src/optimizer/agg_key_dependency_optimizer.cpp:48-57 | otherwise there are a store and two rows that are merged although they differ |
| StringFind.Find | src/function/find_function.cpp:93-127 | the least position of the needle, or -1, for every needle length; an empty needle is searched as the byte where it would begin |
| StringFind.AlignedFind | src/function/find_function.cpp:44-58 | comparing whole words finds the first match |
| StringFind.UnalignedFind | src/function/find_function.cpp:10-42 | the shift register finds the first match |
| StringFind.Slide | src/function/find_function.cpp:31-36 | shifting the register by a byte and adding the next one slides the window |
| StringFind.GenericFind | src/function/find_function.cpp:60-91 | the rolling sum modulo 2^32 never skips a match |
| StringFind.SumsDiff | src/function/find_function.cpp:72-76 | the sum of the first window less the needle's, modulo 2^32 |
| StringFind.Roll | src/function/find_function.cpp:87-88 | the same for the next window |
| StringFind.FirstByte | src/function/find_function.cpp:97-101 | the first position of a byte |
| StringFind.MatchSums | src/function/find_function.cpp:72-79 | a window that matches has the needle's sum and first byte |
| StringFind.Operation | src/include/function/string/functions/find_function.h:12-20 | one more than the first position for a non-empty needle; for the empty one the promised 1 if and only if the haystack begins with the byte read |
| ListSlices.Slices | src/expression_evaluator/lambda_evaluator.cpp:55-68 | the slices together are all elements in order, all are full but the last, and at least one is made |
| ListSlices.ListEntryTracker.NextSlice | src/expression_evaluator/list_slice_info.cpp:91-103 | the next slice is the front of what remains, full unless nothing remains |
| ListSlices.ListEntryTracker.GetNextDataOffset | src/expression_evaluator/list_slice_info.cpp:25-36 | moves on by one element, over empty and null lists |
| ListSlices.ListEntryTracker.UpdateListEntry | src/expression_evaluator/list_slice_info.cpp:38-49 | skips exactly the lists without elements |
| ListSlices.EveryElementOnce | src/expression_evaluator/list_slice_info.cpp:10-23 | every element of every selected list that is not null is visited once, and nothing else, whatever the sort does with ties |
| ListSlices.InOffsetOrder | src/expression_evaluator/list_slice_info.cpp:13-21 | lists that lie apart are visited in the order of the data vector |
| CaseExpression.CaseEvaluator.Evaluate | src/expression_evaluator/case_evaluator.cpp:27-49 | every selected row gets the THEN of its first true WHEN, else the ELSE, for flat and unflat branches; no other row changes |
| CaseExpression.CaseEvaluator.Fill | src/expression_evaluator/case_evaluator.cpp:82-105 | only rows that were not filled before take the value |
| CaseExpression.CaseEvaluator.FillEntry | src/expression_evaluator/case_evaluator.cpp:98-105 | one row takes the value unless it was filled before |
| CaseExpression.CaseEvaluator.RunBranch | src/expression_evaluator/case_evaluator.cpp:29-42 | a branch fills the rows it is the first to hold for |
| CaseExpression.AllFilled | src/expression_evaluator/case_evaluator.cpp:43-45 | as many filled rows as selected ones means all of them |
| Decimals.SumIsExact | src/function/vector_arithmetic_functions.cpp:490-539 | for all operand types: the sum and the difference of any two decimals are exact, and refused exactly when they, or an operand cast to their type, do not fit its digits; nothing overflows on the way |
| Decimals.OperandsFit | src/function/vector_arithmetic_functions.cpp:507-514 | an operand is refused only if both types together need more than 38 digits |
| Decimals.SumCastsSafe | src/function/vector_arithmetic_functions.cpp:507-514 | the casts to the type of a sum are always right |
| Decimals.SumDigits | src/function/vector_arithmetic_functions.cpp:507-514 | the type of a sum loses no digit after the point and adds none before it for the carry; past 38 digits those before the point give way |
| Decimals.ChecksAreExact | src/function/vector_arithmetic_functions.cpp:490-526 | for operands that fit, the kernels refuse exactly the results that do not fit, everything the checks compute fits the digits as well, and the result is stored unchanged |
| Decimals.DigitsStored | src/common/types/types.cpp:865-880 | the storage chosen for a precision computes and holds every value of its digits and the bound itself |
| Decimals.RescaleRounds | src/include/function/cast/functions/cast_decimal.h:82-86 | before it is narrowed, a value that loses digits is rounded to the nearest, a tie away from zero, for both signs |
| Decimals.CastRightIff | src/include/function/cast/functions/cast_decimal.h:69-94 | for any two decimal types, every value is cast exactly or rounded, or refused because it does not fit, if and only if the storage of the target holds the digits of the source at its scale |
| Decimals.SafeIsRight | src/include/function/cast/functions/cast_decimal.h:69-94 | under that condition the computation in the wider storage, the narrowing and the check give the right verdict on every value |
| Decimals.ShrunkWraps | src/include/function/cast/functions/cast_decimal.h:78-87 | otherwise, when the scale does not grow, a value rescales to 2^16, 2^32 or 2^64 and is cast to zero |
| Decimals.GrownWraps | src/include/function/cast/functions/cast_decimal.h:80-87 | and when the scale grows, a product just below that is cast to a small number, or overflows |
| Decimals.CastLosesDigits | src/include/function/cast/functions/cast_decimal.h:78-87 | 65540 and 65540.4 cast to four digits are 4, without an error |
| Decimals.ProductNeverOverflows | src/function/vector_arithmetic_functions.cpp:541-564 | at the precision computed for it a product is exact, fits its storage and is never refused |
| Decimals.FloorAndCeil | src/function/vector_arithmetic_functions.cpp:632-674 | under a remainder that takes the sign of the dividend, the greatest whole number not above and the least not below; what is stored on the way fits |

## Left out

- Catalog runs with several writers: the default allows one; only create checks for a conflicting writer.
- The catalog's names are taken after case folding, and the fields of each kind of entry are one payload.
- NestedRoundTrip.CastPrint: base values stand for their own text, so numbers, dates and floats are not printed or
  parsed; a base text with brackets, quotes, commas or outer blanks, and a map key with an equals sign, are outside the
  format.
- NullMasks.CopyNullMask: two overlapping ranges of one buffer, which no caller in the repository has, are not modelled.
- NestedParser.CastText: the cast of nested text to a union, the length of a fixed-size array and a list without
  brackets are not modelled, nor are the casts of base values, which stand for their own text.
- The printing of nodes and relationships.
- MD5's block function and the hexadecimal digest are parameters of the hasher.
- Hash functions of base values and the way two hashes are combined are parameters. Floating-point numbers are real
  numbers, two infinities and not-a-numbers; the two zeros, which compare and hash alike, are one value.
- TransactionProtocol.TransactionContext.RunWork: code that runs inside a transaction either returns or throws an error
  other than the checkpoint error, which is raised by commit and checkpoint alone
  (`src/transaction/transaction_manager.cpp:172-183`); rolling back is taken not to throw.
- The write-ahead log, what a checkpoint writes besides the catalog, and recovery.
- GroupByKeys.ResolveKeysAndDependentKeys: the traversal of the plan that calls it, and the length of a recursive
  relationship as a key, are not modelled.
- ListSlices.EveryElementOnce: the sort itself is any permutation sorted by offset; saving and restoring the states of
  lambda parameters is not modelled.
- CaseExpression.CaseEvaluator.Evaluate: the selection of rows by a WHEN is taken to be exactly the rows where it is
  true.
- Casts between decimals and other types, and decimal division, which the code replaces by floating-point division.
- Query planning and execution outside the operators above, the storage of tables and indexes, the C interface,
  extensions and the command line: separate components that the modelled ones do not call.
