# A model of Isar's storage core

This project models the parts of the Isar database that decide what is stored and what is found: the
wildcard matcher and its SQL twin, the native binary object format and its schema migration, collections
with secondary and unique indexes, the page file of the IndexedDB file system, the compilation of query
filters, and three smaller state machines. Code that works step by step is a method or a class here,
proved against a specification function; what the source promises is proved about those functions for
all inputs, all runs and all interleavings. Where the code does not keep a promise, the lemma says
exactly when it does.

| file | models |
|---|---|
| `Bytes`, `LittleEndian` | bytes, options, integers of fixed width |
| `WildMatch`, `LikePatterns`, `Utf8Wild`, `PrefixRange` | wildcard matching, its translation to LIKE, bytes against characters, "starts with" as a range |
| `Deserializer`, `Layout`, `ObjectTree`, `ValueRoundTrip`, `OwnValues`, `Serializer`, `ObjectUpdate` | the binary object format: reading, the layout invariant, object trees, every type by name, the serializer in place, updates in place |
| `Migration`, `ObjectViews`, `MigratedObjects` | schema changes and objects read across versions |
| `KeyOrder`, `IndexKey`, `IndexKeyOrder`, `CursorIterator` | ids and composite keys as ordered byte strings, range iteration |
| `UniqueIndexes`, `NativeCollection`, `IndexedObjects`, `IndexedValues`, `CollectionRuns` | putting, updating and deleting objects with unique indexes, automatic ids; whole runs of a collection |
| `PageFile`, `RelaxedIdb` | the in-memory page file and its asynchronous write-back |
| `Doubles`, `Conditions`, `FilterCompile`, `FilterSuitability`, `StoredFilters`, `StringRanges` | native ranges against JSON evaluation: numbers, nested filters on stored objects, strings |
| `SQLiteInsert`, `ChangeSet` | batched inserts, watcher registration |
| `TinyPrintf`, `PrintfText`, `FormatScan`, `Snprintf`, `PrintfStandard`, `DirectiveStandard`, `HashStandard` | the embedded printf: integer conversions, format strings, the output buffer |

How the source's concepts appear: a Rust byte slice is a `seq<byte>`, an integer with wrap-around or a
sign bit is written out over `int` with explicit bounds, a float is its bit pattern. A panic of the
reader (a slice out of bounds) is the outcome `Panic`. The databases behind the cursors (MDBX), the
statements (SQLite) and the object store (IndexedDB) appear as sorted sequences, sets and maps with the
contracts their operations have. xxh3 is any function from bytes to 64 bits.

Findings, where code and promise differ, each with the exact condition:

- Reopening an object with a shorter static section than the collection's for an update overlaps old data:
  missing properties change their value or make the reader panic (`ObjectUpdate.ReopenExact`,
  `ObjectUpdate.ShortSectionExample`, `ObjectUpdate.AppendedStringExample`).
- A unique index takes the string U+0000 for null; a put can delete an object that is not in conflict
  (`UniqueIndexes.PutExact`, `IndexedObjects.HarmlessExactly`, `IndexedObjects.NulExample`).
- A unique index takes the empty string for U+0001 (`IndexedValues.ConflictOnValues`,
  `IndexedObjects.EmptyStringExample`).
- "Starts with" misses strings that go on behind U+10FFFF (`PrefixRange.StartsWithExact`), and `?` is a
  byte natively and a character in SQLite (`Utf8Wild.BackendsAgreeOnTextExactly`).
- After a truncation and before the next sync, reads past the end return old pages
  (`PageFile.IdbPageFile.ReadsExactly`).
- Operands out of range, the null sentinel as an operand, null operands on ids and bytes, and real operands
  on integral properties compile to ranges that differ from the JSON evaluation
  (`FilterSuitability.ConditionExact`, `StoredFilters.RealExample`).
- On doubles and floats "less than" is compiled to a range that ends behind the operand, "greater than" to one
  that starts at the next single (`FilterSuitability.ConditionExact`, `FilterSuitability.LessExample`).
- On strings "greater" and "less" miss strings that go on behind the operand, or behind the one before it
  (`StringRanges.RangeExact`, `StringRanges.LessExample`).
- `finish` of an SQLite insert with rows missing, or with none announced, inserts rows of nulls
  (`SQLiteInsert.SQLiteInsert.Finish`, `SQLiteInsert.FinishEmpty`).
- printf ignores a precision under left alignment, loses digits or a sign that do not fit its buffer, and
  takes a negative precision argument for zero (`PrintfText.ConversionExact`, `PrintfText.PrecisionExample`,
  `DirectiveStandard.DirectiveExact`). With `#` it takes digits that fill the width for padding
  (`HashStandard.FormExact`, `HashStandard.HashExample`). A text longer than `size_t` can count overwrites itself
  (`Snprintf.WrapExample`).

One condition is a duty of the callers: descending iteration without the duplicates flag starts at the
first entry of the upper key (`CursorIterator.Range.YieldsExactly`, `CursorIterator.UndeclaredExample`).
All present callers iterate over databases without duplicates, where the flag is irrelevant.

## Model

| member | source | states |
|---|---|---|
| `WildMatch.FastWildMatch` | packages/isar_core/src/core/fast_wild_match.rs:4-59 | the single-pass matcher with one backtrack point answers true exactly when the recursive wildcard relation holds, for all byte strings, and terminates |
| `WildMatch.LeftmostSuffices` | packages/isar_core/src/core/fast_wild_match.rs:19-50 | once a star-free segment is placed leftmost, no later placement of it can be needed: why one backtrack point is enough |
| `WildMatch.AfterStars` | packages/isar_core/src/core/fast_wild_match.rs:19-30 | moving the backtrack point behind a run of stars keeps the question "does the whole pattern match" |
| `WildMatch.Advance` | packages/isar_core/src/core/fast_wild_match.rs:14-18 | accepting one symbol keeps the meaning of the four indices |
| `WildMatch.Mismatch` | packages/isar_core/src/core/fast_wild_match.rs:31-50 | a mismatch rules out the placement at the backtrack point and nothing else |
| `WildMatch.AtEndOfText` | packages/isar_core/src/core/fast_wild_match.rs:55-58 | with the text used up the pattern matches exactly if only stars are left |
| `LikePatterns.EscapeIsCharacterWise` | packages/isar_core/src/sqlite/sql.rs:370-375 | the three sequential replaces equal one escape per character |
| `LikePatterns.LikeStartsWith` | packages/isar_core/src/sqlite/sql.rs:329-336 | under LIKE with escape `\` (section 8.5 of ISO/IEC 9075:1992) the compiled pattern is valid and matches exactly the strings with the prefix |
| `LikePatterns.LikeEndsWith` | packages/isar_core/src/sqlite/sql.rs:337-344 | … exactly the strings with the suffix |
| `LikePatterns.LikeContains` | packages/isar_core/src/sqlite/sql.rs:345-352 | … exactly the strings with the substring |
| `LikePatterns.MatchesIsCharacterWise` | packages/isar_core/src/sqlite/sql.rs:353-357 | escaping followed by the two wildcard replacements is one translation per character |
| `LikePatterns.SpecialWildcards` | packages/isar_core/src/core/fast_wild_match.rs:1-59 | `*` is any run of symbols, `?` any one, everything else itself |
| `LikePatterns.SpecialInPatterns` | packages/isar_core/src/sqlite/sql.rs:365-375 | in a pattern `%` is any run of characters, `_` any one, `\` takes the next literally, everything else is itself |
| `LikePatterns.LikeMatches` | packages/isar_core/src/sqlite/sql.rs:353-364 | the compiled wildcard matches exactly the wildcard relation of the native matcher |
| `Utf8Wild.BytesAndCharacters` | packages/isar_core/src/sqlite/sql.rs:353-364 | for ASCII text, or patterns without `?`, matching UTF-8 bytes and matching characters are the same |
| `Utf8Wild.BackendsAgreeOnTextExactly` | packages/isar_core/src/native/query/native_filter.rs:492-494 | native (bytes) and SQLite (characters) agree on every pattern for a text if and only if the text is ASCII |
| `Utf8Wild.BackendsAgreeWithoutQuestionMark` | packages/isar_core/src/native/query/native_filter.rs:492-494 | patterns without `?` agree on all texts |
| `PrefixRange.Utf8Order` | packages/isar_core/src/native/query/native_filter.rs:344-376 | comparing UTF-8 bytes is comparing characters |
| `PrefixRange.StartsWithExact` | packages/isar_core/src/native/native_query_builder.rs:172-181 | the native range for a prefix holds exactly the strings with that prefix, except those that go on behind prefix and U+10FFFF: the range is not quite "starts with", and this is the exact difference |
| `PrefixRange.BackendsAgreeOnPrefix` | packages/isar_core/src/native/native_query_builder.rs:172-181 | native range and compiled LIKE pattern agree on a string exactly when it is not such an exception |
| `LittleEndian.LeRoundTrip` | packages/isar_core/src/native/isar_serializer.rs:33-43 | little-endian numbers of any width read back |
| `Layout.LaidReads` | packages/isar_core/src/native/isar_deserializer.rs:24-146 | in a buffer that is laid out as its invariant says, every property reads as its value |
| `Layout.LaidReadsAll` | packages/isar_core/src/native/isar_deserializer.rs:15-22 | … and so does the whole object, from its header on |
| `Layout.LaidAppend` | packages/isar_core/src/native/isar_serializer.rs:112-122 | bytes appended at the end disturb nothing |
| `Layout.LaidUpdate` | packages/isar_core/src/native/isar_serializer.rs:124-136 | the frame of every write: one property gets a new value and block, all others keep theirs, nested subtrees included |
| `ObjectTree.StoreLaid` | packages/isar_core/src/native/native_writer.rs:46-153 | every writer call keeps the layout and changes the expected value of its property only |
| `ObjectTree.ListReads` | packages/isar_core/src/native/native_reader.rs:161-173 | a list block, written element by element as a nested object, reads back with its length and elements |
| `ObjectTree.NestedReads` | packages/isar_core/src/native/native_reader.rs:144-159 | a nested block reads back as its object |
| `ObjectTree.ByteListReads` | packages/isar_core/src/native/native_reader.rs:139-142 | a byte list written as a nested list reads back through the blob reader as well |
| `ObjectTree.EncodeLaid` | packages/isar_core/src/native/native_writer.rs:46-153 | any sequence of writer calls, nested to any depth, leaves a well laid-out object below 2^24 bytes |
| `ObjectTree.RoundTrip` | packages/isar_core/src/native/native_writer.rs:103-152 | what any sequence of calls wrote (last write wins, calls of the wrong type ignored, null, empty string and empty list distinct) is what the readers return |
| `ValueRoundTrip.TreeRoundTrip` | packages/isar_core/src/native/native_writer.rs:103-152 | every well-typed tree of values (scalars, strings, byte lists, lists, nested objects, nulls) reads back as the same tree |
| `ValueRoundTrip.EncodingInjective` | packages/isar_core/src/native/isar_serializer.rs:112-146 | different values never have the same encoding |
| `ValueRoundTrip.ByteListBothReaders` | packages/isar_core/src/native/isar_deserializer.rs:118-146 | a blob reads as a byte list, element by element, too |
| `OwnValues.NullReads` | packages/isar_core/src/native/isar_serializer.rs:65-76 | the null marker of a property of any type reads as null, and as 0 for a byte |
| `OwnValues.IntegersRead` | packages/isar_core/src/native/native_writer.rs:60-80 | whatever was written before, a byte, int or long written to a property of its type reads back; the most negative int and long read as null |
| `OwnValues.RealsRead` | packages/isar_core/src/native/native_writer.rs:74-93 | floats and doubles likewise, by their patterns, NaN as null |
| `OwnValues.OthersRead` | packages/isar_core/src/native/native_writer.rs:53-102 | booleans, strings, JSON and byte lists likewise |
| `OwnValues.ObjectReads` | packages/isar_core/src/native/native_writer.rs:110-128 | an object written to an object property reads as the record its calls leave in the collection the property names |
| `OwnValues.BoolListReads` | packages/isar_core/src/core/data_type.rs:31-43 | a list of booleans and nulls, written element by element, reads back |
| `OwnValues.ByteListReads` | packages/isar_core/src/core/data_type.rs:31-43 | … a list of bytes, as one blob |
| `OwnValues.IntListReads` | packages/isar_core/src/core/data_type.rs:31-43 | … a list of ints, the most negative one as null |
| `OwnValues.LongListReads` | packages/isar_core/src/core/data_type.rs:31-43 | … a list of longs |
| `OwnValues.FloatListReads` | packages/isar_core/src/core/data_type.rs:31-43 | … a list of floats, NaN as null |
| `OwnValues.DoubleListReads` | packages/isar_core/src/core/data_type.rs:31-43 | … a list of doubles |
| `OwnValues.StringListReads` | packages/isar_core/src/core/data_type.rs:31-43 | … a list of strings and nulls |
| `OwnValues.ObjectListReads` | packages/isar_core/src/core/data_type.rs:31-43 | … a list of objects, each as the record its calls leave |
| `OwnValues.ReadIsTyped` | packages/isar_core/src/native/isar_deserializer.rs:24-146 | whatever the bytes are, single values, nulls and lists of single values that the readers return are values of their type; only a byte can be missing |
| `OwnValues.NullMarkers` | packages/isar_core/src/native/isar_serializer.rs:65-76 | the bytes of the null markers: 255, four and eight bytes of the most negative number, the quiet NaNs, offset 0 |
| `OwnValues.StaticForm` | packages/isar_core/src/native/isar_serializer.rs:78-110 | the bytes of booleans and of four-byte numbers, least significant first, in two's complement |
| `OwnValues.WideForm` | packages/isar_core/src/native/isar_serializer.rs:98-110 | … and of eight-byte numbers |
| `Serializer.IsarSerializer.constructor` | packages/isar_core/src/native/isar_serializer.rs:13-25 | the buffer after opening is the old one with room for header and static section, and the header written |
| `Serializer.IsarSerializer.WriteDynamic` | packages/isar_core/src/native/isar_serializer.rs:112-122 | the object becomes itself with the block appended and the offset stored; everything in front of it is untouched |
| `Serializer.IsarSerializer.UpdateDynamic` | packages/isar_core/src/native/isar_serializer.rs:124-136 | the new text is in place or appended, as the specification function of the update says; the rest of the buffer is untouched |
| `Serializer.IsarSerializer.BeginNested` | packages/isar_core/src/native/isar_serializer.rs:138-142 | the buffer moves to the nested serializer, whose object is blank and lies behind the parent, with the parent's offset pointing to it |
| `Serializer.SerializeObject` | packages/isar_core/src/native/native_writer.rs:110-152 | the serializer in place, handing its buffer down and back up through all nested calls, produces the encoding the round trip is proved about |
| `ObjectUpdate.WriteValue` | packages/isar_core/src/native/native_collection.rs:280-317 | a change is accepted exactly if it is legal for its property, and then has the effect of the specification |
| `ObjectUpdate.UpdateLaid` | packages/isar_core/src/native/native_collection.rs:266-268 | one change keeps the layout: blocks stay apart and every unlisted property reads as before |
| `ObjectUpdate.Unlisted` | packages/isar_core/src/native/native_collection.rs:266-268 | properties not listed keep their values through all changes |
| `ObjectUpdate.Listed` | packages/isar_core/src/native/native_collection.rs:266-268 | the last change of a property decides its value |
| `ObjectUpdate.ReplacedSize` | packages/isar_core/src/native/isar_serializer.rs:124-136 | a text no longer than the stored one stays in its place and the object keeps its size; a longer one, or one where there was null, is appended |
| `ObjectUpdate.NewPlainValue` | packages/isar_core/src/native/native_collection.rs:286-312 | a change to null is always legal, to a boolean or a string exactly for a property of that type (or JSON), and leaves null (0 for a byte), that boolean or that string |
| `ObjectUpdate.NewInteger` | packages/isar_core/src/native/native_collection.rs:292-300 | a change to an integer is legal exactly for bytes, ints and longs, and leaves it cut to the width of the property: modulo 256, the signed low 32 bits, or as it is |
| `ObjectUpdate.NewReal` | packages/isar_core/src/native/native_collection.rs:301-306 | a change to a real is legal exactly for floats and doubles, and leaves its single or double pattern, NaN as null |
| `ObjectUpdate.Update` | packages/isar_core/src/native/native_collection.rs:252-278 | reopening a stored object whose static section is at least the collection's and applying the changes succeeds exactly if all are legal, and the result reads as the changes say and otherwise as before |
| `ObjectUpdate.ReopenExact` | packages/isar_core/src/native/isar_serializer.rs:13-25 | without that condition reopening is wrong: all objects of a static size keep reading the last property, of whatever type, as before if and only if the collection has not grown |
| `ObjectUpdate.ShortSectionExample` | packages/isar_core/src/native/isar_serializer.rs:13-25 | a concrete one-string object whose reopening turns a missing boolean into true |
| `ObjectUpdate.AppendedStringExample` | packages/isar_core/src/native/native_collection.rs:252-278 | … and with a string appended to the collection instead, an update that changes nothing makes reading that string panic |
| `Migration.FindChanges` | packages/isar_core/src/core/schema.rs:53-126 | exactly the named properties without a slot of their name and type are added, exactly the names of slots given up are dropped, each once |
| `Migration.MigrateCollection` | packages/isar_core/src/native/schema_manager.rs:156-189 | the merged slots keep every old slot in place, nameless where it was given up, and append the new ones; another file version is an error |
| `Migration.GetProperties` | packages/isar_core/src/native/schema_manager.rs:191-212 | one property for each named slot, in order, with its name and type, behind all slots in front, holes included, and with the first position of the collection it names, if it names one |
| `Migration.StaticSize` | packages/isar_core/src/native/native_collection.rs:55-58 | the static size is where the last property ends |
| `Migration.LayoutWellSlotted` | packages/isar_core/src/native/schema_manager.rs:191-212 | the properties of a merged schema do not overlap and fit the static size |
| `Migration.SlotsGrow` | packages/isar_core/src/native/schema_manager.rs:156-212 | over any history of versions slot types form a growing prefix |
| `Migration.SurvivorsKeepTheirSlot` | packages/isar_core/src/native/schema_manager.rs:156-189 | a property survives all versions in between if and only if its slot of the early version is still its slot; a property added, retyped or dropped and added again lies behind all old slots |
| `Migration.ReadAcrossVersions` | packages/isar_core/src/native/isar_deserializer.rs:24-98 | a surviving property reads from an old object at the same offset, any other reads as null |
| `ObjectViews.ViewRoundTrip` | packages/isar_core/src/native/native_reader.rs:144-173 | reading an object tree with other, compatible collections gives the view of what was written, at every depth |
| `MigratedObjects.OpenedLayout` | packages/isar_core/src/native/schema_manager.rs:40-48 | the opened collection has the layout of its slots in whatever order its properties are sorted |
| `MigratedObjects.Database.SourceExactly` | packages/isar_core/src/native/schema_manager.rs:156-212 | a reader property finds a source in old objects if and only if it survived all versions in between, and otherwise lies behind their static section |
| `MigratedObjects.Database.ObjectSurvives` | packages/isar_core/src/native/schema_manager.rs:191-212 | an object written, whatever was written before, to a property that survived reads as an object of the collection the property names at the later version |
| `MigratedObjects.Database.MigrationTheorem` | packages/isar_core/src/native/schema_manager.rs:156-212 | an object written by any calls under any earlier version reads, for every property that survived throughout, as the value written, and null for every other; nested objects likewise, as objects, and values without objects unchanged |
| `KeyOrder.CompareKeysIsLexicographic` | packages/isar_core/src/native/mdbx/mod.rs:68-82 | prefix first, then length, is the lexicographic order of byte strings |
| `KeyOrder.BigEndianOrder` | packages/isar_core/src/native/index_key.rs:49-61 | big-endian bytes of equal width compare like the numbers |
| `KeyOrder.IdKeys` | packages/isar_core/src/native/mod.rs:47-53 | ids round-trip through their keys, and keys compare like signed ids |
| `KeyOrder.IdKeysInverse` | packages/isar_core/src/native/mod.rs:34-41 | every eight bytes are the key of the id they decode to |
| `IndexKey.Builder.AddFloat` | packages/isar_core/src/native/index_key.rs:63-76 | adding a float appends the bytes of its component and notes a NaN as null |
| `IndexKey.Builder.Finish` | packages/isar_core/src/native/index_key.rs:106-113 | keys over 1024 bytes are cut and completed by their hash, shorter ones unchanged |
| `IndexKeyOrder.SignMagnitudeOrder` | packages/isar_core/src/native/index_key.rs:63-91 | the bit pattern used for floats orders them like totalOrder, section 5.10 of IEEE 754-2008 |
| `IndexKeyOrder.StringOrderExact` | packages/isar_core/src/native/index_key.rs:93-104 | the bytes of optional strings compare like null first, then lexicographically, except exactly for clashes of null with U+0000 and of the empty string with U+0000 and U+0001 |
| `IndexKeyOrder.KeyOrderExact` | packages/isar_core/src/native/native_index.rs:36-60 | composite keys of fixed-width components and an optional final string compare like the tuples of their values if and only if the final strings do not clash after equal values |
| `IndexKeyOrder.KeyInjective` | packages/isar_core/src/native/native_index.rs:36-60 | keys are equal exactly for equal values, up to two pairs of final strings: null and U+0000, the empty string and U+0001 |
| `IndexKeyOrder.NullKeysCoincide` | packages/isar_core/src/native/native_index.rs:36-60 | a key with a null and one without coincide exactly when they end in null and in the string U+0000 after equal values |
| `IndexKeyOrder.KeyForm` | packages/isar_core/src/native/index_key.rs:35-104 | the bytes of nulls (zeros in the width of the type), of booleans, bytes and strings, and the widths of numbers |
| `IndexKeyOrder.FinishedExactly` | packages/isar_core/src/native/index_key.rs:106-113 | when two finished keys are equal: short ones when their bytes are, overlong ones when 1016 bytes and the hash are, and one of each when the short one is just that |
| `IndexKeyOrder.CreateKey` | packages/isar_core/src/native/native_index.rs:36-60 | the loop over the indexed properties builds the bytes of all components, or their hash, and reports whether any is null |
| `CursorIterator.Range.YieldsSelection` | packages/isar_core/src/native/mdbx/cursor_iterator.rs:16-131 | iteration that knows of the duplicates yields exactly the entries between the keys, once each, in the requested direction, or one entry per key |
| `CursorIterator.Range.YieldsExactly` | packages/isar_core/src/native/mdbx/cursor_iterator.rs:49-94 | it does so if and only if `duplicates` was set, or is irrelevant: descending with several entries under the upper key is the failing case |
| `CursorIterator.UndeclaredExample` | packages/isar_core/src/native/mdbx/cursor_iterator.rs:49-94 | … for example with two entries under one key, of which only the first is yielded |
| `CursorIterator.WalkSelects` | packages/isar_core/src/native/mdbx/cursor_iterator.rs:97-116 | stepping with any of the four operations from the proper end visits the selection in order |
| `CursorIterator.RangeIterator.constructor` | packages/isar_core/src/native/mdbx/cursor_iterator.rs:16-47 | direction, bounds and operation follow from the keys, and what is to come is the walk from the position `move_to_first` finds |
| `CursorIterator.RangeIterator.MoveToFirst` | packages/isar_core/src/native/mdbx/cursor_iterator.rs:49-94 | the cursor settles on the start of the range, whichever of the cases of the search applies, and on nothing if the range is empty |
| `CursorIterator.RangeIterator.FindNext` | packages/isar_core/src/native/mdbx/cursor_iterator.rs:97-116 | as long as there was an entry, the rest loses exactly that one |
| `CursorIterator.RangeIterator.Next` | packages/isar_core/src/native/mdbx/cursor_iterator.rs:127-131 | each call returns the first of what is to come, and None exactly at the end |
| `CursorIterator.Collect` | packages/isar_core/src/native/mdbx/cursor_iterator.rs:16-131 | a whole iteration over any sorted entries returns that walk, which is the selection when duplicates are declared |
| `UniqueIndexes.HashedKeys` | packages/isar_core/src/native/native_index.rs:51-56 | the key of a hashed index is eight bytes, equal for two objects exactly if the hashes of their component bytes are |
| `UniqueIndexes.EvictAllNext` | packages/isar_core/src/native/native_collection.rs:133-204 | the objects a put removes go index by index: in each the first holder of the new key among the objects the indexes before it have left |
| `UniqueIndexes.PutReplaces` | packages/isar_core/src/native/native_index.rs:76-80 | deleting one holder per unique index as the code does removes exactly the objects in conflict with the new one, given that coinciding keys with and without nulls are harmless |
| `UniqueIndexes.PutExact` | packages/isar_core/src/native/native_collection.rs:133-204 | every put into every collection of distinct unique keys removes exactly the conflicting objects if and only if keys with and without a null never coincide other than for objects in conflict anyway |
| `UniqueIndexes.HarmfulPut` | packages/isar_core/src/native/native_index.rs:76-80 | otherwise a put deletes an object it should have kept |
| `UniqueIndexes.CoincidesExactly` | packages/isar_core/src/native/native_index.rs:36-60 | in an unhashed index over short keys that is exactly: the one ends in null, the other in the string U+0000, after equal values |
| `UniqueIndexes.AfterAlike` | packages/isar_core/src/native/native_collection.rs:133-204 | what a put removes depends on the index entries alone: two representations of the objects with the same entries stay in step |
| `UniqueIndexes.ReplaceKeepsUnique` | packages/isar_core/src/native/native_collection.rs:133-204 | replacing keeps null-free keys of unique indexes pairwise distinct |
| `NativeCollection.FirstDuplicate` | packages/isar_core/src/native/native_index.rs:77 | the holder found is the first duplicate in the order of the id bytes |
| `NativeCollection.NativeCollection.CreateForObject` | packages/isar_core/src/native/native_index.rs:62-84 | halfway through a put: one more index holds exactly the entries of the remaining objects and of the new one, and the holder of a unique key is gone from the collection and from all indexes |
| `NativeCollection.NativeCollection.DeleteForObject` | packages/isar_core/src/native/native_index.rs:86-99 | exactly the entry of the object is removed |
| `NativeCollection.NativeCollection.Put` | packages/isar_core/src/native/native_collection.rs:133-204 | every index stays exactly the keys of the stored objects, through the re-entrant deletes, and the objects become those of the specification |
| `NativeCollection.NativeCollection.Delete` | packages/isar_core/src/native/native_collection.rs:206-250 | object and entries go; exactness of the indexes is kept, and the call is also right in the middle of a put |
| `NativeCollection.NativeCollection.Update` | packages/isar_core/src/native/native_collection.rs:252-278 | a legal update stores the object that reads as the changes say; an illegal one or a missing id changes nothing; indexes stay exact |
| `NativeCollection.NativeCollection.Clear` | packages/isar_core/src/native/native_collection.rs:319-354 | all objects and all entries go |
| `NativeCollection.NativeCollection.constructor` | packages/isar_core/src/native/native_collection.rs:81-89 | opening sets the counter to one above the last id, or to 1 |
| `NativeCollection.NativeCollection.AutoIncrement` | packages/isar_core/src/native/native_collection.rs:91-93 | the counter is handed out and incremented in 64 bits |
| `NativeCollection.RunsAreIdeal` | packages/isar_core/src/native/native_collection.rs:133-354 | every run of puts of any bytes, deletes, clears, issued ids and reopenings keeps unique keys distinct and equals the run in which puts remove exactly the conflicting objects |
| `NativeCollection.StaysAheadExactly` | packages/isar_core/src/native/native_collection.rs:81-98 | a step keeps the counter above all stored and issued ids if and only if it is not at the largest id |
| `NativeCollection.IdsAreNew` | packages/isar_core/src/native/native_collection.rs:81-98 | in every run below that limit the next automatic id is neither stored nor was it issued since opening |
| `IndexedObjects.UnlistedEntryStays` | packages/isar_core/src/native/native_collection.rs:252-278 | an update leaves key and null flag of an index alone unless it lists one of the indexed properties |
| `IndexedObjects.EntriesFollowValues` | packages/isar_core/src/native/native_index.rs:36-84 | a stored object has in every index the entry of the record of values read from it |
| `IndexedValues.ConflictOnValues` | packages/isar_core/src/native/native_index.rs:36-84 | two records are in conflict in a unique index exactly when no indexed value is null and they hold equal values in every column, up to the empty string and U+0001 in the last one; hash collisions excepted |
| `IndexedValues.CoincideOnValues` | packages/isar_core/src/native/native_index.rs:36-84 | a record with a null and one without share a key exactly for null against the string U+0000 in the last column, after equal values |
| `IndexedValues.KeysOrderedByValues` | packages/isar_core/src/native/native_index.rs:36-60 | keys are sorted like the values (nulls first, numbers and reals by size, strings by bytes) in the first column where two records differ, except exactly for the named pairs of strings in the last column |
| `IndexedObjects.ConflictExactly` | packages/isar_core/src/native/native_index.rs:62-84 | the same on the components of the keys, for values of any type |
| `IndexedObjects.HarmlessExactly` | packages/isar_core/src/native/native_index.rs:62-84 | the condition of PutReplaces as one on stored values, for unique indexes with their string last and no hash collisions: a set of objects is harmless if and only if no two of them hold null and U+0000 in the last string of a unique index, after equal values, without having the same entry in some unique index anyway |
| `IndexedValues.HarmlessOnValues` | packages/isar_core/src/native/native_index.rs:62-84 | that condition on two records of values: null against U+0000 in the last column of a unique index only where equal values are in conflict anyway |
| `IndexedObjects.ShortKeysFaithful` | packages/isar_core/src/native/index_key.rs:106-113 | unhashed unique indexes with their string last and keys of at most 1024 bytes meet that |
| `IndexedObjects.NulExample` | packages/isar_core/src/native/native_index.rs:76-80 | two objects with one unique string property, holding null and U+0000: putting the second deletes the first, which is not in conflict with it |
| `IndexedObjects.EmptyStringExample` | packages/isar_core/src/native/index_key.rs:93-104 | … and the empty string and U+0001 are in conflict there |
| `IndexedObjects.ShapesAgree` | packages/isar_core/src/native/native_index.rs:36-54 | keys of one index are built from components of the same types |
| `CollectionRuns.UpdateObject` | packages/isar_core/src/native/native_collection.rs:252-278 | an update by changes on a collection whose objects hold known records: accepted exactly if the id is missing or all changes are legal; the stored bytes and the records become those of the specification |
| `CollectionRuns.PerformAll` | packages/isar_core/src/native/native_collection.rs:133-354 | over every run of puts by writer calls, updates by changes, deletes, clears and issued ids the indexes stay exact, the stored bytes are those the calls specify, and the objects hold the records the deletions of the code leave; among harmless records these are exactly the records of the ideal run, in which storing removes the conflicting records and nothing else, and null-free keys of unique indexes are distinct |
| `CollectionRuns.RunIsMeant` | packages/isar_core/src/native/native_collection.rs:133-354 | on records: every run over harmless records is the ideal run, and keeps unique entries distinct |
| `CollectionRuns.AfterHolds` | packages/isar_core/src/native/native_collection.rs:133-204 | one put keeps objects and records in step, through all evictions |
| `CollectionRuns.StoredReads` | packages/isar_core/src/native/isar_deserializer.rs:15-22 | whatever object such a run leaves, the reader returns its record |
| `PageFile.PageRead` | packages/sqlite-wasm-rs/src/vfs/relaxed_idb.rs:73-118 | the loop over pages returns the bytes of the blocks, padded with zeros, and true exactly if all were there |
| `PageFile.CutPut` | packages/sqlite-wasm-rs/src/vfs/relaxed_idb.rs:178-182 | writing a page into the flat bytes is writing one block |
| `PageFile.CutInjective` | packages/sqlite-wasm-rs/src/vfs/relaxed_idb.rs:147-153 | the blocks determine the flat bytes |
| `PageFile.CutSize` | packages/sqlite-wasm-rs/src/vfs/relaxed_idb.rs:282-283 | number of blocks times block size is the size of the file |
| `PageFile.IdbPageFile.Read` | packages/sqlite-wasm-rs/src/vfs/relaxed_idb.rs:156-167 | a read is a read of the flat file where the two agree, see the next two rows |
| `PageFile.IdbPageFile.InsideReadsTruly` | packages/sqlite-wasm-rs/src/vfs/relaxed_idb.rs:156-167 | reads inside the file return the flat bytes and true |
| `PageFile.IdbPageFile.ReadsExactly` | packages/sqlite-wasm-rs/src/vfs/relaxed_idb.rs:156-167 | all reads, also past the end, behave like reads of the flat file if and only if no blocks are left over from a truncation, or the file is empty |
| `PageFile.IdbPageFile.Write` | packages/sqlite-wasm-rs/src/vfs/relaxed_idb.rs:169-188 | a write is a write to the flat file, a gap reads as zeros; blocks that are not marked still equal their stored copies |
| `PageFile.IdbPageFile.Truncate` | packages/sqlite-wasm-rs/src/vfs/relaxed_idb.rs:190-193 | the flat file is cut |
| `PageFile.TruncateExactly` | packages/sqlite-wasm-rs/src/vfs/relaxed_idb.rs:190-193 | whatever size is asked for, reads inside it are those of the resized file if and only if the blocks reach that far: an enlarging truncate leaves reads that fail |
| `PageFile.IdbPageFile.PragmaPageSize` | packages/sqlite-wasm-rs/src/vfs/relaxed_idb.rs:688-699 | a page size other than the one in use is refused once there are blocks; before that any number is taken, and neither the file nor a later write depends on it |
| `PageFile.IdbPageFile.DropTruncated` | packages/sqlite-wasm-rs/src/vfs/relaxed_idb.rs:503-507 | exactly the blocks behind the end go, and the loop notices whether there were any |
| `PageFile.IdbPageFile.Export` | packages/sqlite-wasm-rs/src/vfs/relaxed_idb.rs:434-458 | the exported bytes are the flat file |
| `RelaxedIdb.RelaxedIdb.SyncControl` | packages/sqlite-wasm-rs/src/vfs/relaxed_idb.rs:707-717 | after the control a sync is queued, once |
| `RelaxedIdb.RelaxedIdb.BeginSync` | packages/sqlite-wasm-rs/src/vfs/relaxed_idb.rs:491-532 | processing a sync makes the store, once its transaction commits, equal to the file as it is now, on the early-return path as well; other tasks change nothing |
| `RelaxedIdb.RelaxedIdb.NothingToDo` | packages/sqlite-wasm-rs/src/vfs/relaxed_idb.rs:509-513 | nothing marked and nothing truncated means that the store is the file already |
| `RelaxedIdb.RelaxedIdb.AppliedIsFile` | packages/sqlite-wasm-rs/src/vfs/relaxed_idb.rs:525-530 | putting the marked blocks and deleting from the end on turns the store into the file |
| `RelaxedIdb.RelaxedIdb.Commit` | packages/sqlite-wasm-rs/src/vfs/relaxed_idb.rs:534-536 | the store becomes what was pending, whatever the file did meanwhile |
| `RelaxedIdb.RelaxedIdb.CommitLoop` | packages/sqlite-wasm-rs/src/vfs/relaxed_idb.rs:539-554 | when the queue is drained after a sync control the store is the file |
| `RelaxedIdb.Preload` | packages/sqlite-wasm-rs/src/vfs/relaxed_idb.rs:260-319 | preloading the blocks of a non-empty file rebuilds that file |
| `RelaxedIdb.Restart` | packages/sqlite-wasm-rs/src/vfs/relaxed_idb.rs:260-319 | losing the memory at any point and opening again gives the file as of the last committed sync |
| `RelaxedIdb.PerformAll` | packages/sqlite-wasm-rs/src/vfs/relaxed_idb.rs:169-193 | over every run of writes, truncates, sync controls and commit steps in any order the page map is the flat file, and what the store holds was the file at some point of the run |
| `RelaxedIdb.Import` | packages/sqlite-wasm-rs/src/vfs/relaxed_idb.rs:391-432 | each error case exactly, for page sizes that are powers of two from 512 to 65536; otherwise the file is the given bytes, with both version bytes of the header (18 and 19) set to 1 if asked for, and a sync is queued |
| `RelaxedIdb.ImportSurvives` | packages/sqlite-wasm-rs/src/vfs/relaxed_idb.rs:391-458 | import, commit, restart and export return the given bytes, with those two changed if asked for |
| `Doubles.RankIsOrder` | packages/isar_core/src/core/filter_json.rs:163-297 | comparing the places of two doubles is comparing their values |
| `Doubles.PatternValue` | packages/isar_core/src/core/filter_json.rs:171-173 | the double an integer is converted to is the integer rounded to a multiple of a power of two, ties to even (section 4.3.1 of IEEE 754-2008) |
| `Doubles.IntegerRankGrows` | packages/isar_core/src/core/filter_json.rs:163-297 | a larger integer has no smaller double |
| `Doubles.ReachesExactly` | packages/isar_core/src/core/filter_json.rs:250-282 | bisection decides whether some integer of a range is, as a double, between two places |
| `Doubles.WidenedValue` | packages/isar_core/src/native/native_query_builder.rs:273-277 | a single widened to a double keeps its value |
| `Doubles.SinglesCompare` | packages/isar_core/src/native/query/native_filter.rs:310-341 | comparing singles, and comparing them widened to doubles, is the same |
| `FilterSuitability.ConditionExact` | packages/isar_core/src/native/native_query_builder.rs:114-420 | for every condition on a bool, byte, int, long, float or double property or on the id, with operands of any type, the native range accepts the same values as the evaluation on JSON if and only if the operands are suitable, a test on the operands alone |
| `FilterSuitability.UnsuitableDisagrees` | packages/isar_core/src/core/filter_json.rs:163-297 | for every other condition there is a value of the type on which the two differ |
| `FilterSuitability.PlainIsSuitable` | packages/isar_core/src/native/native_query_builder.rs:114-196 | null, or a value of the type that is not the null sentinel, is suitable in every condition on a bool, int or long property |
| `FilterSuitability.LessExample` | packages/isar_core/src/native/native_query_builder.rs:387-403 | "less than" on a double property accepts a value that equals the operand, whatever number above minus infinity it is |
| `StoredFilters.FilterAgrees` | packages/isar_core/src/native/native_query_builder.rs:72-112 | compiled trees of And, Or, Not and nested filters, evaluated on the bytes of any readable object, accept it exactly if the conditions do that are evaluated on the values read from it and combined in the same way |
| `StoredFilters.StoredAgrees` | packages/isar_core/src/native/query/native_filter.rs:502-572 | … in particular on whatever any sequence of writer calls stored |
| `StoredFilters.RealExample` | packages/isar_core/src/core/filter_json.rs:171-173 | "equal to 5.0" on an object that holds the integer 5: the JSON evaluation accepts it and the native filter does not, and under Not the other way round |
| `StringRanges.RangeExact` | packages/isar_core/src/native/native_query_builder.rs:302-345 | a comparison of strings compiled to a range of byte strings accepts what the comparison accepts, except exactly: "greater" misses what goes on behind the operand, "less" misses what goes on behind the operand with its last character moved down, and what starts with U+10FFFF and goes on has no upper bound |
| `StringRanges.BetweenExact` | packages/isar_core/src/native/query/native_filter.rs:344-375 | between inclusive bounds the range and the comparison agree on every string and on null |
| `StringRanges.LessExample` | packages/isar_core/src/native/native_query_builder.rs:324-338 | "ab" is less than "b", and the native range for that misses it |
| `SQLiteInsert.InsertSql` | packages/isar_core/src/sqlite/sql.rs:78-110 | the whole statement: the id and the columns in order, a placeholder for every cell, the rows of the batch |
| `SQLiteInsert.StatementParameters` | packages/isar_core/src/sqlite/sql.rs:92-107 | a statement has one placeholder for every cell of its rows |
| `SQLiteInsert.ParametersFit` | packages/isar_core/src/sqlite/sql.rs:99-102 | no statement has more than 999 parameters, and a batch takes at least one row, as long as one row fits |
| `SQLiteInsert.FlattenUpdate` | packages/isar_core/src/sqlite/sqlite_writer.rs:9-12 | setting parameter row * width + column sets that cell and no other: the index is right for every row and column |
| `SQLiteInsert.RowsOfFlatten` | packages/isar_core/src/sqlite/sqlite_writer.rs:9-12 | cutting the parameters of a statement into rows undoes laying them out |
| `SQLiteInsert.SQLiteInsert.Write` | packages/isar_core/src/sqlite/sqlite_writer.rs:31-98 | a writer call changes its cell of the current row |
| `SQLiteInsert.SQLiteInsert.Save` | packages/isar_core/src/sqlite/sqlite_insert.rs:96-142 | a save is accepted exactly while fewer than the announced rows were saved (and one row fits); the row is the current one with its id, and the next row starts empty, across batches |
| `SQLiteInsert.SQLiteInsert.Next` | packages/isar_core/src/sqlite/sqlite_insert.rs:32-42 | executing a full batch inserts its rows, and the next statement starts with all parameters null |
| `SQLiteInsert.SQLiteInsert.Finish` | packages/isar_core/src/sqlite/sqlite_insert.rs:144-145 | what was inserted is the saved rows and the rest of the statement, which is nothing if and only if all announced rows were saved, at least one was announced, and one row fits a statement |
| `SQLiteInsert.FinishEmpty` | packages/isar_core/src/sqlite/sqlite_insert.rs:144-145 | an insert that announces no rows inserts one row of nulls |
| `SQLiteInsert.InsertAll` | packages/isar_core/src/sqlite/sqlite_insert.rs:66-145 | inserting any number of rows inserts those rows in their order |
| `ChangeSet.MarkedExact` | packages/isar_core/src/core/watcher.rs:148-157 | the early exit registers the same watchers as a full scan if and only if no unregistered watcher comes after a registered one |
| `ChangeSet.ChangeSet.MarkWatchersChanged` | packages/isar_core/src/core/watcher.rs:148-157 | the loop with its break is that marking |
| `ChangeSet.ChangeSet.RegisterChange` | packages/isar_core/src/core/watcher.rs:159-176 | exactly the collection's, the object's and the matching query watchers are registered, and lists stay registered as a whole or not at all |
| `ChangeSet.ChangeSet.RegisterAll` | packages/isar_core/src/core/watcher.rs:179-188 | exactly all watchers of the collection are registered, in whatever order the lists come |
| `ChangeSet.ChangeSet.RegisterDetailedWatchers` | packages/isar_core/src/core/watcher.rs:138-146 | detailed watchers are added without duplicates |
| `ChangeSet.ChangeSet.NotifyWatchers` | packages/isar_core/src/core/watcher.rs:190-205 | every registered watcher is called once, and every detailed watcher once per detailed change |
| `ChangeSet.RemovalKeeps` | packages/isar_core/src/core/watcher.rs:246-250 | removing watchers keeps the lists whole |
| `ChangeSet.RemovedConcerns` | packages/isar_core/src/core/watcher.rs:246-250 | removing a watcher takes it out of every list, and no other watcher out of any |
| `ChangeSet.FullScanExactly` | packages/isar_core/src/core/watcher.rs:159-188 | a full scan finds exactly the watchers that some change concerns (by collection, object or matching query) before they are removed |
| `ChangeSet.Transaction` | packages/isar_core/src/core/watcher.rs:138-205 | for every run of changes and detailed changes during which watchers are only removed, exactly the watchers that some change concerns before they are removed are called, each once, and every detailed change reaches exactly the detailed watchers that were registered at some point, once |
| `TinyPrintf.DigitsFit` | packages/sqlite-wasm-rs/shim/printf/printf.c:281-301 | the digits of a 64-bit value in base 8, 10 or 16 leave room in the 32-byte buffer |
| `TinyPrintf.Sink.OutRev` | packages/sqlite-wasm-rs/shim/printf/printf.c:199-223 | the padded buffer is written out in reverse, what exceeds the output is dropped |
| `TinyPrintf.NtoaFormat` | packages/sqlite-wasm-rs/shim/printf/printf.c:227-277 | the buffer is padded and signed as the specification says, never beyond its 32 bytes |
| `TinyPrintf.Ntoa` | packages/sqlite-wasm-rs/shim/printf/printf.c:281-326 | a conversion writes its specified text |
| `PrintfText.ConversionExact` | packages/sqlite-wasm-rs/shim/printf/printf.c:227-277 | without `#`, that text is the one section 7.21.6.1 of ISO/IEC 9899:2011 asks for if and only if digits and sign fit the buffer and no precision is combined with left alignment |
| `PrintfText.PrecisionExample` | packages/sqlite-wasm-rs/shim/printf/printf.c:227-277 | … for example for a precision of the number 1 up to 32 |
| `PrintfText.StandardReadsBack` | packages/sqlite-wasm-rs/shim/printf/printf.c:199-277 | the text of the standard reads back as the value |
| `PrintfText.ConversionReadsBack` | packages/sqlite-wasm-rs/shim/printf/printf.c:199-326 | what is written reads back as the value whenever digits and sign fit |
| `FormatScan.ScanSpelled` | packages/sqlite-wasm-rs/shim/printf/printf.c:586-668 | scanning the spelling of any items (flags, width, precision, length, specifier, with no doubt where a part ends) gives those items back |
| `FormatScan.SpellScanned` | packages/sqlite-wasm-rs/shim/printf/printf.c:586-668 | spelling what was scanned gives the format back: exactly the spellings are well formed |
| `FormatScan.NoFloats` | packages/sqlite-wasm-rs/shim/printf/printf.c:762-784 | the floating-point letters, which the model leaves out, are f, F, e, E, g and G |
| `Snprintf.ReadDirective` | packages/sqlite-wasm-rs/shim/printf/printf.c:604-668 | the scan of one directive step by step, with `*` taken from the arguments and a negative width as left alignment, resolves it as the specification says |
| `Snprintf.WriteSpecified` | packages/sqlite-wasm-rs/shim/printf/printf.c:670-845 | the switch over the specifier writes the specified text and takes the specified argument |
| `Snprintf.Vsnprintf` | packages/sqlite-wasm-rs/shim/printf/printf.c:577-857 | the loop over the format string writes exactly its text, in order |
| `Snprintf.Snprintf` | packages/sqlite-wasm-rs/shim/printf/printf.c:577-891 | for every format string and arguments whose behaviour is defined, the length of the whole text is returned, as an int; the buffer holds the prefix that fits and a NUL (section 7.21.6.5 of ISO/IEC 9899:2011) for a text that `size_t` can count, and otherwise, exactly, what is left after the index has gone round |
| `Snprintf.TerminatedWrapped` | packages/sqlite-wasm-rs/shim/printf/printf.c:851-857 | a text of one character more than `size_t` can count leaves its last character at the start of the buffer, and the NUL behind it |
| `Snprintf.WrapExample` | packages/sqlite-wasm-rs/shim/printf/printf.c:577-857 | … for example "%*d%*dXYZ" with two widths of 2^31 - 1 and 32-bit sizes |
| `DirectiveStandard.DirectiveExact` | packages/sqlite-wasm-rs/shim/printf/printf.c:604-845 | a whole directive without `#`, for integers, characters and strings, is defined exactly for arguments of the types its letters name that have a magnitude, and then writes what section 7.21.6.1 of ISO/IEC 9899:2011 asks for if and only if digits and sign fit the buffer, no precision is combined with left alignment, and a negative precision argument makes no difference |
| `HashStandard.FormExact` | packages/sqlite-wasm-rs/shim/printf/printf.c:241-264 | with `#`, a number other than zero comes out in the alternative form of the standard if and only if prefix and zeros fit the buffer, no precision is aligned left, and neither the digits alone nor the digits and a part of the prefix fill the width, which is taken for padding |
| `HashStandard.BinaryPrefix` | packages/sqlite-wasm-rs/shim/printf/printf.c:241-264 | binary numbers, which the standard does not have, get the prefix 0b, with room for it and digits that do not fill the width |
| `HashStandard.HashExample` | packages/sqlite-wasm-rs/shim/printf/printf.c:243-249 | "%#4x" of any number of four digits loses the first two of them |
| `HashStandard.AlternativeExact` | packages/sqlite-wasm-rs/shim/printf/printf.c:604-738 | a whole octal or hexadecimal directive with `#`, zero and negative precision arguments included: the exact condition under which it writes what section 7.21.6.1 of ISO/IEC 9899:2011 asks for |
| `Conditions.MixedNumbers` | packages/isar_core/src/core/filter_json.rs:160-290 | a real is below every integer operand; an integer compares with a real operand as the double it converts to, and the comparisons fit together |
| `PrintfStandard.NegatedExact` | packages/sqlite-wasm-rs/shim/printf/printf.c:640-644 | a negative precision argument, taken for zero instead of as omitted, makes none for a number exactly if that is not zero and no zeros were to fill the width |
| `PrintfStandard.NegatedTextExact` | packages/sqlite-wasm-rs/shim/printf/printf.c:787-813 | … and for a string exactly if that is spaces within the width |
| `Snprintf.SignedReadsBack` | packages/sqlite-wasm-rs/shim/printf/printf.c:703-723 | a `%d` or `%i` directive with any flags and length, precision up to 31 and zero-padded width up to 32 parses back to its argument, truncated to char, short, int, long or long long as the length says, other than the value that is the most negative where it is negated |
| `Snprintf.UnsignedReadsBack` | packages/sqlite-wasm-rs/shim/printf/printf.c:724-738 | `%u`, `%x`, `%X` and `%o` without `#` likewise, for every value and precision up to 32 |
| `Snprintf.PointerReadsBack` | packages/sqlite-wasm-rs/shim/printf/printf.c:820-838 | `%p` without precision and `#` parses back to the pointer |
| `Snprintf.WidthExample` | packages/sqlite-wasm-rs/shim/printf/printf.c:703-723 | "%5d" parses back for every int but -2^31 |
| `Snprintf.CharExample` | packages/sqlite-wasm-rs/shim/printf/printf.c:703-723 | "%hhd" parses back to the low eight bits as a signed char, for every int |
| `Snprintf.MostNegativeExample` | packages/sqlite-wasm-rs/shim/printf/printf.c:703-723 | "%d" is defined for an int if and only if it is not -2^31 |

## Left out

- MDBX, SQLite and IndexedDB: represented by the contracts of the operations used; failed transactions, I/O errors and the FFI layers are not modelled.
- Hash functions: xxh3 is an arbitrary function; where equal keys must mean equal bytes, the lemmas ask that it does not collide on the keys concerned, and `IndexedObjects.ShortKeysDiffer` says that unhashed keys of at most 1024 bytes never do.
- Indexes with a string before the last place: hashed ones, and unhashed ones that name one string property twice, which the schema check lets pass. Their keys can coincide without a collision, and only the general statements (`UniqueIndexes.PutExact`, the unconditional part of `CollectionRuns.PerformAll`) cover them.
- Objects of 2^24 bytes or more: offsets have three bytes; the writers' size limit is twice that.
- Rounding of doubles to singles: a real in an update carries both bit patterns.
- PrefixRange.StartsWithExact: the case-sensitive branch only; case-insensitive comparison and Unicode lowercasing are not modelled anywhere.
- PrefixRange.BackendsAgreeOnPrefix: the case-sensitive branch only.
- The order in which opened properties are sorted, and the order of properties added by one migration: the lemmas hold for every order.
- Migration.FindChanges: the index half is left out, and so is filling an index that is added to a collection with objects, which the source opens without entries.
- Migration.MigrateCollection: dropping the databases of changed indexes is left out.
- StoredFilters.FilterAgrees: conditions on lists, and on strings other than the null test, are not in the trees; nested filters are those on object properties with a collection. `Filter::Json` is not compiled by the source.
- FilterSuitability.ConditionExact: the single a real operand narrows to is given with it, and required to be one that no other single separates from it.
- StringRanges.RangeExact: case-sensitive conditions on string properties; the four other string conditions are in `PrefixRange`, or compiled to the test they name.
- The JSON value of a float property is taken to be its exact value; how a JSON text spells it is not modelled.
- The meaning of whole generated SQL filters, where NOT is three-valued.
- ObjectUpdate.Update: the stored static section must be at least the collection's; `ObjectUpdate.ReopenExact` says why.
- NativeCollection.NativeCollection.Update: the caller names the static size the object was stored with, under the same condition; in `CollectionRuns` the invariant of the run supplies it.
- NativeCollection.NativeCollection.Put: registering the change with the watchers is left out; the watchers are modelled by themselves in `ChangeSet`.
- NativeCollection.NativeCollection.Delete: likewise.
- NativeCollection.NativeCollection.Clear: likewise.
- NativeCollection.RunsAreIdeal: updates carry the finished object; `CollectionRuns.PerformAll` has the changes instead.
- CursorIterator.RangeIterator.FindNext: nothing is promised once there was no next entry.
- CursorIterator.RangeIterator.Next: nothing is promised for calls after the first None, where the source moves the cursor again.
- PageFile.IdbPageFile.Write: for one aligned page of the file's page size, the discipline SQLite keeps with synchronous=off.
- PageFile.IdbPageFile.Truncate: for a page boundary inside the file, likewise; `PageFile.TruncateExactly` says what an enlarging truncate does to reads.
- RelaxedIdb.RelaxedIdb.CommitLoop: one file; deleting and clearing files are not in the queue.
- RelaxedIdb.Preload: one file; temporary files and the persistence of a file that was stored before but not preloaded are left out.
- RelaxedIdb.Import: for a name that is neither in memory nor in the store; the error for an existing name and `check_import_db` are left out.
- DirectiveStandard.DirectiveExact: a width or precision written with a number of 2^32 or more counts modulo 2^32, here and there.
- SQLiteInsert.SQLiteInsert.Write: the cell is given; the writers' conversion of null sentinels and NaN to SQL null is left out.
- SQLiteInsert.SQLiteInsert.Save: before-states for detailed watchers and the automatic id are left out.
- Watchers added while a change set is open: `ChangeSet.MarkedExact` says what happens to them.
- PrintfText.ConversionExact: not for base 2; `%b` is not part of the standard, and what `%p` writes is left open by it.
- Snprintf.Snprintf: formats without floating-point directives, and without a conversion of a value that is the most negative in the type it is negated in, a null string or a missing argument, where the behaviour is undefined.
- Snprintf.Vsnprintf: formats without floating-point directives, likewise.
- Snprintf.SignedReadsBack: for precision up to 31 and zero-padded width up to 32, beyond which the digit buffer is too small (`PrintfText.ConversionExact`).
- TinyPrintf.DigitsFit: not for base 2, where the buffer keeps the low 32 digits.
