# Delta Lake export of a synapse table, modelled in Dafny

`scripts/table_to_deltalake.py` turns a materialised CAVE table into a Delta Lake
table. It reads the table's header file (one `field, dtype` row per column) and
turns the SQL types into a Polars schema through a fixed table. It then scans
the table with that schema. The plan drops the bookkeeping columns
`DROP_COLUMNS`, decodes the `_pt_position` point columns into lists of `Int32`,
and adds a `<partition column>_partition` column of type `UInt16` computed by
`id_partition_func`. The rows are written in chunks of `n_rows_per_chunk`
rows, and the table is finally optimised with bloom filters on the configured
columns. `examples/query_synapses.py` reads such a table back: `synapse_query`
narrows it by a chain of row filters.

The model has one module per piece of that logic:

- `Wrappers`: `Option` and `Result`.
- `Seqs`: the order-preserving `Filter` behind list comprehensions with an
  `if` and behind Polars' `filter`, and `Flatten`.
- `PyText`: the Python `str` operations the script relies on: `strip`,
  `lower`, `split`, `join`, `endswith`, string `repr`, and the code-point order
  `sorted` uses.
- `SqlTypes`: `SQL_TO_POLARS_DTYPE` as a `map`, `sql_to_polars_dtype` with its
  normalisation and its error message.
- `PolarsSchema`: `build_polars_schema`. The dict comprehension is modelled as
  an insertion-ordered dictionary, because column order matters downstream.
- `Partitioning`: `id_partition_func`. Python's floor `%` and NumPy's `uint16`
  wrap-around are written out. `map_elements` applies it over a column.
- `Pipeline`: the configuration lists `ZORDER_COLUMNS` and
  `BLOOM_FILTER_COLUMNS`, and the read plan's columns. The plan covers the
  drop, the position columns and the partition column. The module also builds
  the bloom-filter `writer_properties`.
- `ChunkWriter`: the `while unfinished` write loop, as an imperative method
  over a class that records every `write_deltalake` append.
- `SynapseQuery`: `synapse_query`'s filters with Polars' null semantics, and
  how it interacts with the writer's partitioning.

Things the model makes explicit:

- The write loop always ends by writing one empty chunk, so it writes
  `ceil(rows / n_rows_per_chunk) + 1` times.
- A chunk size of 0 writes nothing but that empty chunk.
- The query's partition pre-filter uses `root_id % 1024`, but the writer's
  default is `N_PARTITIONS = 64`. A table written with any partition count other
  than 1024 silently loses rows at query time (`PrefilterAgreesOnlyAt1024`,
  `DefaultPartitionsMissRow`).

## Model

| member | source | states |
|---|---|---|
| `SqlTypes.ValidOptionsAreSortedKeys` | scripts/table_to_deltalake.py:157-171 | the option list in the error message holds exactly the 13 keys of the table, in strictly increasing code-point order |
| `SqlTypes.SortedKeysAreValidOptions` | scripts/table_to_deltalake.py:184 | any strictly sorted list of exactly the table's keys is that option list, so it is what `sorted(SQL_TO_POLARS_DTYPE)` returns |
| `SqlTypes.KeysAreTypeNames` | scripts/table_to_deltalake.py:157-171 | every key is non-empty, has no surrounding whitespace and contains no `(` |
| `SqlTypes.NormaliseSqlType` | scripts/table_to_deltalake.py:179-182 | the normalised name contains no `(`, has no surrounding whitespace and has no upper-case ASCII letter |
| `SqlTypes.NormaliseWithoutParen` | scripts/table_to_deltalake.py:179 | a name without `(` normalises to itself stripped and lower-cased |
| `SqlTypes.NormaliseCutsAtParen` | scripts/table_to_deltalake.py:179-182 | for any text `a` without `(` and any `rest`, `a + "(" + rest` normalises to `a` stripped and lower-cased, so everything from the first `(` on is ignored (e.g. `' Geometry(Point) '` takes `a = ' Geometry'` and reports `geometry`) |
| `SqlTypes.NormaliseIdempotent` | scripts/table_to_deltalake.py:179-182 | normalising a normalised name changes nothing |
| `SqlTypes.SqlToDType` | scripts/table_to_deltalake.py:174-188 | the translation succeeds exactly when the normalised name is a key of the table, and then yields one of the table's types; otherwise the error carries the normalised name, which is stripped and has no `(` |
| `SqlTypes.ErrorText` | scripts/table_to_deltalake.py:184-187 | the text is exactly the prefix `Unrecognized SQL dtype: `, the `repr` of the offending name, the lead-in `. Valid options: ` and the options joined by `", "`, each at its place and nothing else |
| `SqlTypes.Message` | scripts/table_to_deltalake.py:184-187 | the raised message is exactly that prefix, the `repr` of the offending name, that lead-in and the sorted table keys joined by `", "` |
| `SqlTypes.RecognisedTypeGivesEntry` | scripts/table_to_deltalake.py:179-188 | a type whose normalised name is a key translates to exactly that key's entry |
| `SqlTypes.UnknownTypeRaises` | scripts/table_to_deltalake.py:183-187 | any other type raises an error that carries the normalised name; the message contains the name's `repr` and ends with the sorted keys joined by `", "` |
| `SqlTypes.MessageNamesTypeAndOptions` | scripts/table_to_deltalake.py:184-187 | the error message contains the `repr` of the offending name and every key of the table, and ends with the sorted keys joined by `", "` |
| `SqlTypes.MessageHoldsPlainName` | scripts/table_to_deltalake.py:186 | a name with nothing for `repr` to escape appears verbatim in the message |
| `SqlTypes.TranslationSeesNormalisedName` | scripts/table_to_deltalake.py:179-188 | the translation of a type equals the translation of its normalised name |
| `SqlTypes.PaddedTypeNameTranslates` | scripts/table_to_deltalake.py:179-188 | any capitalisation of a key, with whitespace on either side, translates to that key's entry |
| `SqlTypes.QualifiedTypeNameTranslates` | scripts/table_to_deltalake.py:179-188 | any capitalisation of a key, with whitespace in front and followed by `(` and anything at all (as in `Character Varying(255) `), translates to that key's entry |
| `SqlTypes.VarcharWithLengthTranslates` | scripts/table_to_deltalake.py:174-188 | `VarChar(` followed by anything, after any whitespace, is a `String` column |
| `SqlTypes.PaddedTextTranslates` | scripts/table_to_deltalake.py:174-188 | `Text` padded with whitespace is a `String` column |
| `SqlTypes.UnknownJsonbRejected` | scripts/table_to_deltalake.py:183-187 | `jsonb` is not in the table and raises an error naming `jsonb` |
| `PolarsSchema.BuildPolarsSchema` | scripts/table_to_deltalake.py:191-199 | the schema is built exactly when every header row's normalised type is a key of the table; a built schema has the header's field names, each once, in the order they first appear |
| `PolarsSchema.Put` | scripts/table_to_deltalake.py:196-199 | after `schema[name] = t`, the name reads back as `t` |
| `PolarsSchema.Get` | scripts/table_to_deltalake.py:196-199 | a name has a type in the schema exactly when it is one of the schema's names |
| `PolarsSchema.PutGet` | scripts/table_to_deltalake.py:196-199 | after `schema[name] = t` the name reads `t` and every other name reads as before |
| `PolarsSchema.PutNames` | scripts/table_to_deltalake.py:196-199 | a dict assignment keeps the key order; a new key goes to the end |
| `PolarsSchema.PutUnique` | scripts/table_to_deltalake.py:196-199 | a dict assignment never binds a name twice |
| `PolarsSchema.DedupSpec` | scripts/table_to_deltalake.py:196-199 | first occurrences keep every name once and add none |
| `PolarsSchema.BuildOkIff` | scripts/table_to_deltalake.py:191-199 | the schema is built exactly when every header row's type translates |
| `PolarsSchema.BuildOkTranslatesRow` | scripts/table_to_deltalake.py:196-199 | in a built schema, every row's type translated |
| `PolarsSchema.BuildRaisesFirstError` | scripts/table_to_deltalake.py:196-199 | a failed build raises the error of the first row whose type does not translate |
| `PolarsSchema.BuildNames` | scripts/table_to_deltalake.py:196-199 | the schema's names are the header's field names, each once, in the order they first appear |
| `PolarsSchema.BuildKeysAreFields` | scripts/table_to_deltalake.py:196-199 | the schema's keys are exactly the header's field names |
| `PolarsSchema.BuildLastOccurrenceWins` | scripts/table_to_deltalake.py:196-199 | each name is bound to the translated type of the last row naming it |
| `PolarsSchema.BuildOnlyHeaderNames` | scripts/table_to_deltalake.py:196-199 | a name no row gives is not in the schema |
| `PolarsSchema.OneUnknownTypeFailsSchema` | scripts/table_to_deltalake.py:191-199 | one row with a type outside the table makes the whole build raise |
| `Partitioning.PyMod` | scripts/table_to_deltalake.py:225 | Python's `%`: the result lies in `[0, n)` for positive `n` and in `(n, 0]` for negative `n`, and differs from `a` by a multiple of `n` |
| `Partitioning.PyModPositive` | scripts/table_to_deltalake.py:225 | for a positive divisor Python's `%` is the Euclidean remainder |
| `Partitioning.ToUint16` | scripts/table_to_deltalake.py:216-226 | `np.uint16` keeps values in `[0, 2^16)` and otherwise wraps modulo `2^16` |
| `Partitioning.IdPartition` | scripts/table_to_deltalake.py:210-226 | id 0 gives partition 0 for every partition count; the call fails exactly when a non-zero id meets zero partitions |
| `Partitioning.PartitionIsIdModN` | scripts/table_to_deltalake.py:216-226 | without a remap and with 1 to 2^16 partitions, a non-zero id lands in `id % n` |
| `Partitioning.PartitionInRange` | scripts/table_to_deltalake.py:210-226 | with 1 to 2^16 partitions, every id gets a partition below `n`, for any remap |
| `Partitioning.SamePartitionIffCongruent` | scripts/table_to_deltalake.py:225-226 | two non-zero ids share a partition exactly when they are congruent modulo `n` |
| `Partitioning.NegativeCountWraps` | scripts/table_to_deltalake.py:225-226 | with a count between -2^16 and 0 and an id that it does not divide, Python's `%` is negative and the cast wraps it to that value plus 2^16, which is above 2^16 + n |
| `Partitioning.TooManyPartitionsCollideWithZero` | scripts/table_to_deltalake.py:210-226 | with more than 2^16 partitions the id 65536 collides with id 0 in partition 0 |
| `Partitioning.DefaultPartitionsExample` | scripts/table_to_deltalake.py:210-226 | with the default 64 partitions: 0↦0, 1↦1, 64↦0, 1000↦40, -1↦63 |
| `Partitioning.PartitionColumn` | scripts/table_to_deltalake.py:275-282 | a computed column has one cell per id, null exactly where the id is null; the computation can fail only with zero partitions |
| `Partitioning.PartitionColumnCells` | scripts/table_to_deltalake.py:275-282 | the partition column lines up with the id column: null where the id is null, the id's partition elsewhere |
| `Partitioning.PartitionColumnFails` | scripts/table_to_deltalake.py:275-282 | computing the column fails exactly when some non-null, non-zero id meets zero partitions |
| `PyText.Strip` | scripts/table_to_deltalake.py:74-81 | `strip()` returns a string that neither starts nor ends with whitespace and is no longer than its input |
| `PyText.StripIsSlice` | scripts/table_to_deltalake.py:74-81 | `strip()` keeps one slice of its input, and everything cut on either side is whitespace |
| `PyText.StripEmptyIffAllSpace` | scripts/table_to_deltalake.py:74-81 | `strip()` leaves nothing exactly when the string is all whitespace |
| `PyText.LowerResult` | scripts/table_to_deltalake.py:179 | `lower()` leaves no ASCII capital; it moves each capital 32 code points on and keeps every other character |
| `PyText.Split` | scripts/table_to_deltalake.py:74-81 | `split(sep)` gives at least one piece, and no piece contains the separator |
| `PyText.JoinSplit` | scripts/table_to_deltalake.py:74-81 | joining the pieces of a split with the separator gives back the string |
| `PyText.SplitJoin` | scripts/table_to_deltalake.py:74-81 | splitting a join of separator-free pieces gives back the pieces |
| `PyText.JoinEnds` | scripts/table_to_deltalake.py:184 | `sep.join(parts)` is empty for no parts, and otherwise starts with the first part and ends with the last |
| `PyText.Repr` | scripts/table_to_deltalake.py:186 | `repr(s)` is at least two characters longer than `s`, and starts and ends with the same quote, a double quote only when `s` holds a single quote and no double quote |
| `PyText.EndsWithIff` | scripts/table_to_deltalake.py:251 | `s.endswith(suffix)` holds exactly when `s` is some string followed by `suffix` |
| `PyText.SortedUnique` | scripts/table_to_deltalake.py:184 | two strictly sorted lists with the same members are equal |
| `PyText.LexLessTotal` | scripts/table_to_deltalake.py:184 | the string order `sorted` uses is total on distinct strings |
| `PyText.LexLessTransitive` | scripts/table_to_deltalake.py:184 | that order is transitive |
| `Pipeline.ParseColumnList` | scripts/table_to_deltalake.py:74-81 | every name the comprehension returns is non-empty, has no surrounding whitespace and contains no comma |
| `Pipeline.ParseIsStrippedPieces` | scripts/table_to_deltalake.py:74-81 | for any setting, padded or not, the parsed list is exactly the stripped pieces between the commas with the empty ones removed, in their order |
| `Pipeline.KeepStripped` | scripts/table_to_deltalake.py:75 | keeping the non-empty stripped pieces returns no more names than pieces, each non-empty and stripped |
| `Pipeline.ParsedNamesAreClean` | scripts/table_to_deltalake.py:74-81 | every parsed column name is non-empty, has no surrounding whitespace and contains no comma |
| `Pipeline.ParseJoinRoundTrip` | scripts/table_to_deltalake.py:74-81 | clean names joined with commas parse back to the same list, in the same order |
| `Pipeline.ParseEmptyIffBlank` | scripts/table_to_deltalake.py:74-81 | a setting yields no columns exactly when it holds only whitespace and commas |
| `Pipeline.DefaultBloomColumns` | scripts/table_to_deltalake.py:78-81 | the default `"id"` gives the one column `id` |
| `Pipeline.DefaultZOrderColumns` | scripts/table_to_deltalake.py:74-75 | the default `"post_pt_root_id,id"` gives the two columns in that order |
| `Pipeline.DropFromSchema` | scripts/table_to_deltalake.py:236-238 | the result is no longer than the schema, and every column in it is a column of the schema not named in the drop list |
| `Pipeline.DropNames` | scripts/table_to_deltalake.py:236-238 | dropping leaves exactly the names not in `DROP_COLUMNS`, in their order; absent names cause no error |
| `Pipeline.DropGet` | scripts/table_to_deltalake.py:236-238 | a dropped name is gone, and every other name keeps its type |
| `Pipeline.PositionColumns` | scripts/table_to_deltalake.py:251 | every selected column is one of the columns and ends in `_pt_position` |
| `Pipeline.PositionColumnsSpec` | scripts/table_to_deltalake.py:247-251 | the position columns are exactly the remaining columns whose name ends in `_pt_position` |
| `Pipeline.Retype` | scripts/table_to_deltalake.py:253-257 | decoding keeps every column at its place under its name; the listed columns take the new type and the others keep theirs |
| `Pipeline.RetypeNames` | scripts/table_to_deltalake.py:253-257 | decoding the position columns keeps the column names and their order |
| `Pipeline.RetypeGet` | scripts/table_to_deltalake.py:253-257 | the decoded columns become `List(Int32)` and every other column keeps its type |
| `Pipeline.PartitionColumnName` | scripts/table_to_deltalake.py:273 | the partition column's name starts with the column's name and ends in `_partition`, with nothing in between |
| `Pipeline.PartitionColumnNameInjective` | scripts/table_to_deltalake.py:273 | two partition columns give the same `<col>_partition` name only when they are the same column |
| `Pipeline.DefaultPartitionColumnName` | scripts/table_to_deltalake.py:273 | the default partition column gives `post_pt_root_id_partition`, the column the query reads |
| `Pipeline.PlanSchema` | scripts/table_to_deltalake.py:236-282 | a failed plan reports the missing partition column; a planned table has the partition column `<col>_partition` of type `UInt16` |
| `Pipeline.PlanFailsIff` | scripts/table_to_deltalake.py:236-282 | the plan fails exactly when the partition column is not in the header or is one of `DROP_COLUMNS` |
| `Pipeline.PlanTypes` | scripts/table_to_deltalake.py:236-282 | in the written table, the partition column is `UInt16` and the kept position columns are `List(Int32)`; dropped columns are gone and every other column has its header type |
| `Pipeline.PlanNames` | scripts/table_to_deltalake.py:236-282 | the written columns are the kept header columns in order, followed by the partition column unless the header already had that name |
| `Pipeline.BloomWriterProperties` | scripts/table_to_deltalake.py:327-337 | the properties are `None` exactly when the bloom column list is empty; otherwise a column has properties exactly when it is listed |
| `Pipeline.BloomWriterPropertiesSpec` | scripts/table_to_deltalake.py:327-337 | the properties are `None` exactly when the bloom column list is empty; otherwise their keys are exactly the listed columns, each with the same enabled filter and `fpp` |
| `Pipeline.BloomFromSetting` | scripts/table_to_deltalake.py:327-337 | from the raw setting: `None` exactly when it holds only whitespace and commas; otherwise every parsed column has a filter |
| `ChunkWriter.Slice` | scripts/table_to_deltalake.py:290 | `slice(start, len)` gives exactly `min(len, rows - start)` rows, none from the end of the table on, and they are the rows from `start` on, in order |
| `ChunkWriter.ChunksFrom` | scripts/table_to_deltalake.py:287-304 | from any offset, the loop writes at least one slice and none longer than the chunk size |
| `ChunkWriter.Chunks` | scripts/table_to_deltalake.py:284-304 | the slices the loop writes from row 0: at least one, none longer than the chunk size |
| `ChunkWriter.DeltaTableLog.constructor` | scripts/table_to_deltalake.py:299-304 | the destination starts with nothing appended |
| `ChunkWriter.DeltaTableLog.WriteDeltalake` | scripts/table_to_deltalake.py:299-304 | an append records exactly the chunk, after everything appended before |
| `ChunkWriter.WriteInChunks` | scripts/table_to_deltalake.py:284-304 | the loop appends exactly the slices `Chunks(rows, n)`, in order, after what was there |
| `ChunkWriter.FlattenChunks` | scripts/table_to_deltalake.py:284-304 | with a positive chunk size the written chunks put together give the whole table, with nothing lost, repeated or reordered |
| `ChunkWriter.ZeroChunkSizeWritesNothing` | scripts/table_to_deltalake.py:284-304 | a chunk size of 0 writes one empty chunk and none of the rows |
| `ChunkWriter.ChunkAt` | scripts/table_to_deltalake.py:287-297 | the k-th write is the slice of rows `[k·n, k·n + n)` |
| `ChunkWriter.ChunksBounded` | scripts/table_to_deltalake.py:290 | no written chunk is longer than the chunk size |
| `ChunkWriter.LastChunkEmpty` | scripts/table_to_deltalake.py:293-304 | the loop writes at least once; the last write is the empty slice and every earlier one is not empty |
| `ChunkWriter.ChunkCount` | scripts/table_to_deltalake.py:284-304 | with a positive chunk size the loop writes `ceil(rows / n) + 1` times |
| `ChunkWriter.DefaultChunkingExample` | scripts/table_to_deltalake.py:284-304 | with the default 50,000,000 rows per chunk, a table of 120 million rows takes 4 writes, and the third holds 20 million rows |
| `SynapseQuery.ScalarPreIdIsSingletonList` | examples/query_synapses.py:59-61 | passing one `int` as `pre_ids` gives the same result, or the same error, as passing the list holding only it |
| `SynapseQuery.ScalarPostIdIsSingletonList` | examples/query_synapses.py:63-64 | passing one `int` as `post_ids` gives the same result, or the same error, as passing the list holding only it |
| `SynapseQuery.DefaultQueryRemovesAutapses` | examples/query_synapses.py:47-57 | called with its defaults, the query succeeds exactly when the table has both root-id columns, and then returns the rows whose two ids are non-null and different, in table order |
| `SynapseQuery.Query` | examples/query_synapses.py:47-91 | a short box corner raises `IndexError`; any other failure names a column the filters need and the table lacks; a result holds only rows of the table, none more often than in the table |
| `SynapseQuery.ApplyFilters` | examples/query_synapses.py:54-91 | the filter chain only removes rows: its result is a sub-multiset of its input |
| `SynapseQuery.AutapseStage` | examples/query_synapses.py:56-57 | only removes rows, and with `remove_autapses` every kept row has non-null, different post and pre ids |
| `SynapseQuery.PreStage` | examples/query_synapses.py:59-61 | only removes rows, and given `pre_ids` every kept row's pre id is in the normalised list |
| `SynapseQuery.PostStage` | examples/query_synapses.py:63-75 | only removes rows, and given `post_ids` every kept row passes both `is_in` filters and has a match in the join index |
| `SynapseQuery.BoxStage` | examples/query_synapses.py:77-89 | only removes rows, and given a box every kept row lies in it on all three axes, bounds included |
| `SynapseQuery.PartitionList` | examples/query_synapses.py:65 | the partition list lines up with the post ids, each id taken modulo 1024 |
| `SynapseQuery.JoinIndex` | examples/query_synapses.py:66-68 | the join index pairs each post id with that id modulo 1024 |
| `SynapseQuery.FirstMissing` | examples/query_synapses.py:54-91 | no column is reported exactly when the table has every needed column; a reported column is needed and missing |
| `SynapseQuery.ApplyFiltersIsFilter` | examples/query_synapses.py:54-91 | the chain of conditional filters and the semi-join is one order-preserving filter by the conjunction of the requested conditions |
| `SynapseQuery.QueryFailsIff` | examples/query_synapses.py:54-91 | the query fails exactly when a corner has fewer than three entries or a needed column is missing; the short corner is reported first |
| `SynapseQuery.QueryReturnsMatches` | examples/query_synapses.py:54-91 | a row is returned exactly when it is in the table and meets every requested condition; nothing is duplicated |
| `SynapseQuery.NoAutapsesReturned` | examples/query_synapses.py:56-57 | with `remove_autapses`, every returned row has non-null, different post and pre ids |
| `SynapseQuery.PreIdsRespected` | examples/query_synapses.py:59-61 | given `pre_ids`, every returned row's pre id is listed |
| `SynapseQuery.PostIdsRespected` | examples/query_synapses.py:63-75 | given `post_ids`, every returned row's post id is listed, and its partition is in the partition list and equals the id modulo 1024 |
| `SynapseQuery.PostStageIff` | examples/query_synapses.py:65-75 | the post-id filter and the semi-join keep a row exactly when its post id is listed and its partition is that id modulo 1024 |
| `SynapseQuery.SemiJoinIsNeeded` | examples/query_synapses.py:65-75 | for any id list: a row with a listed post id whose partition is in the partition list but is not its own id modulo 1024 passes the `is_in` filter and is removed only by the semi-join |
| `SynapseQuery.SemiJoinExample` | examples/query_synapses.py:65-75 | such rows exist: post id 1 stored with partition 2, queried with ids `[1, 2]` |
| `SynapseQuery.QueryIsSubset` | examples/query_synapses.py:54-91 | the result is no longer than the table and holds only the table's rows |
| `SynapseQuery.NoFiltersReturnsTable` | examples/query_synapses.py:54-91 | with no ids, no box and `remove_autapses=False`, the whole table comes back in order, whatever its columns |
| `SynapseQuery.BoxRespected` | examples/query_synapses.py:77-89 | given a bounding box, every returned row lies within it on each of the three axes, bounds included |
| `SynapseQuery.StoredPartition` | scripts/table_to_deltalake.py:216-226 | the partition the writer stores is 0 for id 0 and `id % n` for 1 to 2^16 partitions |
| `SynapseQuery.FindsWrittenRowIff` | examples/query_synapses.py:63-75 | the post-id stage finds a row the writer stored exactly when its stored partition is the id modulo 1024 |
| `SynapseQuery.PrefilterAgreesOnlyAt1024` | examples/query_synapses.py:65 | for a table written with 1 to 2^16 partitions, every id's stored partition is the one the query looks in exactly when the table has 1024 partitions |
| `SynapseQuery.DefaultPartitionsMissRow` | examples/query_synapses.py:63-75 | with the writer's default of 64 partitions, querying post id 64 does not return the stored synapse with post id 64 |
| `SynapseQuery.PartitionsOf1024FindRow` | examples/query_synapses.py:63-75 | with 1024 partitions, querying a stored row's post id returns that row |

## Left out

- WKB point decoding (`decoder`) is a call into shapely's WKB parser followed by a float-to-`int32` cast. Only its result type is modelled: a decoded column becomes `List(Int32)`.
- Downloading, unzipping and deleting files, `Path.stat` and `mkdir` are left out. So are the environment reads, the timing and the `print` calls. Configuration values are parameters or named constants holding the defaults.
- Polars and Delta Lake internals are left out: CSV scanning, `collect`, the Delta log, `DeltaTable`, `TableOptimizer.z_order` and `vacuum`. An append is modelled only as recording the chunk. `z_order` is called whether or not bloom columns are given, and its clustering is not modelled.
- The seg-id remap (`decode_segid` through CAVEclient and CloudVolume) is a remote service. It is an optional, arbitrary function parameter of `IdPartition`, and the script always passes none.
- The query's CAVEclient materialisation calls, its test data and the `group_by` aggregation at the end of the example are left out.
- `lower()` is modelled on ASCII letters only; Python lowers every Unicode letter.
- `repr` is modelled for the quote choice and for escaping the backslash, the quote, `\n`, `\r` and `\t`. Other non-printable characters are not escaped in the model.
- `np.uint16` of an out-of-range value wraps modulo 2^16, as NumPy 1.x does. NumPy 2 raises `OverflowError` instead.
- `fpp` is a `real`. Parsing it from the environment with `float()` is left out.
- The chunk size is a natural number. A negative `N_ROWS_PER_CHUNK` is left out.
- The query returns rows in table order. The streaming engine does not promise an order.
- When several needed columns are missing, Polars does not say which one it reports. The model reports the first in the order the filters read them.
- The query model does not check that the semi-join's key types are compatible: the stored partition is `UInt16` and the join index holds Python ints.
- `SynapseQuery.NormaliseIds`: an id argument is either one `int` or a list of them. A scalar that is not a Python `int`, such as a `numpy.int64`, makes `list(...)` raise `TypeError`, and that is not modelled. Neither is a `bool`, which Python counts as an `int`.
- Ids and bounding-box corners are integers, and the box columns are integer columns. Float bounds are not modelled. A `bounding_box` that does not unpack into two corners is not modelled either.
