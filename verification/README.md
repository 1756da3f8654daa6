# Bigtable client and `cbt` tool: a Dafny model

This project models two parts of the Go Cloud Bigtable client.

1. **The client's row-key ranges, row reassembly and cell rules.**
   - Row-key ranges:
     - `prefixSuccessor` and `PrefixRange`.
     - `NewRange`, `InfiniteRange`, `SingleRow` and the zero `RowRange`.
     - The half-open, byte-wise order under which a range holds a key.
   - `chunkReader.process`, which folds `ReadRows` responses into rows. It emits a row at the commit chunk.
   - The `Row` and `ReadItem` data model, `Row.Key()`, `clearTimestamps` and the `byColumn` ordering.
   - The append and increment read-modify-write rules on a big-endian 8-byte counter.

2. **The pure text logic of the `cbt` command-line tool.**
   - How `loadConfig` reads `.cbtrc` lines.
   - How `doRead` parses `key=value` arguments and picks a range.
   - How `doSet` matches `family:column=value` arguments with the `setArg` pattern and splits off an optional `@timestamp`.
   - The `indent` template helper.
   - How `printRow` orders a row's cells and converts their times.

Go strings and byte slices are `Bytes`, a sequence of `char`s below 256, one per byte. Go's string `<` is the recursive byte-wise `Less` in `Text`. Every `log.Fatalf` of the tool becomes the error case of a `Result`.

The `RowRange` upper bound is an `Option`. Go's "" sentinel for "unbounded" maps to `None` through `LimitOf`, and back through `SentinelOf`.

The chunk assembler is a fold over a `Partial` record that holds the in-flight key and the cells gathered so far. A response that names no row key continues the in-flight row. A response for a different key starts a new row and discards the old partial cells.

The code of the client package itself (`bigtable.go`) is not part of this model. The client half is therefore modelled from the behaviour its tests fix in `bigtable/bigtable_test.go`, and each tested case is a lemma.

Modules, one file each:
- `Wrappers`: `Option` and `Result`.
- `Text`: bytes, order, `strings.Index`, `strings.Split`/`Join` and `strings.TrimSpace`.
- `Seqs`: folds over sequences.
- `Numbers`: int64 wrap-around, big-endian encoding and `strconv.ParseInt(s, 0, 64)`.
- `RowRanges`, `Rows`, `ChunkReader`, `ReadModifyWrite`: the client.
- `CbtConfig`, `CbtRead`, `CbtSet`, `CbtDoc`, `CbtPrint`: the tool.

## Model

| member | source | states |
|---|---|---|
| RowRanges.PrefixSuccessor | bigtable/bigtable_test.go:116-119 | There is no finite successor exactly when the prefix is all 0xff bytes (including ""). Otherwise the successor is the prefix with its trailing 0xff bytes dropped and the last remaining byte incremented. |
| RowRanges.PrefixSuccessorCases | bigtable/bigtable_test.go:116-133 | The four tested pairs: "" and "\xff" have no bound (limit ""), "x\xff" gives "y", and "\xfe" gives "\xff". This holds both for the successor and for `PrefixRange`'s limit. |
| RowRanges.PrefixSuccessorNotSentinel | bigtable/bigtable_test.go:127-133 | A bounded successor is never "", so the "" limit sentinel is unambiguous, and translating between the two representations loses nothing. |
| RowRanges.PrefixRangeContains | bigtable/bigtable_test.go:246-250 | `PrefixRange(p)` holds a key if and only if the key starts with `p`. |
| RowRanges.NewRangeContains | bigtable/bigtable_test.go:241-245 | `NewRange(b, e)` holds `x` if and only if `b <= x` and either `e` is "" or `x < e`. |
| RowRanges.InfiniteRangeContains | bigtable/bigtable_test.go:236-240 | `InfiniteRange(s)` holds `x` if and only if `s <= x`. |
| RowRanges.SingleRowContains | bigtable/bigtable_test.go:251-255 | `SingleRow(k)` holds `x` if and only if `x == k`. |
| RowRanges.AllRowsContains | bigtable/bigtable_test.go:231-235 | The zero range holds every key. |
| RowRanges.SelectMembers | bigtable/bigtable_test.go:263-288 | A scan of a range over a key list yields exactly the listed keys the range holds. |
| RowRanges.ReadAllCase | bigtable/bigtable_test.go:231-235 | The zero range selects all four test rows. |
| RowRanges.InfiniteRangeCase | bigtable/bigtable_test.go:236-240 | `InfiniteRange("tjefferson")` selects "tjefferson" and "wmckinley". |
| RowRanges.NewRangeCase | bigtable/bigtable_test.go:241-245 | `NewRange("gargamel", "hubbard")` selects only "gwashington". |
| RowRanges.PrefixRangeCase | bigtable/bigtable_test.go:246-250 | `PrefixRange("jad")` selects only "jadams". |
| RowRanges.SingleRowCase | bigtable/bigtable_test.go:251-255 | `SingleRow("wmckinley")` selects only "wmckinley". |
| ChunkReader.Process | bigtable/bigtable_test.go:92-104 | A response emits a row if and only if it carries a commit chunk; the assembler is then idle. The row's key is the response's key, or the in-flight key when the response names none. The emitted row holds only cells of that key, and without a commit that key becomes the in-flight key. |
| ChunkReader.EmptyKeyContinues | bigtable/bigtable_test.go:92-104 | A response with an empty row key is processed exactly as if it repeated the in-flight key: its chunks extend the row in flight. The tests always repeat the key, so this rule comes from the protocol rather than from these lines. |
| ChunkReader.KeylessCommit | bigtable/bigtable_test.go:92-104 | A commit-only response with no row key hands out the row in flight and leaves the assembler idle. |
| ChunkReader.KeylessCommitCase | bigtable/bigtable_test.go:61-104 | One cell for "row1", then a commit without a key: nothing, then the one-cell "row1" row. |
| ChunkReader.Run | bigtable/bigtable_test.go:96-104 | Over a stream, each response yields a row exactly when it carries a commit. |
| ChunkReader.ProcessAssembles | bigtable/bigtable_test.go:45-86 | The row a response completes, or leaves in flight, is the assembly of every family chunk sent for its key since the last commit; a keyless response counts for the in-flight key. A family is present exactly when it got a cell, and holds all its cells in arrival order. |
| ChunkReader.OneRowStreamAssembles | bigtable/bigtable_test.go:61-104 | In a one-row stream, every response before the commit yields no row. The committing response yields one row, of that key, assembled from all the stream's family chunks in order. |
| ChunkReader.DataChunkItems | bigtable/bigtable_test.go:34-36 | A one-cell chunk becomes one `ReadItem` with the row key, column "family:qualifier", and the timestamp and value unchanged. |
| ChunkReader.EmittedRowKey | bigtable/bigtable_test.go:101-102 | The `Key()` of an emitted row with cells is the committing response's row key, or the in-flight key when that response names none. |
| ChunkReader.SingleChunkCase | bigtable/bigtable_test.go:45-60 | The "single row single chunk" stream yields the expected one-cell row. |
| ChunkReader.MultipleChunksCase | bigtable/bigtable_test.go:61-86 | The "single row multiple chunks" stream yields nothing, nothing, then the two-cell row in arrival order. |
| Rows.ColumnNameRoundTrip | bigtable/bigtable_test.go:273 | The text after the first ':' of "family:qualifier" is the qualifier when the family has no ':'. |
| Rows.KeyOfRow | bigtable/bigtable_test.go:102 | A row with cells, all of one key, reports that key from `Key()`. |
| Rows.ClearTimestamps | bigtable/bigtable_test.go:346-352 | Every timestamp is 0, and the families, cell order, rows, columns and values are unchanged. |
| Rows.ClearTimestampsIdempotent | bigtable/bigtable_test.go:346-352 | Clearing twice is clearing once. |
| Rows.ClearTimestampsKeepsKey | bigtable/bigtable_test.go:332-333 | Clearing keeps every cell's row key and whether the row has cells. |
| Rows.InsertByColumn | bigtable/bigtable_test.go:340-344 | Inserting a cell into a column-sorted list keeps it sorted and adds exactly that cell. |
| Rows.SortByColumn | bigtable/bigtable_test.go:214-216 | The result is ordered by column and is a permutation of the input. |
| Rows.ReadRowCase | bigtable/bigtable_test.go:203-219 | The two cells of the "jadams" row sort to gwashington before tjefferson. |
| ReadModifyWrite.ApplyRule | bigtable/bigtable_test.go:296-305 | An append yields the old value, or "" for a missing cell, followed by the suffix. An increment of a missing cell yields the 8-byte encoding of the delta, and every successful increment yields 8 bytes. A rule fails if and only if it increments a present value that is not 8 bytes long. These lines only build the two kinds of rule; what a rule does to the cell, including the 8-byte failure, is the service's contract and is not visible in this source. |
| ReadModifyWrite.IncrementMissing | bigtable/bigtable_test.go:300-305 | Incrementing a missing cell starts the counter from 0: the result decodes to the delta. |
| ReadModifyWrite.AppendTwice | bigtable/bigtable_test.go:311-320 | Two appends are one append of the concatenation. |
| ReadModifyWrite.IncrementAdds | bigtable/bigtable_test.go:321-325 | Incrementing an 8-byte counter adds the delta to its decoded value, wrapping like int64. |
| ReadModifyWrite.CounterCase | bigtable/bigtable_test.go:306-326 | The tested sequence gives [0,0,0], then the 8-byte big-endian 17, then 25. |
| Numbers.Int64RoundTrip | bigtable/bigtable_test.go:318-324 | Decoding the 8-byte big-endian encoding of an int64 recovers it. |
| Numbers.Int64BytesRoundTrip | bigtable/bigtable_test.go:318-324 | Every 8-byte value is the encoding of its own decoding. |
| Numbers.ParseFormatInt | bigtable/cmd/cbt/cbt.go:516 | `ParseInt(s, 0, 64)` reads back every int64 written in decimal. |
| Numbers.ParseFormatOutOfRange | bigtable/cmd/cbt/cbt.go:516 | It rejects every decimal numeral outside the int64 range. |
| Numbers.ParseInt64Cases | bigtable/cmd/cbt/cbt.go:516 | The base-0 rules: signs, "0x" hex, leading-0 octal ("08" is refused), and no empty or partial numerals. |
| CbtConfig.SettingOf | bigtable/cmd/cbt/cbt.go:99-109 | A key names a setting if and only if it is one of "project", "zone", "cluster" or "creds". |
| CbtConfig.Set | bigtable/cmd/cbt/cbt.go:102-109 | Setting one value changes that setting and no other. |
| CbtConfig.ScanLines | bigtable/cmd/cbt/cbt.go:91-93 | No scanned line contains a newline. |
| CbtConfig.ScanTerminated | bigtable/cmd/cbt/cbt.go:91-93 | A newline-terminated text yields each of its lines, each without one trailing '\r'. |
| CbtConfig.ScanUnterminated | bigtable/cmd/cbt/cbt.go:91-93 | A text whose last line is not empty and has no newline yields that last line too, and every line loses one trailing '\r'. |
| CbtConfig.ScanCrLf | bigtable/cmd/cbt/cbt.go:91-93 | `x` "\r\n" `y`, with `y` unterminated, scans to exactly `x` and `y`. |
| CbtConfig.LoadUnterminated | bigtable/cmd/cbt/cbt.go:91-110 | A file holding one `name = value` line and no newline sets that setting and nothing else. |
| CbtConfig.ApplyLine | bigtable/cmd/cbt/cbt.go:93-110 | A line without '=' is a bad line. Otherwise the line is accepted if and only if its trimmed key is known, an unknown key is reported as such, and a known key gets the trimmed value while every other setting is unchanged. |
| CbtConfig.ApplyLinesConcat | bigtable/cmd/cbt/cbt.go:92-111 | Reading lines in two batches is reading them at once: later lines override earlier ones, and a bad line anywhere fails the file. |
| CbtConfig.ApplySettingLine | bigtable/cmd/cbt/cbt.go:93-110 | Reading the line `name = value` written for a setting sets exactly that setting to the value. |
| CbtConfig.ScanJoined | bigtable/cmd/cbt/cbt.go:91-93 | Scanning newline-terminated lines gives back those lines. |
| CbtConfig.FormatRoundTrip | bigtable/cmd/cbt/cbt.go:81-111 | Loading a file written from a configuration with storable values gives back that configuration, whatever the defaults. |
| CbtRead.KeyOf | bigtable/cmd/cbt/cbt.go:467-471 | An argument key is known if and only if it is "start", "limit" or "prefix". |
| CbtRead.SplitArg | bigtable/cmd/cbt/cbt.go:462-466 | An argument splits if and only if it holds '='. The key has no '=' and rejoining the parts gives the argument, so the value may hold '='. |
| CbtRead.ArgRoundTrip | bigtable/cmd/cbt/cbt.go:462-466 | Splitting `key=value` for a key without '=' gives back the key and value. |
| CbtRead.ParseArg | bigtable/cmd/cbt/cbt.go:461-472 | An argument is accepted if and only if it is `key=value` with a known key. A missing '=' and an unknown key are the respective errors, and a known key sets only its own entry. |
| CbtRead.ParseArgsOk | bigtable/cmd/cbt/cbt.go:461-473 | Parsing succeeds if and only if every argument is well formed. |
| CbtRead.ParseArgsLastWins | bigtable/cmd/cbt/cbt.go:461-473 | Each entry holds the value of the last argument naming it, or its earlier value if none does. |
| CbtRead.DoRead | bigtable/cmd/cbt/cbt.go:454-486 | No arguments is a usage error, and a bad argument's parse error is reported unchanged. The mixing error is raised if and only if parsing succeeds and a non-empty start or limit meets a non-empty prefix. Otherwise the command succeeds, and the plan reads the named table over the range that the parsed arguments select. |
| CbtRead.SelectRangeContains | bigtable/cmd/cbt/cbt.go:478-486 | The selected range holds a key as follows. With a prefix, exactly the keys with that prefix. Otherwise, the keys from start and below a non-empty limit. With nothing given, every key. |
| CbtRead.DoReadScans | bigtable/cmd/cbt/cbt.go:454-486 | In terms of the command line, `cbt read` scans the rows under the last `prefix=` value, or else the rows between the last `start=` and `limit=` values. |
| CbtRead.DoReadOne | bigtable/cmd/cbt/cbt.go:460-486 | One known `key=value` argument scans the range that value alone selects. |
| CbtRead.DoReadTwo | bigtable/cmd/cbt/cbt.go:460-486 | When the first argument turns the empty entries into `p1` and the second turns `p1` into `p2`, the two-argument command is refused for mixing if `p2` mixes. Otherwise it reads the range that `p2` selects. |
| CbtRead.DoReadRepeatedCase | bigtable/cmd/cbt/cbt.go:470-471 | `start=a start=b` reads `InfiniteRange("b")`: the later value of a repeated key wins. |
| CbtRead.DoReadStartLimitCase | bigtable/cmd/cbt/cbt.go:479-480 | `start=gargamel limit=hubbard` reads `NewRange("gargamel", "hubbard")`. |
| CbtRead.DoReadStartCase | bigtable/cmd/cbt/cbt.go:481-482 | `start=tjefferson` reads `InfiniteRange("tjefferson")`. |
| CbtRead.DoReadPrefixCase | bigtable/cmd/cbt/cbt.go:484-486 | `prefix=jad` reads `PrefixRange("jad")`. |
| CbtRead.DoReadMixedCase | bigtable/cmd/cbt/cbt.go:474-476 | `start=a prefix=b` is refused. |
| CbtRead.DoReadBadArgCase | bigtable/cmd/cbt/cbt.go:462-465 | An argument without '=' is refused. |
| CbtRead.DoReadUnknownKeyCase | bigtable/cmd/cbt/cbt.go:467-469 | An unknown key is refused. |
| CbtSet.MatchSetArg | bigtable/cmd/cbt/cbt.go:498 | A match gives a non-empty family without ':', a column without '=', and a value without a newline. |
| CbtSet.MatchSetArgFrom | bigtable/cmd/cbt/cbt.go:498 | The match of the argument is the pattern's match from its first byte that is not a ':'. From there the family runs to the next ':', the column to the next '=', and the value to the first newline (`MatchFrom`, `MatchColumn`). |
| CbtSet.MatchSetArgIff | bigtable/cmd/cbt/cbt.go:498 | The pattern matches if and only if the argument has a non-':' byte, later a ':', and later an '='. |
| CbtSet.MatchSetArgSkips | bigtable/cmd/cbt/cbt.go:498 | Leading ':' bytes are skipped, because the match may start anywhere. |
| CbtSet.MatchSetArgRoundTrip | bigtable/cmd/cbt/cbt.go:498 | Matching `family:column=value` gives back the three parts. |
| CbtSet.SplitTimestamp | bigtable/cmd/cbt/cbt.go:512-521 | The value is split if and only if it holds an '@' and the text after its last '@' parses as an int64. It is then cut at that '@' and the text parses to the timestamp. Otherwise it is kept whole and stamped "now". |
| CbtSet.SplitTimestampAt | bigtable/cmd/cbt/cbt.go:514-520 | `v@s`, where `s` has no '@' and parses to `n` in any base `ParseInt` accepts, splits into `v` and `n`. |
| CbtSet.SplitTimestampRoundTrip | bigtable/cmd/cbt/cbt.go:514-520 | `v@n` splits back into `v` and `n`, whatever '@' `v` holds. |
| CbtSet.SplitTimestampKeeps | bigtable/cmd/cbt/cbt.go:514-517 | A value with no '@', or whose text after the last '@' is not a number, is kept whole and stamped "now". |
| CbtSet.SetCellsSpec | bigtable/cmd/cbt/cbt.go:507-523 | Cell parsing succeeds if and only if every argument matches, and otherwise reports the first one that does not. Argument `i` becomes the cell of its match, stamped with the clock reading for `i`. |
| CbtSet.DoSet | bigtable/cmd/cbt/cbt.go:500-523 | Fewer than three arguments is a usage error. The plan names the table and row and has one cell per cell argument, and any other failure is a bad cell argument. |
| CbtSet.DoSetCells | bigtable/cmd/cbt/cbt.go:500-523 | `doSet` succeeds if and only if every cell argument matches, and each cell is its argument's match. |
| CbtSet.StampBaseCases | bigtable/cmd/cbt/cbt.go:516 | "v@0x11" (hexadecimal) and "v@021" (octal) both split into "v" stamped 17. |
| CbtSet.StampBadOctalCase | bigtable/cmd/cbt/cbt.go:516-520 | "v@08" does not parse, so the value is kept whole and stamped "now". |
| CbtSet.DoSetCase | bigtable/cmd/cbt/cbt.go:500-523 | `cbt set t r fam:col=val@17` writes one cell "fam:col" = "val" stamped 17. |
| CbtDoc.IndentReference | bigtable/cmd/cbt/cbt.go:337-343 | Indenting puts the indent before the text and after each of its newlines. |
| CbtDoc.IndentLines | bigtable/cmd/cbt/cbt.go:337-343 | With an indent free of newlines, the result has the lines of the original, each behind the indent. |
| CbtDoc.IndentCases | bigtable/cmd/cbt/cbt.go:337-343 | The empty text indents to the bare indent, and a two-line text is indented twice. |
| CbtPrint.SortedFamilies | bigtable/cmd/cbt/cbt.go:406-410 | The families are listed strictly ascending, and exactly the row's families are listed. |
| CbtPrint.InsertName | bigtable/cmd/cbt/cbt.go:406-410 | Inserting a new name into an ascending list keeps it strictly ascending and adds exactly that name. |
| CbtPrint.RowKey | bigtable/cmd/cbt/cbt.go:404 | The key printed is the first cell's key of some non-empty family, or "" for a row without cells. |
| CbtPrint.LayOut | bigtable/cmd/cbt/cbt.go:411-419 | Cells come family by family in ascending order, by column within a family. Each family's cells are a permutation of the row's, with times converted. |
| CbtPrint.PrintRow | bigtable/cmd/cbt/cbt.go:402-420 | The row key, then every cell of the row grouped by ascending family and ascending column, each with its time in nanoseconds. |
| CbtPrint.NanosExact | bigtable/cmd/cbt/cbt.go:415 | Within the int64 range, converting to nanoseconds multiplies by 1000 exactly, and dividing by 1000 gives the microseconds back. |
| CbtPrint.NanosCase | bigtable/cmd/cbt/cbt.go:415 | The test cell's timestamp converts to 1428382701000000000 nanoseconds. |
| Text.SplitJoin | bigtable/cmd/cbt/cbt.go:338-342 | Splitting undoes joining when no part contains the separator. |
| Text.TrimSpaceAround | bigtable/cmd/cbt/cbt.go:98 | Trimming removes exactly the white space around a trimmed text. |
| Text.TrimSpaceSpan | bigtable/cmd/cbt/cbt.go:98 | What trimming removes is white space on either side of what it keeps. |

## Left out

- The RPC layer is not modelled: the clients, `ReadRows`/`ReadRow`/`Apply`/`ApplyReadModifyWrite`, the `bttest` server and credentials. The model describes what the tool asks the table for (`ReadPlan`, `SetPlan`), not the calls.
- All I/O is left out: reading `$HOME/.cbtrc`, flags, and printing. `LoadConfig` takes the file's outcome as a value, and `PrintRow` returns what would be printed.
- `time.Format` and `%q` quoting of the printed cells are left out. `PrintRow` yields each cell's time in nanoseconds, the input to that formatting.
- The 64 KiB line limit of `bufio.Scanner` is not modelled.
- Reset chunks and streams with several rows are left out, because the tests leave them unexercised (bigtable/bigtable_test.go:87-89).
- ChunkReader.Process: the code of `chunkReader.process` is not part of this model. A response with an empty row key continues the in-flight row, as the ReadRows protocol lets a response omit a key it would repeat. The policy for a response naming another key (start afresh, discarding the partial row) is this model's choice.
- The `ColumnFilter` read test is left out: the filter is evaluated by the server.
- Numbers.ParseInt64 follows the base-0 rules of Go at the time of this code: sign, "0x", leading-0 octal and decimal. It has no '_' separators and no "0b"/"0o" prefixes.
- Text.TrimSpace removes ASCII white space only, not the other Unicode spaces.
- Rows.SortByColumn: Go's `sort.Sort` is not stable, so only sortedness and the permutation are promised. The order of cells with equal columns is not.
- Rows.Key is a ghost function, because Go picks the family by map iteration order. `CbtPrint.RowKey` is the executable counterpart, with the same non-deterministic promise.
- The `setArg` regular expression is modelled as a hand-written matcher for this one pattern, not a general engine.
- `bigtable.Now()` is the `clock` parameter of `DoSet`, read once per cell argument.
- ReadModifyWrite.IncrementAdds states a single increment only. Composing two increments under wrap-around is not stated.
- The range constructors and `prefixSuccessor` are modelled from the tests' expectations, because the client package that defines them is not part of this model.
