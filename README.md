# pglite embedding layer, modelled in Dafny

pglite runs PostgreSQL inside a Rust process. This project models the part
of that repository that sits between the engine and its host, and proves
properties of it:

- **Filesystem shim** (`fs_shim.dfy`). `pglite_mkdir`, `pglite_opendir`,
  `pglite_stat` and `pglite_open` do five things:
  - join `DataDir` and the engine's path;
  - trace the joined path at DEBUG1;
  - clear `errno` and run the real primitive on the joined path;
  - free the joined path, saving `errno` around the free;
  - return what the primitive returned.

  The primitives, `elog` and `pfree` are oracles passed as parameters. The
  backend state they touch (`errno`, the event history, the buffer counter)
  is a class.
- **Signal-mask stubs** (`pqsignal.dfy`). The three thread-local signal
  sets, `pqinitmask` and `pqsigsetmask`.
- **Process-title stubs** (`ps_status.dfy`).
- **Source rewriters**:
  - `rewrite_globals.dfy` models the build tool's `apply`,
    `condense_rewrites`, the chunk arithmetic of `do_parallel`, and the
    `__thread` insertion rule of `handle_var_decl`, `is_decl_constant` and
    `find_thread_kw_insert_loc`.
  - `rewrite_source_globals.dfy` models the older tool's `apply`, exactly
    as written, and the insertion rule of its `do_file`. Its
    `condense_rewrites` is the same code as the build tool's, so it reuses
    that model.
- **Log bridge** (`log.dfy`). This covers:
  - how engine severities map to `log` levels;
  - line-number handling;
  - the module-path memo;
  - the records `pglite_log` and `pglite_log_raw_` hand to the logger.
- **`Connection::open`** (`connection.dfy`). The data directory must be
  UTF-8, then free of NUL bytes. A valid path reaches `SetDataDir` byte for
  byte.

Shared pieces:
- `common.dfy` holds bytes, C strings, `Option`, `Result` and the engine's
  severity codes.
- `utf8.dfy` holds UTF-8 as Rust's standard library checks it
  (`str::from_utf8`) and repairs it (`from_utf8_lossy`). It proves that
  decoding and encoding are inverse to each other.

Where the system's documentation and its code differ, the model follows
the code:
- The three signal sets are `__thread` variables, one set of three per
  thread, not process-wide values.
- `pqsigsetmask` has no `return` statement. What its caller receives is
  therefore not "a code meaning accepted": the model returns a value the
  caller cannot choose (`garbage`).

The severity codes are those of PostgreSQL's `utils/elog.h` in releases 14
to 16, where DEBUG5 is 10 and PANIC is 23. That header is not part of this
model.

## Model

| member | source | states |
|---|---|---|
| FsShim.ResolvePath | pglite-sys/src/shim/fs.c:13 | the joined path is the data directory, one `/`, then the engine's path, with nothing dropped or normalised |
| FsShim.Contained | pglite-sys/src/shim/fs.c:13 | a path without `..` segments names a place inside the data directory, lexically |
| FsShim.DotDotEscapes | pglite-sys/src/shim/fs.c:13 | the join does not normalise: with data directory `/d`, the path `..` names the root |
| FsShim.WalkDescends | pglite-sys/src/shim/fs.c:13 | resolving segments none of which is `..` only ever descends from where it starts |
| FsShim.CallsBalanced | pglite-sys/src/shim/fs.c:9-76 | over any history of shim calls, there is one trace per primitive and one free per allocation, and each call makes four events |
| FsShim.BlockCounts | pglite-sys/src/shim/fs.c:13-20 | one shim call allocates once, traces once, runs one primitive and frees once |
| FsShim.Backend.FreeKeepingErrno | pglite-sys/src/shim/fs.c:19-21 | `errno` after the free is what the primitive left, whatever `pfree` writes |
| FsShim.Backend.Psprintf | pglite-sys/src/shim/fs.c:13 | a fresh buffer holding the joined path, recorded as an allocation |
| FsShim.Backend.PgliteMkdir | pglite-sys/src/shim/fs.c:9-24 | returns `mkdir`'s result on the joined path; `errno` is 0 unless `mkdir` set it; the call adds exactly its allocation, trace, primitive and free, in that order |
| FsShim.Backend.PgliteOpendir | pglite-sys/src/shim/fs.c:26-42 | the same as `pglite_mkdir`, for `opendir` and its stream |
| FsShim.Backend.PgliteStat | pglite-sys/src/shim/fs.c:44-59 | the same as `pglite_mkdir`, for `stat`; the caller's buffer changes only as `stat` fills it |
| FsShim.Backend.PgliteOpen | pglite-sys/src/shim/fs.c:61-76 | the same as `pglite_mkdir`, for `open` with the caller's flags and mode |
| PqSignal.ThreadSignals.constructor | pglite-sys/src/shim/pqsignal.c:7-10 | each thread's three signal sets start empty (zeroed thread-local storage) |
| PqSignal.ThreadSignals.PqInitMask | pglite-sys/src/shim/pqsignal.c:12-14 | changes no signal set |
| PqSignal.ThreadSignals.PqSigSetMask | pglite-sys/src/shim/pqsignal.c:16-19 | records one `fprintf` call to standard error, with its format and the mask as its argument; masks nothing; returns no value the caller controls |
| PsStatus.SavePsDisplayArgs | pglite-sys/src/shim/ps_status.rs:4-9 | `argv` comes back untouched, whatever `argc` is |
| PsStatus.PsDisplay.InitPsDisplay | pglite-sys/src/shim/ps_status.rs:12-14 | no effect |
| PsStatus.PsDisplay.SetPsDisplay | pglite-sys/src/shim/ps_status.rs:17-19 | no effect |
| PsStatus.PsDisplay.GetPsDisplay | pglite-sys/src/shim/ps_status.rs:22-27 | stores 0 in `*displen` and returns null |
| RewriteGlobals.Apply | pglite-buildtools/src/rewrite_globals.rs:138-150 | does not panic exactly when each slice is legal; the result is the source with each range replaced by its text; no rewrites give the source back |
| RewriteGlobals.SpliceLength | pglite-buildtools/src/rewrite_globals.rs:138-150 | the output length is the source length plus, for each rewrite, its text length minus its replaced length |
| RewriteGlobals.SpliceStep | pglite-buildtools/src/rewrite_globals.rs:143-148 | one turn of the loop: the slice up to the rewrite must be legal, then its text, then the rest from the end of its range |
| RewriteGlobals.SpliceOneInsertion | pglite-buildtools/src/rewrite_globals.rs:138-150 | one insertion on a character boundary always applies, putting its text between the bytes before and after it |
| RewriteGlobals.SpliceOwnText | pglite-buildtools/src/rewrite_globals.rs:138-150 | replacing every range with its own bytes gives the source back |
| RewriteGlobals.FitsIffOrdered | pglite-buildtools/src/rewrite_globals.rs:143-148 | `apply` does not panic exactly when the rewrites are sorted, do not overlap, and cut the source inside it at character boundaries |
| RewriteGlobals.FitsFromIff | pglite-buildtools/src/rewrite_globals.rs:143-148 | the same, from any cursor on a character boundary |
| RewriteGlobals.FitsFromBounds | pglite-buildtools/src/rewrite_globals.rs:143-148 | a cursor from which `apply` can run lies on a character boundary inside the source |
| RewriteGlobals.GroupHolds | pglite-buildtools/src/rewrite_globals.rs:174-186 | the grouping holds exactly the substitutions asked for, under their path and offset, and has no empty entries |
| RewriteGlobals.SortedKeys | pglite-buildtools/src/rewrite_globals.rs:191 | the offsets a path's `BTreeMap` yields are its keys |
| RewriteGlobals.SortedKeysOrder | pglite-buildtools/src/rewrite_globals.rs:191 | every key is yielded, in strictly increasing order |
| RewriteGlobals.Least | pglite-buildtools/src/rewrite_globals.rs:191 | the first key a `BTreeMap` yields is its smallest |
| RewriteGlobals.Push | pglite-buildtools/src/rewrite_globals.rs:204-212 | `entry(path).or_default().push(rw)` appends `rw` to that path's list and leaves every other path alone |
| RewriteGlobals.Condense | pglite-buildtools/src/rewrite_globals.rs:165-219 | the error exactly when some path has two different substitutions at one offset; otherwise exactly the input paths, each with one rewrite per offset in increasing order |
| RewriteGlobals.CondensePath | pglite-buildtools/src/rewrite_globals.rs:190-215 | one path's turn: a conflict at any of its offsets makes the result an error for good; otherwise it adds the path's row and keeps the rows already there |
| RewriteGlobals.CondenseErrIff | pglite-buildtools/src/rewrite_globals.rs:193-200 | condensing fails exactly when two input rewrites at the same path and offset differ in length or text |
| RewriteGlobals.RowSorted | pglite-buildtools/src/rewrite_globals.rs:190-212 | a condensed row lists strictly increasing offsets |
| RewriteGlobals.GroupPaths | pglite-buildtools/src/rewrite_globals.rs:176-186 | the grouped paths are exactly the input paths |
| RewriteGlobals.RowExact | pglite-buildtools/src/rewrite_globals.rs:176-212 | a path's row holds exactly the rewrites asked for that path; identical requests appear once |
| RewriteGlobals.InsertionsDoNotOverlap | pglite-buildtools/src/rewrite_globals.rs:176-212 | condensed zero-length rewrites never overlap |
| RewriteGlobals.CondensedInsertionsApply | pglite-buildtools/src/rewrite_globals.rs:138-212 | a condensed row of insertions that each lie in the source on a character boundary can be applied without a panic |
| RewriteGlobals.ChunkSize | pglite-buildtools/src/rewrite_globals.rs:99-100 | the chunk size never exceeds the number of sources |
| RewriteGlobals.ChunkSizeIsCeiling | pglite-buildtools/src/rewrite_globals.rs:99-100 | the chunk size is the ceiling of sources / cpus, and 0 for no sources |
| RewriteGlobals.ChunksCover | pglite-buildtools/src/rewrite_globals.rs:102 | the chunks are non-empty, at most the chunk size long, and concatenate to the input |
| RewriteGlobals.ChunksCount | pglite-buildtools/src/rewrite_globals.rs:102 | there are ceiling(n / size) chunks |
| RewriteGlobals.ParallelChunks | pglite-buildtools/src/rewrite_globals.rs:98-135 | an empty source list makes `chunks(0)` panic; otherwise at most `ncpus` non-empty chunks whose concatenation is the source list, in order |
| RewriteGlobals.IsDeclConstant | pglite-buildtools/src/rewrite_globals.rs:330-350 | an error exactly when the declaration has no type; otherwise true exactly for const-qualified types and arrays of const elements |
| RewriteGlobals.KeywordLen | pglite-buildtools/src/rewrite_globals.rs:372-374 | the length of the qualifier keyword a text starts with, 0 when there is none |
| RewriteGlobals.QualifierRun | pglite-buildtools/src/rewrite_globals.rs:372-377 | where the match of the leading-qualifier pattern (whitespace and the keywords `const`, `static`, `extern`, `NON_EXEC_STATIC`) ends, never past the text |
| RewriteGlobals.QualifierRunMatches | pglite-buildtools/src/rewrite_globals.rs:372-377 | the run is made of whitespace and qualifier keywords, and stops where neither follows |
| RewriteGlobals.QualifierRunLongest | pglite-buildtools/src/rewrite_globals.rs:372-377 | no longer prefix is made of qualifiers, so the run is the regex's match |
| RewriteGlobals.NoWordBoundaries | pglite-buildtools/src/rewrite_globals.rs:373 | the pattern has no word boundary: in `constant int x;` the `const` of `constant` counts as a qualifier |
| RewriteGlobals.InsertLoc | pglite-buildtools/src/rewrite_globals.rs:352-384 | fails exactly when the declaration has no source text; otherwise the offset lies within the declaration's text |
| RewriteGlobals.DeclRewrites | pglite-buildtools/src/rewrite_globals.rs:297-324 | fails exactly when there is no type, or when a non-constant has no source text; otherwise at most one rewrite, a zero-length `__thread ` insertion in the declaration's own file |
| RewriteGlobals.ConstantsUntouched | pglite-buildtools/src/rewrite_globals.rs:297-301 | a constant declaration produces no rewrite |
| RewriteGlobals.OthersGetOneInsertion | pglite-buildtools/src/rewrite_globals.rs:311-384 | any other declaration with source text gets one zero-length `__thread ` insertion, in its own file, at the byte offset just after its leading qualifiers |
| RewriteGlobals.InsertionAfterQualifiers | pglite-buildtools/src/rewrite_globals.rs:382-384 | applying that insertion to the declaration's text puts `__thread ` between the qualifiers and the rest, on a character boundary |
| RewriteGlobals.ThreadInsertionsNeverConflict | pglite-buildtools/src/rewrite_globals.rs:314-321 | rewrites that are all the `__thread ` insertion never make `condense_rewrites` fail |
| RewriteGlobals.RewriteVec.HandleVarDecl | pglite-buildtools/src/rewrite_globals.rs:297-324 | fails exactly when the declaration has no type, or is not constant and has no source text, and pushes nothing then; otherwise it appends the declaration's rewrites |
| RewriteSourceGlobals.Apply | pglite-manipulate/src/rewrite_source_globals.rs:41-53 | does not panic exactly when each slice from the cursor, moved on by lengths only, is legal; the result is what that loop emits plus the rest of the source |
| RewriteSourceGlobals.PiecesAppend | pglite-manipulate/src/rewrite_source_globals.rs:45-49 | running the loop over two lists in turn is running it over their concatenation |
| RewriteSourceGlobals.PiecesFitIff | pglite-manipulate/src/rewrite_source_globals.rs:46-47 | the loop does not panic exactly when each rewrite starts at or after the sum of the lengths before it, on character boundaries |
| RewriteSourceGlobals.PiecesFitCuts | pglite-manipulate/src/rewrite_source_globals.rs:46-47 | the first direction of that equivalence |
| RewriteSourceGlobals.CutsPiecesFit | pglite-manipulate/src/rewrite_source_globals.rs:46-47 | the second direction of that equivalence |
| RewriteSourceGlobals.InsertionsRestartAtZero | pglite-manipulate/src/rewrite_source_globals.rs:45-51 | with insertions only, the cursor stays at 0, so each text is preceded by the whole source up to its offset |
| RewriteSourceGlobals.AsWrittenDuplicatesPrefix | pglite-manipulate/src/rewrite_source_globals.rs:45-51 | one insertion at `k` gives `source[..k] + text + source`, where the build tool's `apply` gives `source[..k] + text + source[k..]` |
| RewriteSourceGlobals.AsWrittenCounterexample | pglite-manipulate/src/rewrite_source_globals.rs:45-51 | inserting `X` at 1 in `ab` gives `aXab`, not `aXb` |
| RewriteSourceGlobals.NodeRewrites | pglite-manipulate/src/rewrite_source_globals.rs:165-198 | one rewrite for a considered variable declaration and none for any other entity; a panic only for an entity without a spelling file or for a considered one |
| RewriteSourceGlobals.FileRewrites | pglite-manipulate/src/rewrite_source_globals.rs:164-201 | never more rewrites than visited entities |
| RewriteSourceGlobals.DoFile | pglite-manipulate/src/rewrite_source_globals.rs:156-204 | the rewrites for the visited entities, in visiting order; none when an `unwrap` panics |
| RewriteSourceGlobals.PanicSticks | pglite-manipulate/src/rewrite_source_globals.rs:165-201 | once an entity panics, the whole file does |
| RewriteSourceGlobals.DoFileOutcome | pglite-manipulate/src/rewrite_source_globals.rs:165-201 | `do_file` panics exactly when some entity is spelled at a location without a file, or is a considered declaration whose range does not start in a file; otherwise the result is exactly the start insertions of the considered declarations, one each, in visiting order |
| RewriteSourceGlobals.NodeOutcome | pglite-manipulate/src/rewrite_source_globals.rs:165-198 | one entity panics exactly in those two cases; otherwise it pushes its start insertion if it is a considered declaration, and nothing else |
| RewriteSourceGlobals.OneInsertionPerDecl | pglite-manipulate/src/rewrite_source_globals.rs:165-201 | the result is exactly the considered declarations' start insertions, in visiting order, so two declarations sharing a range start give two identical insertions; each is a zero-length `__thread ` insertion, constants included, and there are as many as considered declarations |
| RewriteSourceGlobals.NeverConflicts | pglite-manipulate/src/rewrite_source_globals.rs:86-195 | the rewrites `do_file` returns never make `condense_rewrites` fail |
| Log.LevelOf | pglite-sys/src/log.rs:116-133 | a level exists only for severities from DEBUG5 to PANIC |
| Log.LogLine | pglite-sys/src/log.rs:21-24 | a kept line number is positive and unchanged |
| Log.RawLine | pglite-sys/src/log.rs:99 | a kept line number is unchanged |
| Log.OptCStrStatic | pglite-sys/src/log.rs:70-76 | a string is returned exactly for a non-null pointer to valid UTF-8; it is the decoding of the bytes, and its encoding is those bytes |
| Log.OptCStr | pglite-sys/src/log.rs:78-84 | a string is returned exactly for a non-null pointer, and it is the decoded bytes when they are UTF-8 |
| Log.LogRecord | pglite-sys/src/log.rs:11-40 | the record always names a module; a line, when present, is positive; the file is present exactly when the file name is non-null and valid UTF-8, and is then its decoding, byte for byte |
| Log.RawRecord | pglite-sys/src/log.rs:94-111 | the record is at Error; a module, when present, starts with `pglite_sys::` and comes from a non-null function name; the file is as for `pglite_log` |
| Log.ToU32 | pglite-sys/src/log.rs:117 | `u32::try_from` fails exactly for negative values and otherwise keeps the value |
| Log.LevelDefinedIff | pglite-sys/src/log.rs:116-133 | exactly the severities from DEBUG5 to PANIC have a level |
| Log.LevelMonotone | pglite-sys/src/log.rs:116-133 | a more severe report never gets a less severe level |
| Log.LevelIsOnto | pglite-sys/src/log.rs:116-133 | every level is reached, and the severities reaching it form one interval |
| Log.LineNumbers | pglite-sys/src/log.rs:21-99 | `pglite_log` keeps exactly the positive line numbers; `pglite_log_raw_` also keeps 0; a kept number is unchanged |
| Log.ModNameInjective | pglite-sys/src/log.rs:61 | distinct function names get distinct module paths |
| Log.LogLevel | pglite-sys/src/log.rs:11-13 | an unknown or negative severity is logged as an error, a known one at its level; so the level is Error exactly below DEBUG5 or from ERROR up |
| Log.ModulePaths | pglite-sys/src/log.rs:26-101 | `pglite_log` names `pglite_sys::` plus the function's name when it is UTF-8, and `pglite_sys` otherwise; `pglite_log_raw_` names no module in that case |
| Log.MessagePreserved | pglite-sys/src/log.rs:17-95 | a UTF-8 message reaches the logger unchanged; a null one is logged as "" |
| Log.Bridge.ModNameForFuncName | pglite-sys/src/log.rs:45-68 | returns `pglite_sys::` plus the name; the memo only grows, and a name already present changes nothing |
| Log.Bridge.PgliteLog | pglite-sys/src/log.rs:6-43 | hands the logger exactly one record, with the level, message, backend, module path, file and line as above |
| Log.Bridge.PgliteLogRaw | pglite-sys/src/log.rs:86-114 | hands the logger exactly one record, always at Error |
| Connection.CStringNew | pglite/src/lib.rs:20-21 | `CString::new` fails exactly when the bytes hold a NUL, and otherwise keeps them |
| Connection.Validate | pglite/src/lib.rs:16-21 | `PathNameNotUtf8` exactly when the path is not UTF-8; a passed-on string is non-null and holds no NUL byte |
| Connection.ValidateOutcome | pglite/src/lib.rs:16-21 | not UTF-8 gives `PathNameNotUtf8`, even with a NUL byte; UTF-8 with a NUL gives `PathNameContainsNul`; otherwise the path's own bytes are passed on |
| Connection.AsciiPathOpens | pglite/src/lib.rs:16-21 | a path of bytes from 1 to 0x7F always opens |
| Connection.Engine.Open | pglite/src/lib.rs:16-31 | fails exactly as validation does and changes nothing then; otherwise the engine is started and `SetDataDir` (reached through `db::bootstrap::main`) receives the path byte for byte |
| Utf8.Decode | pglite/src/lib.rs:17 | a decoded text has no more characters than the input has bytes |
| Utf8.Lossy | pglite-sys/src/log.rs:95 | the repaired text has no more characters than the input has bytes |
| Utf8.DecodeEncode | pglite/src/lib.rs:17 | every text survives encoding then `str::from_utf8` |
| Utf8.EncodeDecode | pglite/src/lib.rs:17-20 | bytes `str::from_utf8` accepts are the encoding of what it returns |
| Utf8.LossyOfValid | pglite-sys/src/log.rs:78-95 | lossy decoding changes nothing in valid UTF-8 |
| Utf8.DecodeAscii | pglite/src/lib.rs:17 | bytes below 0x80 decode one to one |

## Left out

- The clang side of both rewriters is not modelled: parsing, `visit_children` and the entity queries. Each visited entity is a value holding what those queries return.
- `visit_node` of the build tool is not modelled: the choice of global or static variables, and the `no_such_variable` skip. `handle_var_decl` is modelled from its entry.
- `RewriteGlobals.QualifierRun`: the regex engine is not modelled. The pattern is modelled directly, with `\s` as Unicode White_Space, and the match is proved to be the longest one.
- `RewriteGlobals.InsertLoc`: the `u32` offset addition and the `usize` conversion are unbounded here, so their overflow panics are not modelled.
- `RewriteGlobals.Condense`: paths are compared as byte strings, while Rust's `PathBuf` compares by components, so `a//b`, `a/./b` and `a/b/` would be one key there and are distinct keys here.
- `RewriteGlobals.DeclRewrites`: the panics of `end.file.unwrap()` (rewrite_globals.rs:397), of the slice of the file contents (:407) and of `loc.file.unwrap()` (:315) are folded into the `NoSource` error rather than modelled as panics.
- `RewriteGlobals.IsDeclConstant`: the `unwrap` of an array's element type is taken to succeed.
- `RewriteGlobals.HandleVarDecl`: the "already has TLS kind" error log is not modelled, nor the panic of its `node.get_name().unwrap()` (rewrite_globals.rs:306) for a declaration that is already thread-local and has no name.
- `RewriteSourceGlobals.NodeRewrites`: `Path::starts_with` is a parameter (`underRoot`). The "already has TLS kind" error log is not modelled, nor the panic of its `node.get_name().unwrap()` (rewrite_source_globals.rs:179) for a declaration that is already thread-local and has no name.
- `RewriteSourceGlobals.DoFile`: a parse error of the translation unit is not modelled.
- `do_parallel` is not modelled beyond its chunk arithmetic: the worker processes, JSON exchange and exit status. `num_cpus` is a parameter of at least 1.
- The file reading and writing around `apply`, and all `slog` output, are I/O.
- `Connection.Engine.Open`: the `log::info!` the worker writes after the bootstrap (pglite/src/lib.rs:26) is I/O and is not modelled.
- `RewriteGlobals.Apply`: `rewrite.offset + rewrite.length` (rewrite_globals.rs:144) is unbounded here, so its `usize` overflow is not modelled.
- `RewriteSourceGlobals.Apply`: `cursor += rewrite.length` (rewrite_source_globals.rs:47) is unbounded here, so its `usize` overflow is not modelled.
- `FsShim`: the real `mkdir`, `opendir`, `stat` and `open`, `elog` and `pfree` are oracles passed as parameters. `psprintf`'s allocator is a counter.
- `FsShim.Backend.Psprintf`: `psprintf` raising `ereport(ERROR)` on out-of-memory and jumping out of the shim is not modelled; the allocation always succeeds.
- `PqSignal.ThreadSignals.PqSigSetMask`: what `%x` prints for a `sigset_t` argument is undefined in C, so the model records the call's format and argument, not the text written.
- `RewriteGlobals.SpliceFrom`, `RewriteGlobals.FitsFrom`, `RewriteSourceGlobals.Total`, `RewriteSourceGlobals.PiecesFit`, `RewriteSourceGlobals.Emitted`: these specification functions carry no `ensures` of their own; their meaning is stated by the lemmas in the table above.
- `Log.Bridge.PgliteLog`: the `Mutex` and its poisoning are concurrency, and the memo is single-threaded state. `logger.flush` is not modelled.
- `Log.ErrorData`: the severity codes are those of PostgreSQL 14 to 16's `utils/elog.h`, which is not part of this model.
- `Connection.Engine.Open`: the worker thread and its `join` are modelled inline. `thread_start`'s thread-local set-up is one flag. A panic in the worker is not modelled.
- The startup-mode override (`pglite_set_bootstrap_processing_mode`) is only declared in the repository, so there is nothing to model.

## Findings

| source | as written | input that shows it | evidently intended | confidence | as-written member | corrected member |
|---|---|---|---|---|---|---|
| pglite-manipulate/src/rewrite_source_globals.rs:47 | `cursor += rewrite.length` moves the cursor by the length alone, so with insertions it stays at 0 and the whole prefix is written again | source `ab`, one insertion of `X` at offset 1: the output is `aXab` | `cursor = rewrite.offset + rewrite.length`, as in the build tool's `apply`, giving `aXb` | not executed | RewriteSourceGlobals.AsWrittenCounterexample | RewriteGlobals.Apply |
