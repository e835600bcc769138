# p115strmhelpertest upload queue and utilities, in Dafny

This project models the core of the p115strmhelpertest media-server plugin.
The plugin watches local directories, queues new media files for upload to
115 cloud storage or for a local copy, and keeps STRM files in step with the
cloud library. The model covers these parts:

- **The upload queue table** (`UploadQueueTable`, class `UploadQueue`). Each
  detected file gets one row, which the single worker moves from pending to
  processing and then to completed, failed, or pending again for a retry.
  File paths are unique over the whole table.
- **The upload history table** (`UploadHistoryTable`, class `UploadHistory`).
  It holds one record per finished transfer, keyed by the fingerprint
  `"{size}_{int(mtime)}"` together with the size. Records older than a
  retention period can be cleaned up.
- **The queue processor** (`Processor`, class `UploadQueueProcessor`). This
  single-flight worker takes the oldest pending task. It checks the source
  file and the history, then transfers the file. On success it completes the
  task, records it in the history and, when configured, deletes the source
  and its emptied parent directories. On failure it retries, and it fails
  the task on the third failed attempt. The busy flag is cleared on every
  way out.
- **The directory monitor's `enqueue_file`** (`Monitor`). Screens, the
  stability check, the duplicate checks, the configuration match and the
  extension classification decide whether a file becomes a pending row.
- **The SQL clauses both stores use** (`Query`): `WHERE`, `count(*)`,
  `ORDER BY ... DESC` and `LIMIT`.
- **The database manager** (`DbManager`). This covers the session injection
  of `db_update`/`db_query`, the retry, commit and close policy, the
  checkpoint-mode check, the engine life cycle and the payload filter of
  `update`.
- **Utilities:**
  - `Strings`: the parts of Python's `str` the code relies on.
  - `Paths`: `PurePosixPath`, `PathUtils` and `PathRemoveUtils`.
  - `Base64`: `CBase64` with its permuted alphabet.
  - `Cron`: `CronUtils` expression repair.
  - `Tree`: the `TxtFileStorage` tree file.
  - `Cache`: the in-process caches.
  - `Cookie`: the `U115Cookie` parser.
  - `Mediainfo`: the download whitelist and blacklist.
  - `Http`: response and file-item checks.
  - `OopServer`: the enhancement-server client.
- **The full-sync STRM helper** (`StrmFull`). It covers batch dedup of file
  and folder records across a run, the STRM target path, the pickcode check
  and the per-item decision.

Code that changes state in place is modelled as classes:

- the two tables;
- the processor;
- the caches;
- the tree storage;
- the database manager.

Each such method is proved against a pure specification function of the old
state. The properties the plugin promises are proved as lemmas about those
functions. Loops in the source are methods with loop invariants, for example:

- the parent-directory walk of `_delete_source_file`;
- the nested loops of `__process_db_item`;
- the zero-filling in `count_by_status`;
- the Base64 encoder and decoder;
- the retry loops.

Time, randomness, the file system, the remote storage and the database's
answers are parameters or oracles. Each is described under "Left out".

Source paths below are relative to the repository root.

## Model

| member | source | states |
|---|---|---|
| Strings.Strip | plugins.v2/p115strmhelpertest/utils/path.py:34 | Python's `strip()` over ASCII whitespace: no whitespace remains at either end, and a string without it comes back unchanged |
| Strings.Split | plugins.v2/p115strmhelpertest/utils/path.py:34 | `split(c)` returns at least one piece, no piece holds `c`, and joining the pieces with `c` gives the input back |
| Strings.SplitJoin | plugins.v2/p115strmhelpertest/utils/path.py:64 | splitting undoes joining when no part holds the separator |
| Strings.SplitFirst | plugins.v2/p115strmhelpertest/utils/path.py:64 | `split(c, 1)` on a string holding `c`: the text before the first `c` (which holds none) and the text after it, which rejoin to the input |
| Strings.SplitWhitespaceWords | plugins.v2/p115strmhelpertest/utils/cron.py:40 | the words `split()` returns are non-empty and hold no whitespace |
| Strings.SplitWhitespaceJoin | plugins.v2/p115strmhelpertest/utils/cron.py:60 | `" ".join(words).split()` gives the words back when each is a non-empty run without whitespace |
| Strings.Truncate | plugins.v2/p115strmhelpertest/db_manager/models/upload_queue.py:225 | `int(x)` on a float truncates toward zero: the result is within one of `x`, on the side of zero |
| Strings.IntToStringRoundTrip | plugins.v2/p115strmhelpertest/helper/monitor.py:180 | `int(str(n)) == n`: a decimal rendering is read back exactly |
| Strings.IntToStringInjective | plugins.v2/p115strmhelpertest/helper/strm/full.py:209 | two different integers never share a decimal rendering |
| Paths.Parse | plugins.v2/p115strmhelpertest/utils/path.py:21-22 | parsing a path string gives components that are never empty, never "." and hold no "/" |
| Paths.ParseToString | plugins.v2/p115strmhelpertest/utils/path.py:80 | `PurePosixPath(str(p)) == p` for a parsed path |
| Paths.HasPrefixOrder | plugins.v2/p115strmhelpertest/utils/path.py:15-27 | `has_prefix` is reflexive and transitive, and false when the prefix has more parts than the full path |
| Paths.ComponentsNotCharacters | plugins.v2/p115strmhelpertest/utils/path.py:21-27 | matching is by whole components: "/ab" is not under "/a" |
| Paths.RelativeToJoin | plugins.v2/p115strmhelpertest/utils/path.py:80 | `base / p.relative_to(base) == p` whenever `relative_to` succeeds |
| Paths.PartsPrefix | plugins.v2/p115strmhelpertest/utils/path.py:21-27 | the parts of one normal path lead those of another exactly when both are anchored alike and the components lead |
| Paths.RelativeToIffPrefix | plugins.v2/p115strmhelpertest/utils/path.py:79-80 | `relative_to` succeeds exactly when `has_prefix` holds, except for the base "." under an absolute path |
| Paths.AnyPrefixLine | plugins.v2/p115strmhelpertest/utils/path.py:30-53 | `get_run_transfer_path` and `get_scrape_metadata_exclude_path`: true exactly when some non-empty line is a component prefix of the path |
| Paths.FindMediaLine | plugins.v2/p115strmhelpertest/utils/path.py:56-67 | `get_media_path`: a match is the first non-empty line whose part after "#" is a prefix of the media path, split into local and pan parts; no match means no non-empty line matches; a non-empty line without "#" reached first raises |
| Paths.StrmPathShape | plugins.v2/p115strmhelpertest/utils/path.py:70-83 | `get_p115_strm_path` on a match: the line ends with "#" and the media path, and its local part is the local directory followed by the media path's components below the pan directory |
| Paths.RmTree | plugins.v2/p115strmhelpertest/utils/path.py:127 | `rmtree(d)`: afterwards `d` is gone, and no file or directory has appeared |
| Paths.RmTreeEmpty | plugins.v2/p115strmhelpertest/utils/path.py:120-127 | removing a directory without entries removes that directory only |
| Paths.RemoveParentDir | plugins.v2/p115strmhelpertest/utils/path.py:92-128 | in both modes, "all" and an extension list, the loop over `file_path.parents` with counter `i` computes the specification walk, the FileNotFoundError of a missing parent included |
| Paths.RemoveParentDirBounds | plugins.v2/p115strmhelpertest/utils/path.py:104-128 | in both modes nothing is created and only what is, or lies below, one of the three nearest parents whose own parent is not the root is removed; mode "all" removes exactly such empty parents and never a file; an extension list never deletes a file it matches |
| Paths.ExtensionModeDropsOtherFiles | plugins.v2/p115strmhelpertest/utils/path.py:119-127 | with an extension list, a parent holding only a file the list does not match is removed with that file |
| Base64.RankOfAlphabet | plugins.v2/p115strmhelpertest/utils/base64.py:6 | the class's table has 64 characters, each at the place its rank certificate gives |
| Base64.AlphabetDistinct | plugins.v2/p115strmhelpertest/utils/base64.py:10-12 | the class-load assertions hold: 64 distinct characters, "=" not among them |
| Base64.DecodeChar | plugins.v2/p115strmhelpertest/utils/base64.py:15 | `_DECODE_MAP`: a character has an index exactly when it is in the alphabet, and the index points back at it |
| Base64.CharMapsInverse | plugins.v2/p115strmhelpertest/utils/base64.py:14-15 | `_ENCODE_MAP` and `_DECODE_MAP` are mutually inverse on a valid table |
| Base64.Sextet | plugins.v2/p115strmhelpertest/utils/base64.py:31-53 | each 6-bit field cut from a group is below 64 |
| Base64.GroupChars | plugins.v2/p115strmhelpertest/utils/base64.py:31-53 | a group of one to three bytes yields one character more than it has bytes, before padding |
| Base64.FieldArithmetic | plugins.v2/p115strmhelpertest/utils/base64.py:32-47 | the encoder's shifts and masks give fields below 64, and the decoder's shifts put them back together into the original bytes |
| Base64.EncodeShape | plugins.v2/p115strmhelpertest/utils/base64.py:28-55 | `n` bytes encode to 4·⌈n/3⌉ characters; all but the final padding lie in the alphabet; the padding is "==" when n mod 3 = 1, "=" when it is 2, none when it is 0 |
| Base64.EncodeIsUnpaddedThenPad | plugins.v2/p115strmhelpertest/utils/base64.py:46-53 | padding appears only once, at most two characters, after the last group |
| Base64.UnpaddedLength | plugins.v2/p115strmhelpertest/utils/base64.py:28-53 | the index characters and the padding together fill 4·⌈n/3⌉ places |
| Base64.UnpaddedInAlphabet | plugins.v2/p115strmhelpertest/utils/base64.py:33-52 | every index character is drawn from the alphabet |
| Base64.EncodeMethod | plugins.v2/p115strmhelpertest/utils/base64.py:25-55 | the loop in steps of three computes the encoding |
| Base64.CountChar | plugins.v2/p115strmhelpertest/utils/base64.py:65 | `s.count(c)` is at most the length, and 0 exactly when `c` is absent |
| Base64.DecodeGroup | plugins.v2/p115strmhelpertest/utils/base64.py:72-91 | a group of `k` characters that decodes gives `k - 1` bytes |
| Base64.GroupCharsDecode | plugins.v2/p115strmhelpertest/utils/base64.py:74-86 | every character of an encoded group decodes to the field it was drawn from |
| Base64.GroupByteOfChars | plugins.v2/p115strmhelpertest/utils/base64.py:77-87 | byte `j` of a decoded group, put together from fields `j` and `j + 1`, is byte `j` of the original |
| Base64.DecodeGroupChars | plugins.v2/p115strmhelpertest/utils/base64.py:71-91 | decoding one encoded group gives back its bytes |
| Base64.DecodeUnpadded | plugins.v2/p115strmhelpertest/utils/base64.py:71-93 | the unpadded encoding decodes to the original bytes |
| Base64.StripEncoded | plugins.v2/p115strmhelpertest/utils/base64.py:65-67 | cutting the counted padding from an encoding removes exactly its padding |
| Base64.RoundTrip | plugins.v2/p115strmhelpertest/utils/base64.py:18-93 | `decode(encode(b)) == b` for every byte string and every valid table |
| Base64.TableRoundTrip | plugins.v2/p115strmhelpertest/utils/base64.py:6-93 | `CBase64.decode(CBase64.encode(b)) == b` with the class's own table |
| Base64.InvalidCharFailsGroup | plugins.v2/p115strmhelpertest/utils/base64.py:74-91 | a character outside the alphabet anywhere in a group raises ValueError |
| Base64.DecodeGroupVerdict | plugins.v2/p115strmhelpertest/utils/base64.py:72-91 | one group: an invalid character raises ValueError, a lone valid character raises IndexError, otherwise it decodes |
| Base64.DecodeGroupsVerdict | plugins.v2/p115strmhelpertest/utils/base64.py:69-93 | the unpadded text decodes exactly when all characters are valid and its length is not 1 mod 4, to the expected number of bytes; an invalid character wins over a short last group |
| Base64.DecodeVerdict | plugins.v2/p115strmhelpertest/utils/base64.py:65-93 | the same verdict for the whole decoder, in terms of the text left once the padding is cut |
| Base64.DecodeMethod | plugins.v2/p115strmhelpertest/utils/base64.py:65-93 | the loop in steps of four, stopping at the first failing group, computes the decoding |
| Cron.FieldRangesSane | plugins.v2/p115strmhelpertest/utils/cron.py:45-51 | the five bounds (0-59, 0-23, 1-31, 1-12, 0-7) each have min ≤ max and max ≥ 1 |
| Cron.ClampRange | plugins.v2/p115strmhelpertest/utils/cron.py:104-105 | `max(min_val, min(v, max_val))` lies in the range and keeps a value already inside it |
| Cron.ClampSingle | plugins.v2/p115strmhelpertest/utils/cron.py:115-118 | the single-value clamp lies in the range and keeps a value already inside it |
| Cron.ClampStep | plugins.v2/p115strmhelpertest/utils/cron.py:91-94 | the step clamp lies in [1, max] and keeps a step already inside it |
| Cron.FixParts | plugins.v2/p115strmhelpertest/utils/cron.py:53-58 | five fields in, five repaired fields out |
| Cron.FixCronExpression | plugins.v2/p115strmhelpertest/utils/cron.py:30-60 | the loop appending each repaired field computes the repaired expression; an empty expression or one without exactly five fields comes back unchanged |
| Cron.FixExpressionFields | plugins.v2/p115strmhelpertest/utils/cron.py:40-60 | the repaired expression splits back into five fields, field i being input field i repaired against range i |
| Cron.SingleValueClamped | plugins.v2/p115strmhelpertest/utils/cron.py:112-121 | a single integer comes back as an integer clamped into [min, max], unchanged when already inside; a non-integer is left as it was |
| Cron.RangeEnds | plugins.v2/p115strmhelpertest/utils/cron.py:103-108 | the ends of a repaired range are clamped and ordered: min ≤ start ≤ end ≤ max |
| Cron.RangeOrdered | plugins.v2/p115strmhelpertest/utils/cron.py:100-110 | an integer range "a-b" comes back as two in-range integers with start ≤ end; a range with a non-integer end is left as it was |
| Cron.StepClamped | plugins.v2/p115strmhelpertest/utils/cron.py:85-97 | a step "base/s" keeps the repaired base before the first "/" and a step clamped into [1, max] after it; a non-integer step leaves the field as it was |
| Cron.ListParts | plugins.v2/p115strmhelpertest/utils/cron.py:76-82 | a comma list has at least two elements, each shorter than the field, and is rejoined from the repaired elements |
| Cron.ListRepaired | plugins.v2/p115strmhelpertest/utils/cron.py:76-82 | a comma list keeps its length, element i of the result being element i repaired |
| Cron.FixedShape | plugins.v2/p115strmhelpertest/utils/cron.py:72-121 | repairing adds no whitespace, no comma to a comma-free field, no "/" to a field with neither, and never empties a field |
| Cron.FixFieldIdempotent | plugins.v2/p115strmhelpertest/utils/cron.py:63-121 | repairing a repaired field changes nothing |
| Cron.FixExpressionIdempotent | plugins.v2/p115strmhelpertest/utils/cron.py:30-60 | repairing a repaired expression changes nothing |
| Cron.DefaultCronIsRepaired | plugins.v2/p115strmhelpertest/utils/cron.py:124-130 | `get_default_cron()` is "0 */6 * * *", and it is already a repaired expression |
| Tree.LineLength | plugins.v2/p115strmhelpertest/utils/tree.py:91 | the first line runs up to, and not including, the first "\n" |
| Tree.TxtFileStorage.constructor | plugins.v2/p115strmhelpertest/utils/tree.py:68-70 | a storage over a file that may or may not exist yet |
| Tree.TxtFileStorage.AddPaths | plugins.v2/p115strmhelpertest/utils/tree.py:72-76 | mode "w" makes the file exactly the written paths; mode "a" appends them to the existing text, creating the file if missing |
| Tree.TxtFileStorage.CompareTrees | plugins.v2/p115strmhelpertest/utils/tree.py:78-94 | the loop yields the specification's difference: this tree's stripped lines missing from the other tree's set, in order; a missing own file raises, a missing other file counts as empty |
| Tree.TxtFileStorage.CompareTreesLines | plugins.v2/p115strmhelpertest/utils/tree.py:96-112 | the loop yields the 1-based numbers of those same lines |
| Tree.TxtFileStorage.GetPathByLineNumber | plugins.v2/p115strmhelpertest/utils/tree.py:114-124 | the loop returns the stripped n-th line, None for n ≤ 0, beyond the last line, or a missing file |
| Tree.TxtFileStorage.Count | plugins.v2/p115strmhelpertest/utils/tree.py:126-135 | the loop counts the lines that are not blank once stripped, 0 for a missing file |
| Tree.TxtFileStorage.Clear | plugins.v2/p115strmhelpertest/utils/tree.py:137-139 | afterwards the file does not exist |
| Tree.CompareEntryCounts | plugins.v2/p115strmhelpertest/utils/tree.py:285-292 | the absolute difference of the two counts |
| Tree.WrittenTerminated | plugins.v2/p115strmhelpertest/utils/tree.py:76 | what `writelines` leaves ends every path with a line break |
| Tree.LinesOfWritten | plugins.v2/p115strmhelpertest/utils/tree.py:76-91 | reading back the written file gives the paths, when none holds a line break |
| Tree.WrittenOfLines | plugins.v2/p115strmhelpertest/utils/tree.py:76-91 | writing back the lines of a file the writer left gives that file |
| Tree.OverwriteGivesPaths | plugins.v2/p115strmhelpertest/utils/tree.py:72-76 | after `add_paths` with append off, the tree is exactly the paths, in order |
| Tree.AppendAddsPaths | plugins.v2/p115strmhelpertest/utils/tree.py:72-76 | after `add_paths` with append on, the tree is the old lines followed by the paths |
| Tree.DiffMembers | plugins.v2/p115strmhelpertest/utils/tree.py:84-94 | a path is yielded exactly when some line strips to it and the other tree lacks it |
| Tree.DiffAgainstNothing | plugins.v2/p115strmhelpertest/utils/tree.py:87-94 | against a missing other file every line is yielded, stripped |
| Tree.DiffLinesMatch | plugins.v2/p115strmhelpertest/utils/tree.py:96-112 | the k-th yielded line number names the k-th yielded path, and lies within the file |
| Tree.DiffLinesIncreasing | plugins.v2/p115strmhelpertest/utils/tree.py:109-112 | the line numbers are at least 1 and strictly increasing |
| Tree.LineAtIndex | plugins.v2/p115strmhelpertest/utils/tree.py:114-124 | line number k is index k - 1, stripped, for 1 ≤ k ≤ the number of lines, and None otherwise |
| Tree.PathByLineOfWritten | plugins.v2/p115strmhelpertest/utils/tree.py:114-124 | on a written tree, `get_path_by_line_number(k)` is the k-th path stripped, None out of range |
| Tree.LineNumbersNamePaths | plugins.v2/p115strmhelpertest/utils/tree.py:78-124 | every number `compare_trees_lines` yields names, through `get_path_by_line_number`, the path `compare_trees` yields at the same position |
| Tree.CountBounded | plugins.v2/p115strmhelpertest/utils/tree.py:126-135 | the count never exceeds the number of lines |
| Tree.CountOfWritten | plugins.v2/p115strmhelpertest/utils/tree.py:72-135 | the count of a written tree is the number of its paths that are not blank |
| Tree.NormalizeExtensionShape | plugins.v2/p115strmhelpertest/utils/tree.py:241-242 | a scan filter extension has exactly one leading "." and no upper-case letter |
| Tree.NormalizeExtensionIdempotent | plugins.v2/p115strmhelpertest/utils/tree.py:241-242 | normalising an extension twice changes nothing |
| Cache.DirById | plugins.v2/p115strmhelpertest/core/cache.py:48-54 | `get_dir_by_id` answers exactly when the decimal text of the id is stored, with the stored directory |
| Cache.IdByDir | plugins.v2/p115strmhelpertest/core/cache.py:56-68 | `get_id_by_dir` is None exactly when no entry exists or the stored text is not an integer, and otherwise the integer it reads |
| Cache.IdPathCache.constructor | plugins.v2/p115strmhelpertest/core/cache.py:31-39 | both directions start empty |
| Cache.IdPathCache.AddCache | plugins.v2/p115strmhelpertest/core/cache.py:41-46 | both directions are written, keyed by the decimal text of the id; nothing else changes |
| Cache.IdPathCache.GetDirById | plugins.v2/p115strmhelpertest/core/cache.py:48-54 | returns the lookup above |
| Cache.IdPathCache.GetIdByDir | plugins.v2/p115strmhelpertest/core/cache.py:56-68 | returns the lookup above |
| Cache.IdPathCache.Clear | plugins.v2/p115strmhelpertest/core/cache.py:70-75 | both directions emptied |
| Cache.AddThenLookup | plugins.v2/p115strmhelpertest/core/cache.py:41-68 | right after `add_cache(id, d)`, `get_dir_by_id(id) == d` and `get_id_by_dir(d) == id` |
| Cache.ReAddLeavesStaleEntry | plugins.v2/p115strmhelpertest/core/cache.py:45-46 | re-adding directory `d` under a new id overwrites `d -> id` but leaves the old id mapped to `d`, so the two directions are no longer mutually inverse |
| Cache.ClearedLookups | plugins.v2/p115strmhelpertest/core/cache.py:70-75 | after `clear` both lookups answer None |
| Cache.NonIntegerIdIsNone | plugins.v2/p115strmhelpertest/core/cache.py:62-68 | a stored id text without any digit reads back as None |
| Cache.FirstSegment | plugins.v2/p115strmhelpertest/core/cache.py:158-159 | `key_str.split("○")[0]` holds no separator |
| Cache.R302Cache.constructor | plugins.v2/p115strmhelpertest/core/cache.py:105-113 | the cache starts empty |
| Cache.R302Cache.Set | plugins.v2/p115strmhelpertest/core/cache.py:115-130 | the URL is stored under "pick_code○ua_code", nothing else changes |
| Cache.R302Cache.Get | plugins.v2/p115strmhelpertest/core/cache.py:132-144 | a hit exactly when the two-level key is stored, with its URL |
| Cache.R302Cache.CountByPickCode | plugins.v2/p115strmhelpertest/core/cache.py:146-161 | the loop counts exactly the keys whose first "○" segment equals the pick code |
| Cache.R302Cache.Clear | plugins.v2/p115strmhelpertest/core/cache.py:163-167 | the cache is emptied |
| Cache.KeyFirstSegment | plugins.v2/p115strmhelpertest/core/cache.py:125-159 | a key built from a pick code without "○" has that pick code as its first segment |
| Cache.SetCountsOnce | plugins.v2/p115strmhelpertest/core/cache.py:125-161 | storing a new entry for a pick code without "○" raises its count by one and leaves every other pick code's count alone |
| Cache.SeparatorPickCodeCountsNothing | plugins.v2/p115strmhelpertest/core/cache.py:158-159 | a pick code holding "○" itself is never counted |
| Cache.PathSet | plugins.v2/p115strmhelpertest/core/cache.py:207 | one path gives the singleton, a list gives the set of its elements |
| Cache.DiskCacheDirectory.constructor | plugins.v2/p115strmhelpertest/core/cache.py:201-204 | no group is stored |
| Cache.DiskCacheDirectory.AddToGroup | plugins.v2/p115strmhelpertest/core/cache.py:206-211 | the group's set becomes the union of the old set and the new paths |
| Cache.DiskCacheDirectory.IsInCache | plugins.v2/p115strmhelpertest/core/cache.py:213-215 | true exactly when the group is stored and holds the path |
| Cache.DiskCacheDirectory.GetGroupPaths | plugins.v2/p115strmhelpertest/core/cache.py:217-218 | the stored set, empty for a group never stored |
| Cache.DiskCacheDirectory.ClearGroup | plugins.v2/p115strmhelpertest/core/cache.py:220-223 | the group's entry is deleted, others are kept |
| Cache.AddToGroupContents | plugins.v2/p115strmhelpertest/core/cache.py:206-215 | after `add_to_group`, `is_in_cache` holds exactly for the old paths and the new ones; no other group changes |
| Cache.AddToGroupIdempotent | plugins.v2/p115strmhelpertest/core/cache.py:206-211 | adding the same paths twice stores the same as adding them once |
| Cache.InCacheMeansGroupPaths | plugins.v2/p115strmhelpertest/core/cache.py:213-223 | `is_in_cache` agrees with `get_group_paths`, and is false for a cleared group |
| Cache.BatchGetSpec | plugins.v2/p115strmhelpertest/core/cache.py:340-359 | one entry per requested key: the standard Base64 text of the stored bytes on a hit, None on a miss |
| Cache.OofFastMiCache.constructor | plugins.v2/p115strmhelpertest/core/cache.py:305-321 | the store starts empty |
| Cache.OofFastMiCache.BatchSet | plugins.v2/p115strmhelpertest/core/cache.py:323-338 | the items are applied in order inside one transaction; an item whose decoding fails rolls the whole batch back and raises |
| Cache.OofFastMiCache.BatchGet | plugins.v2/p115strmhelpertest/core/cache.py:340-359 | the two loops (hits, then misses) compute the specification map |
| Cache.EmptyDataSkipped | plugins.v2/p115strmhelpertest/core/cache.py:329-333 | a dict item with empty or missing "data" is skipped, whatever its key |
| Cache.UntypedItemSkipped | plugins.v2/p115strmhelpertest/core/cache.py:335-338 | a pair whose key is not text or whose payload is not bytes leaves the store alone |
| Cache.SetThenGet | plugins.v2/p115strmhelpertest/core/cache.py:329-359 | a dict item whose "data" decodes stores the bytes under its key, and `batch_get` of that key then returns their Base64 text |
| Cache.BatchSetFailsOnBadItem | plugins.v2/p115strmhelpertest/core/cache.py:327-334 | an item whose data cannot be decoded fails the whole batch |
| Cookie.ParsePart | plugins.v2/p115strmhelpertest/schemas/cookie.py:27-33 | a part without "=" contributes nothing; a part that contributes names one of the model's fields |
| Cookie.Entries | plugins.v2/p115strmhelpertest/schemas/cookie.py:27-33 | one contribution per part, in order |
| Cookie.HeaderParts | plugins.v2/p115strmhelpertest/schemas/cookie.py:25 | `strip().rstrip(';').split(';')` gives at least one part, none holding ";" |
| Cookie.Construct | plugins.v2/p115strmhelpertest/schemas/cookie.py:6-35 | `cls(**cookie_dict)` succeeds exactly when UID, CID and SEID are present, carries their values, and sets KID exactly when the dictionary has it |
| Cookie.FromString | plugins.v2/p115strmhelpertest/schemas/cookie.py:17-35 | the loop filling `cookie_dict` computes the specification: the parsed cookie or the validation error |
| Cookie.ToDict | plugins.v2/p115strmhelpertest/schemas/cookie.py:37-48 | `to_dict` always has UID, CID and SEID with the cookie's values, and has KID exactly when KID is set and not empty; no other key |
| Cookie.EmptyInputRefused | plugins.v2/p115strmhelpertest/schemas/cookie.py:21-22 | an empty or non-string input constructs the model with no fields, which fails validation |
| Cookie.CollectKeyFrom | plugins.v2/p115strmhelpertest/schemas/cookie.py:27-33 | a key ends up in the dictionary only if some part contributes it |
| Cookie.MissingFieldRefused | plugins.v2/p115strmhelpertest/schemas/cookie.py:24-35 | a header with no part naming UID, CID or SEID is refused |
| Cookie.FieldPartParsed | plugins.v2/p115strmhelpertest/schemas/cookie.py:28-33 | a `key=value` part for a field, with a clean value, contributes exactly that key and value |
| Cookie.FieldPartWins | plugins.v2/p115strmhelpertest/schemas/cookie.py:32-33 | a later `key=value` part overwrites an earlier value of the same key |
| Cookie.CollectPresent | plugins.v2/p115strmhelpertest/schemas/cookie.py:27-33 | contributions with distinct keys give each key its value and nothing else |
| Cookie.ConstructPresent | plugins.v2/p115strmhelpertest/schemas/cookie.py:35 | the field pairs of a cookie construct that cookie |
| Cookie.HeaderUntrimmed | plugins.v2/p115strmhelpertest/schemas/cookie.py:25 | the header of a cookie with clean values survives the strip and the removal of trailing ";" |
| Cookie.HeaderRoundTrip | plugins.v2/p115strmhelpertest/schemas/cookie.py:17-35 | reading back the header `UID=..;CID=..;SEID=..[;KID=..]` of a cookie with clean values gives the cookie |
| Cookie.ToDictRoundTrip | plugins.v2/p115strmhelpertest/schemas/cookie.py:35-48 | `U115Cookie(**c.to_dict())` gives the cookie back, except that an empty KID becomes unset |
| Mediainfo.LowerIdempotent | plugins.v2/p115strmhelpertest/utils/automaton.py:20 | lower-casing twice is lower-casing once |
| Mediainfo.BuildAutomaton | plugins.v2/p115strmhelpertest/utils/automaton.py:10-22 | every stored keyword is non-empty and its own lower case, and every non-empty keyword given is stored under its lower case |
| Mediainfo.LongestEndingAt | plugins.v2/p115strmhelpertest/utils/mediainfo_download.py:43 | the longest keyword ending at a position, found or shown absent for every shorter length |
| Mediainfo.FirstMatchFrom | plugins.v2/p115strmhelpertest/utils/mediainfo_download.py:43 | a reported match is a keyword that occurs in the text |
| Mediainfo.FirstMatchExists | plugins.v2/p115strmhelpertest/utils/mediainfo_download.py:42-60 | `next(automaton.iter(text))` yields a match exactly when some keyword occurs in the text, and what it yields is such a keyword |
| Mediainfo.NotBlacklistKey | plugins.v2/p115strmhelpertest/utils/mediainfo_download.py:35-40 | an empty blacklist lets every file through with no message |
| Mediainfo.NotWhitelistKey | plugins.v2/p115strmhelpertest/utils/mediainfo_download.py:49-54 | an empty whitelist lets every file through with no message |
| Mediainfo.NoListsAllowAll | plugins.v2/p115strmhelpertest/utils/mediainfo_download.py:19-54 | with both keyword sets empty, `should_download` returns ("", True) |
| Mediainfo.ShouldDownloadVerdict | plugins.v2/p115strmhelpertest/utils/mediainfo_download.py:10-32 | the file is downloaded exactly when the whitelist is empty or matches, and the blacklist is empty or does not match |
| Mediainfo.WhitelistCheckedFirst | plugins.v2/p115strmhelpertest/utils/mediainfo_download.py:19-60 | a non-empty whitelist that does not match refuses the file with the "不在生成白名单内" message, whatever the blacklist says |
| Mediainfo.BlacklistRefuses | plugins.v2/p115strmhelpertest/utils/mediainfo_download.py:26-44 | with the whitelist passed, a blacklist keyword in the lower-cased name refuses the file, naming a blacklisted keyword that occurs |
| Mediainfo.BlacklistIgnoresCase | plugins.v2/p115strmhelpertest/utils/automaton.py:18-20 | a blacklist keyword given in any case, occurring in any case in the name, refuses the file |
| Mediainfo.VerdictIgnoresCase | plugins.v2/p115strmhelpertest/utils/mediainfo_download.py:41-55 | the verdict depends on the file name only through its lower case |
| Http.CheckResponse | plugins.v2/p115strmhelpertest/utils/http.py:8-20 | `check_response` raises exactly when the status code is 400 or more, with that code, and otherwise returns the response unchanged |
| Http.CheckIterPathData | plugins.v2/p115strmhelpertest/utils/http.py:23-35 | `check_iter_path_data` passes the item through unchanged exactly when "path", "is_dir", "sha1" and a pickcode key are all present |
| Http.FirstMissingKeyReported | plugins.v2/p115strmhelpertest/utils/http.py:27-34 | the key reported missing is the first absent one in the order path, is_dir, sha1, pickcode |
| Http.PickcodeSpellings | plugins.v2/p115strmhelpertest/utils/http.py:33 | either "pickcode" or "pick_code" meets the pickcode requirement |
| OopServer.XorTwice | plugins.v2/p115strmhelpertest/utils/oopserver.py:55 | XOR with the same code twice gives back the first code |
| OopServer.Decrypt | plugins.v2/p115strmhelpertest/utils/oopserver.py:44-60 | a decoding failure becomes RuntimeError; an empty key with a non-empty text is a ZeroDivisionError; on success the output has the decoded text's length and character i has code `ord(text[i]) XOR ord(key[i mod len(key)])` |
| OopServer.DecryptString | plugins.v2/p115strmhelpertest/utils/oopserver.py:52-58 | the loop appending one character per step, stopping at the first code `chr` refuses, computes the decryption |
| OopServer.DecryptInvolution | plugins.v2/p115strmhelpertest/utils/oopserver.py:53-56 | decrypting twice with the same key gives the text back |
| OopServer.DecodingFailureIsRuntimeError | plugins.v2/p115strmhelpertest/utils/oopserver.py:59-60 | a ValueError while decoding surfaces as RuntimeError |
| OopServer.RequestFrom | plugins.v2/p115strmhelpertest/utils/oopserver.py:104-120 | the attempts made never exceed `max_retries` once started |
| OopServer.MakeRequest | plugins.v2/p115strmhelpertest/utils/oopserver.py:100-120 | the retry loop (back-off sleeps aside) computes the specification's result and attempt count |
| OopServer.RetriesOnlyOnRequestError | plugins.v2/p115strmhelpertest/utils/oopserver.py:104-116 | every attempt but the last one made failed with a RequestError: a response, a status error or any other exception ends the loop |
| OopServer.ReraisesLastRequestError | plugins.v2/p115strmhelpertest/utils/oopserver.py:112-119 | the last RequestError is raised exactly when every attempt failed with one, after `max_retries` attempts, and it is the last attempt's error |
| OopServer.AttemptsBounded | plugins.v2/p115strmhelpertest/utils/oopserver.py:104-120 | at most `max_retries` attempts; with `max_retries` ≤ 0 none at all and `None` is returned, otherwise never `None` |
| OopServer.NeverNoResponse | plugins.v2/p115strmhelpertest/utils/oopserver.py:104-120 | once an attempt has been made, `make_request` does not return None |
| OopServer.CheckFeature | plugins.v2/p115strmhelpertest/utils/oopserver.py:128-161 | a request is made exactly when the name is non-empty, and the feature is enabled only as parsed from a 200 response |
| OopServer.EmptyNameDisabled | plugins.v2/p115strmhelpertest/utils/oopserver.py:133-138 | an empty name gives a disabled feature with no machine id and no name, and no request |
| OopServer.FailureKeepsName | plugins.v2/p115strmhelpertest/utils/oopserver.py:140-161 | a request that fails or raises disables the feature but keeps its name |
| DbManager.FirstSession | plugins.v2/p115strmhelpertest/db_manager/__init__.py:198-207 | the index scan finds a session exactly when one is present, and it is the first |
| DbManager.GetArgsDb | plugins.v2/p115strmhelpertest/db_manager/__init__.py:193-208 | the two loops return the session of the first session-valued keyword if any, else the first positional session, else None |
| DbManager.KeywordSessionWins | plugins.v2/p115strmhelpertest/db_manager/__init__.py:203-207 | a keyword session is taken even when a positional one is present |
| DbManager.NoSessionFound | plugins.v2/p115strmhelpertest/db_manager/__init__.py:193-208 | no session anywhere gives None, so the decorator must create one |
| DbManager.KeyValue | plugins.v2/p115strmhelpertest/db_manager/__init__.py:215 | `kwargs[key]` exists exactly when some entry has the key, and is that entry's value |
| DbManager.SetKey | plugins.v2/p115strmhelpertest/db_manager/__init__.py:216 | `kwargs["db"] = db` keeps every entry in its place and replaces only the values under the key |
| DbManager.UpdateArgsDbMisbindsStaticMethods | plugins.v2/p115strmhelpertest/db_manager/__init__.py:211-222 | as written, a call with no `db` keyword, no None first positional and no session never binds the new session to a leading `db` parameter |
| DbManager.MarkAsProcessingMisbound | plugins.v2/p115strmhelpertest/db_manager/__init__.py:217-221 | `mark_as_processing(task.id)` gets the task id bound to `db` and the session to the next parameter |
| DbManager.CreateTaskUnbound | plugins.v2/p115strmhelpertest/db_manager/__init__.py:215-222 | a keyword-only `create_task(...)` is left with nothing bound to `db` |
| DbManager.BindLeadingSessionBinds | plugins.v2/p115strmhelpertest/db_manager/__init__.py:211-222 | the corrected binding always gives `db` the session and keeps the other arguments, in order |
| DbManager.AttemptEvents | plugins.v2/p115strmhelpertest/db_manager/__init__.py:282-296 | one attempt calls once and never closes; it commits exactly when the call returned, and rolls back exactly when the call or the commit raised |
| DbManager.RunAttempt | plugins.v2/p115strmhelpertest/db_manager/__init__.py:282-296 | one pass through the inner `try` produces those events |
| DbManager.DbUpdate | plugins.v2/p115strmhelpertest/db_manager/__init__.py:263-312 | the retry loop, with its handlers and `finally`, computes the specification's outcome and session events |
| DbManager.OneCallPerAttempt | plugins.v2/p115strmhelpertest/db_manager/__init__.py:284-290 | one call per attempt, no close inside it |
| DbManager.CallsCounted | plugins.v2/p115strmhelpertest/db_manager/__init__.py:281-304 | each attempt made calls the function once, and nothing inside the loop closes the session |
| DbManager.UpdateFromAttempts | plugins.v2/p115strmhelpertest/db_manager/__init__.py:276-304 | between one and three attempts; a further attempt only after a busy error; the function's value is returned exactly when the last attempt succeeded; any other error is raised at once, and a busy error only after the third attempt |
| DbManager.CommitFollowsCall | plugins.v2/p115strmhelpertest/db_manager/__init__.py:284-287 | every commit comes right after a call, so the session is committed only after the function returned |
| DbManager.DbUpdateSucceeds | plugins.v2/p115strmhelpertest/db_manager/__init__.py:280-304 | the decorated call returns a value exactly when some attempt among the three succeeded after busy errors only |
| DbManager.DbUpdateCloses | plugins.v2/p115strmhelpertest/db_manager/__init__.py:276-312 | at most three calls; the session is closed once, as the last event, exactly when the decorator created it |
| DbManager.DbQuery | plugins.v2/p115strmhelpertest/db_manager/__init__.py:323-345 | `db_query`: one call, a value exactly when the call returned, the session closed exactly when the wrapper created it |
| DbManager.SessionFor | plugins.v2/p115strmhelpertest/db_manager/__init__.py:264-274 | the wrapper creates a session exactly when none was passed, and otherwise uses the caller's and leaves the arguments alone |
| DbManager.CallerSessionNeverClosed | plugins.v2/p115strmhelpertest/db_manager/__init__.py:265-312 | a caller's session is never closed by the decorator; one the decorator created always is |
| DbManager.UpdateAttributes | plugins.v2/p115strmhelpertest/db_manager/__init__.py:364-367 | `update` sets every non-None payload value, keeps every other attribute, and adds nothing else |
| DbManager.UpdateAttributesIdempotent | plugins.v2/p115strmhelpertest/db_manager/__init__.py:365-367 | an all-None payload changes nothing, and updating twice with the same payload is the same as once |
| DbManager.CheckpointFor | plugins.v2/p115strmhelpertest/db_manager/__init__.py:123-145 | skipped exactly without an engine or without WAL; otherwise a mode outside PASSIVE/FULL/RESTART/TRUNCATE (compared in upper case) raises ValueError |
| DbManager.CheckpointIgnoresCase | plugins.v2/p115strmhelpertest/db_manager/__init__.py:135-145 | the mode is accepted in any case: "passive" executes the PASSIVE checkpoint |
| DbManager.Manager.constructor | plugins.v2/p115strmhelpertest/db_manager/__init__.py:35-40 | the engine, the session factory and the scoped session all start unset |
| DbManager.Manager.InitDatabase | plugins.v2/p115strmhelpertest/db_manager/__init__.py:71-78 | a no-op when already initialised, otherwise all three handles set; afterwards `is_initialized` holds |
| DbManager.Manager.PerformCheckpoint | plugins.v2/p115strmhelpertest/db_manager/__init__.py:123-148 | returns the checkpoint verdict above for the manager's engine |
| DbManager.Manager.CloseDatabase | plugins.v2/p115strmhelpertest/db_manager/__init__.py:150-164 | a TRUNCATE checkpoint when an engine exists under WAL, then all three handles reset, so `is_initialized` is false |
| DbManager.EnsureInitialized | plugins.v2/p115strmhelpertest/db_manager/__init__.py:225-255 | the module-level `init_database` leaves the manager initialised and returns its scoped session |
| UploadQueueTable.StatusNameInjective | plugins.v2/p115strmhelpertest/db_manager/models/upload_queue.py:52 | the four statuses are stored under four distinct names |
| UploadQueueTable.NextPending | plugins.v2/p115strmhelpertest/db_manager/models/upload_queue.py:74-79 | None exactly when no row is pending; otherwise a pending row of the table whose created_at is the least among pending rows |
| UploadQueueTable.UpdateById | plugins.v2/p115strmhelpertest/db_manager/models/upload_queue.py:96-100 | an update by id keeps the number of rows |
| UploadQueueTable.UpdateByIdFrame | plugins.v2/p115strmhelpertest/db_manager/models/upload_queue.py:132-141 | rows with another id are unchanged; the row with the id keeps its identity columns and takes exactly the status, timestamp, retry count and error message the update sets |
| UploadQueueTable.UpdateByIdWellFormed | plugins.v2/p115strmhelpertest/db_manager/models/upload_queue.py:155-159 | an update by id keeps ids unique, below the next id, and paths unique |
| UploadQueueTable.UniqueId | plugins.v2/p115strmhelpertest/db_manager/models/upload_queue.py:21-39 | in a well-formed table two rows with the same id are the same row |
| UploadQueueTable.ExistsInQueueIff | plugins.v2/p115strmhelpertest/db_manager/models/upload_queue.py:175-184 | a path is in the queue exactly when a pending or processing row holds it; failed and completed rows do not count |
| UploadQueueTable.GroupByStatus | plugins.v2/p115strmhelpertest/db_manager/models/upload_queue.py:253-258 | the grouped map has one entry per status that occurs, holding the number of rows with that status |
| UploadQueueTable.ResetProcessing | plugins.v2/p115strmhelpertest/db_manager/models/upload_queue.py:280-284 | the reset keeps the number of rows |
| UploadQueueTable.ResetProcessingEffect | plugins.v2/p115strmhelpertest/db_manager/models/upload_queue.py:280-286 | afterwards nothing is processing, pending grows by the former processing count, completed and failed are unchanged, and only processing rows change |
| UploadQueueTable.ResetCounts | plugins.v2/p115strmhelpertest/db_manager/models/upload_queue.py:280-284 | the per-status counts after the reset: pending gains the processing rows, completed and failed keep theirs |
| UploadQueueTable.ResetProcessingWellFormed | plugins.v2/p115strmhelpertest/db_manager/models/upload_queue.py:280-284 | the reset keeps the table well formed |
| UploadQueueTable.FailedTasksNewestFirst | plugins.v2/p115strmhelpertest/db_manager/models/upload_queue.py:302-307 | at most limit rows, all failed rows of the table, most recently updated first |
| UploadQueueTable.CreateTask | plugins.v2/p115strmhelpertest/db_manager/models/upload_queue.py:221-237 | the insert fails exactly when some row, finished or not, already holds the path (the unique index); otherwise exactly the new row is appended |
| UploadQueueTable.CreateTaskWellFormed | plugins.v2/p115strmhelpertest/db_manager/models/upload_queue.py:221-237 | a successful insert keeps the table well formed with the next id advanced |
| UploadQueueTable.NewRowIsFresh | plugins.v2/p115strmhelpertest/db_manager/models/upload_queue.py:221-235 | a new row is pending with zero retries, no error, both timestamps now, and the mtime truncated toward zero |
| UploadQueueTable.FinishedPathBlocksRequeue | plugins.v2/p115strmhelpertest/db_manager/models/upload_queue.py:29-30 | a path whose row ended failed or completed is not in the queue, yet inserting it again fails on the unique path |
| UploadQueueTable.ZeroWhenAbsent | plugins.v2/p115strmhelpertest/db_manager/models/upload_queue.py:261-263 | a status absent from the grouped map has no rows, so filling it with 0 is right |
| UploadQueueTable.UploadQueue.constructor | plugins.v2/p115strmhelpertest/db_manager/models/upload_queue.py:21-58 | an empty table, next id 1 |
| UploadQueueTable.UploadQueue.GetNextPendingTask | plugins.v2/p115strmhelpertest/db_manager/models/upload_queue.py:62-84 | the oldest pending row, None exactly when none is pending |
| UploadQueueTable.UploadQueue.MarkAsProcessing | plugins.v2/p115strmhelpertest/db_manager/models/upload_queue.py:88-101 | the row with the id becomes processing, stamped now; the table stays well formed |
| UploadQueueTable.UploadQueue.MarkAsCompleted | plugins.v2/p115strmhelpertest/db_manager/models/upload_queue.py:105-118 | the row with the id becomes completed, stamped now; the table stays well formed |
| UploadQueueTable.UploadQueue.MarkAsFailed | plugins.v2/p115strmhelpertest/db_manager/models/upload_queue.py:122-142 | the row with the id becomes failed with the message and retry count, stamped now |
| UploadQueueTable.UploadQueue.MarkAsPendingRetry | plugins.v2/p115strmhelpertest/db_manager/models/upload_queue.py:146-160 | the row with the id goes back to pending with the new retry count, stamped now |
| UploadQueueTable.UploadQueue.ExistsInQueueMethod | plugins.v2/p115strmhelpertest/db_manager/models/upload_queue.py:164-188 | true exactly when a pending or processing row holds the path |
| UploadQueueTable.UploadQueue.CountByStatus | plugins.v2/p115strmhelpertest/db_manager/models/upload_queue.py:244-265 | exactly the four status names, each mapped to its number of rows |
| UploadQueueTable.UploadQueue.ResetProcessingTasks | plugins.v2/p115strmhelpertest/db_manager/models/upload_queue.py:269-290 | every processing row goes back to pending and the count returned is how many were processing |
| UploadQueueTable.UploadQueue.GetFailedTasks | plugins.v2/p115strmhelpertest/db_manager/models/upload_queue.py:294-309 | at most limit failed rows, most recently updated first |
| UploadQueueTable.UploadQueue.CreateTaskMethod | plugins.v2/p115strmhelpertest/db_manager/models/upload_queue.py:192-240 | fails and changes nothing when the path is already held; otherwise appends and returns the fresh pending row |
| UploadHistoryTable.FingerprintInjective | plugins.v2/p115strmhelpertest/db_manager/models/upload_history.py:25 | different size and mtime pairs never share a fingerprint |
| UploadHistoryTable.IsUploadedIff | plugins.v2/p115strmhelpertest/db_manager/models/upload_history.py:66-74 | uploaded exactly when one record matches both the fingerprint and the size |
| UploadHistoryTable.FingerprintAloneIsNotEnough | plugins.v2/p115strmhelpertest/db_manager/models/upload_history.py:68-71 | a record with the same fingerprint but another size does not count |
| UploadHistoryTable.CleanupRemovesExactlyExpired | plugins.v2/p115strmhelpertest/db_manager/models/upload_history.py:141-145 | cleanup keeps exactly the records completed at or after the cutoff and reports how many were older |
| UploadHistoryTable.CleanupIdempotent | plugins.v2/p115strmhelpertest/db_manager/models/upload_history.py:141-143 | a second cleanup with the same cutoff deletes nothing |
| UploadHistoryTable.RetainedFixed | plugins.v2/p115strmhelpertest/db_manager/models/upload_history.py:141-143 | a table with nothing older than the cutoff is left as it is |
| UploadHistoryTable.RecentUploadsNewestFirst | plugins.v2/p115strmhelpertest/db_manager/models/upload_history.py:166-170 | at most limit records of the table, newest completion first, none left out newer than one returned |
| UploadHistoryTable.UploadHistory.constructor | plugins.v2/p115strmhelpertest/db_manager/models/upload_history.py:18-49 | an empty table, next id 1 |
| UploadHistoryTable.UploadHistory.IsUploaded | plugins.v2/p115strmhelpertest/db_manager/models/upload_history.py:53-79 | true exactly when some record has both this fingerprint and this size |
| UploadHistoryTable.UploadHistory.RecordUpload | plugins.v2/p115strmhelpertest/db_manager/models/upload_history.py:83-118 | appends one record stamped now, after which the pair counts as uploaded |
| UploadHistoryTable.UploadHistory.CleanupOldRecords | plugins.v2/p115strmhelpertest/db_manager/models/upload_history.py:127-152 | deletes the records older than days times 86400 seconds before now and returns their number |
| UploadHistoryTable.UploadHistory.GetRecentUploads | plugins.v2/p115strmhelpertest/db_manager/models/upload_history.py:156-172 | the most recently completed records, at most limit |
| Query.Where | plugins.v2/p115strmhelpertest/db_manager/models/upload_queue.py:302-304 | the rows kept are exactly the rows of the table satisfying the condition, no more of them than the table has |
| Query.CountZeroIff | plugins.v2/p115strmhelpertest/db_manager/models/upload_queue.py:175-184 | a count is zero exactly when no row satisfies the condition |
| Query.WhereMonotone | plugins.v2/p115strmhelpertest/db_manager/models/upload_queue.py:175-182 | a stronger condition never counts more rows |
| Query.CountComplement | plugins.v2/p115strmhelpertest/db_manager/models/upload_history.py:141-145 | the rows a condition counts and the rows its negation counts add up to the table |
| Query.SortDesc | plugins.v2/p115strmhelpertest/db_manager/models/upload_history.py:168 | the result is sorted by the key, largest first, and is a permutation of the rows |
| Query.Limit | plugins.v2/p115strmhelpertest/db_manager/models/upload_history.py:169 | a negative limit returns every row; otherwise the first min(n, rows) rows in order |
| Query.TopDescBounds | plugins.v2/p115strmhelpertest/db_manager/models/upload_history.py:166-170 | sorted, drawn from the table, at most n rows, and every row when the limit does not bite |
| Query.TopDescDominates | plugins.v2/p115strmhelpertest/db_manager/models/upload_history.py:166-170 | no row left out has a larger key than a row returned |
| Processor.TargetKeepsStructure | plugins.v2/p115strmhelpertest/helper/upload_queue_processor.py:187-189 | the target lies below the destination exactly as the file lies below the monitored directory |
| Processor.DoUpload | plugins.v2/p115strmhelpertest/helper/upload_queue_processor.py:175-251 | the upload succeeds exactly when a remote destination is set, the file lies below the monitored directory, no remote call raises, every remote directory is created and the upload call succeeds; nothing local changes |
| Processor.DoCopy | plugins.v2/p115strmhelpertest/helper/upload_queue_processor.py:253-296 | the copy succeeds exactly when a non-empty local destination is set, the file lies below the monitored directory, neither the parent `mkdir` nor the copy raises and the copy status is 0; on success the target file exists, and nothing is removed |
| Processor.ExceptionMessagesKeepText | plugins.v2/p115strmhelpertest/helper/upload_queue_processor.py:247-295 | a caught exception is stored as the operation's prefix, the exception's type name, ": " and its text: for a missing remote destination, a raising remote call, a raising `mkdir` (which leaves the file system as it was) and a raising copy |
| Processor.ExecuteTask | plugins.v2/p115strmhelpertest/helper/upload_queue_processor.py:144-173 | dispatches "upload" and "copy" and refuses any other operation type with its message |
| Processor.ExecuteTaskOnlyAdds | plugins.v2/p115strmhelpertest/helper/upload_queue_processor.py:144-173 | a transfer never removes a file or directory, and a failure always carries a message |
| Processor.DeleteSourceFile | plugins.v2/p115strmhelpertest/helper/upload_queue_processor.py:298-328 | the loop over the file's parents with its two breaks computes exactly the deletion the specification function describes |
| Processor.DeleteSourceKeepsOtherFiles | plugins.v2/p115strmhelpertest/helper/upload_queue_processor.py:309-323 | the deletion removes that one file and no other, and only removes directories |
| Processor.DeleteWalkKeepsFiles | plugins.v2/p115strmhelpertest/helper/upload_queue_processor.py:312-323 | the parent walk removes directories only, never files |
| Processor.DeleteStaysBelowMonitor | plugins.v2/p115strmhelpertest/helper/upload_queue_processor.py:312-315 | with the file below the monitored directory, every directory removed lies strictly below it |
| Processor.LengthTestIsNotPrefixTest | plugins.v2/p115strmhelpertest/helper/upload_queue_processor.py:314 | the walk compares string lengths, so with the file outside the monitored directory an empty directory outside it is removed |
| Processor.ChosenIsUnique | plugins.v2/p115strmhelpertest/helper/upload_queue_processor.py:65-78 | the task a run picks is the only row with that id |
| Processor.StepTouchesOnlyOldestPending | plugins.v2/p115strmhelpertest/helper/upload_queue_processor.py:63-134 | a run changes at most the oldest pending row, whatever raises, and every row keeps its identity columns |
| Processor.FinishedRowsStay | plugins.v2/p115strmhelpertest/helper/upload_queue_processor.py:63-134 | no run changes a failed or completed row, so a failed task never returns to pending |
| Processor.StepKeepsValid | plugins.v2/p115strmhelpertest/helper/upload_queue_processor.py:63-142 | both tables keep ids unique and increasing and queue paths unique across a run, whatever raises |
| Processor.StepReturnsTrueIffPending | plugins.v2/p115strmhelpertest/helper/upload_queue_processor.py:63-68 | with nothing raising, a run reports True exactly when some task was pending, and with none pending nothing changes |
| Processor.MissingFileFails | plugins.v2/p115strmhelpertest/helper/upload_queue_processor.py:81-85 | a missing source file fails the task with "文件不存在", its retry count unchanged, history and files untouched |
| Processor.ProcessingThenUpdate | plugins.v2/p115strmhelpertest/helper/upload_queue_processor.py:78-84 | marking a row processing is overwritten by the next update of the same row |
| Processor.HistoryHitCompletes | plugins.v2/p115strmhelpertest/helper/upload_queue_processor.py:88-94 | a fingerprint and size already in the history complete the task with no transfer and no new record |
| Processor.SuccessRecordsHistory | plugins.v2/p115strmhelpertest/helper/upload_queue_processor.py:100-117 | a successful transfer completes the task, appends exactly one history record with its fingerprint, size and destinations, and deletes the source only when asked |
| Processor.StepToTransfer | plugins.v2/p115strmhelpertest/helper/upload_queue_processor.py:78-97 | with the file present and the pair not in the history, the run marks the task processing and goes on to the transfer |
| Processor.FailureRetriesThenFails | plugins.v2/p115strmhelpertest/helper/upload_queue_processor.py:119-132 | a failed transfer adds one attempt: below three the task goes back to pending, at three it fails with the transfer's message; no history record is added |
| Processor.TransferVerdictIgnoresState | plugins.v2/p115strmhelpertest/helper/upload_queue_processor.py:144-173 | whether a transfer succeeds depends on the task's identity columns and the backend only |
| Processor.RetriesAccumulate | plugins.v2/p115strmhelpertest/helper/upload_queue_processor.py:119-132 | repeated failing runs add one attempt each; the task stays pending below three attempts and is failed once it reaches three |
| Processor.UploadQueueProcessor.constructor | plugins.v2/p115strmhelpertest/helper/upload_queue_processor.py:29-33 | a processor that is not busy |
| Processor.UploadQueueProcessor.ResetStaleTasks | plugins.v2/p115strmhelpertest/helper/upload_queue_processor.py:35-48 | every processing task goes back to pending and the count is how many were processing |
| Processor.UploadQueueProcessor.GetQueueStats | plugins.v2/p115strmhelpertest/helper/upload_queue_processor.py:330-347 | the four status names, each with its number of tasks |
| Processor.UploadQueueProcessor.ProcessOneTask | plugins.v2/p115strmhelpertest/helper/upload_queue_processor.py:50-142 | a busy processor returns False and changes nothing; otherwise the run is as the step function says and the busy flag is clear on every way out |
| Processor.UploadQueueProcessor.Run | plugins.v2/p115strmhelpertest/helper/upload_queue_processor.py:63-134 | the body of the try block computes the step function's result and new state |
| Processor.UploadQueueProcessor.RunChecks | plugins.v2/p115strmhelpertest/helper/upload_queue_processor.py:80-94 | the existence and history checks compute the step function's checked stage |
| Processor.UploadQueueProcessor.RunTransfer | plugins.v2/p115strmhelpertest/helper/upload_queue_processor.py:96-132 | the transfer and its bookkeeping compute the step function's transferred stage |
| Processor.UploadQueueProcessor.FinishSuccess | plugins.v2/p115strmhelpertest/helper/upload_queue_processor.py:100-117 | success: complete, record the history row, delete the source when configured |
| Processor.UploadQueueProcessor.FinishFailure | plugins.v2/p115strmhelpertest/helper/upload_queue_processor.py:119-132 | failure: count the attempt, then retry below three or fail |
| Monitor.IsFileStable | plugins.v2/p115strmhelpertest/helper/monitor.py:81-117 | stable exactly when the file is there at both samples with the same size and that size is positive; a raising stat counts as unstable |
| Monitor.EmptyOrGrowingIsUnstable | plugins.v2/p115strmhelpertest/helper/monitor.py:95-113 | an empty file, or one whose size changed between the samples, is never stable |
| Monitor.LastIndexOf | plugins.v2/p115strmhelpertest/helper/monitor.py:250 | the position of the last occurrence of the character, None exactly when it does not occur |
| Monitor.Suffix | plugins.v2/p115strmhelpertest/helper/monitor.py:250 | the suffix is empty or a dot followed by dot-free characters, and is a proper tail of the name |
| Monitor.SuffixOfDotNames | plugins.v2/p115strmhelpertest/helper/monitor.py:250 | a name ending in a dot has no suffix, and neither has a bare dot-file name |
| Monitor.MatchConfig | plugins.v2/p115strmhelpertest/helper/monitor.py:214-233 | None exactly when no entry's src equals the monitored directory; otherwise the settings of the first entry that matches |
| Monitor.FirstConfigWins | plugins.v2/p115strmhelpertest/helper/monitor.py:216-218 | entries after the first match never change the result |
| Monitor.ExtList | plugins.v2/p115strmhelpertest/helper/monitor.py:237-248 | every listed extension is non-empty and starts with "." |
| Monitor.CommaJoin | plugins.v2/p115strmhelpertest/helper/monitor.py:240 | replacing "，" by "," turns a join over either separator into a join over "," |
| Monitor.ExtListOfItems | plugins.v2/p115strmhelpertest/helper/monitor.py:237-248 | items separated by "," or "，" give exactly those items, trimmed and each with a leading "." |
| Monitor.Classify | plugins.v2/p115strmhelpertest/helper/monitor.py:261-290 | the upload kind is only chosen with a remote destination and the copy kind only with a local one |
| Monitor.UploadBeforeCopy | plugins.v2/p115strmhelpertest/helper/monitor.py:261-273 | an extension in both lists is uploaded, and a file with no suffix matches neither list |
| Monitor.ExcludedCreatesNothing | plugins.v2/p115strmhelpertest/helper/monitor.py:156-168 | recycle bins, hidden paths, @eaDir and BDMV/STREAM paths in any case never become tasks |
| Monitor.InsertCreatedIff | plugins.v2/p115strmhelpertest/helper/monitor.py:261-306 | a row is inserted exactly when the kind has a destination, the insert raises nothing and the path is free |
| Monitor.DedupCreatedIff | plugins.v2/p115strmhelpertest/helper/monitor.py:190-306 | from the fingerprint on, a row is created exactly when the pair is not in the history, the path is not queued, a configuration matches and the insert succeeds |
| Monitor.CreatedIff | plugins.v2/p115strmhelpertest/helper/monitor.py:120-317 | a file becomes a task exactly when it exists, passes the screens, is stable, is in neither history nor queue, has a configuration and a destination for its kind, and its path is free |
| Monitor.DuplicatesCreateNothing | plugins.v2/p115strmhelpertest/helper/monitor.py:190-203 | a pair already in the history, or a path already pending or processing, creates nothing |
| Monitor.InsertCreates | plugins.v2/p115strmhelpertest/helper/monitor.py:296-306 | a created row is exactly the row create_task appends |
| Monitor.CreatedRowShape | plugins.v2/p115strmhelpertest/helper/monitor.py:296-306 | a created row is pending, carries the first matching entry's settings, and only the destination of its own kind, never an empty one; its stored fingerprint matches the monitor's |
| Monitor.CreatedViaInsert | plugins.v2/p115strmhelpertest/helper/monitor.py:214-306 | a created row comes from the first matching entry, with a kind that has a destination |
| Monitor.EnqueueKeepsWellFormed | plugins.v2/p115strmhelpertest/helper/monitor.py:296-306 | enqueueing keeps the queue table well formed |
| Monitor.RecordedFileNotRequeued | plugins.v2/p115strmhelpertest/helper/monitor.py:178-196 | once the history holds a created task's stored fingerprint and size, the same file is never queued again |
| Monitor.PastScreens | plugins.v2/p115strmhelpertest/helper/monitor.py:146-174 | a file that passes the screens and the stability check goes on to the duplicate checks |
| Monitor.EnqueueFile | plugins.v2/p115strmhelpertest/helper/monitor.py:120-317 | the history is only read; the queue gains the created row and nothing else, as the specification function says, and the next id advances by one exactly when a task is created |
| Monitor.DedupAndInsert | plugins.v2/p115strmhelpertest/helper/monitor.py:178-306 | the fingerprint, duplicate checks, configuration and insert compute the specification function's outcome |
| Monitor.InsertClassified | plugins.v2/p115strmhelpertest/helper/monitor.py:237-306 | the extension check and create_task compute the specification function's outcome |
| StrmFull.ExtSet | plugins.v2/p115strmhelpertest/helper/strm/full.py:53-60 | every extension in the set is non-empty and starts with "." |
| StrmFull.ExtSetOfItems | plugins.v2/p115strmhelpertest/helper/strm/full.py:53-56 | items separated by "," or "，" give exactly the set of those items, trimmed, each with a leading "." |
| StrmFull.CapitalExtensionNeverMatches | plugins.v2/p115strmhelpertest/helper/strm/full.py:53-56 | the set keeps the case of the setting while the suffix is lower-cased, so an extension written with a capital letter never matches |
| StrmFull.Kept | plugins.v2/p115strmhelpertest/helper/strm/full.py:196 | ancestors[1:-1]: all but the first and last ancestor, in order, none when there are fewer than two |
| StrmFull.Names | plugins.v2/p115strmhelpertest/helper/strm/full.py:197 | one name per kept ancestor |
| StrmFull.PickcodeOf | plugins.v2/p115strmhelpertest/helper/strm/full.py:219 | the pickcode falls back from "pickcode" to "pick_code" to "" |
| StrmFull.FileRecordOf | plugins.v2/p115strmhelpertest/helper/strm/full.py:212-224 | a file record carries the item's id and its pickcode with the fallback |
| StrmFull.FoldAncestorsFrame | plugins.v2/p115strmhelpertest/helper/strm/full.py:196-209 | the folder pass only appends folder rows and grows the seen folder ids; files are untouched |
| StrmFull.ProcessItem | plugins.v2/p115strmhelpertest/helper/strm/full.py:193-226 | one pass of the loop body computes the specification step for one item |
| StrmFull.ProcessDbItem | plugins.v2/p115strmhelpertest/helper/strm/full.py:184-233 | the nested loops compute exactly the rows and the seen sets the specification function describes |
| StrmFull.EachIdWrittenOnce | plugins.v2/p115strmhelpertest/helper/strm/full.py:196-226 | within a batch no file id and no folder id is written twice, none that the seen sets already held, and the seen sets only grow and hold every id written |
| StrmFull.BatchesWriteDisjointIds | plugins.v2/p115strmhelpertest/helper/strm/full.py:196-226 | two batches of a run, the second given the sets the first returned, write no file id and no folder id in common |
| StrmFull.SeenSetsReturned | plugins.v2/p115strmhelpertest/helper/strm/full.py:209-233 | the returned sets are the given ones plus the id of every item and of every kept ancestor |
| StrmFull.FolderPathOfChild | plugins.v2/p115strmhelpertest/helper/strm/full.py:197-198 | the first kept ancestor's path is "/" and its name; each next one extends the previous by "/" and its name |
| StrmFull.RowsComeFromBatch | plugins.v2/p115strmhelpertest/helper/strm/full.py:196-226 | every folder row is some item's kept ancestor with its path, and every file row is the record of some item |
| StrmFull.NewIdsGetRows | plugins.v2/p115strmhelpertest/helper/strm/full.py:196-226 | every item and kept ancestor whose id was not seen before gets a row |
| StrmFull.Keys | plugins.v2/p115strmhelpertest/helper/strm/full.py:296 | the dictionary the key check sees holds exactly the keys the item has |
| StrmFull.EntryPickcode | plugins.v2/p115strmhelpertest/helper/strm/full.py:481-485 | the pickcode falls back from "pickcode" to "pick_code" to "" |
| StrmFull.Stem | plugins.v2/p115strmhelpertest/helper/strm/full.py:307 | the stem followed by the suffix gives back the name |
| StrmFull.Locate | plugins.v2/p115strmhelpertest/helper/strm/full.py:298-336 | a missing key or failing relative_to is a failure reported with the item's text; a located item is a file below the media directory whose target is target_dir joined with its relative path and whose STRM path is derived from it |
| StrmFull.IncompleteItemFails | plugins.v2/p115strmhelpertest/helper/strm/full.py:309-322 | an item missing a required key fails with the missing-key message, reported with the item's text, and queues nothing |
| StrmFull.DirsAndOutsidersIgnored | plugins.v2/p115strmhelpertest/helper/strm/full.py:298-303 | a directory, or an item outside the media directory, gives no result and no job |
| StrmFull.StrmNameParts | plugins.v2/p115strmhelpertest/helper/strm/full.py:307 | the STRM name's suffix is ".strm" and its stem is the media file's stem |
| StrmFull.StrmPathShape | plugins.v2/p115strmhelpertest/helper/strm/full.py:304-308 | the STRM path is in the media file's directory, named by its stem and ".strm" |
| StrmFull.DecideStrm | plugins.v2/p115strmhelpertest/helper/strm/full.py:439-515 | past the location, an STRM job is queued exactly when every check before the pickcode passes and the pickcode is valid; the result is submitted and names the path when remove_unless_strm is on |
| StrmFull.StrmQueuedExactly | plugins.v2/p115strmhelpertest/helper/strm/full.py:287-530 | an STRM job is queued exactly when the item is located, passes every check and has a 17-character alphanumeric pickcode; its target is the STRM path below target_dir |
| StrmFull.StrmTargetPath | plugins.v2/p115strmhelpertest/helper/strm/full.py:304-308 | the queued STRM file is target_dir joined with the relative path, its last component replaced by the stem and ".strm" |
| StrmFull.JoinedStrmPath | plugins.v2/p115strmhelpertest/helper/strm/full.py:304-308 | joining a relative path and turning its last component into an STRM name keeps the directories and the stem |
| StrmFull.BadPickcodeFails | plugins.v2/p115strmhelpertest/helper/strm/full.py:493-503 | a missing or malformed pickcode fails the item, naming the STRM path, with the matching message |
| StrmFull.DecideDownload | plugins.v2/p115strmhelpertest/helper/strm/full.py:350-423 | a media-information file with automatic download on never gets an STRM job; a download result means the lists allowed it and it has a pickcode |
| StrmFull.DownloadsOnlyMediainfo | plugins.v2/p115strmhelpertest/helper/strm/full.py:350-423 | from the item: a media-information file with automatic download on is never queued for STRM, and a download is only handed over when allowed and with a pickcode |

## Left out

- SQLAlchemy and SQLite machinery. The tables are in-memory sequences of rows.
  - Not modelled: engine creation, PRAGMAs, the session factory, `get_db` and the Alembic migration.
  - Each store method is modelled as if it receives a bound session. The Findings section shows why the code as written does not bind one.
- Concurrency.
  - The monitor's per-path lock is not modelled; `enqueue_file` is treated as one sequential call.
  - The full-sync writer and collector threads and thread pools are not modelled.
  - The database upsert of the collected rows is not modelled: `__process_db_item` returns the rows it would upsert.
- Clocks and sleeps. "Now" is a parameter everywhere.
  - `is_file_stable` takes the two samples as inputs.
  - The back-off delays of `db_update` and `make_request` are not modelled.
- The file system is a set of file paths and a set of directory paths (`Paths.Fs`).
  - `Path.exists`, `stat`, `unlink`, `rmtree`, `mkdir` and `SystemUtils.list_files` act on that set.
  - In `_do_copy`, whether the parent `mkdir` or `SystemUtils.copy` raises, and with what type and text, is an oracle in `Processor.Backend`. Such an exception becomes a "复制异常" result.
  - Every other OS error those operations can raise is not modelled: the model's operations always succeed there.
- The remote storage is an oracle in `Processor.Backend`: whether a remote call in `_do_upload` raises (and with what), whether creating a remote directory fails, and whether `upload_file` succeeds. So is the result of `SystemUtils.copy` in `_do_copy`.
- Processor.DoUpload: the texts of the TypeError and ValueError that Python raises are inputs, not derived from Python's own wording. The same holds for the ValueError text in Processor.DoCopy.
- Processor.UploadQueueProcessor.ProcessOneTask: a raising store call is named by a fault index in the environment, not raised. At most one call raises per run.
- Monitor.EnqueueFile: the same fault index stands for the store call that raises. Any other exception inside `enqueue_file` (for example `stat` failing after the stability check) is not modelled separately.
- Python's Unicode string semantics. Everything is ASCII only:
  - `lower`, `upper`, `strip` and `split` whitespace, and `isalnum`;
  - the case-insensitive `BDMV[/\\]STREAM` search.
  - StrmFull.BadPickcodeFails: a pickcode of 17 non-ASCII alphanumeric characters, which Python's `isalnum` accepts, is treated as malformed.
- `int()` on strings accepts an optional sign and decimal digits. Surrounding ASCII whitespace is stripped, as `int()` does. Underscores are not modelled.
- `PurePosixPath` parsing: the special case of a path that starts with exactly two slashes is not modelled.
- Cron.FixExpressionFields: validation through apscheduler is not modelled. Neither are `validate_cron_expression` and `is_valid_cron`, which only call the library.
- The Redis backends are not modelled: `RedisCacheDirectory`, `RedisStorage` and the Redis variant of `DirectoryCache`.
- LRU eviction and TTL expiry in the caches are not modelled: each cache holds what was last written. `PanTransferCache` and `LifeEventCache` only hold plain containers and are not modelled.
- Cache.BatchGetSpec: the JSON serialisation of the `batch_get` result is not modelled. The result is the map from each requested key to its Base64 text, or None for a key that is not stored.
- Cache.BatchSetSpec: `base64.b64decode` is a parameter `decode`. Python's standard Base64 decoder is not part of this model; the project's own `Base64` module models the plugin's codec, a different one.
- The keyword automatons are maps from lower-cased keyword to the original keyword. Of the automaton's internals, only the order in which matches are reported is modelled.
- OopServer.DecryptString: the Base64 and UTF-8 decoding of the encrypted address is a parameter.
- OopServer.MakeRequest: the request headers, the keyword arguments and the HTTP session are parameters.
- OopServer.CheckFeature: the parsing of the `MachineIDFeature` response is a parameter.
- Paths.RemoveParentDir: `SystemUtils.exits_files` is not part of this model. An extension list is given as the set of file paths its pattern matches, and `exits_files` as "the directory exists and a matching file lies below it".
- `PathRemoveUtils.clean_related_files` is not modelled. It deletes sidecar files through file-system calls only and is outside the modelled core.
- The tree file of `TxtFileStorage` is the storage's text, or None while the file does not exist. Encoding and I/O errors are not modelled. Lines end only at "\n"; a lone "\r", which Python's universal newlines also treat as a line end, is not modelled.
- `DirectoryTree.scan_directory_to_tree` walks the real file system and is not modelled.
- StrmFull.FileRecordOf: the `extra` column, the item serialised as JSON, is not modelled. A file row carries the other columns only.
- StrmFull.DecideStrm: `StrmGenerater.should_generate_strm` is an oracle parameter.
  - The STRM URL from `get_strm_url` is not built; the queued job records the pickcode and the file name instead.
  - The generic exception branch of `__process_single_item` (an error while queuing) is not modelled.
- Other full-sync code is not modelled: the database generation driver, the removal-threshold percentage (floating point) and `is_stable_cv`.
- Cookie.FromString: `KID`, declared `Optional[str]` with no default, is read as optional (pydantic 1 semantics). Pydantic 2 would require it. Pydantic's coercion of non-string values is not modelled.
- Logging is not modelled anywhere, including the MB formatting of sizes in log lines.

## Findings

| source | as written | input that shows it | evidently intended | confidence | as-written member | corrected member |
|---|---|---|---|---|---|---|
| plugins.v2/p115strmhelpertest/db_manager/__init__.py:211-222 | `update_args_db` puts the new session at index 1 of the positional arguments, or nowhere when there are none. The store methods are static and take `db` first, and they are called without a session. | `UploadQueue.mark_as_processing(task.id)` binds the task id to `db` and the session to `task_id`. A keyword-only `UploadQueue.create_task(file_path=..., ...)` leaves `db` unbound. | the session is bound to the leading `db` parameter, and the other arguments keep their order | not executed | DbManager.MarkAsProcessingMisbound | DbManager.BindLeadingSessionBinds |
