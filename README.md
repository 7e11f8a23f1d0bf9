# WY_IniMgr in-memory engine, in Dafny

WY_IniMgr is a small C library that reads an INI-style file into a single buffer. It looks up
`key = value` lines in that buffer, rewrites values in place and saves the buffer back. This
project models the in-memory engine of the library and proves its properties:

- `struct S_wyini_buffer` is the class `IniDefs.IniBuffer`. Its fields are the capacity
  `m_max_file_size`, the logical length `m_buffer_len`, the content array `m_buffer` and the
  value scratch array `m_val_buffer` of `WYINI_MAX_VAL_LEN` = 128 bytes. A `null` array stands
  for a NULL pointer.
- Line scanning and key matching (`wyini_get_nextline`, `wyini_find_var_val_inline`) are the
  module `IniParse`. Each is a method with loops over the buffer, proved against a function on
  the content (`LineAt`, `MatchLine`).
- Trimming and the in-place rewrite (`wyini_remove_ending_whitespace`,
  `wyini_write_val_inline`) are the module `IniWrite`. The rewrite shifts the tail of the array
  with a verified `memmove` and is proved against the function `Rewrite`.
- The public operations (`wyini_init`, `wyini_clean`, `wyini_open`, `wyini_save`,
  `wyini_get_var_val`, `wyini_write_val`) are the module `IniMgr`. Lookup and update scan the
  content line by line from offset 0, and the first line that assigns the key wins. `Lookup`
  and `Update` state that behaviour as functions of the content. `GetVarVal` and `WriteVal`
  run the scan over the buffer and are proved against those functions.
- The lemmas about `Lookup` and `Update` cover:
  - first-match-wins;
  - agreement of the two operations on absence;
  - lookup after update returns the written value;
  - update is idempotent.
- The module `IniScenarios` holds lemmas that state the model's results on concrete contents. It also shows, for each
  defect listed under "## Findings", the difference between the source as written and the
  corrected behaviour.

The line convention is the one the header documents (`src/WY_IniParseAgent.h:13-21`). A line
is described by its first byte, its last content byte `end` (start - 1 for an empty line) and
the width of its terminator: 1 for `"\n"`, 2 for `"\r\n"`, 0 when the content ends first. The
body of `wyini_get_nextline` in `src/WY_IniParseAgent.c:5-18` disagrees with this:

- it returns `void`;
- it leaves `end` on the `'\n'` itself;
- it never looks at `'\r'`.

Its callers (`src/WY_IniMgr.c:86,124`) nevertheless use its result as the terminator width.
The model keeps the loop of the `.c` file, which finds the first `'\n'`. It reports the line
as the header says, because that is the only reading under which the callers'
`end + width + 1` step is meaningful. `(tmp=0)` in that loop is an assignment, so a NUL byte
does not end a line, and the model treats NUL as an ordinary byte.

## Model

| member | source | states |
|---|---|---|
| IniDefs.IniBuffer.constructor | src/WY_IniMgr.c:13 | the static buffer starts in the clean state: sizes 0, both pointers NULL |
| IniParse.NextNewline | src/WY_IniParseAgent.c:10-17 | the scan stops at an index between start and the content length; below the length that byte is a newline |
| IniParse.NextNewlineSkips | src/WY_IniParseAgent.c:11-15 | no byte the scan walks over before stopping is a newline |
| IniParse.NextNewlineLands | src/WY_IniParseAgent.c:11-17 | any index that has no newline before it and is the end or a newline is where the scan stops (the first newline, or the end) |
| IniParse.LineAt | src/WY_IniParseAgent.h:13-21 | the documented line: end is at least start - 1 and below the length; width 0 means end is the last byte of the content; width 1 or 2 means "\n" or "\r\n" follows end; the next line starts after the terminator and within the content |
| IniParse.LineAtHasNoNewline | src/WY_IniParseAgent.c:11-15 | no newline lies inside a line before its own terminator, and a line without a terminator has no newline up to the end of the content, so a line ends at the first newline after its start |
| IniParse.GetNextline | src/WY_IniParseAgent.c:5-18 | the loop over the buffer returns exactly the end and terminator width of LineAt on the content |
| IniParse.SkipSpaces | src/WY_IniParseAgent.c:44-49 | the skip loop stops at or after i, not past the bound, and on a non-space when below the bound |
| IniParse.SkipSpacesSkips | src/WY_IniParseAgent.c:44-49 | every byte the skip loop passes is a space |
| IniParse.SkipSpacesLands | src/WY_IniParseAgent.c:44-49 | the skip loop stops at the first non-space below the bound (uniqueness of the stop) |
| IniParse.MatchLine | src/WY_IniParseAgent.c:22-57 | a match lies past the key and at most one past the line end; in value mode it lies on a non-space byte inside the line; key-only mode never reports a key without value |
| IniParse.AssignsAtIsFirstNonSpace | src/WY_IniParseAgent.c:27-37 | a line assigns the key with its '=' at eq exactly when eq is the first non-space after the key, inside the line, and holds '=' |
| IniParse.MatchLineMeaning | src/WY_IniParseAgent.h:24-33 | no match exactly when the line does not assign the key; key-only mode returns the offset just past '='; value mode returns KeyNoValue exactly when only spaces follow '=' and otherwise the first non-space after '=' |
| IniParse.KeyEquals | src/WY_IniParseAgent.c:24-25 | the comparison loop returns true exactly when the bytes at start are the key |
| IniParse.FindVarValInline | src/WY_IniParseAgent.c:22-57 | the matcher's loops over the buffer return exactly MatchLine on the content, and change nothing |
| IniParse.MatchLineAsWritten | src/WY_IniParseAgent.c:22-57 | the matcher with the source's exclusive loop bounds: never KeyNoValue; a match lies past the key and at most one past the end; in value mode it lies strictly before end on a non-space byte |
| IniWrite.TrimEnd | src/WY_IniWriteAgent.c:9-15 | the trimmed end lies between start and end, and is start or a non-space byte |
| IniWrite.TrimEndDropsSpaces | src/WY_IniWriteAgent.c:12-13 | every byte after the trimmed end, up to end, is a space |
| IniWrite.RemoveEndingWhitespace | src/WY_IniWriteAgent.c:9-15 | the trim loop over the buffer returns exactly TrimEnd on the content and changes nothing |
| IniWrite.Rewrite | src/WY_IniWriteAgent.c:19-42 | fails (MemoryErr) exactly when the value is longer than the space and the grown length reaches the capacity; otherwise the new content is the old prefix, then v, then the old suffix after end, with the length changed by the difference and kept below the capacity |
| IniWrite.RewriteSame | src/WY_IniWriteAgent.c:24-29 | writing the bytes a value already holds, at equal length, leaves the content unchanged |
| IniWrite.RewriteAsWritten | src/WY_IniWriteAgent.c:32-39 | as written, a successful grow keeps the old content length |
| IniWrite.AsWrittenGrowTruncates | src/WY_IniWriteAgent.c:37-38 | as written, a successful grow is the corrected result cut back to the old length, and the corrected result is longer, so bytes are lost |
| IniWrite.Memmove | src/WY_IniWriteAgent.c:26 | the n bytes at dst become the old n bytes at src, even when the ranges overlap; all other bytes are unchanged |
| IniWrite.Memcpy | src/WY_IniWriteAgent.c:29 | the bytes at dst become v; all other bytes are unchanged |
| IniWrite.WriteValInline | src/WY_IniWriteAgent.c:19-42 | the in-place rewrite leaves exactly the content Rewrite describes, with m_buffer_len raised or lowered to match; on failure it returns Rewrite's status and leaves the buffer and its length untouched |
| IniMgr.FindLine | src/WY_IniMgr.c:85-101 | the line the scan stops at starts inside the content, at or after where the scan began |
| IniMgr.NoLineStartInside | src/WY_IniMgr.c:100 | no line starts strictly inside the current line, and the next line starts at end + width + 1 (or the scan is at the end) |
| IniMgr.FindLineFirstMatch | src/WY_IniMgr.c:85-101 | first match wins: the scan returns a line start that matches, before which no line matches; when it returns nothing, no line matches at all |
| IniMgr.ScanStep | src/WY_IniMgr.c:100 | after a line that does not match, the next scan position is a line start (or the end) and no line before it matches |
| IniMgr.ScanSkips | src/WY_IniMgr.c:85-101 | when no line before n matches, the scan from any earlier line start reaches the same result as the scan from n |
| IniMgr.NoMatchEitherMode | src/WY_IniParseAgent.c:39-56 | a line fails to match in key-only mode exactly when it fails to match in value mode |
| IniMgr.ValueOf | src/WY_IniMgr.c:90-96 | the reported value is exactly the bytes from the value's first byte to the line's last non-space byte, so only spaces follow it on the line; it is non-empty, shorter than 128 bytes and has no leading or trailing space; the result is NotFound exactly when that trimmed value is 128 bytes or more, never a truncated value |
| IniMgr.Lookup | src/WY_IniMgr.c:69-104 | lookup succeeds only with a non-empty, trimmed value shorter than 128 bytes; it fails only with NotFound or ValNotFound |
| IniMgr.Update | src/WY_IniMgr.c:108-131 | update fails only with MemoryErr or NotFound; a value of 128 bytes or more always fails with MemoryErr; a success had a value shorter than 128 bytes and keeps the content below the capacity |
| IniMgr.NotFoundAgree | src/WY_IniMgr.c:85-130 | the lookup scan finds nothing exactly when no line assigns the key; update fails with NotFound exactly then; lookup then fails with NotFound |
| IniMgr.MatchLineAgree | src/WY_IniParseAgent.c:22-57 | matching a line reads nothing beyond its last content byte: contents that agree up to there match alike |
| IniMgr.PrefixMatches | src/WY_IniMgr.c:85-101 | contents that agree on a prefix ending at a line start scan that prefix alike |
| IniMgr.FirstAssignment | src/WY_IniMgr.c:123-126 | the line the update scan stops at assigns the key, with its '=' just before the offset written to, and is the first such line |
| IniMgr.UpdateTarget | src/WY_IniMgr.c:108-131 | a successful update replaced everything after the '=' of the first assigning line, up to its terminator, by v |
| IniMgr.UpdateLine | src/WY_IniMgr.c:123-126 | a successful update rewrote the line the key-only scan stops at, from the match offset to the line end |
| IniMgr.RewriteSite | src/WY_IniWriteAgent.c:19-42 | after such a rewrite with a value that holds no newline and does not end in '\r', the line keeps its start and terminator, holds exactly v after its '=', still assigns the key, and both scans stop at it |
| IniMgr.LookupAtSite | src/WY_IniMgr.c:85-94 | looking a readable value up at such a line returns exactly that value |
| IniMgr.SiteHoldsValue | src/WY_IniMgr.c:123-126 | at such a line the key-only scan finds the offset just past '=', and the bytes from there to the line end are v |
| IniMgr.UpdateInPlace | src/WY_IniWriteAgent.c:24-29 | writing, at the line the update scan stops at, the bytes already there leaves the content unchanged |
| IniMgr.LookupAfterUpdate | src/WY_IniMgr.c:69-131 | after a successful write_val(key, v), get_var_val(key) returns v, for any non-empty v that holds no newline, does not end in '\r' and has no leading or trailing space |
| IniMgr.UpdateIdempotent | src/WY_IniMgr.c:108-131 | writing the same value twice gives the same content as writing it once, for any v that holds no newline and does not end in '\r' |
| IniMgr.LookupFound | src/WY_IniMgr.c:88-98 | the line the lookup scan stops at decides the result: ValNotFound for a key without value, the trimmed value from the match offset otherwise |
| IniMgr.UpdateFound | src/WY_IniMgr.c:125-126 | the line the update scan stops at has a key-only match inside it, and the update is the rewrite from that offset to the line end |
| IniMgr.Init | src/WY_IniMgr.c:16-22 | all fields are zero or NULL |
| IniMgr.Clean | src/WY_IniMgr.c:53-65 | from any state, all fields end zero or NULL (so cleaning twice is cleaning once) |
| IniMgr.Open | src/WY_IniMgr.c:26-40 | succeeds exactly when the file is readable, 1 to max - 1 bytes long, and the scratch area is allocated; then the content is the file and the capacity is max; every failure is MemoryErr, whose code is -1, and leaves the clean state |
| IniMgr.Save | src/WY_IniMgr.c:44-49 | with no buffer or at most one byte of content, MemoryErr and nothing is handed to the sink; otherwise the whole content is handed over |
| IniMgr.CopyValue | src/WY_IniMgr.c:92-93 | the scratch area holds the n value bytes followed by a 0; the content is unchanged |
| IniMgr.ReportValue | src/WY_IniMgr.c:90-96 | a value shorter than 128 bytes is copied with its terminating 0 and Ok is returned; otherwise NotFound |
| IniMgr.ScanLines | src/WY_IniMgr.c:85-101 | the loop over the buffer reaches the end exactly when FindLine finds nothing, and otherwise stops at FindLine's line with its end and match |
| IniMgr.GetVarVal | src/WY_IniMgr.c:69-104 | MemoryErr without a buffer; otherwise Lookup's status, with a found value and a 0 in the scratch area; the content never changes |
| IniMgr.WriteVal | src/WY_IniMgr.c:108-131 | MemoryErr without a buffer; otherwise the new content and status are Update's; a failure leaves buffer and length untouched |
| IniMgr.FindLineAsWritten | src/WY_IniMgr.c:85-101 | the scan with the as-written matcher stops inside the content |
| IniMgr.LookupAsWritten | src/WY_IniMgr.c:69-104 | as written, lookup fails only with NotFound: the ValNotFound branch is never taken |
| IniMgr.UpdateAsWritten | src/WY_IniMgr.c:108-131 | as written, update fails only with MemoryErr or NotFound |
| IniScenarios.LookupTrimsAndHandlesCrLf | src/WY_IniMgr.c:85-94 | "A = 1 \r\nB=2\n": A is "1" (spaces and "\r\n" dropped) and B is "2" |
| IniScenarios.LookupSkipsLongerKey | src/WY_IniParseAgent.c:27-37 | in "VAR_2=2\nVAR=1\n", VAR is "1": VAR does not match VAR_2 |
| IniScenarios.LookupKeyWithoutValue | src/WY_IniParseAgent.c:44-56 | in "A=  \nB=2\n", A has no value: ValNotFound |
| IniScenarios.UpdateBeyondCapacity | src/WY_IniWriteAgent.c:32-35 | growing "A=1\n" by one byte fails with MemoryErr at capacity 5 and succeeds at capacity 6 |
| IniScenarios.GrowAsWritten | src/WY_IniWriteAgent.c:32-39 | as written, growing "A=123\nB=4\n" to "99999" loses "4\n"; corrected, the content is "A=99999\nB=4\n" |
| IniScenarios.LastByteAsWritten | src/WY_IniParseAgent.c:44-56 | as written, VAR in "VAR=1\nVAR_2=2\n" is NotFound; corrected, "1" |
| IniScenarios.EqualsLastAsWritten | src/WY_IniParseAgent.c:28-42 | as written, writing 5 to VAR in "VAR=\n" overwrites the '=' ("VAR5\n"); corrected, "VAR=5\n" |
| IniScenarios.NoEqualsAsWritten | src/WY_IniParseAgent.c:28-42 | as written, writing 2 to VAR in "VAR\nVAR=1\n" writes into the line without '='; corrected, "VAR\nVAR=2\n" |
| IniScenarios.EmptyValueAsWritten | src/WY_IniMgr.c:97-98 | as written, A in "A=\nA=55\n" is "55" from the second line; corrected, ValNotFound from the first |

## Left out

- File I/O: `wyini_read_file`, `wyini_save_file` and `fopen`/`fread`/`fwrite` are not part of
  this model. `Open` takes the file content as a parameter (`None` for a file that cannot be
  opened or read). `Save` models its guard and hands the content to the sink, whose success is
  a parameter.
- `malloc` and `free` are not modelled: a `new` array stands for a successful allocation, and
  the scratch-area allocation outcome is a parameter of `Open`. The content array is given the
  capacity `m_max_file_size`, as `src/WY_IniIO.h:25` documents. `src/WY_IniIO.c:22` allocates
  only `m_buffer_len` bytes.
- Open: its size bound is the struct invariant (1 to max - 1 bytes, `src/WY_IniDefs.h:22`).
  `src/WY_IniIO.c:16` also admits a file of exactly max bytes.
- Open: read failures are -1, which is `WYINI_MEMORY_ERR`, as the code returns. `WYINI_IO_ERR`
  is never produced.
- The process-wide singleton `m_wyini_buffer` is one `IniBuffer` object passed to every
  operation. Concurrency is out of scope.
- `*p_val = m_val_buffer` (the pointer `wyini_get_var_val` hands back) is not modelled. The
  value is stated on the scratch array itself.
- C strings: keys and values are `seq<char>` with no embedded NUL, and the key length is the
  sequence length (`strlen`).
- strncmp: the key comparison is confined to the line (`start + |key| <= end + 1`). For a key
  without `'\n'` and `'\r'` this agrees with `strncmp` on the buffer. A comparison that would
  run past the end of the buffer is out of scope.
- Integer width: offsets are unbounded naturals. For an empty first line, the source computes
  `end = start - 1` in `unsigned int`, which wraps around at offset 0. The model keeps `end` as
  the integer -1.
- Unreachable branches: the `NoMatch` cases inside `Lookup`, `Update`, `LookupAsWritten` and
  `UpdateAsWritten` return NotFound. They cannot be reached, because the scan stops only at a
  matching line.
- Helper operations introduced by the model: `KeyEquals` (the `strncmp`), `CopyValue` (the
  `memcpy` and the terminating 0) and `ReportValue` (the found-value branch). `ScanLines` is
  the one line loop that `wyini_get_var_val` and `wyini_write_val` share.
- IniWrite.WriteValInline: does not state the byte just after the content, which the source's
  `memmove` also moves (it copies `m_buffer_len - end` bytes).

## Findings

| source | as written | input that shows it | evidently intended | confidence | as-written member | corrected member |
|---|---|---|---|---|---|---|
| src/WY_IniWriteAgent.c:37-38 | the grow branch moves the tail and writes the value but never raises m_buffer_len | "A=123\nB=4\n", rewrite "123" by "99999" | m_buffer_len grows by the extra bytes, as the shrink branch lowers it at line 27 | high, not executed | IniScenarios.GrowAsWritten | IniWrite.WriteValInline |
| src/WY_IniParseAgent.c:44-51 | the value loops stop below the line end, which is the last content byte, so a value whose only non-space byte is the last byte of its line is rejected | "VAR=1\nVAR_2=2\n", lookup VAR | the line end is inclusive, as the write agent treats it | high, not executed | IniScenarios.LastByteAsWritten | IniParse.MatchLineMeaning |
| src/WY_IniParseAgent.c:28-42 | in key-only mode, an '=' that is the last byte of its line is never consumed, and the returned offset points at the '=' | "VAR=\n", write 5 to VAR | the offset just past '=' | high, not executed | IniScenarios.EqualsLastAsWritten | IniParse.MatchLineMeaning |
| src/WY_IniParseAgent.c:28-42 | in key-only mode, a line that holds only the key (no '=') is accepted | "VAR\nVAR=1\n", write 2 to VAR | only a line with key, spaces and '=' matches | high, not executed | IniScenarios.NoEqualsAsWritten | IniMgr.FirstAssignment |
| src/WY_IniParseAgent.c:56 | an empty right-hand side returns -1, which the caller reads as no match; the WYINI_VAL_NOT_FOUND branch at src/WY_IniMgr.c:97 is never taken | "A=\nA=55\n", lookup A | ValNotFound for the first assignment of A | high, not executed | IniScenarios.EmptyValueAsWritten | IniMgr.LookupFound |
