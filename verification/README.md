# T113 persistence, logging and parsing core in Dafny

This project models the parts of the T113 LVGL firmware that carry logic of
their own, written in C in the original, and proves what they promise.

- **Atomic store** (`app7/file/file/file_atomic.c`).
  - Each value is a blob: a 16-byte header `{magic 0x46535452, version 1, length, crc32}` and then the payload.
  - A write goes to `path.tmp`. The old `path` becomes `path.bak`, then `path.tmp` is renamed over `path`.
  - A read validates the blob and falls back to `path.bak`.
  - The checksum is the reflected CRC-32 of ISO-HDLC / IEEE 802.3. This is the algorithm of the sample code in section 8 of RFC 1952.
- **RAM ring log** (`app7/file/SQL/ram_log.c`). A 512-slot circular buffer with:
  - newest-first read-back into a bounded buffer;
  - oldest-first export to a file;
  - clear and statistics.
- **Rotating text log** (`app7/file/SQL/text_log.c`).
  - Lines are appended through a 4 KB coalescing buffer.
  - The live file rotates along `system.log -> .1 -> ... -> .N` once it would outgrow its size limit.
  - The buffer is written out when 30 seconds have passed since the last flush.
- **Log router** (`app7/file/SQL/system_log.c`). It provides:
  - name tables with an "UNKNOWN" default;
  - the minimum-level filter;
  - the level-to-backend dispatch;
  - entry formatting;
  - idempotent init/deinit over the two back ends above.
- **wpa_supplicant client** (`app7/wifi/wpa_manager.c`). Two pieces:
  - the parser that turns a `SCAN_RESULTS` reply into the caller's array of scan records;
  - the classifier that turns a `STATUS` reply into a connection state.
- **HTTP helpers** (`app7/net/http_manager.c` and `component/net/http_manager.c`):
  - URL assembly;
  - the curl write callback that grows the response buffer;
  - the handling of `last_update`: the date, the time and the weekday by Zeller's congruence, in both variants.

Modules, one per file:

| module | file | role |
|---|---|---|
| `Common` | `common.dfy` | Option, byte strings, C strings, decimal digits |
| `Files` | `files.dfy` | the file system: a class holding a map from path to contents |
| `Crc32` | `crc32.dfy` | the checksum, as a function and as the nested loop of `crc32_calc` |
| `FileAtomic` | `file_atomic.dfy` | the atomic store |
| `RamLog` | `ram_log.dfy` | the ring log: a class over a 512-entry array |
| `TextLog` | `text_log.dfy` | the rotating text log: a class with the 4 KB buffer as an array |
| `SystemLog` | `system_log.dfy` | the router: a class owning a text log and a ring log |
| `CText` | `ctext.dfy` | `strchr`, `atoi`, `sscanf` `%d`, `printf` `%0<w>d`, and C's truncating `/` and `%` |
| `WpaScan` | `wpa_scan.dfy` | the `SCAN_RESULTS` parser and the `STATUS` classifier |
| `Http` | `http.dfy` | URL assembly, the response buffer, the weekday and `last_update` handling |

Code that changes state in place is modelled as imperative Dafny: classes with `modifies` clauses, arrays and loops with invariants.
- Each such method is proved against a specification function of the old state.
- The promises of the source are then proved as lemmas about those functions.
- Faults that come from outside the program are explicit parameters of the methods that meet them. A failing `open`, `rename` or `realloc` is a boolean. A text-log rotation takes a `RotateFaults` record: the generation renames that fail, whether the live file's rename fails, and whether the reopen fails.
- The text log keeps a ghost history `written`: the lines `text_log_write` returned 0 for. The router's contracts are stated on it.
- The clock is a parameter `now`.

Where the code and its documentation differ, the model follows the code:
- `text_log_rotate` with `max_file_count == 0` still renames the live file to `system.log.1`. The renaming loop starts at `-1` and does nothing, but the final rename of the live file still runs. So "no generation beyond `.N`" holds only for `N >= 1`.
- With `max_file_count` of `2^31 + 1` or more, `int i = max_file_count - 1` wraps to a negative number. The renaming loop then shifts no generation: `path.N` is removed, and the live file still replaces `path.1`. So the shifting holds only for `1 <= N <= 2^31 - 1`.
- `file_write_string` stores `strnlen(str, max_len) + 1` bytes. For a string longer than `max_len`, those bytes are its first `max_len + 1` characters, with no terminator.
- `ram_log_read_latest` returns `read_count`, not the number of lines it rendered.
- `text_log_rotate` ignores the result of each `rename`. When renaming the live file to `system.log.1` fails but the reopen works, the old file is reopened in append mode while `g_current_file_size` restarts at 0. The counter then undercounts the live file, and the next rotation comes late.
- `file_atomic_write` builds `path.tmp` and `path.bak` with `snprintf` into 256-byte arrays and never checks the path's length. The round trip holds for paths of at most 251 characters; see "Findings".
- A scan line that is rejected (fewer than four fields) still leaves its partial parse in `results[count]`. The slot is not counted, and the next accepted line overwrites it.

## Model

| member | source | states |
|---|---|---|
| Files.RenameIn | app7/file/file/file_atomic.c:101-108 | `rename` moves the source's contents to the destination and removes the source; a missing source changes nothing; every other path is untouched |
| Files.FileSystem.Exists | app7/file/file/file_atomic.c:206-209 | `access(p, F_OK)` answers whether the path exists |
| Files.FileSystem.CreateTruncate | app7/file/file/file_atomic.c:84-88 | `open` with `O_CREAT` and `O_TRUNC` leaves an empty file, or nothing changes when it fails |
| Files.FileSystem.OpenAppend | app7/file/SQL/text_log.c:137-142 | `fopen(p, "a")` creates a missing file empty and keeps an existing one |
| Files.FileSystem.OpenWrite | app7/file/SQL/ram_log.c:180-185 | `fopen(p, "w")` leaves an empty file, or nothing changes when it fails |
| Files.FileSystem.Append | app7/file/file/file_atomic.c:90-91 | a write adds the bytes at the end of the file and changes no other file |
| Files.FileSystem.Rename | app7/file/file/file_atomic.c:105-108 | `rename` succeeds exactly when the source exists and the call does not fail, and then acts as `RenameIn` |
| Files.FileSystem.Remove | app7/file/SQL/text_log.c:79-82 | `remove` deletes the file and reports whether it existed |
| Crc32.Crc32 | app7/file/file/file_atomic.c:30-41 | the CRC-32 of the empty input is 0 |
| Crc32.BranchFreeStep | app7/file/file/file_atomic.c:38 | the branch-free step `(crc >> 1) ^ (0xEDB88320 & -(crc & 1))` is the textbook conditional-XOR step |
| Crc32.FeedByte | app7/file/file/file_atomic.c:36-38 | XOR-ing a byte in and running eight steps is one byte update of the register |
| Crc32.Crc32Calc | app7/file/file/file_atomic.c:30-41 | `crc32_calc` returns the CRC-32 of its input: init 0xFFFFFFFF, one update per byte in order, final complement |
| Crc32.UpdateAppend | app7/file/file/file_atomic.c:35-39 | the register can be fed in pieces: feeding `a + b` is feeding `a` and then `b` |
| Crc32.CheckValueBytes | app7/file/file/file_atomic.c:33-39 | the register after "123456789" holds 0x340BC6D9 |
| Crc32.CheckValue | app7/file/file/file_atomic.c:30-41 | the CRC-32 of "123456789" is the standard check value 0xCBF43926 |
| FileAtomic.DecodeEncodeU32 | app7/file/file/file_atomic.c:18-23 | a `uint32_t` header word reads back as written |
| FileAtomic.DecodeEncodeHeader | app7/file/file/file_atomic.c:77-82 | the 16-byte header reads back as the header written |
| FileAtomic.Blob | app7/file/file/file_atomic.c:90-91 | the file written is 16 header bytes plus the payload |
| FileAtomic.SiblingsDistinct | app7/file/file/file_atomic.c:72-75 | for a path of at most 251 characters, `path.tmp` and `path.bak` are the untruncated names and differ from each other and from `path` |
| FileAtomic.SiblingsCollide | app7/file/file/file_atomic.c:72-75 | for a path of 254 characters, or of 256 and more, the 256-byte `snprintf` cuts give `path.tmp` and `path.bak` the same name, which is not `path` |
| FileAtomic.WriteSpec | app7/file/file/file_atomic.c:63-114 | the write returns FILE_ERR_PARAM exactly for a null path, null data or zero length; on FILE_ERR_PARAM and FILE_ERR_OPEN no file changes |
| FileAtomic.CommitSpec | app7/file/file/file_atomic.c:100-108 | the commit step ends in FILE_OK or FILE_ERR_RENAME only |
| FileAtomic.Commit | app7/file/file/file_atomic.c:100-108 | the backup rename (whose failure is ignored) and the final rename leave the file map `CommitSpec` describes |
| FileAtomic.AtomicWrite | app7/file/file/file_atomic.c:63-114 | `file_atomic_write` returns and leaves behind exactly what `WriteSpec` says |
| FileAtomic.Overlay | app7/file/file/file_atomic.c:138 | a read of `n` bytes replaces the first `n` bytes of the buffer and keeps the rest |
| FileAtomic.ReadFileSpec | app7/file/file/file_atomic.c:118-149 | `file_read_internal` only ever answers FILE_OK, OPEN, READ, FORMAT or CRC, and keeps the buffer's size |
| FileAtomic.ReadSpec | app7/file/file/file_atomic.c:151-174 | the read with fallback keeps the buffer's size |
| FileAtomic.CopyInto | app7/file/file/file_atomic.c:138 | the payload is copied over the front of the caller's buffer |
| FileAtomic.ReadErrorClasses | app7/file/file/file_atomic.c:118-149 | a missing file is FILE_ERR_OPEN; a header under 16 bytes, or a payload shorter than the header's length, is FILE_ERR_READ; a wrong magic or a length over the buffer's capacity is FILE_ERR_FORMAT; a checksum mismatch is FILE_ERR_CRC; FILE_OK exactly when none holds, with the payload over the buffer's front; the buffer is untouched until the header is accepted |
| FileAtomic.ReadFile | app7/file/file/file_atomic.c:118-149 | `file_read_internal` returns and fills the buffer as `ReadFileSpec` says |
| FileAtomic.AtomicRead | app7/file/file/file_atomic.c:151-174 | a null path or buffer gives FILE_ERR_PARAM; otherwise the outcome is `ReadSpec`: the primary file, or exactly the validation of `path.bak` when the primary fails |
| FileAtomic.BlobLayout | app7/file/file/file_atomic.c:77-91 | a blob starts with the header built for its payload, then the payload |
| FileAtomic.ReadBlob | app7/file/file/file_atomic.c:118-149 | a blob written for `d` reads back as FILE_OK with `d` at the front of any buffer that can hold it |
| FileAtomic.LengthField | app7/file/file/file_atomic.c:80 | a length below 2^32 survives the `uint32_t` length field |
| FileAtomic.U32Value | app7/file/file/file_atomic.c:80 | a number below 2^32 converts to a 32-bit word and back unchanged |
| FileAtomic.TornBlobRejected | app7/file/file/file_atomic.c:127-141 | a blob cut short anywhere is rejected with FILE_ERR_READ or FILE_ERR_FORMAT |
| FileAtomic.VersionIgnored | app7/file/file/file_atomic.c:132-136 | the version word is never checked: any four bytes there read the same |
| FileAtomic.WriteOutcome | app7/file/file/file_atomic.c:77-113 | for a path of at most 251 characters, a write succeeds exactly when open, both writes and the final rename succeed; then `path` holds the blob, `path.tmp` is gone, `path.bak` holds the old `path` if there was one and is untouched otherwise, and no other file changes |
| FileAtomic.WriteThenRead | app7/file/file/file_atomic.c:63-149 | round trip for a path of at most 251 characters, after a successful write of `d`, a read into a buffer at least as long as `d` returns FILE_OK with `d` at its front and the rest of the buffer untouched |
| FileAtomic.FailedRenameServesOldValue | app7/file/file/file_atomic.c:100-108 | for a path of at most 251 characters, when the final rename fails after the backup step, `path` is gone and a read returns exactly what the old `path` would have given, from `path.bak` |
| FileAtomic.BackupServesPreviousValue | app7/file/file/file_atomic.c:155-173 | for a path of at most 251 characters, one generation is kept: after a second write, the first value is in `path.bak`, and it is what a read returns if `path` is damaged |
| FileAtomic.LongPathKeepsOldValue | app7/file/file/file_atomic.c:72-108 | for such a path, a fault-free write of new data over an existing value returns FILE_OK, yet `path` still holds the old blob, no `path.tmp` is left, and a read returns the old value |
| FileAtomic.CheckedWriteSpec | app7/file/file/file_atomic.c:63-114 | the write with a length check on the path: FILE_ERR_PARAM and no change for a path longer than 251 characters, otherwise `WriteSpec` |
| FileAtomic.CheckedWriteThenRead | app7/file/file/file_atomic.c:63-149 | round trip for every path length: after the checked write reports FILE_OK, a read returns FILE_OK with `d` at the front of the buffer and the rest untouched |
| FileAtomic.WriteInt | app7/file/file/file_atomic.c:178-181 | `file_write_int` is the atomic write of the four bytes of the `int` |
| FileAtomic.ReadInt | app7/file/file/file_atomic.c:183-186 | `file_read_int` is the atomic read into the four bytes of the `int`; a null pointer gives FILE_ERR_PARAM |
| FileAtomic.IntRoundTrip | app7/file/file/file_atomic.c:178-186 | for a path of at most 251 characters, an `int` written with `file_write_int` reads back unchanged, whatever the target held |
| FileAtomic.StringPayload | app7/file/file/file_atomic.c:192-194 | `strnlen(str, max_len) + 1` bytes are stored: the string and its NUL when it fits, else its first `max_len + 1` characters and no NUL |
| FileAtomic.WriteString | app7/file/file/file_atomic.c:188-195 | a null string gives FILE_ERR_PARAM and changes nothing; otherwise it is the atomic write of `StringPayload` |
| FileAtomic.ReadString | app7/file/file/file_atomic.c:197-202 | `file_read_string` is the atomic read into the caller's buffer |
| FileAtomic.StringRoundTrip | app7/file/file/file_atomic.c:188-202 | for a path of at most 251 characters, a string of at most `max_len` characters reads back as the same C string into a buffer that can hold it and its NUL |
| Common.TerminatedPrefix | app7/file/file/file_atomic.c:194 | a buffer that starts with a string and its NUL holds that C string |
| RamLog.Stored | app7/file/SQL/ram_log.c:83-88 | the stored entry is valid, its text is a prefix of the input cut to 127 characters (the whole input when shorter), and its timestamp is a `uint32_t` |
| RamLog.Slots | app7/file/SQL/ram_log.c:84-91 | the ring always has 512 slots |
| RamLog.SlotsHoldLatest | app7/file/SQL/ram_log.c:84-91 | write `j` sits in slot `j mod 512` while it is among the last 512 writes |
| RamLog.SlotsUnreached | app7/file/SQL/ram_log.c:36 | slots the ring has not reached since init or clear are still zeroed |
| RamLog.SlotsAppend | app7/file/SQL/ram_log.c:84-88 | one write changes only slot `write_index` |
| RamLog.BackSlot | app7/file/SQL/ram_log.c:133-138 | the index computed going back from `write_index` stays inside the ring |
| RamLog.FwdSlot | app7/file/SQL/ram_log.c:200 | the index computed going forward from the start stays inside the ring |
| RamLog.NextSlot | app7/file/SQL/ram_log.c:91 | the next write index is `(write_index + 1) % 512` |
| RamLog.Advance | app7/file/SQL/ram_log.c:91-101 | after `n + 1` writes the next slot is `NextSlot` of the previous one, and the ring is full exactly when it already was or the index wraps to 0 |
| RamLog.BackSlotOfWrite | app7/file/SQL/ram_log.c:133-138 | going back `i + 1` slots from `write_index` after `n` writes lands on the slot of write `n - 1 - i` |
| RamLog.Emit | app7/file/SQL/ram_log.c:155-156 | `strcpy` at `buffer_used` appends the line after the bytes already there and touches nothing past its terminator |
| RamLog.LineFits | app7/file/SQL/ram_log.c:146-148 | a stored entry's `"[%u] %s\n"` line always fits the 160-byte `line` array, so `snprintf` never cuts it |
| RamLog.Shown | app7/file/SQL/ram_log.c:141-148 | an entry contributes a line exactly when it is valid |
| RamLog.RenderStep | app7/file/SQL/ram_log.c:140-157 | one round of the read-back loop skips an invalid entry or appends a line that fits |
| RamLog.RenderIsWholeLines | app7/file/SQL/ram_log.c:150-157 | read-back never writes a partial line: the text is the lines of a prefix of the entries |
| RamLog.RenderFits | app7/file/SQL/ram_log.c:151-159 | read-back stops before `buffer_used + len >= size - 1`, leaving room for the terminator |
| RamLog.RenderAllWhenRoom | app7/file/SQL/ram_log.c:150-157 | when every line fits, none is dropped |
| RamLog.RenderNewest | app7/file/SQL/ram_log.c:130-159 | the read-back loop writes exactly the newest-first rendering of `k` slots and reports its length |
| RamLog.ExportedStep | app7/file/SQL/ram_log.c:199-208 | one round of the export loop appends the line of the next slot, if valid |
| RamLog.ReadInto | app7/file/SQL/ram_log.c:123-159 | the buffer receives the rendering followed by its NUL, and nothing past the NUL changes |
| RamLog.ExportEntries | app7/file/SQL/ram_log.c:197-208 | the export loop produces the lines of `n` slots from `start`, in order |
| RamLog.ExportFile | app7/file/SQL/ram_log.c:180-210 | a failing `fopen` changes nothing; otherwise the file holds the header and the last 512 writes, oldest first |
| RamLog.BackwardIsLatest | app7/file/SQL/ram_log.c:131-140 | walking back from `write_index` visits the newest writes, newest first |
| RamLog.ExportedIs | app7/file/SQL/ram_log.c:199-208 | exporting `i` slots writes the lines of the first `i` entries visited |
| RamLog.ForwardIsTail | app7/file/SQL/ram_log.c:195-201 | walking forward from `oldest_index` (or 0 before the ring fills) visits the last 512 writes in order |
| RamLog.ExportIsTail | app7/file/SQL/ram_log.c:194-208 | the export loop writes the lines of the last 512 writes, oldest first |
| RamLog.FwdSlotOfWrite | app7/file/SQL/ram_log.c:198-200 | in a full ring, `i` slots after the oldest is the slot of write `n - 512 + i` |
| RamLog.RamLog.Reset | app7/file/SQL/ram_log.c:229-237 | every slot is zeroed and every index and counter is reset |
| RamLog.RamLog.Init | app7/file/SQL/ram_log.c:25-52 | init returns 0; a second init changes nothing; a first init leaves an empty log |
| RamLog.RamLog.Deinit | app7/file/SQL/ram_log.c:57-70 | deinit clears only the initialised flag; the entries stay |
| RamLog.RamLog.Write | app7/file/SQL/ram_log.c:75-105 | before init or with a null entry, -1 and no change; otherwise only slot `write_index` changes, the index advances mod 512, `total_writes` grows by one, and `oldest_index`/`overwrite_count`/`is_full` move as the code says; the invariant `overwrite_count = max(0, total - 512)`, `oldest = full ? write_index : 0` is kept |
| RamLog.RamLog.StoredCountIsMin | app7/file/SQL/ram_log.c:119 | `valid_count` is `min(total_writes, 512)` |
| RamLog.RamLog.ReadCount | app7/file/SQL/ram_log.c:122 | `read_count` never exceeds `valid_count`, and is `count` when that is non-zero and small enough |
| RamLog.RamLog.ReadLatest | app7/file/SQL/ram_log.c:110-163 | -1 and no change before init, on a null buffer or `size == 0`; otherwise the buffer holds the newest-first rendering of the last `read_count` writes, NUL-terminated and shorter than `size`, and the result is `read_count` |
| RamLog.RamLog.Export | app7/file/SQL/ram_log.c:168-216 | -1 and no change before init or when `fopen` fails; otherwise the chosen path (default when null) holds the header and the last 512 writes oldest first, and the ring is unchanged |
| RamLog.RamLog.Clear | app7/file/SQL/ram_log.c:221-243 | -1 before init; otherwise every slot is invalid and every index and counter is back at its init value |
| RamLog.RamLog.GetStats | app7/file/SQL/ram_log.c:248-265 | -1 before init or with a null pointer; otherwise total, overwrites, current count, write index and oldest index as functions of the number of writes |
| TextLog.Gen | app7/file/SQL/text_log.c:80-88 | a generation name is longer than the live path and differs from it |
| TextLog.GenInjective | app7/file/SQL/text_log.c:86-88 | different generation numbers name different files |
| TextLog.GenDistinct | app7/file/SQL/text_log.c:86-88 | different generation numbers name different files (contrapositive form) |
| TextLog.EntryLine | app7/file/SQL/text_log.c:205-208 | the line is the entry and a newline, cut to 511 bytes by the 512-byte array |
| TextLog.ShiftKeepsLive | app7/file/SQL/text_log.c:85-90 | the renaming loop never touches the live file, whichever of its renames fail |
| TextLog.RotateLive | app7/file/SQL/text_log.c:92-95 | after the renames of a rotation the live file is gone when its rename to `path.1` works; when that rename fails (the code ignores the result) the live file is still there with its old contents |
| TextLog.OpenedLive | app7/file/SQL/text_log.c:97-98 | `fopen(path, "a")` leaves the live file with its old contents, empty when it was missing, and touches no other file |
| TextLog.ShiftStep | app7/file/SQL/text_log.c:86-89 | one rename into a free generation moves `path.i` to `path.(i+1)` and touches nothing else |
| TextLog.ShiftFromShifts | app7/file/SQL/text_log.c:85-90 | the loop from `i` down to 1 moves each generation up by one and touches nothing outside the chain |
| TextLog.RotateShifts | app7/file/SQL/text_log.c:78-95 | for `1 <= N <= 2^31 - 1`, rotation deletes `path.N`, moves each `path.k` to `path.(k+1)`, moves the live file to `path.1`, and touches no other file |
| TextLog.RotateWithHugeCount | app7/file/SQL/text_log.c:79-95 | with `max_file_count > 2^31` no generation is shifted: `path.N` is removed, the live file replaces `path.1`, and every other path keeps its contents |
| TextLog.RotateWithZeroCount | app7/file/SQL/text_log.c:79-95 | with `max_file_count == 0` the live file still becomes `path.1`, and `path.0` is removed |
| TextLog.ModAdd | app7/file/SQL/text_log.c:230 | adding to the `uint32_t` size counter commutes with its wrap-around |
| TextLog.TextLog.Rotate | app7/file/SQL/text_log.c:71-108 | with `faults` naming which renames fail (all ignored) and whether the reopen fails: the files become `RotateFiles` of the old map; when the reopen works, the live file is reopened, the result is 0 and the counter restarts at 0, even when the live rename failed and the file keeps its old contents; a failed reopen gives -1, a closed file and an unchanged counter |
| TextLog.TextLog.Init | app7/file/SQL/text_log.c:115-159 | a second init returns 0 and changes nothing; a failing directory or `fopen` gives -1 and leaves the log uninitialised; otherwise the live file is opened (created empty if missing), the buffer is empty, the size is the file's length and the flush time is `now` |
| TextLog.TextLog.WriteOut | app7/file/SQL/text_log.c:233-236 | the pending bytes are appended to the live file and the buffer is emptied; no other file changes |
| TextLog.TextLog.Deinit | app7/file/SQL/text_log.c:164-189 | no-op when uninitialised; otherwise the pending bytes reach the file, and the file is closed and the log uninitialised; the counter and the last flush time are kept |
| TextLog.TextLog.Flush | app7/file/SQL/text_log.c:257-277 | -1 and no change when uninitialised or closed; otherwise the live file becomes its old contents plus the buffer, and the buffer is empty |
| TextLog.TextLog.Store | app7/file/SQL/text_log.c:225-241 | a line that fits joins the buffer, else the buffer and then the line go to the file; either way the file plus the buffer grow by exactly the line, the size grows by its length mod 2^32, and the buffer stays below 4096 |
| TextLog.TextLog.RotateForWrite | app7/file/SQL/text_log.c:211-223 | the pending bytes reach the old live file before the rotation; the result is true exactly when the reopen works; the files are the rotated map, with the live file reopened on success, and the counter is 0 on success and kept on failure |
| TextLog.TextLog.Tick | app7/file/SQL/text_log.c:243-248 | 30 s or more after the last flush the buffer is written out and `last_flush_time` becomes `now`; the logical file contents never change |
| TextLog.TextLog.WriteRotating | app7/file/SQL/text_log.c:194-252 | a line that pushes the size past the limit: a failed reopen gives -1, drops the line and keeps the counter, so the next line rotates again; otherwise the logical live file is the line alone, or the old contents and the line when the live rename failed, and the counter is the line's length, so it tracks the file exactly when the live rename worked |
| TextLog.TextLog.WritePlain | app7/file/SQL/text_log.c:194-252 | a line under the limit is appended to the logical live file and counted in its size |
| TextLog.TextLog.Write | app7/file/SQL/text_log.c:194-252 | -1 and no change before init or for a null entry; -1 exactly when the line triggers a rotation whose reopen fails; otherwise 0 and the line joins `written`, the lines taken on; rotation exactly when `size + len > max_file_size`; a failed reopen keeps the counter, so the next write rotates again; without rotation the line is appended to the logical live file; the counter keeps equal to the live file plus the buffer unless a rotation's live rename fails, when the line lands after the old contents and the counter undercounts them |
| TextLog.TextLog.Read | app7/file/SQL/text_log.c:282-308 | -1 and no change for a null buffer, `size == 0` or no init; otherwise a flush, then at most `size - 1` bytes from the start of the live file and a NUL, with the buffer untouched on a failed open and past the NUL; the counter, the flush time and the counter's agreement with the file and the buffer are kept |
| SystemLog.NameIn | app7/file/SQL/system_log.c:46-68 | a lookup answers the table entry in range and "UNKNOWN" otherwise, and never reads outside the table |
| SystemLog.NamesKnown | app7/file/SQL/system_log.c:46-68 | each to-string answers "UNKNOWN" exactly outside its 6-, 8- or 9-entry table |
| SystemLog.LevelName | app7/file/SQL/system_log.c:46-52 | `log_level_to_string` answers a non-empty name of at most 7 bytes |
| SystemLog.ModuleName | app7/file/SQL/system_log.c:54-60 | `log_module_to_string` answers a non-empty name of at most 8 bytes |
| SystemLog.EventName | app7/file/SQL/system_log.c:62-68 | `log_event_type_to_string` answers a non-empty name of at most 15 bytes |
| SystemLog.EntryHeader | app7/file/SQL/system_log.c:220-224 | the header opens with the timestamp in brackets and adds at most 24 bytes to it |
| SystemLog.LogEntry | app7/file/SQL/system_log.c:209-224 | the entry never exceeds 511 bytes |
| SystemLog.LogEntryKeepsMessage | app7/file/SQL/system_log.c:209-224 | the entry is `"[ts] [LEVEL] [MODULE] "` followed by the message cut to 255 characters; the 511-byte cut never bites |
| SystemLog.EventHeader | app7/file/SQL/system_log.c:304-308 | the event header opens with the timestamp in brackets, then the "EVENT" tag, and adds at most 40 bytes to the timestamp |
| SystemLog.EventEntry | app7/file/SQL/system_log.c:303-308 | the event entry never exceeds 511 bytes |
| SystemLog.EventEntryShape | app7/file/SQL/system_log.c:303-308 | the event entry is `"[ts] [EVENT] [MODULE] [KIND] "` followed by a prefix of the message, all of it when it fits |
| SystemLog.RouteOf | app7/file/SQL/system_log.c:229-284 | DEBUG to FATAL go to text, WARN/ERROR/FATAL also to RAM, only FATAL with a flush; every RAM entry also goes to text; EVENT and other values reach nothing |
| SystemLog.SystemLog.Event | app7/file/SQL/system_log.c:292-325 | the event entry's line joins the text log's `written` lines exactly when the router is on, text is enabled and the text log accepts it (it is initialised, and a rotation the line triggers gets the live file reopened); otherwise the text log and the files are unchanged; the RAM log is never touched |
| SystemLog.SystemLog.Init | app7/file/SQL/system_log.c:85-152 | a second init returns 0 and changes nothing; otherwise the config is adopted, text then RAM start, a failing back end makes the result -1 without stopping the other, and the router is marked initialised either way; a RAM log that was already running keeps its history; the boot event's line joins the text log's lines exactly when the result is 0, text is enabled, and it does not trigger a rotation whose reopen fails, judged on the size and limit the text log has after start-up |
| SystemLog.SystemLog.StartBackends | app7/file/SQL/system_log.c:100-125 | the text log starts when enabled and the RAM log when enabled; only a failing text start makes the result -1 |
| SystemLog.SystemLog.Deinit | app7/file/SQL/system_log.c:157-191 | no-op when uninitialised; otherwise the shutdown event's line joins the text log's lines exactly when text is enabled and the text log accepts it (it is initialised, and a rotation the line triggers gets the live file reopened), then text and RAM are stopped, the RAM entries kept, and the router marked uninitialised |
| SystemLog.SystemLog.Write | app7/file/SQL/system_log.c:196-287 | nothing when off or below `min_level`; otherwise the entry's line joins the text log's lines exactly when `RouteOf(level)` sends it to text, text is enabled and the text log accepts it (it is initialised, and a rotation the line triggers gets the live file reopened); the RAM history grows by the stored entry exactly when RAM is routed, enabled and was initialised before the call; neither back end's initialised flag changes, so later writes route the same way; after FATAL the text buffer is flushed |
| SystemLog.SystemLog.SendText | app7/file/SQL/system_log.c:233-235 | the entry's line joins the text log's lines exactly when text is enabled and the text log accepts it (it is initialised, and a rotation the line triggers gets the live file reopened) |
| SystemLog.SystemLog.SendRam | app7/file/SQL/system_log.c:243-245 | the RAM history grows by the stored entry exactly when RAM is enabled and initialised |
| SystemLog.SystemLog.GetRamBuffer | app7/file/SQL/system_log.c:330-338 | -1 when off or RAM disabled; otherwise every stored RAM entry, newest first, as `ram_log_read_latest(buf, size, 0)` renders them |
| SystemLog.SystemLog.ReadText | app7/file/SQL/system_log.c:343-350 | -1 and no change when off, text disabled or not started; otherwise a flush, then -1 with the caller's buffer untouched when the live file cannot be opened, or at most `size - 1` bytes of the live file and a NUL, the rest of the buffer untouched; the text log's init flag and counter are kept |
| SystemLog.SystemLog.DumpRamToFile | app7/file/SQL/system_log.c:355-362 | -1 when off or RAM disabled; otherwise `ram_log_export` to the given or default path |
| CText.IndexFrom | app7/wifi/wpa_manager.c:421 | `strchr` finds the first occurrence at or after the start, or reports that there is none |
| CText.Atoi | app7/wifi/wpa_manager.c:438-443 | `atoi` answers a value in the 32-bit range, negative only after a minus sign |
| CText.AtoiUnsigned | app7/wifi/wpa_manager.c:438-440 | `atoi` reads back an unsigned decimal followed by a non-digit |
| CText.AtoiNegative | app7/wifi/wpa_manager.c:441-443 | `atoi` reads back a minus sign and a decimal followed by a non-digit |
| CText.AtoiReadsDecimal | app7/wifi/wpa_manager.c:438-443 | `atoi` reads back what `%d` prints, for every `int`, whatever non-digit follows |
| CText.ScanInt | component/net/http_manager.c:190-191 | each successful `%d` conversion consumes input |
| CText.ScanAfter | component/net/http_manager.c:190-191 | a literal separator and `%d` consume input |
| CText.ScanPadded | component/net/http_manager.c:190-196 | `%d` reads back what `%0<w>d` prints, negative numbers included |
| CText.CDiv | app7/net/http_manager.c:220-223 | C's `/` agrees with Euclidean division on non-negative operands |
| CText.CMod | app7/net/http_manager.c:221-223 | C's `%` agrees with Euclidean remainder on non-negative operands, lies strictly between `-b` and `b`, and is never positive for a negative operand |
| WpaScan.LineFields | app7/wifi/wpa_manager.c:419 | the field loop reads at most five fields |
| WpaScan.ParseLine | app7/wifi/wpa_manager.c:415-469 | a line yields at most five fields, and a line with none read leaves the zeroed record |
| WpaScan.PiecesCount | app7/wifi/wpa_manager.c:419-465 | a line has one tab-separated piece more than it has tabs |
| WpaScan.LineAcceptedIffFourTabs | app7/wifi/wpa_manager.c:424-477 | a line is accepted (at least four fields) exactly when it holds at least four tabs, so a flags field not followed by a tab drops the line |
| WpaScan.PiecesOfFormatLine | app7/wifi/wpa_manager.c:419-465 | the line printed for a printable record splits into its five fields |
| WpaScan.BuildFormatFields | app7/wifi/wpa_manager.c:431-455 | filling a record from those five fields gives the record back |
| WpaScan.ParseFormatLine | app7/wifi/wpa_manager.c:415-469 | round trip: a record whose text fields fit `bssid[20]`, `flags[128]`, `ssid[64]` and hold no tab or newline parses back from its scan line with five fields |
| WpaScan.PieceStep | app7/wifi/wpa_manager.c:421-465 | one pass of the field loop reads the next piece, ending at the next tab or at the end of the line |
| WpaScan.BuildStep | app7/wifi/wpa_manager.c:431-458 | reading one more field updates only that field of the record |
| WpaScan.NextField | app7/wifi/wpa_manager.c:419-468 | one pass of the field loop: the fields read so far build the record, and the loop stops exactly where the code breaks |
| WpaScan.BuildFields | app7/wifi/wpa_manager.c:428-455 | after the fields of a line are read, bssid, flags and ssid hold their piece's text when it is shorter than 20, 128 and 64 bytes and are empty otherwise; frequency and signal level are `atoi` from their field's start; fields never reached stay zero |
| WpaScan.FieldsCopiedOnlyWhenShort | app7/wifi/wpa_manager.c:415-469 | the record a scan line yields holds, field by field, what `BuildFields` states of that line's first five fields |
| WpaScan.ScanFields | app7/wifi/wpa_manager.c:415-469 | the field loop over one line returns the record and field count `ParseLine` defines |
| WpaScan.RecordsPrefix | app7/wifi/wpa_manager.c:406-477 | the records of a prefix of the lines are a prefix of the records |
| WpaScan.ReplyLines | app7/wifi/wpa_manager.c:400-407 | the reply up to its NUL splits into lines that hold neither a newline nor a NUL |
| WpaScan.LinesClean | app7/wifi/wpa_manager.c:406-407 | each line of a NUL-free text ends before its newline |
| WpaScan.StoreLine | app7/wifi/wpa_manager.c:410-477 | the header line and empty lines store nothing; any other line writes its parse into `results[count]`, and `count` grows exactly when the line is accepted; no other slot changes |
| WpaScan.FillLines | app7/wifi/wpa_manager.c:406-482 | the count never exceeds `max_results` and the caller's array keeps its size |
| WpaScan.FillLinesRecords | app7/wifi/wpa_manager.c:406-482 | the loop stores exactly `min(#records, max_results)` records, in reply-line order, and leaves the slots past `count` untouched |
| WpaScan.FillLinesSaturated | app7/wifi/wpa_manager.c:406 | once `max_results` records are stored, further lines change nothing |
| WpaScan.LineStep | app7/wifi/wpa_manager.c:406-407 | the text up to the next newline is the next line; with no newline left, no line is left |
| WpaScan.StoreInto | app7/wifi/wpa_manager.c:411-477 | storing one line into the caller's array is `StoreLine` |
| WpaScan.StoreSeen | app7/wifi/wpa_manager.c:404-481 | after line `k` the array and count are the fill over the lines up to `k` |
| WpaScan.GetScanResults | app7/wifi/wpa_manager.c:371-492 | -1 for a null array, `max_results <= 0` or a failed command; otherwise the array and count are the fill of the reply's newline-terminated lines |
| WpaScan.GetScanResultsRecords | app7/wifi/wpa_manager.c:404-491 | the caller gets the first `min(#records, max_results)` records of the reply, in line order |
| WpaScan.FindFrom | app7/wifi/wpa_manager.c:173-180 | `strstr` returns the first occurrence at or after the start, or reports that there is none |
| WpaScan.FindIffContains | app7/wifi/wpa_manager.c:173-180 | `strstr` finds the pattern exactly when it occurs |
| WpaScan.StatusAfter | app7/wifi/wpa_manager.c:169-181 | a failed command keeps the state; otherwise the new state is CONNECT, DISCONNECT, SCANNING, INACTIVE or the previous one |
| WpaScan.StatusClassification | app7/wifi/wpa_manager.c:169-181 | COMPLETED, DISCONNECTED, SCANNING, INACTIVE are tested in that order and map to CONNECT, DISCONNECT, SCANNING, INACTIVE; otherwise the previous state is kept, and WRONG_KEY is never produced |
| Http.AssembleUrl | app7/net/http_manager.c:53-59 | `malloc(strlen(host) + strlen(path) + 1)`, `strcpy`, `strcat`: a fresh buffer of exactly that size holding the host, the path and a NUL, so its C string is the host followed by the path (the same in component/net/http_manager.c:29-35) |
| Http.Response.WriteCallback | app7/net/http_manager.c:64-77 | on a failed `realloc`, 0 and no change; otherwise the received bytes grow by the chunk, `size` grows by its length, the data stays NUL-terminated and the length is returned (the same in component/net/http_manager.c:40-53) |
| Http.App7Weekday | app7/net/http_manager.c:216-225 | the `app7` weekday lies in 0..6 for every input |
| Http.ComponentWeekday | component/net/http_manager.c:199-206 | the `component` weekday lies in 0..6 for every input |
| Http.TwiceOverTen | component/net/http_manager.c:205 | `26 * (m + 1) / 10` and `13 * (m + 1) / 5` truncate to the same value |
| Http.ShiftedRemainder | component/net/http_manager.c:206 | `(w + 7) % 7` after a truncated `% 7` is the non-negative remainder |
| Http.WeekdaysFromSum | app7/net/http_manager.c:220-225 | both formulas are the non-negative remainder of one Zeller sum plus 6 |
| Http.WeekdayVariantsAgree | component/net/http_manager.c:199-206 | the two variants give the same weekday for every year, month and day |
| Http.DayOfWeek | app7/net/http_manager.h:37 | the reference Gregorian day of the week lies in 0..6, 0 = Sunday |
| Http.WeekdayIsGregorian | app7/net/http_manager.c:212-225 | for every date from year 1 on, both variants give the Gregorian day of the week with 0 = Sunday |
| Http.App7Time | app7/net/http_manager.c:205-210 | `update_time` is the (up to) 8 bytes right after the first 'T', as many as the text has, and empty without a 'T' |
| Http.App7Stamp | app7/net/http_manager.c:195-227 | no `last_update`: nothing changes; otherwise `date` is its first 10 bytes, `update_time` is `App7Time` of it, and the weekday is Zeller's when `"%d-%d-%d"` converts three numbers and 0 otherwise, always in 0..6 |
| Http.ComponentStamp | component/net/http_manager.c:184-210 | no `last_update`: nothing changes; without six conversions `update_time` is the raw text cut to 31 bytes and `date` stays empty; with six, `date` and `update_time` are the reprinted numbers cut to their buffers and the weekday is the `component` Zeller; the fields fit their arrays and the weekday is in 0..6 |
| Http.ComponentCode | component/net/http_manager.c:179-182 | `code` is a fresh zeroed 8-byte array, NUL-terminated at its last byte, whose C string is the item's text cut to 7 bytes when present and empty otherwise |
| Http.StrNCopy | component/net/http_manager.c:181 | `strncpy(dst, src, n)` writes the source and then NULs into exactly the first `n` bytes and leaves the rest of the array alone |
| Http.ScanDate | app7/net/http_manager.c:214 | a successful `"%d-%d-%d"` consumes at least three digits and two dashes (the same conversions begin component/net/http_manager.c:190) |
| Http.ScanDateTime | component/net/http_manager.c:190-191 | a successful six-conversion scan begins with the three conversions of `"%d-%d-%d"` |
| Http.FormatDate | component/net/http_manager.c:193 | `"%04d-%02d-%02d"` of a four-digit year and two-digit month and day is ten bytes with dashes at 4 and 7 |
| Http.FormatTime | component/net/http_manager.c:196 | `"%02d:%02d:%02d"` of two-digit numbers is eight bytes with colons at 2 and 5 |
| Http.PaddedWidthBelow | component/net/http_manager.c:193-196 | `%02d` below 100 and `%04d` below 10000 print exactly 2 and 4 bytes |
| Http.PaddedWidth | component/net/http_manager.c:193 | `%0<w>d` of a number with at most `w` digits is exactly `w` digits |
| Http.ScanAfterPadded | component/net/http_manager.c:190-191 | a separator then `%0<w>d` scans back as that number |
| Http.ScanFormatDate | component/net/http_manager.c:190-193 | `"%d-%d-%d"` reads back the numbers `"%04d-%02d-%02d"` printed |
| Http.ScanFormatTime | component/net/http_manager.c:190-196 | `"T%d:%d:%d"` reads back the numbers `"%02d:%02d:%02d"` printed |
| Http.ScanIsoTimestamp | component/net/http_manager.c:190-191 | both `sscanf` formats read back every `YYYY-MM-DDThh:mm:ss` timestamp, whatever non-digit follows |
| Http.IsoLayout | app7/net/http_manager.c:201-208 | a canonical timestamp is ten date bytes without a 'T', then 'T', then eight time bytes |
| Http.IsoFirstT | app7/net/http_manager.c:205 | the first 'T' of such a timestamp follows the ten date bytes |
| Http.App7ReadsIso | app7/net/http_manager.c:201-210 | on a canonical timestamp the `app7` cuts yield exactly the date and the time |
| Http.StampsAgreeOnIsoTimestamps | component/net/http_manager.c:184-206 | on the timestamps the weather service sends, both variants store the same date, time and weekday, and the weekday is the Gregorian one |

## Left out

- Mutexes and threads: every operation is sequential. The nested locking is not modelled; each nested call runs as its unlocked body. This affects `text_log_flush` called with the text-log mutex held, and `system_log_event` called from `system_log_deinit`.
- Durability: `fsync`, directory `fsync`, `fflush` and stdio buffering are not modelled. Files are whole-value map entries. The `fsync` results are ignored by the code, so FILE_ERR_FSYNC never occurs.
- The `ram_log_export` loop of `fprintf` calls is modelled as one append of the header and all the lines, which gives the same file contents. The `memset` of the write buffer at text-log init has no visible effect and is not modelled.
- TextLog.TextLog.Write: a failing or short `fwrite` is not modelled; every write to an open file lands whole. The code ignores those results (text_log.c:214, 234 and 239).
- TextLog.ShiftFromShifts: stated for a renaming loop in which every rename works. Failing generation renames are modelled in `ShiftFrom` and `RotateFiles`, and `ShiftKeepsLive` covers them, but the chain property is not proved for them.
- TextLog.RotateShifts: stated for a rotation without faults, for the same reason.
- FileAtomic.WriteOutcome: proved for paths of at most 251 characters. Longer paths break the `.tmp`/`.bak` naming; see "Findings".
- FileAtomic.WriteThenRead: proved for paths of at most 251 characters; `FileAtomic.CheckedWriteThenRead` covers every path for the corrected write.
- FileAtomic.FailedRenameServesOldValue: proved for paths of at most 251 characters.
- FileAtomic.BackupServesPreviousValue: proved for paths of at most 251 characters.
- FileAtomic.IntRoundTrip: proved for paths of at most 251 characters.
- FileAtomic.StringRoundTrip: proved for paths of at most 251 characters.
- TextLog.TextLog.Rotate: it does not promise that the size counter matches the file plus the buffer. `text_log_rotate` resets the counter without writing the buffer out. Inside `text_log_write`, the only caller, the buffer is always empty at that point.
- A `fwrite` to a `NULL` `FILE *` (a write after a failed reopen) is undefined behaviour in C. The model drops the bytes.
- `ensure_log_directory`, `fopen`, `open`, `rename`, `realloc` and the pthread calls are modelled by their effect on the file map or the heap. Their failures are parameters.
- `remove(oldest_log)` in `text_log_rotate` is modelled as always deleting `path.N` when it exists; a failing `remove` has no parameter. The code ignores its result. Since `rename` replaces an existing target, such a failure would only matter when `path.(N-1)` is missing, and then `path.N` would survive the rotation.
- Paths are `string`s, and each character is taken as one byte. The 256-byte `snprintf` bound of `file_atomic_write` is therefore counted in characters. The "at most 251 characters" results (`FileAtomic.SiblingsDistinct`, `FileAtomic.WriteOutcome` and the round-trip lemmas) hold for paths whose characters are single bytes (ASCII). A path with multi-byte UTF-8 characters reaches the 256-byte limit at fewer characters, which the model does not capture.
- `time()`, `localtime`/`strftime` and `vsnprintf` are not modelled. The clock is a parameter `now`; timestamps and formatted messages are byte-string inputs.
- All `printf`/`fprintf` diagnostics are left out.
- Integer widths:
  - `g_current_file_size` and the rotation test wrap at 2^32 as `uint32_t`. The RAM log's `uint32_t` counters are unbounded, so a wrap after 2^32 writes is not modelled.
  - A C `int` stored by `file_write_int` is its 32-bit pattern.
- CText.ScanInt: `%d` conversions are unbounded integers. An out-of-range `sscanf` conversion, which is undefined behaviour in C, is not modelled.
- Http.App7Weekday: the arithmetic is on unbounded integers. `int` overflow in Zeller's formula for years near 2^31 is not modelled.
- Http.ComponentWeekday: the arithmetic is on unbounded integers, for the same reason.
- CText.AtoiReadsDecimal: `atoi` is modelled as `strtol` saturating at the limits of a 32-bit `long`.
- Http.Response.WriteCallback: `size * nmemb` is the chunk length, and `size_t` overflow in `mem->size + realsize + 1` is not modelled.
- `assemble_url` does not check its `malloc` result. The model assumes the allocation succeeds.
- WpaScan.GetScanResults: the `SCAN_RESULTS` command and socket I/O (`wifi_send_command`) are a parameter, the reply, with None for a failed command. The callback `wifi_scan_func` is not modelled. The 4095-byte reply bound is not enforced; any reply length is accepted.
- WpaScan.StatusClassification: covers only the classification. `wifi_send_command` is the reply parameter, and the `connect_status_func` callback is not modelled. The terminator write `reply_buf[reply_len]` with `reply_len == 512` would fall outside the array; that case is not modelled.
- The rest of `wpa_manager.c` is not part of this model: the event thread, socket connection and retry, `system()`/`popen()` and the other commands.
- The rest of `http_manager.c` is not part of this model:
  - curl requests;
  - the cJSON traversal, whose lookups become Option inputs (the `app7` variant dereferences lookups without null checks outside the modelled block);
  - the queue and thread plumbing;
  - the LVGL-timer retry.
- The SQLite event log is not part of this model. It is compiled out in `system_log.c`.
- The LVGL pages, demos and message queues are not part of this model.

## Findings

| source | as written | input that shows it | evidently intended | confidence | as-written member | corrected member |
|---|---|---|---|---|---|---|
| app7/file/file/file_atomic.c:72-75 | `path.tmp` and `path.bak` are `snprintf`-ed into 256-byte arrays without a length check, so for a path of 254 characters both become `path + "."`. The backup rename then overwrites the new temporary file, and the final rename restores the old contents. The write still returns FILE_OK | an existing value at a 254-character path, then a fault-free write of different data | reject a path that leaves no room for the suffix (`FILE_ERR_PARAM`), so that FILE_OK means the new data is stored | not executed | FileAtomic.LongPathKeepsOldValue | FileAtomic.CheckedWriteThenRead |
