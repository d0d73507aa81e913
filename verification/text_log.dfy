/**
 * The rotating text log (`text_log.c`): lines are appended to the live file
 * `/usr/data/log/system.log` through a 4 KB coalescing buffer, and the live
 * file is rotated along the chain `system.log -> .1 -> ... -> .N` once it
 * would grow past the configured size.
 *
 * The open `FILE *` on the live file is the flag `fileOpen`; `fwrite` on it
 * appends to the live file's entry in the shared `FileSystem`. `time(NULL)`
 * is the parameter `now`, and each call that can fail for reasons outside
 * the model takes a flag saying whether it does.
 */
module TextLog {
  import opened Common
  import opened Files

  const LIVE: Path := "/usr/data/log/system.log"
  /** `TEXT_LOG_BUFFER_SIZE`. */
  const BUFFER_SIZE: nat := 4096
  /** `FLUSH_INTERVAL`, in seconds. */
  const FLUSH_INTERVAL: int := 30
  /** `char entry_with_newline[512]`: at most 511 characters are kept. */
  const LINE_MAX: nat := 511
  const TWO32: nat := 0x1_0000_0000
  const INT_MAX: nat := 0x7FFF_FFFF

  type U32 = x: nat | x < 0x1_0000_0000

  /** `text_log_config_t`. */
  datatype Config = Config(maxFileSize: U32, maxFileCount: U32)

  /** The configuration before `text_log_init` copies the caller's. */
  const DEFAULT_CONFIG := Config(100 * 1024, 5)

  // ---------------------------------------------------------------- paths

  /** `"%s.%u"`/`"%s.%d"` of the live path and a generation number. */
  function Gen(i: nat): (p: Path)
    ensures |p| > |LIVE| && p != LIVE
  {
    LIVE + "." + Decimal(i)
  }

  lemma GenInjective(a: nat, b: nat)
    requires Gen(a) == Gen(b)
    ensures a == b
  {
    assert Gen(a)[|LIVE| + 1..] == Decimal(a);
    assert Gen(b)[|LIVE| + 1..] == Decimal(b);
    DecimalInjective(a, b);
  }

  lemma GenDistinct(a: nat, b: nat)
    ensures a != b ==> Gen(a) != Gen(b)
  {
    if Gen(a) == Gen(b) {
      GenInjective(a, b);
    }
  }

  /** Whether `q` names one of the generations `lo` to `hi`. */
  ghost predicate IsGenIn(q: Path, lo: nat, hi: nat)
  {
    exists k: nat | lo <= k <= hi :: q == Gen(k)
  }

  /** `snprintf(entry_with_newline, 512, "%s\n", log_entry)`: the entry and a
      newline, cut to 511 characters. */
  function EntryLine(e: Bytes): (r: Bytes)
    ensures |r| == Min(|e| + 1, LINE_MAX) && 0 < |r| < BUFFER_SIZE
    ensures |e| < LINE_MAX ==> r == e + [0x0A]
    ensures |e| >= LINE_MAX ==> r == e[..LINE_MAX]
  {
    Take(e + [0x0A], LINE_MAX)
  }

  // ---------------------------------------------------------------- rotation

  /** The first value of `int i = g_text_config.max_file_count - 1`: the
      unsigned subtraction wraps at 0, and the conversion to `int` makes
      values of 2^31 and above negative, so the loop then does not run. */
  function LoopStart(n: U32): int
  {
    var u := if n == 0 then TWO32 - 1 else n - 1;
    if u > INT_MAX then u - TWO32 else u
  }

  /** Which of the renames of a rotation fail, all failures being ignored
      by the code: `shift` holds the numbers `i` whose `path.i -> path.(i+1)`
      fails, `live` says whether renaming the live file to `path.1` fails,
      and `reopen` whether the `fopen` that follows fails. */
  datatype RotateFaults = RotateFaults(shift: set<int>, live: bool, reopen: bool)

  const NO_FAULTS := RotateFaults({}, false, false)

  /** The renaming loop `path.i -> path.(i+1)` for `i` from `i` down to 1;
      a rename whose number is in `fails` changes nothing. */
  function ShiftFrom(files: map<Path, Bytes>, i: int, fails: set<int>): map<Path, Bytes>
    decreases i
  {
    if i < 1 then files
    else ShiftFrom(if i in fails then files else RenameIn(files, Gen(i), Gen(i + 1)), i - 1, fails)
  }

  /** The file map after the renames of `text_log_rotate` with
      `max_file_count == n`: remove `path.n`, shift every generation up by
      one, move the live file to `path.1`. */
  function RotateFiles(files: map<Path, Bytes>, n: U32, faults: RotateFaults): map<Path, Bytes>
  {
    var shifted := ShiftFrom(files - {Gen(n)}, LoopStart(n), faults.shift);
    if faults.live then shifted else RenameIn(shifted, LIVE, Gen(1))
  }

  /** What `fopen(path, "a")` leaves: the live file, created empty when
      missing. */
  function OpenedLive(files: map<Path, Bytes>): (r: map<Path, Bytes>)
    ensures LIVE in r && r - {LIVE} == files - {LIVE}
    ensures r[LIVE] == LiveOf(files)
  {
    if LIVE in files then files else files[LIVE := []]
  }

  /** The contents of the live file, empty when it is missing. */
  function LiveOf(files: map<Path, Bytes>): Bytes
  {
    if LIVE in files then files[LIVE] else []
  }

  /** The renaming loop never touches the live file. */
  lemma {:induction false} ShiftKeepsLive(files: map<Path, Bytes>, i: int, fails: set<int>)
    ensures Lookup(ShiftFrom(files, i, fails), LIVE) == Lookup(files, LIVE)
    decreases i
  {
    if i >= 1 {
      ShiftKeepsLive(if i in fails then files else RenameIn(files, Gen(i), Gen(i + 1)), i - 1, fails);
    }
  }

  /** The live file is gone after a rotation whose live rename works; when
      that rename fails, which the code ignores, the live file is still
      there with its old contents. */
  lemma RotateLive(files: map<Path, Bytes>, n: U32, faults: RotateFaults)
    ensures Lookup(RotateFiles(files, n, faults), LIVE) == if faults.live then Lookup(files, LIVE) else None
  {
    var shifted := ShiftFrom(files - {Gen(n)}, LoopStart(n), faults.shift);
    ShiftKeepsLive(files - {Gen(n)}, LoopStart(n), faults.shift);
    assert Lookup(files - {Gen(n)}, LIVE) == Lookup(files, LIVE);
    if !faults.live && LIVE !in shifted {
      assert RotateFiles(files, n, faults) == shifted;
    }
  }

  /** One step of the renaming loop into a free slot moves generation `i`
      to `i + 1` and leaves every other path alone. */
  lemma ShiftStep(files: map<Path, Bytes>, i: nat)
    requires Gen(i + 1) !in files
    ensures var r := RenameIn(files, Gen(i), Gen(i + 1));
      && Lookup(r, Gen(i + 1)) == Lookup(files, Gen(i))
      && Gen(i) !in r
      && forall q | q != Gen(i) && q != Gen(i + 1) :: Lookup(r, q) == Lookup(files, q)
  {
    GenDistinct(i, i + 1);
  }

  /** The renaming loop from `i` down to 1, starting with `path.(i+1)`
      absent, moves each generation `k` in `1..i` to `k + 1`, leaves
      `path.1` absent and touches nothing else. */
  lemma {:induction false} ShiftFromShifts(files: map<Path, Bytes>, i: nat)
    requires Gen(i + 1) !in files
    ensures var r := ShiftFrom(files, i, {});
      && (forall k: nat | 2 <= k <= i + 1 :: Lookup(r, Gen(k)) == Lookup(files, Gen(k - 1)))
      && (i >= 1 ==> Gen(1) !in r)
      && (forall q | !IsGenIn(q, 1, i + 1) :: Lookup(r, q) == Lookup(files, q))
    decreases i
  {
    if i >= 1 {
      var f1 := RenameIn(files, Gen(i), Gen(i + 1));
      ShiftStep(files, i);
      ShiftFromShifts(f1, i - 1);
      var r := ShiftFrom(files, i, {});
      assert r == ShiftFrom(f1, i - 1, {});
      forall k: nat | 2 <= k <= i + 1
        ensures Lookup(r, Gen(k)) == Lookup(files, Gen(k - 1))
      {
        if k == i + 1 {
          if IsGenIn(Gen(i + 1), 1, i) {
            var j: nat :| 1 <= j <= i && Gen(i + 1) == Gen(j);
            GenInjective(i + 1, j);
          }
        } else {
          GenDistinct(k - 1, i);
          GenDistinct(k - 1, i + 1);
        }
      }
      forall q | !IsGenIn(q, 1, i + 1)
        ensures Lookup(r, q) == Lookup(files, q)
      {
        assert q != Gen(i) && q != Gen(i + 1);
      }
    }
  }

  /** Rotation with `1 <= N <= 2^31 - 1` files: the live file becomes `path.1`,
      each `path.k` for `k < N` becomes `path.(k+1)`, the old `path.N` is
      gone, and no other path changes; in particular no generation beyond
      `.N` is ever created. */
  lemma RotateShifts(files: map<Path, Bytes>, n: U32)
    requires 1 <= n <= INT_MAX
    ensures var r := RotateFiles(files, n, NO_FAULTS);
      && LIVE !in r
      && Lookup(r, Gen(1)) == Lookup(files, LIVE)
      && (forall k: nat | 2 <= k <= n :: Lookup(r, Gen(k)) == Lookup(files, Gen(k - 1)))
      && (forall q | q != LIVE && !IsGenIn(q, 1, n) :: Lookup(r, q) == Lookup(files, q))
  {
    var f0 := files - {Gen(n)};
    assert LoopStart(n) == n - 1;
    ShiftFromShifts(f0, n - 1);
    ShiftKeepsLive(f0, n - 1, {});
    RotateLive(files, n, NO_FAULTS);
    var shifted := ShiftFrom(f0, n - 1, {});
    var r := RotateFiles(files, n, NO_FAULTS);
    assert Lookup(f0, LIVE) == Lookup(files, LIVE);
    assert Gen(1) !in shifted by {
      if n == 1 {
        assert shifted == f0;
      }
    }
    forall k: nat | 2 <= k <= n
      ensures Lookup(r, Gen(k)) == Lookup(files, Gen(k - 1))
    {
      GenDistinct(k, 1);
      GenDistinct(k - 1, n);
    }
    forall q | q != LIVE && !IsGenIn(q, 1, n)
      ensures Lookup(r, q) == Lookup(files, q)
    {
      assert q != Gen(1) && q != Gen(n);
    }
  }

  /** With `max_file_count == 0` the rotation still keeps one old file:
      `path.0` is removed and the live file still becomes `path.1`. */
  lemma RotateWithZeroCount(files: map<Path, Bytes>)
    ensures var r := RotateFiles(files, 0, NO_FAULTS);
      && Gen(0) !in r && LIVE !in r
      && (LIVE in files ==> Gen(1) in r && r[Gen(1)] == files[LIVE])
  {
    GenDistinct(0, 1);
    RotateLive(files, 0, NO_FAULTS);
  }

  /** Rotation with `N > 2^31`: `max_file_count - 1` stored in an `int`
      is negative, so no generation is shifted; `path.N` is still removed
      and the live file still becomes `path.1`, replacing what was there.
      Every other path keeps its contents. */
  lemma RotateWithHugeCount(files: map<Path, Bytes>, n: U32)
    requires n > INT_MAX + 1
    ensures var r := RotateFiles(files, n, NO_FAULTS);
      && LIVE !in r
      && Gen(n) !in r
      && Lookup(r, Gen(1)) == (if LIVE in files then Some(files[LIVE]) else Lookup(files, Gen(1)))
      && forall q | q != LIVE && q != Gen(1) && q != Gen(n) :: Lookup(r, q) == Lookup(files, q)
  {
    GenDistinct(1, n);
    RotateLive(files, n, NO_FAULTS);
    assert ShiftFrom(files - {Gen(n)}, LoopStart(n), {}) == files - {Gen(n)};
  }

  /** `fwrite(data, 1, n, g_log_file)` when the live file is open; the bytes
      go nowhere when it is not. */
  function Spill(files: map<Path, Bytes>, open: bool, data: Bytes): map<Path, Bytes>
  {
    if open && LIVE in files then files[LIVE := files[LIVE] + data] else files
  }

  /** Whether a line of `len` bytes triggers a rotation: the `uint32_t` sum
      `g_current_file_size + total_len` exceeds `max_file_size`. */
  predicate Rotates(size: U32, len: nat, max: U32)
  {
    (size + len) % TWO32 > max
  }

  /** Adding to a `uint32_t` counter commutes with its wrap-around. */
  lemma ModAdd(a: nat, b: nat)
    ensures (a % TWO32 + b) % TWO32 == (a + b) % TWO32
  {
    ShiftMod(a % TWO32 + b, a / TWO32);
    assert a + b == a % TWO32 + b + TWO32 * (a / TWO32);
  }

  lemma {:induction false} ShiftMod(x: nat, k: nat)
    ensures (x + TWO32 * k) % TWO32 == x % TWO32
    decreases k
  {
    if k > 0 {
      ShiftMod(x, k - 1);
      assert x + TWO32 * k == (x + TWO32 * (k - 1)) + TWO32;
    }
  }

  // ---------------------------------------------------------------- the log

  class TextLog {
    var config: Config
    /** `g_log_file != NULL`. */
    var fileOpen: bool
    /** `g_write_buffer`. */
    const buffer: array<bv8>
    var bufferUsed: nat
    var currentFileSize: U32
    var initialized: bool
    var lastFlushTime: int
    const fs: FileSystem
    /** The lines `text_log_write` has taken on (returned 0 for), oldest
        first. */
    ghost var written: seq<Bytes>

    ghost predicate Valid()
      reads this, fs
    {
      && buffer.Length == BUFFER_SIZE
      && bufferUsed < BUFFER_SIZE
      && (fileOpen ==> LIVE in fs.files)
    }

    /** `g_current_file_size` counts the live file and the buffered bytes
        (modulo 2^32, as a `uint32_t`). */
    ghost predicate SizeTracked()
      reads this, fs
    {
      initialized && fileOpen && LIVE in fs.files ==>
        currentFileSize == (|fs.files[LIVE]| + bufferUsed) % TWO32
    }

    /** The bytes written but still in the buffer. */
    function Pending(): Bytes
      reads this, buffer
      requires bufferUsed <= buffer.Length
    {
      buffer[..bufferUsed]
    }

    /** The live file as it will read once the buffer is written out. */
    function Logical(): Bytes
      reads this, fs, buffer
      requires bufferUsed <= buffer.Length && LIVE in fs.files
    {
      fs.files[LIVE] + Pending()
    }

    /** Whether `text_log_write` of a line of `len` bytes returns 0 with
        these faults: the log is on, and a rotation the line triggers gets
        the live file reopened. */
    ghost predicate Accepts(len: nat, faults: RotateFaults)
      reads this
    {
      initialized && !(Rotates(currentFileSize, len, config.maxFileSize) && faults.reopen)
    }

    /** The zero-initialised globals over the file system `fs`. */
    constructor (fs: FileSystem)
      ensures Valid() && SizeTracked() && this.fs == fs && fresh(buffer)
      ensures config == DEFAULT_CONFIG && !initialized && !fileOpen && bufferUsed == 0 && written == []
    {
      config := DEFAULT_CONFIG;
      fileOpen := false;
      buffer := new bv8[BUFFER_SIZE](_ => 0);
      bufferUsed := 0;
      currentFileSize := 0;
      initialized := false;
      lastFlushTime := 0;
      this.fs := fs;
      written := [];
    }

    /** `text_log_rotate`: close the live file, run the renames (each
        failure ignored), reopen the live file; `faults` says which calls
        fail. The counter restarts at 0 whenever the reopen works, even
        when the live file could not be renamed and still holds its old
        contents. */
    method Rotate(faults: RotateFaults) returns (r: int)
      requires Valid()
      modifies this, fs
      ensures Valid()
      ensures config == old(config) && initialized == old(initialized) && bufferUsed == old(bufferUsed)
      ensures lastFlushTime == old(lastFlushTime) && written == old(written)
      ensures r == (if faults.reopen then -1 else 0) && fileOpen == !faults.reopen
      ensures var rotated := RotateFiles(old(fs.files), config.maxFileCount, faults);
        if faults.reopen then fs.files == rotated && currentFileSize == old(currentFileSize)
        else fs.files == OpenedLive(rotated) && currentFileSize == 0
    {
      fileOpen := false;
      var n := config.maxFileCount;
      var _ := fs.Remove(Gen(n));
      ghost var start := fs.files;
      var i := LoopStart(n);
      while i >= 1
        invariant ShiftFrom(fs.files, i, faults.shift) == ShiftFrom(start, LoopStart(n), faults.shift)
        modifies fs
        decreases i
      {
        // a missing `path.i` makes `rename` fail as well; the result is ignored
        var _ := fs.Rename(Gen(i), Gen(i + 1), i in faults.shift);
        i := i - 1;
      }
      var _ := fs.Rename(LIVE, Gen(1), faults.live);
      var ok := fs.OpenAppend(LIVE, faults.reopen);
      if !ok {
        return -1;
      }
      fileOpen := true;
      currentFileSize := 0;
      return 0;
    }

    /** `text_log_init`: `cfg` is the caller's configuration or `NULL`,
        `dirFails` whether `ensure_log_directory` fails, `openFails` whether
        `fopen(path, "a")` fails, `now` the value of `time(NULL)`. A second
        call changes nothing. */
    method Init(cfg: Option<Config>, dirFails: bool, openFails: bool, now: int) returns (r: int)
      requires Valid()
      modifies this, fs
      ensures Valid() && written == old(written)
      ensures !old(initialized) ==> SizeTracked()
      ensures old(initialized) ==> r == 0 && unchanged(this) && fs.files == old(fs.files)
      ensures !old(initialized) ==>
        && config == (if cfg.Some? then cfg.value else old(config))
        && (dirFails ==> r == -1 && !initialized && fileOpen == old(fileOpen) && fs.files == old(fs.files))
        && (!dirFails && openFails ==> r == -1 && !initialized && !fileOpen && fs.files == old(fs.files))
        && (!dirFails && !openFails ==>
              && r == 0 && initialized && fileOpen && bufferUsed == 0 && lastFlushTime == now
              && fs.files == OpenedLive(old(fs.files))
              && currentFileSize == |fs.files[LIVE]| % TWO32)
    {
      if initialized {
        return 0;
      }
      if cfg.Some? {
        config := cfg.value;
      }
      if dirFails {
        return -1;
      }
      var ok := fs.OpenAppend(LIVE, openFails);
      fileOpen := ok;
      if !ok {
        return -1;
      }
      // `get_file_size` is the `st_size` of the file just opened, as `uint32_t`
      currentFileSize := |fs.files[LIVE]| % TWO32;
      bufferUsed := 0;
      lastFlushTime := now;
      initialized := true;
      return 0;
    }

    /** `if (g_buffer_used > 0) { fwrite(...); g_buffer_used = 0; }` */
    method WriteOut()
      requires Valid()
      modifies this, fs
      ensures Valid() && bufferUsed == 0 && written == old(written)
      ensures fs.files == Spill(old(fs.files), fileOpen, old(Pending()))
      ensures fs.files - {LIVE} == old(fs.files) - {LIVE}
      ensures config == old(config) && fileOpen == old(fileOpen) && initialized == old(initialized)
      ensures currentFileSize == old(currentFileSize) && lastFlushTime == old(lastFlushTime)
    {
      if bufferUsed > 0 {
        if fileOpen {
          fs.Append(LIVE, buffer[..bufferUsed]);
        }
        bufferUsed := 0;
      } else if fileOpen {
        assert fs.files[LIVE] + [] == fs.files[LIVE];
      }
    }

    /** `text_log_deinit`: write out the buffer and close the file;
        `g_buffer_used` keeps its value. */
    method Deinit()
      requires Valid()
      modifies this, fs
      ensures Valid() && written == old(written)
      ensures !old(initialized) ==> unchanged(this) && fs.files == old(fs.files)
      ensures old(initialized) ==>
        && !initialized && !fileOpen && bufferUsed == old(bufferUsed)
        && fs.files == Spill(old(fs.files), old(fileOpen), old(Pending()))
      ensures config == old(config) && currentFileSize == old(currentFileSize)
      ensures lastFlushTime == old(lastFlushTime)
    {
      if !initialized {
        return;
      }
      var used := bufferUsed;
      WriteOut();
      bufferUsed := used;
      fileOpen := false;
      initialized := false;
    }

    /** `text_log_flush`: write the buffered bytes to the live file (the
        `fflush`/`fsync` that follow are not part of this model). */
    method Flush() returns (r: int)
      requires Valid()
      modifies this, fs
      ensures Valid() && written == old(written)
      ensures r == (if old(initialized) && old(fileOpen) then 0 else -1)
      ensures r == -1 ==> bufferUsed == old(bufferUsed) && fs.files == old(fs.files)
      ensures r == 0 ==> bufferUsed == 0 && fs.files == old(fs.files)[LIVE := old(Logical())]
      ensures fs.files - {LIVE} == old(fs.files) - {LIVE}
      ensures config == old(config) && fileOpen == old(fileOpen) && initialized == old(initialized)
      ensures currentFileSize == old(currentFileSize) && lastFlushTime == old(lastFlushTime)
      ensures old(SizeTracked()) ==> SizeTracked()
    {
      if !initialized || !fileOpen {
        return -1;
      }
      WriteOut();
      return 0;
    }

    /** The tail of `text_log_write` after the rotation check: coalesce the
        line into the buffer when it fits (`g_buffer_used + total_len <
        4096`), otherwise write out the buffer and then the line. */
    method Store(line: Bytes)
      requires Valid() && |line| < BUFFER_SIZE
      modifies this, fs, buffer
      ensures Valid() && written == old(written)
      ensures config == old(config) && fileOpen == old(fileOpen) && initialized == old(initialized)
      ensures lastFlushTime == old(lastFlushTime)
      ensures currentFileSize == (old(currentFileSize) + |line|) % TWO32
      ensures fs.files - {LIVE} == old(fs.files) - {LIVE}
      ensures old(bufferUsed) + |line| < BUFFER_SIZE ==>
        bufferUsed == old(bufferUsed) + |line| && Pending() == old(Pending()) + line && fs.files == old(fs.files)
      ensures old(bufferUsed) + |line| >= BUFFER_SIZE ==>
        bufferUsed == 0 && fs.files == Spill(Spill(old(fs.files), fileOpen, old(Pending())), fileOpen, line)
      ensures fileOpen ==> Logical() == old(Logical()) + line
      ensures !fileOpen ==> fs.files == old(fs.files)
      ensures old(SizeTracked()) ==> SizeTracked()
    {
      if bufferUsed + |line| < BUFFER_SIZE {
        ghost var before := buffer[..];
        Put(buffer, bufferUsed, line);
        assert buffer[..bufferUsed + |line|] == before[..bufferUsed] + line;
        bufferUsed := bufferUsed + |line|;
      } else {
        WriteOut();
        if fileOpen {
          fs.Append(LIVE, line);
        }
      }
      if old(SizeTracked()) && initialized && fileOpen {
        ModAdd(|old(fs.files)[LIVE]| + old(bufferUsed), |line|);
      }
      currentFileSize := (currentFileSize + |line|) % TWO32;
    }

    /** The rotation branch of `text_log_write`: write out the buffer, then
        rotate. */
    method RotateForWrite(faults: RotateFaults) returns (ok: bool)
      requires Valid()
      modifies this, fs
      ensures Valid() && ok == !faults.reopen && fileOpen == ok && bufferUsed == 0
      ensures config == old(config) && initialized == old(initialized)
      ensures lastFlushTime == old(lastFlushTime) && written == old(written)
      ensures var rotated := RotateFiles(Spill(old(fs.files), old(fileOpen), old(Pending())), config.maxFileCount, faults);
        fs.files == (if ok then OpenedLive(rotated) else rotated)
      ensures ok ==> currentFileSize == 0
      ensures !ok ==> currentFileSize == old(currentFileSize)
    {
      WriteOut();
      var rr := Rotate(faults);
      ok := rr == 0;
    }

    /** The periodic flush at the end of `text_log_write`. */
    method Tick(now: int)
      requires Valid()
      modifies this, fs
      ensures Valid() && written == old(written)
      ensures config == old(config) && fileOpen == old(fileOpen) && initialized == old(initialized)
      ensures currentFileSize == old(currentFileSize)
      ensures fs.files - {LIVE} == old(fs.files) - {LIVE}
      ensures fileOpen ==> Logical() == old(Logical())
      ensures !fileOpen ==> fs.files == old(fs.files)
      ensures if now - old(lastFlushTime) >= FLUSH_INTERVAL then
          lastFlushTime == now && (initialized && fileOpen ==> bufferUsed == 0)
        else lastFlushTime == old(lastFlushTime) && bufferUsed == old(bufferUsed)
      ensures old(SizeTracked()) ==> SizeTracked()
    {
      if now - lastFlushTime >= FLUSH_INTERVAL {
        var r := Flush();
        if r == 0 {
          assert Logical() == fs.files[LIVE] + [];
        }
        lastFlushTime := now;
      }
    }

    /** `text_log_write` for a line that triggers a rotation. When the live
        file could not be renamed, the line is appended to the old live file
        while the counter restarts at the line's length. */
    method WriteRotating(line: Bytes, now: int, faults: RotateFaults) returns (r: int)
      requires Valid() && initialized && 0 < |line| < BUFFER_SIZE
      modifies this, fs, buffer
      ensures Valid() && written == old(written)
      ensures config == old(config) && initialized
      ensures var spilled := Spill(old(fs.files), old(fileOpen), old(Pending()));
        var rotated := RotateFiles(spilled, config.maxFileCount, faults);
        if faults.reopen then
          && r == -1 && !fileOpen && bufferUsed == 0 && fs.files == rotated
          && lastFlushTime == old(lastFlushTime) && currentFileSize == old(currentFileSize)
        else
          && r == 0 && fileOpen && currentFileSize == |line|
          && Logical() == (if faults.live then LiveOf(spilled) else []) + line
          && fs.files - {LIVE} == rotated - {LIVE}
          && (if now - old(lastFlushTime) >= FLUSH_INTERVAL then lastFlushTime == now && bufferUsed == 0
              else lastFlushTime == old(lastFlushTime))
      ensures !faults.live ==> SizeTracked()
    {
      ghost var spilled := Spill(fs.files, fileOpen, Pending());
      var ok := RotateForWrite(faults);
      if !ok {
        return -1;
      }
      RotateLive(spilled, config.maxFileCount, faults);
      assert fs.files[LIVE] == (if faults.live then LiveOf(spilled) else []);
      Store(line);
      Tick(now);
      return 0;
    }

    /** `text_log_write` for a line that fits under `max_file_size`. */
    method WritePlain(line: Bytes, now: int) returns (r: int)
      requires Valid() && initialized && 0 < |line| < BUFFER_SIZE
      modifies this, fs, buffer
      ensures Valid() && written == old(written)
      ensures config == old(config) && initialized
      ensures r == 0 && fileOpen == old(fileOpen)
      ensures currentFileSize == (old(currentFileSize) + |line|) % TWO32
      ensures fileOpen ==> Logical() == old(Logical()) + line && fs.files - {LIVE} == old(fs.files) - {LIVE}
      ensures !fileOpen ==> fs.files == old(fs.files)
      ensures if now - old(lastFlushTime) >= FLUSH_INTERVAL then
          lastFlushTime == now && (fileOpen ==> bufferUsed == 0)
        else lastFlushTime == old(lastFlushTime)
      ensures old(SizeTracked()) ==> SizeTracked()
    {
      Store(line);
      Tick(now);
      return 0;
    }

    /** `text_log_write`: append `entry` and a newline, rotating first when
        the live file would grow past `max_file_size`, and flushing when
        `FLUSH_INTERVAL` seconds have passed since the last flush. The
        counter keeps tracking the live file and the buffer unless a
        rotation failed to rename the live file. */
    method Write(entry: Option<Bytes>, now: int, faults: RotateFaults) returns (r: int)
      requires Valid()
      modifies this, fs, buffer
      ensures Valid()
      ensures config == old(config) && initialized == old(initialized)
      ensures r == (if entry.Some? && old(Accepts(|EntryLine(entry.value)|, faults)) then 0 else -1)
      ensures written == old(written) + (if entry.Some? && r == 0 then [EntryLine(entry.value)] else [])
      ensures !old(initialized) || entry.None? ==>
        && fs.files == old(fs.files) && bufferUsed == old(bufferUsed)
        && fileOpen == old(fileOpen) && currentFileSize == old(currentFileSize)
        && lastFlushTime == old(lastFlushTime)
      ensures old(initialized) && entry.Some? ==>
        var line := EntryLine(entry.value);
        var spilled := Spill(old(fs.files), old(fileOpen), old(Pending()));
        var rotated := RotateFiles(spilled, config.maxFileCount, faults);
        if Rotates(old(currentFileSize), |line|, config.maxFileSize) then
          if faults.reopen then
            && !fileOpen && bufferUsed == 0 && fs.files == rotated
            && lastFlushTime == old(lastFlushTime) && currentFileSize == old(currentFileSize)
          else
            && fileOpen && currentFileSize == |line|
            && Logical() == (if faults.live then LiveOf(spilled) else []) + line
            && (faults.live && old(fileOpen) ==> Logical() == old(Logical()) + line)
            && fs.files - {LIVE} == rotated - {LIVE}
        else
          && fileOpen == old(fileOpen)
          && currentFileSize == (old(currentFileSize) + |line|) % TWO32
          && (fileOpen ==> Logical() == old(Logical()) + line && fs.files - {LIVE} == old(fs.files) - {LIVE})
          && (!fileOpen ==> fs.files == old(fs.files))
      ensures r == 0 ==>
        if now - old(lastFlushTime) >= FLUSH_INTERVAL then
          lastFlushTime == now && (fileOpen ==> bufferUsed == 0)
        else lastFlushTime == old(lastFlushTime)
      ensures old(SizeTracked()) && !faults.live ==> SizeTracked()
    {
      if !initialized || entry.None? {
        return -1;
      }
      var line := EntryLine(entry.value);
      if Rotates(currentFileSize, |line|, config.maxFileSize) {
        r := WriteRotating(line, now, faults);
      } else {
        r := WritePlain(line, now);
      }
      if r == 0 {
        written := written + [line];
      }
    }

    /** `text_log_read`: flush, then copy at most `size - 1` bytes from the
        start of the live file into `out` and terminate them. `openFails`
        says whether `fopen(path, "r")` fails on an existing file. */
    method Read(out: array?<bv8>, size: nat, openFails: bool) returns (r: int)
      requires Valid()
      requires out != null ==> size <= out.Length && out != buffer
      modifies this, fs, out
      ensures Valid() && written == old(written)
      ensures config == old(config) && fileOpen == old(fileOpen) && initialized == old(initialized)
      ensures currentFileSize == old(currentFileSize) && lastFlushTime == old(lastFlushTime)
      ensures old(SizeTracked()) ==> SizeTracked()
      ensures !old(initialized) || out == null || size == 0 ==>
        r == -1 && unchanged(this) && fs.files == old(fs.files) && (out != null ==> unchanged(out))
      ensures old(initialized) && out != null && size > 0 ==>
        && (old(fileOpen) ==> bufferUsed == 0 && fs.files == old(fs.files)[LIVE := old(Logical())])
        && (!old(fileOpen) ==> bufferUsed == old(bufferUsed) && fs.files == old(fs.files))
        && (openFails || LIVE !in fs.files ==> r == -1 && out[..] == old(out[..]))
        && (!openFails && LIVE in fs.files ==>
              && r == Min(size - 1, |fs.files[LIVE]|)
              && out[..r] == fs.files[LIVE][..r] && out[r] == 0 && out[r + 1..] == old(out[r + 1..]))
    {
      if !initialized || out == null || size == 0 {
        return -1;
      }
      var _ := Flush();
      if openFails || LIVE !in fs.files {
        return -1;
      }
      var data := fs.files[LIVE];
      var n := Min(size - 1, |data|);
      Put(out, 0, data[..n]);
      out[n] := 0;
      return n;
    }
  }
}
