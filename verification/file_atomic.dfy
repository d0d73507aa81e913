/**
 * The atomic store (`file_atomic.c`): one value per path, written as a
 * blob `{magic, version, length, crc32}` + payload to `path.tmp`, the old
 * `path` kept as `path.bak`, then `path.tmp` renamed over `path`. A read
 * validates the blob and falls back to `path.bak` on any failure.
 *
 * The write and the read are methods over the shared `FileSystem`; each is
 * specified by a function of the old file map (`WriteSpec`, `ReadSpec`)
 * about which the store's promises are proved as lemmas.
 */
module FileAtomic {
  import opened Common
  import opened Files
  import Crc32

  const FILE_MAGIC: bv32 := 0x4653_5452    // 'FSTR'
  const FILE_VERSION: bv32 := 1
  const HEADER_SIZE: nat := 16
  const TWO32: nat := 0x1_0000_0000
  /** `char tmp_path[256]`: a sibling path keeps at most 255 characters. */
  const PATH_BUF: nat := 256

  datatype FileErr =
    | Ok | ErrOpen | ErrRead | ErrWrite | ErrFsync | ErrRename | ErrCrc | ErrFormat | ErrParam

  datatype Header = Header(magic: bv32, version: bv32, length: bv32, crc32: bv32)

  /** Which of the write's system calls fail this time. `shortWrite ==
      Some(k)` means only the first `k` bytes of the blob reach the file. */
  datatype WriteFaults = WriteFaults(
    openFails: bool,
    shortWrite: Option<nat>,
    backupRenameFails: bool,
    renameFails: bool)

  const NoFaults := WriteFaults(false, None, false, false)

  // ---------------------------------------------------------------- encoding

  /** A `uint32_t` as the four bytes the (little-endian) host stores. */
  function EncodeU32(x: bv32): (r: Bytes)
    ensures |r| == 4
  {
    [(x & 0xFF) as bv8, ((x >> 8) & 0xFF) as bv8, ((x >> 16) & 0xFF) as bv8, ((x >> 24) & 0xFF) as bv8]
  }

  function DecodeU32(b: Bytes): bv32
    requires |b| == 4
  {
    (b[0] as bv32) | ((b[1] as bv32) << 8) | ((b[2] as bv32) << 16) | ((b[3] as bv32) << 24)
  }

  lemma DecodeEncodeU32(x: bv32)
    ensures DecodeU32(EncodeU32(x)) == x
  {
  }

  function EncodeHeader(h: Header): (r: Bytes)
    ensures |r| == HEADER_SIZE
  {
    EncodeU32(h.magic) + EncodeU32(h.version) + EncodeU32(h.length) + EncodeU32(h.crc32)
  }

  function DecodeHeader(b: Bytes): Header
    requires |b| == HEADER_SIZE
  {
    Header(DecodeU32(b[0..4]), DecodeU32(b[4..8]), DecodeU32(b[8..12]), DecodeU32(b[12..16]))
  }

  /** The header read back is the header written. */
  lemma DecodeEncodeHeader(h: Header)
    ensures DecodeHeader(EncodeHeader(h)) == h
  {
    var b := EncodeHeader(h);
    assert b[0..4] == EncodeU32(h.magic);
    assert b[4..8] == EncodeU32(h.version);
    assert b[8..12] == EncodeU32(h.length);
    assert b[12..16] == EncodeU32(h.crc32);
    DecodeEncodeU32(h.magic);
    DecodeEncodeU32(h.version);
    DecodeEncodeU32(h.length);
    DecodeEncodeU32(h.crc32);
  }

  /** The header `file_atomic_write` builds for `data` (`.length = len`
      stores `len` modulo 2^32 in the `uint32_t` field). */
  function HeaderFor(data: Bytes): Header
  {
    Header(FILE_MAGIC, FILE_VERSION, (|data| % TWO32) as bv32, Crc32.Crc32(data))
  }

  /** Everything that lands in `path.tmp`: header, then the payload. */
  function Blob(data: Bytes): (r: Bytes)
    ensures |r| == HEADER_SIZE + |data|
  {
    EncodeHeader(HeaderFor(data)) + data
  }

  /** `snprintf(buf, 256, "%s%s", path, suffix)`. */
  function SiblingPath(p: Path, suffix: string): Path
  {
    Take(p + suffix, PATH_BUF - 1)
  }

  function TmpPath(p: Path): Path { SiblingPath(p, ".tmp") }

  function BakPath(p: Path): Path { SiblingPath(p, ".bak") }

  /** For paths of at most 251 characters the three sibling names are
      distinct. */
  lemma SiblingsDistinct(p: Path)
    requires |p| <= PATH_BUF - 5
    ensures TmpPath(p) == p + ".tmp" && BakPath(p) == p + ".bak"
    ensures TmpPath(p) != p && BakPath(p) != p && TmpPath(p) != BakPath(p)
  {
    assert TmpPath(p)[|p| + 1] == 't';
    assert BakPath(p)[|p| + 1] == 'b';
  }

  /** A path of 254 characters, or of 256 and more, leaves room for at most
      the dot of either suffix: `path.tmp` and `path.bak` are then one and
      the same name, and it is not `path`. */
  lemma SiblingsCollide(p: Path)
    requires |p| == PATH_BUF - 2 || |p| >= PATH_BUF
    ensures TmpPath(p) == BakPath(p) && TmpPath(p) != p
  {
    if |p| == PATH_BUF - 2 {
      assert TmpPath(p) == p + ".";
      assert BakPath(p) == p + ".";
    } else {
      assert TmpPath(p) == p[..PATH_BUF - 1];
      assert BakPath(p) == p[..PATH_BUF - 1];
    }
  }

  // ---------------------------------------------------------------- write

  /** What `file_atomic_write` returns and leaves behind, from the file map
      before the call. */
  function WriteSpec(files: map<Path, Bytes>, path: Option<Path>, data: Option<Bytes>, io: WriteFaults)
    : (r: (FileErr, map<Path, Bytes>))
    ensures r.0 == ErrParam <==> path.None? || data.None? || |data.value| == 0
    ensures r.0 in {ErrParam, ErrOpen} ==> r.1 == files
  {
    if path.None? || data.None? || |data.value| == 0 then (ErrParam, files)
    else
      var p, blob := path.value, Blob(data.value);
      if io.openFails then (ErrOpen, files)
      else if io.shortWrite.Some? && io.shortWrite.value < |blob| then
        (ErrWrite, files[TmpPath(p) := blob[..io.shortWrite.value]])
      else
        CommitSpec(files[TmpPath(p) := blob], p, io)
  }

  /** The last steps of the write, once `path.tmp` is complete: keep the
      old `path` as `path.bak` (a failure here is ignored), then rename
      `path.tmp` over `path`. */
  function CommitSpec(files: map<Path, Bytes>, p: Path, io: WriteFaults): (r: (FileErr, map<Path, Bytes>))
    ensures r.0 in {Ok, ErrRename}
  {
    var f2 := if p in files && !io.backupRenameFails then RenameIn(files, p, BakPath(p)) else files;
    // rename fails when told to, or when `path.tmp` is gone (only possible
    // when truncation makes the sibling names collide)
    if io.renameFails || TmpPath(p) !in f2 then (ErrRename, f2)
    else (Ok, RenameIn(f2, TmpPath(p), p))
  }

  method Commit(fs: FileSystem, p: Path, io: WriteFaults) returns (e: FileErr)
    modifies fs
    ensures (e, fs.files) == CommitSpec(old(fs.files), p, io)
  {
    var present := fs.Exists(p);
    if present {
      var _ := fs.Rename(p, BakPath(p), io.backupRenameFails);
    }
    var ok := fs.Rename(TmpPath(p), p, io.renameFails);
    e := if ok then Ok else ErrRename;
  }

  /** `file_atomic_write`. */
  method AtomicWrite(fs: FileSystem, path: Option<Path>, data: Option<Bytes>, io: WriteFaults)
    returns (e: FileErr)
    modifies fs
    ensures (e, fs.files) == WriteSpec(old(fs.files), path, data, io)
  {
    if path.None? || data.None? || |data.value| == 0 {
      return ErrParam;
    }
    var p, d := path.value, data.value;
    var tmp, bak := TmpPath(p), BakPath(p);
    var crc := Crc32.Crc32Calc(d);
    var hdr := Header(FILE_MAGIC, FILE_VERSION, (|d| % TWO32) as bv32, crc);
    var blob := EncodeHeader(hdr) + d;
    assert hdr == HeaderFor(d) && blob == Blob(d);
    var ok := fs.CreateTruncate(tmp, io.openFails);
    if !ok {
      return ErrOpen;
    }
    if io.shortWrite.Some? && io.shortWrite.value < |blob| {
      var part := blob[..io.shortWrite.value];
      fs.Append(tmp, part);
      assert [] + part == part;
      UpdateTwice(old(fs.files), tmp, [], part);
      assert WriteSpec(old(fs.files), path, data, io) == (ErrWrite, old(fs.files)[tmp := blob[..io.shortWrite.value]]);
      return ErrWrite;
    }
    var head := EncodeHeader(hdr);
    fs.Append(tmp, head);
    fs.Append(tmp, d);
    assert [] + head == head;
    UpdateTwice(old(fs.files), tmp, [], head);
    UpdateTwice(old(fs.files), tmp, head, blob);
    assert fs.files == old(fs.files)[tmp := blob];
    // fsync and close: durability is not modelled
    e := Commit(fs, p, io);
  }

  // ---------------------------------------------------------------- read

  /** `buf` after its first `|w|` bytes are overwritten by `w`. */
  function Overlay(buf: Bytes, w: Bytes): (r: Bytes)
    requires |w| <= |buf|
    ensures |r| == |buf| && r[..|w|] == w && r[|w|..] == buf[|w|..]
  {
    w + buf[|w|..]
  }

  /** `file_read_internal` on a file (None: it does not exist) into a
      buffer whose old contents are `buf` and whose capacity is `|buf|`:
      the result code and the buffer afterwards. */
  function ReadFileSpec(file: Option<Bytes>, buf: Bytes): (r: (FileErr, Bytes))
    ensures |r.1| == |buf|
    ensures r.0 in {Ok, ErrOpen, ErrRead, ErrCrc, ErrFormat}
  {
    if file.None? then (ErrOpen, buf)
    else
      var f := file.value;
      if |f| < HEADER_SIZE then (ErrRead, buf)
      else
        var h := DecodeHeader(f[..HEADER_SIZE]);
        if h.magic != FILE_MAGIC || h.length as int > |buf| then (ErrFormat, buf)
        else
          var avail := f[HEADER_SIZE..];
          var n := h.length as int;
          if |avail| < n then (ErrRead, Overlay(buf, avail))
          else if Crc32.Crc32(avail[..n]) != h.crc32 then (ErrCrc, Overlay(buf, avail[..n]))
          else (Ok, Overlay(buf, avail[..n]))
  }

  /** The error classes of `file_read_internal`: a missing file is
      FILE_ERR_OPEN; a header or payload cut short is FILE_ERR_READ; a wrong
      magic or a length over the capacity is FILE_ERR_FORMAT; a checksum
      mismatch is FILE_ERR_CRC; and FILE_OK exactly when none of these
      holds, with the payload copied over the buffer's front. Nothing is
      read into the buffer before the header is accepted. */
  lemma ReadErrorClasses(file: Option<Bytes>, buf: Bytes)
    ensures var r := ReadFileSpec(file, buf);
      && (r.0 == ErrOpen <==> file.None?)
      && (file.None? ==> r.1 == buf)
      && (file.Some? && |file.value| < HEADER_SIZE ==> r == (ErrRead, buf))
      && (file.Some? && |file.value| >= HEADER_SIZE ==>
            var h := DecodeHeader(file.value[..HEADER_SIZE]);
            var n := h.length as int;
            var payload := file.value[HEADER_SIZE..];
            && (r.0 == ErrFormat <==> h.magic != FILE_MAGIC || n > |buf|)
            && (r.0 == ErrFormat ==> r.1 == buf)
            && (r.0 == ErrRead <==> h.magic == FILE_MAGIC && n <= |buf| && |payload| < n)
            && (r.0 == ErrCrc <==>
                  h.magic == FILE_MAGIC && n <= |buf| && n <= |payload| && Crc32.Crc32(payload[..n]) != h.crc32)
            && (r.0 == Ok <==>
                  h.magic == FILE_MAGIC && n <= |buf| && n <= |payload| && Crc32.Crc32(payload[..n]) == h.crc32)
            && (r.0 == Ok ==> r.1 == Overlay(buf, payload[..n])))
  {
  }

  /** `file_atomic_read` for a non-null path and buffer: the primary file,
      and on any failure `path.bak` validated the same way. */
  function ReadSpec(files: map<Path, Bytes>, p: Path, buf: Bytes): (r: (FileErr, Bytes))
    ensures |r.1| == |buf|
  {
    var primary := ReadFileSpec(Lookup(files, p), buf);
    if primary.0 == Ok then primary
    else ReadFileSpec(Lookup(files, BakPath(p)), primary.1)
  }

  /** `read(fd, data, n)` on a file holding `src` past the header: the
      first `|src|` bytes of the buffer are overwritten. */
  method CopyInto(buf: array<bv8>, src: Bytes)
    requires |src| <= buf.Length
    modifies buf
    ensures buf[..] == Overlay(old(buf[..]), src)
  {
    var i := 0;
    while i < |src|
      invariant 0 <= i <= |src|
      invariant buf[..i] == src[..i]
      invariant buf[i..] == old(buf[i..])
    {
      buf[i] := src[i];
      i := i + 1;
    }
  }

  /** `file_read_internal`. */
  method ReadFile(fs: FileSystem, path: Path, buf: array<bv8>) returns (e: FileErr)
    modifies buf
    ensures (e, buf[..]) == ReadFileSpec(Lookup(fs.files, path), old(buf[..]))
  {
    if path !in fs.files {
      return ErrOpen;
    }
    var f := fs.files[path];
    if |f| < HEADER_SIZE {
      return ErrRead;
    }
    var h := DecodeHeader(f[..HEADER_SIZE]);
    if h.magic != FILE_MAGIC || h.length as int > buf.Length {
      return ErrFormat;
    }
    var avail := f[HEADER_SIZE..];
    var n := h.length as int;
    if |avail| < n {
      CopyInto(buf, avail);
      return ErrRead;
    }
    CopyInto(buf, avail[..n]);
    assert buf[..n] == avail[..n];
    var crc := Crc32.Crc32Calc(buf[..n]);
    if crc != h.crc32 {
      return ErrCrc;
    }
    return Ok;
  }

  /** `file_atomic_read`. */
  method AtomicRead(fs: FileSystem, path: Option<Path>, buf: array?<bv8>) returns (e: FileErr)
    modifies buf
    ensures path.None? || buf == null ==> e == ErrParam
    ensures path.Some? && buf != null ==> (e, buf[..]) == ReadSpec(fs.files, path.value, old(buf[..]))
  {
    if path.None? || buf == null {
      return ErrParam;
    }
    e := ReadFile(fs, path.value, buf);
    if e == Ok {
      return Ok;
    }
    e := ReadFile(fs, BakPath(path.value), buf);
  }

  // ---------------------------------------------------------------- properties

  /** The blob starts with the header built for the payload, then the payload. */
  lemma BlobLayout(d: Bytes)
    ensures DecodeHeader(Blob(d)[..HEADER_SIZE]) == HeaderFor(d)
    ensures Blob(d)[HEADER_SIZE..] == d
  {
    assert Blob(d)[..HEADER_SIZE] == EncodeHeader(HeaderFor(d));
    DecodeEncodeHeader(HeaderFor(d));
  }

  /** A blob written for `d` reads back as `d` into any buffer that can hold it. */
  lemma ReadBlob(d: Bytes, buf: Bytes)
    requires |d| <= |buf| && |d| < TWO32
    ensures ReadFileSpec(Some(Blob(d)), buf) == (Ok, Overlay(buf, d))
  {
    BlobLayout(d);
    var f := Blob(d);
    var h := DecodeHeader(f[..HEADER_SIZE]);
    LengthField(d);
    assert h.length as int == |d|;
    assert f[HEADER_SIZE..][..|d|] == d;
  }

  /** A length below 2^32 survives the trip through the `uint32_t` field. */
  lemma LengthField(d: Bytes)
    requires |d| < TWO32
    ensures HeaderFor(d).length as int == |d|
  {
    U32Value(|d|);
  }

  lemma U32Value(n: nat)
    requires n < TWO32
    ensures ((n % TWO32) as bv32) as int == n
  {
  }

  /** A blob cut short anywhere (a torn write) is never accepted. */
  lemma TornBlobRejected(d: Bytes, k: nat, buf: Bytes)
    requires |d| < TWO32 && k < |Blob(d)|
    ensures ReadFileSpec(Some(Blob(d)[..k]), buf).0 in {ErrRead, ErrFormat}
  {
    var f := Blob(d)[..k];
    if k >= HEADER_SIZE {
      BlobLayout(d);
      LengthField(d);
      assert f[..HEADER_SIZE] == Blob(d)[..HEADER_SIZE];
      var h := DecodeHeader(f[..HEADER_SIZE]);
      assert h.length as int == |d| > |f[HEADER_SIZE..]|;
    }
  }

  /** The version word is never checked: any four bytes there read the same. */
  lemma VersionIgnored(f: Bytes, v: Bytes, buf: Bytes)
    requires |f| >= HEADER_SIZE && |v| == 4
    ensures ReadFileSpec(Some(f[..4] + v + f[8..]), buf) == ReadFileSpec(Some(f), buf)
  {
    var g := f[..4] + v + f[8..];
    assert |g| == |f|;
    assert forall i | 0 <= i < |g| && (i < 4 || 8 <= i) :: g[i] == f[i];
    assert g[..HEADER_SIZE][0..4] == f[..HEADER_SIZE][0..4];
    assert g[..HEADER_SIZE][8..12] == f[..HEADER_SIZE][8..12];
    assert g[..HEADER_SIZE][12..16] == f[..HEADER_SIZE][12..16];
    assert g[HEADER_SIZE..] == f[HEADER_SIZE..];
  }

  /** After a successful write `path` holds the blob for the data, `path.tmp`
      is gone, `path.bak` holds the previous `path` when there was one (and
      the backup rename worked) and is untouched otherwise; no other file
      changes. A write succeeds exactly when none of the open, the writes and
      the final rename fail. */
  lemma WriteOutcome(files: map<Path, Bytes>, p: Path, d: Bytes, io: WriteFaults)
    requires |p| <= PATH_BUF - 5 && |d| > 0
    ensures var (e, f) := WriteSpec(files, Some(p), Some(d), io);
      && (e == Ok <==> !io.openFails && !(io.shortWrite.Some? && io.shortWrite.value < |Blob(d)|) && !io.renameFails)
      && (e == Ok ==>
            && p in f && f[p] == Blob(d)
            && TmpPath(p) !in f
            && Lookup(f, BakPath(p)) == (if p in files && !io.backupRenameFails then Some(files[p]) else Lookup(files, BakPath(p)))
            && forall q | q != p && q != TmpPath(p) && q != BakPath(p) :: Lookup(f, q) == Lookup(files, q))
  {
    SiblingsDistinct(p);
    var tmp, bak := TmpPath(p), BakPath(p);
    var f1 := files[tmp := Blob(d)];
    var f2 := if p in f1 && !io.backupRenameFails then RenameIn(f1, p, bak) else f1;
    assert tmp in f2 && f2[tmp] == Blob(d);
    assert Lookup(f2, bak) == (if p in files && !io.backupRenameFails then Some(files[p]) else Lookup(files, bak));
  }

  /** Round trip: after a successful write of `d`, reading `path` into a
      buffer of at least `|d|` bytes succeeds and yields `d`. */
  lemma WriteThenRead(files: map<Path, Bytes>, p: Path, d: Bytes, io: WriteFaults, buf: Bytes)
    requires |p| <= PATH_BUF - 5 && |d| > 0 && |d| <= |buf| && |d| < TWO32
    requires WriteSpec(files, Some(p), Some(d), io).0 == Ok
    ensures var r := ReadSpec(WriteSpec(files, Some(p), Some(d), io).1, p, buf);
      r.0 == Ok && r.1[..|d|] == d && r.1[|d|..] == buf[|d|..]
  {
    WriteOutcome(files, p, d, io);
    ReadBlob(d, buf);
  }

  /** A write whose final rename fails after the backup step has moved the
      old file aside still serves the old value: `path` is missing, so the
      read goes to `path.bak`, which holds exactly what `path` held. */
  lemma FailedRenameServesOldValue(files: map<Path, Bytes>, p: Path, d: Bytes, io: WriteFaults, buf: Bytes)
    requires |p| <= PATH_BUF - 5 && |d| > 0
    requires p in files && !io.backupRenameFails
    requires WriteSpec(files, Some(p), Some(d), io).0 == ErrRename
    ensures ReadSpec(WriteSpec(files, Some(p), Some(d), io).1, p, buf) == ReadFileSpec(Some(files[p]), buf)
  {
    SiblingsDistinct(p);
    var f := WriteSpec(files, Some(p), Some(d), io).1;
    assert f == RenameIn(files[TmpPath(p) := Blob(d)], p, BakPath(p));
    assert p !in f && f[BakPath(p)] == files[p];
  }

  /** Only one generation is kept: a second successful write of `d2` over a
      `path` written with `d1` leaves `d1` as the backup, and if `path` is
      then damaged in any way that fails validation, the read returns `d1`. */
  lemma BackupServesPreviousValue(files: map<Path, Bytes>, p: Path, d1: Bytes, d2: Bytes, io: WriteFaults,
                                  damaged: Bytes, buf: Bytes)
    requires |p| <= PATH_BUF - 5 && |d2| > 0 && |d1| <= |buf| && |d1| < TWO32
    requires p in files && files[p] == Blob(d1) && !io.backupRenameFails
    requires WriteSpec(files, Some(p), Some(d2), io).0 == Ok
    requires ReadFileSpec(Some(damaged), buf).0 != Ok
    ensures var f := WriteSpec(files, Some(p), Some(d2), io).1;
      && BakPath(p) in f && f[BakPath(p)] == Blob(d1)
      && var r := ReadSpec(f[p := damaged], p, buf);
         r.0 == Ok && r.1[..|d1|] == d1
  {
    WriteOutcome(files, p, d2, io);
    SiblingsDistinct(p);
    var f := WriteSpec(files, Some(p), Some(d2), io).1;
    var primary := ReadFileSpec(Some(damaged), buf);
    assert Lookup(f[p := damaged], BakPath(p)) == Some(Blob(d1));
    ReadBlob(d1, primary.1);
  }

  /** The write as written loses the new value when the sibling names
      collide: the backup rename moves the old `path` over the freshly
      written `path.tmp` (the same file), the final rename moves it back,
      and the write reports FILE_OK while `path` still holds, and reads back
      as, the old value. */
  lemma LongPathKeepsOldValue(files: map<Path, Bytes>, p: Path, d: Bytes, d0: Bytes, buf: Bytes)
    requires |p| == PATH_BUF - 2 || |p| >= PATH_BUF
    requires |d| > 0 && p in files && files[p] == Blob(d0) && |d0| <= |buf| && |d0| < TWO32
    ensures var (e, f) := WriteSpec(files, Some(p), Some(d), NoFaults);
      && e == Ok && p in f && f[p] == Blob(d0) && TmpPath(p) !in f
      && ReadSpec(f, p, buf) == (Ok, Overlay(buf, d0))
  {
    SiblingsCollide(p);
    var tmp := TmpPath(p);
    var f1 := files[tmp := Blob(d)];
    var f2 := RenameIn(f1, p, tmp);
    assert f2 == (f1 - {p})[tmp := files[p]];
    var f3 := RenameIn(f2, tmp, p);
    assert WriteSpec(files, Some(p), Some(d), NoFaults) == (Ok, f3);
    assert f3[p] == Blob(d0) && tmp !in f3;
    ReadBlob(d0, buf);
  }

  /** The write the code evidently intends: a path whose sibling names do
      not fit their 256-byte buffers is refused with FILE_ERR_PARAM rather
      than written under truncated names. */
  function CheckedWriteSpec(files: map<Path, Bytes>, path: Option<Path>, data: Option<Bytes>, io: WriteFaults)
    : (r: (FileErr, map<Path, Bytes>))
    ensures path.Some? && |path.value| > PATH_BUF - 5 ==> r == (ErrParam, files)
    ensures path.None? || |path.value| <= PATH_BUF - 5 ==> r == WriteSpec(files, path, data, io)
  {
    if path.Some? && |path.value| > PATH_BUF - 5 then (ErrParam, files)
    else WriteSpec(files, path, data, io)
  }

  /** With that guard the round trip holds for every path: a write that
      reports FILE_OK always reads back as the data written. */
  lemma CheckedWriteThenRead(files: map<Path, Bytes>, p: Path, d: Bytes, io: WriteFaults, buf: Bytes)
    requires |d| <= |buf| && |d| < TWO32
    requires CheckedWriteSpec(files, Some(p), Some(d), io).0 == Ok
    ensures var r := ReadSpec(CheckedWriteSpec(files, Some(p), Some(d), io).1, p, buf);
      r.0 == Ok && r.1[..|d|] == d && r.1[|d|..] == buf[|d|..]
  {
    WriteThenRead(files, p, d, io, buf);
  }

  // ---------------------------------------------------------------- typed wrappers

  /** A C `int`, as the 32-bit two's-complement pattern that
      `file_write_int` copies out of memory: the store moves the four bytes
      and never looks at the number. */
  type Int32 = bv32

  /** `file_write_int`: the four bytes of `value`. */
  method WriteInt(fs: FileSystem, path: Option<Path>, value: Int32, io: WriteFaults) returns (e: FileErr)
    modifies fs
    ensures (e, fs.files) == WriteSpec(old(fs.files), path, Some(EncodeU32(value)), io)
  {
    e := AtomicWrite(fs, path, Some(EncodeU32(value)), io);
  }

  /** `file_read_int`: `value` is the `int` the pointer refers to (None: a
      null pointer); `after` is what it holds once the read returns. */
  method ReadInt(fs: FileSystem, path: Option<Path>, value: Option<Int32>) returns (e: FileErr, after: Option<Int32>)
    ensures path.None? || value.None? ==> e == ErrParam && after == value
    ensures path.Some? && value.Some? ==>
      var r := ReadSpec(fs.files, path.value, EncodeU32(value.value));
      e == r.0 && after == Some(DecodeU32(r.1))
  {
    if value.None? {
      return ErrParam, None;
    }
    var cell := new bv8[4];
    var init := EncodeU32(value.value);
    cell[0], cell[1], cell[2], cell[3] := init[0], init[1], init[2], init[3];
    assert cell[..] == init;
    e := AtomicRead(fs, path, cell);
    if path.None? {
      return e, value;
    }
    after := Some(DecodeU32(cell[..]));
  }

  /** An `int` stored with `file_write_int` reads back unchanged, whatever the
      target held before. */
  lemma IntRoundTrip(files: map<Path, Bytes>, p: Path, v: Int32, io: WriteFaults, before: Int32)
    requires |p| <= PATH_BUF - 5
    requires WriteSpec(files, Some(p), Some(EncodeU32(v)), io).0 == Ok
    ensures var r := ReadSpec(WriteSpec(files, Some(p), Some(EncodeU32(v)), io).1, p, EncodeU32(before));
      r.0 == Ok && DecodeU32(r.1) == v
  {
    var d := EncodeU32(v);
    WriteThenRead(files, p, d, io, EncodeU32(before));
    var r := ReadSpec(WriteSpec(files, Some(p), Some(d), io).1, p, EncodeU32(before));
    assert r.1 == r.1[..4];
    DecodeEncodeU32(v);
  }

  /** The bytes `file_write_string` stores: `strnlen(str, max_len) + 1`
      bytes of the string's memory, i.e. the string and its terminator when
      it fits in `max_len`, and otherwise `max_len + 1` of its characters. */
  function StringPayload(s: Bytes, maxLen: nat): (r: Bytes)
    ensures |r| == Min(|CStr(s)|, maxLen) + 1
    ensures |CStr(s)| <= maxLen ==> r == CStr(s) + [0]
    ensures |CStr(s)| > maxLen ==> r == CStr(s)[..maxLen + 1] && 0 !in r
  {
    var c := CStr(s);
    (c + [0])[..Min(|c|, maxLen) + 1]
  }

  /** `file_write_string`; `str` is None for a null pointer. */
  method WriteString(fs: FileSystem, path: Option<Path>, str: Option<Bytes>, maxLen: nat, io: WriteFaults)
    returns (e: FileErr)
    modifies fs
    ensures str.None? ==> e == ErrParam && fs.files == old(fs.files)
    ensures str.Some? ==> (e, fs.files) == WriteSpec(old(fs.files), path, Some(StringPayload(str.value, maxLen)), io)
  {
    if str.None? {
      return ErrParam;
    }
    e := AtomicWrite(fs, path, Some(StringPayload(str.value, maxLen)), io);
  }

  /** `file_read_string`: `file_atomic_read` into the caller's buffer. */
  method ReadString(fs: FileSystem, path: Option<Path>, buf: array?<bv8>) returns (e: FileErr)
    modifies buf
    ensures path.None? || buf == null ==> e == ErrParam
    ensures path.Some? && buf != null ==> (e, buf[..]) == ReadSpec(fs.files, path.value, old(buf[..]))
  {
    e := AtomicRead(fs, path, buf);
  }

  /** A string no longer than `max_len` stored with `file_write_string`
      reads back, through `file_read_string` into a buffer that can hold it
      and its terminator, as the same C string. */
  lemma StringRoundTrip(files: map<Path, Bytes>, p: Path, s: Bytes, maxLen: nat, io: WriteFaults, buf: Bytes)
    requires |p| <= PATH_BUF - 5 && |CStr(s)| <= maxLen
    requires |CStr(s)| < |buf| && |buf| < TWO32
    requires WriteSpec(files, Some(p), Some(StringPayload(s, maxLen)), io).0 == Ok
    ensures var r := ReadSpec(WriteSpec(files, Some(p), Some(StringPayload(s, maxLen)), io).1, p, buf);
      r.0 == Ok && CStr(r.1) == CStr(s)
  {
    var d := StringPayload(s, maxLen);
    WriteThenRead(files, p, d, io, buf);
    var r := ReadSpec(WriteSpec(files, Some(p), Some(d), io).1, p, buf);
    TerminatedPrefix(CStr(s), r.1);
  }
}
