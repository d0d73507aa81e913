/**
 * The file system as seen by the persistence and logging layer: a map from
 * path to whole-file contents, held by one object. Every POSIX call the
 * layer makes becomes a map update; a call that can fail for reasons outside
 * the model (permissions, a full disk) takes a `fails` flag saying whether
 * it does this time.
 */
module Files {
  import opened Common

  type Path = string

  function Lookup(files: map<Path, Bytes>, p: Path): Option<Bytes>
  {
    if p in files then Some(files[p]) else None
  }

  /** `rename(src, dst)` on a map: `dst` is replaced by `src`'s contents and
      `src` disappears; a missing `src` changes nothing (ENOENT). */
  function RenameIn(files: map<Path, Bytes>, src: Path, dst: Path): (r: map<Path, Bytes>)
    ensures src in files && src != dst ==> src !in r && dst in r && r[dst] == files[src]
    ensures src in files ==> dst in r && r[dst] == files[src]
    ensures src !in files ==> r == files
    ensures forall q | q != src && q != dst :: Lookup(r, q) == Lookup(files, q)
  {
    if src !in files || src == dst then files
    else (files - {src})[dst := files[src]]
  }

  /** Writing a file twice leaves only the second contents. */
  lemma UpdateTwice(files: map<Path, Bytes>, p: Path, a: Bytes, b: Bytes)
    ensures files[p := a][p := b] == files[p := b]
  {
  }

  class FileSystem {
    var files: map<Path, Bytes>

    constructor (initial: map<Path, Bytes>)
      ensures files == initial
    {
      files := initial;
    }

    /** `access(p, F_OK) == 0`. */
    method Exists(p: Path) returns (b: bool)
      ensures b == (p in files)
    {
      b := p in files;
    }

    /** `open(p, O_CREAT | O_TRUNC | O_WRONLY)`: the file exists and is empty. */
    method CreateTruncate(p: Path, fails: bool) returns (ok: bool)
      modifies this
      ensures ok == !fails
      ensures files == if ok then old(files)[p := []] else old(files)
    {
      ok := !fails;
      if ok {
        files := files[p := []];
      }
    }

    /** `fopen(p, "a")`: the file is created when missing and kept otherwise. */
    method OpenAppend(p: Path, fails: bool) returns (ok: bool)
      modifies this
      ensures ok == !fails
      ensures ok ==> p in files
      ensures files == if ok && p !in old(files) then old(files)[p := []] else old(files)
    {
      ok := !fails;
      if ok && p !in files {
        files := files[p := []];
      }
    }

    /** `fopen(p, "w")`: the file exists and is empty. */
    method OpenWrite(p: Path, fails: bool) returns (ok: bool)
      modifies this
      ensures ok == !fails
      ensures files == if ok then old(files)[p := []] else old(files)
    {
      ok := CreateTruncate(p, fails);
    }

    /** `write`/`fwrite` of `data` at the end of an open file. */
    method Append(p: Path, data: Bytes)
      requires p in files
      modifies this
      ensures files == old(files)[p := old(files)[p] + data]
    {
      files := files[p := files[p] + data];
    }

    /** `rename(src, dst)`; fails on a missing `src` or when told to. */
    method Rename(src: Path, dst: Path, fails: bool) returns (ok: bool)
      modifies this
      ensures ok == (!fails && src in old(files))
      ensures files == if ok then RenameIn(old(files), src, dst) else old(files)
    {
      ok := !fails && src in files;
      if ok {
        files := RenameIn(files, src, dst);
      }
    }

    /** `remove(p)`; fails on a missing file. */
    method Remove(p: Path) returns (ok: bool)
      modifies this
      ensures ok == (p in old(files))
      ensures files == old(files) - {p}
    {
      ok := p in files;
      files := files - {p};
    }
  }
}
