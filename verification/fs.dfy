/** The filesystem the handles act on, reduced to what they observe: what exists
    at each path and whether it is a regular file or a directory, which paths the
    OS refuses to remove, and which descriptors are open. `open` with
    `O_CREAT | O_EXCL` follows the POSIX `open()` definition (IEEE Std
    1003.1-2017, System Interfaces): it fails when the path already exists. */
module Fs {
  import opened Paths
  import opened Outcomes

  datatype Kind = Regular | Directory

  /** An open byte stream over a descriptor; it closes the descriptor when dropped. */
  datatype Stream = Stream(fd: nat)

  datatype FileSystem = FileSystem(
    entries: map<Path, Kind>,
    undeletable: set<Path>,  // removal fails here (permissions, non-empty directory)
    open: set<nat>,          // descriptors handed out and not yet closed
    nextFd: nat)             // the descriptor the next successful open returns
  {
    /** The empty path names nothing: `exists("")` and `is_directory("")` are false
        whatever `entries` holds. */
    predicate Exists(p: Path) { p != Empty && p in entries }

    predicate IsDirectory(p: Path) { Exists(p) && entries[p] == Directory }

    predicate IsRegularFile(p: Path) { Exists(p) && entries[p] == Regular }

    /** Every open descriptor was handed out before `nextFd`. */
    ghost predicate Valid() { forall fd | fd in open :: fd < nextFd }
  }

  /** `remove(p)`: `false` when nothing exists there, `true` after deleting it, and a
      `filesystem_error` when the OS refuses. */
  function Remove(fs: FileSystem, p: Path): (r: (FileSystem, Result<bool>))
    ensures r.1 == Ok(true) <==> fs.Exists(p) && p !in fs.undeletable
    ensures r.1 == Ok(false) <==> !fs.Exists(p)
    ensures r.1.Err? ==> r.1.error == RemoveFailed
    ensures r.0.entries == if r.1 == Ok(true) then fs.entries - {p} else fs.entries
    ensures r.0.undeletable == fs.undeletable && r.0.open == fs.open && r.0.nextFd == fs.nextFd
  {
    if !fs.Exists(p) then (fs, Ok(false))
    else if p in fs.undeletable then (fs, Err(RemoveFailed))
    else (fs.(entries := fs.entries - {p}), Ok(true))
  }

  /** `open(p, O_CREAT | O_EXCL | ..., 0600)`: -1 when `p` is empty or already
      exists, otherwise a new descriptor on a new regular file. */
  function OpenExclusive(fs: FileSystem, p: Path): (r: (FileSystem, int))
    ensures r.1 >= 0 <==> p != Empty && !fs.Exists(p)
    ensures r.1 < 0 ==> r.0 == fs && r.1 == -1
    ensures r.1 >= 0 ==> && r.1 == fs.nextFd
                         && r.0.entries == fs.entries[p := Regular]
                         && r.0.open == fs.open + {fs.nextFd}
                         && r.0.nextFd == fs.nextFd + 1
                         && r.0.undeletable == fs.undeletable
  {
    if p == Empty || fs.Exists(p) then (fs, -1)
    else
      (fs.(entries := fs.entries[p := Regular],
           open := fs.open + {fs.nextFd},
           nextFd := fs.nextFd + 1),
       fs.nextFd as int)
  }

  /** `close(fd)`; closing a negative descriptor does nothing. */
  function Close(fs: FileSystem, fd: int): (r: FileSystem)
    ensures fd >= 0 ==> r.open == fs.open - {fd as nat}
    ensures fd < 0 ==> r == fs
    ensures r.entries == fs.entries && r.undeletable == fs.undeletable && r.nextFd == fs.nextFd
  {
    if fd < 0 then fs else fs.(open := fs.open - {fd as nat})
  }

  /** A successful open hands out a descriptor that was not open before, and keeps
      `Valid`. */
  lemma OpenExclusiveFresh(fs: FileSystem, p: Path)
    requires fs.Valid()
    ensures OpenExclusive(fs, p).0.Valid()
    ensures OpenExclusive(fs, p).1 >= 0 ==> OpenExclusive(fs, p).1 as nat !in fs.open
  {
  }

  /** Opening then closing the descriptor leaves the set of open descriptors as it was. */
  lemma OpenThenCloseRestoresDescriptors(fs: FileSystem, p: Path)
    requires fs.Valid()
    ensures var (fs1, fd) := OpenExclusive(fs, p); Close(fs1, fd).open == fs.open
  {
    var (fs1, fd) := OpenExclusive(fs, p);
    if fd >= 0 {
      assert fd as nat !in fs.open;
      assert (fs.open + {fd as nat}) - {fd as nat} == fs.open;
    }
  }
}
