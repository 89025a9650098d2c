/** `unique_temp_file`: the sole owner of one temporary-file path, which it deletes
    when it goes out of scope unless it has been disconnected or emptied first.

    The template in include/daw/temp_file.h and the class in src/temp_file.cpp run
    the same code; both are modelled here. A handle is its path, and the empty path
    means it owns nothing. Operations that touch the disk take and return a
    `FileSystem`; the random name `unique_path()` draws is the `stem` argument. */
module Unique {
  import opened Paths
  import opened Outcomes
  import opened Fs

  /** `generate_temp_file_path(folder)`: `folder / <stem>.tmp`, a path strictly inside
      `folder` whose name carries the `.tmp` extension. */
  function GenerateTempFilePath(folder: Path, stem: Path): (p: Path)
    ensures p != Empty && p != folder
    ensures |folder| < |p| && p[..|folder|] == folder
    ensures EndsWith(p, TmpExtension)
  {
    var name := TmpFileName(stem);
    var p := Join(folder, name);
    SuffixOfSuffix(p, name, TmpExtension);
    p
  }

  datatype UniqueTempFile = UniqueTempFile(path: Path)
  {
    /** `empty()`: the file has been removed or disconnected (or none was given). */
    predicate IsEmpty() { path == Empty }

    /** `explicit operator bool`: a non-empty path is stored. */
    predicate IsArmed() { !IsEmpty() }
  }

  /** The default constructor: a fresh name in the temp directory `tempDir`. The
      handle is armed, and construction creates nothing on disk. */
  function New(tempDir: Path, stem: Path): (h: UniqueTempFile)
    ensures h.IsArmed()
    ensures h.path != tempDir && |tempDir| < |h.path| && h.path[..|tempDir|] == tempDir
  {
    UniqueTempFile(GenerateTempFilePath(tempDir, stem))
  }

  /** The path constructor: a directory argument gets a fresh file name inside it;
      anything else is adopted as it is. The empty path is never a directory, so it
      always gives an empty handle. */
  function FromPath(fs: FileSystem, p: Path, stem: Path): (h: UniqueTempFile)
    ensures fs.IsDirectory(p) ==> h.IsArmed() && h.path != p && |p| < |h.path| && h.path[..|p|] == p
    ensures !fs.IsDirectory(p) ==> h.path == p
    ensures h.IsEmpty() <==> p == Empty
  {
    if fs.IsDirectory(p) then UniqueTempFile(GenerateTempFilePath(p, stem)) else UniqueTempFile(p)
  }

  /** `disconnect()`: exchange the path with the empty path and return the old one. */
  function Disconnect(h: UniqueTempFile): (r: (UniqueTempFile, Path))
    ensures r.0.IsEmpty() && r.1 == h.path
  {
    (UniqueTempFile(Empty), h.path)
  }

  /** `remove()`: nothing on an empty handle; otherwise the path is taken out of the
      handle first and then deleted, so the handle is empty even when the deletion
      throws. */
  function Remove(h: UniqueTempFile, fs: FileSystem): (r: (UniqueTempFile, FileSystem, Outcome))
    ensures r.0.IsEmpty()
    ensures h.IsEmpty() ==> r.1 == fs && r.2 == Pass
    ensures r.2.Fail? <==> h.IsArmed() && fs.Exists(h.path) && h.path in fs.undeletable
    ensures r.1.entries == if h.IsArmed() && h.path !in fs.undeletable then fs.entries - {h.path} else fs.entries
    ensures r.1.undeletable == fs.undeletable && r.1.open == fs.open && r.1.nextFd == fs.nextFd
  {
    if h.IsEmpty() then (h, fs, Pass)
    else
      var (cleared, taken) := Disconnect(h);
      var (fs', res) := Fs.Remove(fs, taken);
      (cleared, fs', if res.Err? then Fail(res.error) else Pass)
  }

  /** The destructor: `remove()` with any exception swallowed. */
  function Destroy(h: UniqueTempFile, fs: FileSystem): (fs': FileSystem)
    ensures fs'.entries == if h.IsArmed() && h.path !in fs.undeletable then fs.entries - {h.path} else fs.entries
    ensures fs'.undeletable == fs.undeletable && fs'.open == fs.open && fs'.nextFd == fs.nextFd
  {
    Remove(h, fs).1
  }

  /** The move constructor: the new handle takes the path, the source is left empty. */
  function MoveConstruct(source: UniqueTempFile): (r: (UniqueTempFile, UniqueTempFile))
    ensures r.0.path == source.path && r.1.IsEmpty()
  {
    var (source', p) := Disconnect(source);
    (UniqueTempFile(p), source')
  }

  /** Move assignment `target = std::move(source)`. `aliased` says both name the same
      object, in which case nothing happens; otherwise the target takes the source's
      path, the source is emptied, and the target's old path is dropped without
      deleting its file. */
  function MoveAssign(target: UniqueTempFile, source: UniqueTempFile, aliased: bool): (r: (UniqueTempFile, UniqueTempFile))
    requires aliased ==> target == source
    ensures aliased ==> r == (target, source)
    ensures !aliased ==> r.0.path == source.path && r.1.IsEmpty()
  {
    if aliased then (target, source)
    else
      var (source', p) := Disconnect(source);
      (UniqueTempFile(p), source')
  }

  /** `secure_create_fd()`: refuse an empty handle, open with `O_CREAT | O_EXCL`, then
      re-check that the path exists and is a regular file. */
  function SecureCreateFd(h: UniqueTempFile, fs: FileSystem): (r: (FileSystem, Result<nat>))
  {
    if h.IsEmpty() then (fs, Err(EmptyPath))
    else
      var (fs', fd) := OpenExclusive(fs, h.path);
      if fd < 0 then (fs', Err(CouldNotCreate))
      else if !fs'.Exists(h.path) then (fs', Err(FailedToCreate))
      else if !fs'.IsRegularFile(h.path) then (fs', Err(NotRegularFile))
      else (fs', Ok(fd as nat))
  }

  /** `secure_create_file()`: `secure_create_fd()`, then close the descriptor. */
  function SecureCreateFile(h: UniqueTempFile, fs: FileSystem): (r: (FileSystem, Outcome))
  {
    var (fs', res) := SecureCreateFd(h, fs);
    if res.Err? then (fs', Fail(res.error)) else (Close(fs', res.value), Pass)
  }

  /** `secure_create_stream()`: a stream that owns the descriptor `secure_create_fd()`
      returned. */
  function SecureCreateStream(h: UniqueTempFile, fs: FileSystem): (r: (FileSystem, Result<Stream>))
  {
    var (fs', res) := SecureCreateFd(h, fs);
    if res.Err? then (fs', Err(res.error)) else (fs', Ok(Stream(res.value)))
  }

  /** Dropping the stream closes its descriptor. */
  function CloseStream(s: Stream, fs: FileSystem): FileSystem
  {
    Close(fs, s.fd)
  }

  // ----- comparison operators: those of the held paths -----

  predicate Eq(a: UniqueTempFile, b: UniqueTempFile) { a.path == b.path }
  predicate Ne(a: UniqueTempFile, b: UniqueTempFile) { a.path != b.path }
  predicate Lt(a: UniqueTempFile, b: UniqueTempFile) { Less(a.path, b.path) }
  predicate Gt(a: UniqueTempFile, b: UniqueTempFile) { Less(b.path, a.path) }
  predicate Le(a: UniqueTempFile, b: UniqueTempFile) { !Less(b.path, a.path) }
  predicate Ge(a: UniqueTempFile, b: UniqueTempFile) { !Less(a.path, b.path) }

  // ----- properties -----

  /** Disconnecting hands out the path; a second disconnect hands out the empty path. */
  lemma DisconnectTwice(h: UniqueTempFile)
    ensures var (h1, p1) := Disconnect(h);
            var (h2, p2) := Disconnect(h1);
            p1 == h.path && h1.IsEmpty() && p2 == Empty && h2 == h1
  {
  }

  /** After `disconnect()` the destructor deletes nothing: the file at the returned
      path is exactly as it was, and it is now the caller's to delete. */
  lemma DisconnectSuppressesDeletion(h: UniqueTempFile, fs: FileSystem)
    ensures var (h1, p) := Disconnect(h); Destroy(h1, fs) == fs && p == h.path
  {
    var (h1, p) := Disconnect(h);
    assert Remove(h1, fs) == (h1, fs, Pass);
  }

  /** `remove()` followed by `remove()` or by the destructor deletes at most once: the
      second call finds the handle empty and changes nothing. */
  lemma RemoveThenDestroyDeletesOnce(h: UniqueTempFile, fs: FileSystem)
    ensures var (h1, fs1, _) := Remove(h, fs);
            && Remove(h1, fs1) == (h1, fs1, Pass)
            && Destroy(h1, fs1) == fs1
  {
  }

  /** Letting an armed handle go out of scope deletes its file, and only that file,
      unless the OS refuses. */
  lemma ScopeExitDeletes(h: UniqueTempFile, fs: FileSystem)
    requires h.IsArmed() && h.path !in fs.undeletable
    ensures !Destroy(h, fs).Exists(h.path)
    ensures forall q | q != h.path :: Destroy(h, fs).Exists(q) <==> fs.Exists(q)
  {
  }

  /** A move never leaves two handles claiming the same file: the source is empty
      afterwards, so exactly the new handle deletes it. */
  lemma MoveLeavesOneOwner(source: UniqueTempFile, fs: FileSystem)
    requires source.IsArmed()
    ensures var (target, source') := MoveConstruct(source);
            && target.IsArmed() && source'.IsEmpty()
            && Destroy(source', fs) == fs
            && Destroy(target, fs) == Destroy(source, fs)
  {
    var (target, source') := MoveConstruct(source);
    assert Remove(source', fs) == (source', fs, Pass);
  }

  /** Move assignment overwrites the target's previous path without deleting it: the
      old file outlives the destructors of both handles, and between them they delete
      exactly what the source alone would have deleted. */
  lemma MoveAssignLeavesOldFile(target: UniqueTempFile, source: UniqueTempFile, fs: FileSystem)
    requires target.path != source.path
    ensures var (t, s) := MoveAssign(target, source, false);
            && (Destroy(s, Destroy(t, fs)).Exists(target.path) <==> fs.Exists(target.path))
            && Destroy(s, Destroy(t, fs)) == Destroy(source, fs)
  {
  }

  /** The outcomes of `secure_create_fd()`, checked in order: an empty handle is an
      error; the exclusive open fails exactly when the path already exists; on success
      the path is a new regular file with a newly opened descriptor. The two checks
      after the open can never fire: a successful exclusive open has just created the
      regular file they look for. */
  lemma SecureCreateFdOutcomes(h: UniqueTempFile, fs: FileSystem)
    requires fs.Valid()
    ensures var (fs', r) := SecureCreateFd(h, fs);
            && (r == Err(EmptyPath) <==> h.IsEmpty())
            && (r == Err(CouldNotCreate) <==> h.IsArmed() && fs.Exists(h.path))
            && (r.Ok? <==> h.IsArmed() && !fs.Exists(h.path))
            && r != Err(FailedToCreate) && r != Err(NotRegularFile)
            && (r.Err? ==> fs' == fs)
            && (r.Ok? ==> && fs'.IsRegularFile(h.path) && fs'.Valid()
                          && r.value !in fs.open && fs'.open == fs.open + {r.value}
                          && fs'.entries == fs.entries[h.path := Regular])
  {
    OpenExclusiveFresh(fs, h.path);
  }

  /** A second `secure_create_fd()` on the same path, after a first one succeeded,
      fails with "Could not create temp file". */
  lemma SecondSecureCreateFails(h: UniqueTempFile, fs: FileSystem)
    requires SecureCreateFd(h, fs).1.Ok?
    ensures SecureCreateFd(h, SecureCreateFd(h, fs).0).1 == Err(CouldNotCreate)
  {
  }

  /** `secure_create_file()` creates the regular file and closes the descriptor it
      opened, so no descriptor stays open; errors are those of `secure_create_fd()`. */
  lemma SecureCreateFileClosesDescriptor(h: UniqueTempFile, fs: FileSystem)
    requires fs.Valid()
    ensures var (fs', o) := SecureCreateFile(h, fs);
            && fs'.open == fs.open
            && (o.Fail? <==> SecureCreateFd(h, fs).1.Err?)
            && (o.Fail? ==> o.error == SecureCreateFd(h, fs).1.error && fs' == fs)
            && (o == Pass ==> && fs'.IsRegularFile(h.path) && !fs.Exists(h.path)
                              && fs'.entries == fs.entries[h.path := Regular])
  {
    SecureCreateFdOutcomes(h, fs);
    OpenThenCloseRestoresDescriptors(fs, h.path);
  }

  /** `secure_create_stream()` fails as `secure_create_fd()` does and then leaves the disk
      alone; on success the path is a new regular file, nothing else on disk changes,
      the stream owns the new descriptor, and dropping the stream closes it. */
  lemma SecureCreateStreamOwnsDescriptor(h: UniqueTempFile, fs: FileSystem)
    requires fs.Valid()
    ensures var (fs', r) := SecureCreateStream(h, fs);
            && (r.Err? <==> SecureCreateFd(h, fs).1.Err?)
            && (r.Err? ==> r.error == SecureCreateFd(h, fs).1.error && fs' == fs)
            && (r.Ok? ==> && fs'.IsRegularFile(h.path) && !fs.Exists(h.path)
                          && fs'.entries == fs.entries[h.path := Regular]
                          && r.value.fd in fs'.open && CloseStream(r.value, fs').open == fs.open)
  {
    SecureCreateFdOutcomes(h, fs);
    OpenThenCloseRestoresDescriptors(fs, h.path);
  }

  /** Create a handle on a fresh name, create its file securely, let it go out of
      scope: the file existed in between and is gone afterwards. */
  lemma CreateUseDestroy(tempDir: Path, stem: Path, fs: FileSystem)
    requires fs.Valid()
    requires !fs.Exists(GenerateTempFilePath(tempDir, stem))
    requires GenerateTempFilePath(tempDir, stem) !in fs.undeletable
    ensures var h := New(tempDir, stem);
            var (fs1, o) := SecureCreateFile(h, fs);
            && o == Pass && fs1.IsRegularFile(h.path)
            && !Destroy(h, fs1).Exists(h.path)
            && Destroy(h, fs1).entries == fs.entries
  {
    var h := New(tempDir, stem);
    SecureCreateFileClosesDescriptor(h, fs);
    var (fs1, o) := SecureCreateFile(h, fs);
    assert fs1.entries == fs.entries[h.path := Regular];
    assert fs1.entries - {h.path} == fs.entries;
  }

  /** The six operators are those of a strict total order on the held paths: exactly
      one of `<`, `==`, `>` holds, `!=` is not `==`, `<=` is `<` or `==`, `>=` is `>`
      or `==`, and `<` is transitive. */
  lemma ComparisonsAreTotalOrder(a: UniqueTempFile, b: UniqueTempFile, c: UniqueTempFile)
    ensures Lt(a, b) || Eq(a, b) || Gt(a, b)
    ensures !(Lt(a, b) && Eq(a, b)) && !(Lt(a, b) && Gt(a, b)) && !(Eq(a, b) && Gt(a, b))
    ensures Ne(a, b) <==> !Eq(a, b)
    ensures Le(a, b) <==> Lt(a, b) || Eq(a, b)
    ensures Ge(a, b) <==> Gt(a, b) || Eq(a, b)
    ensures Gt(a, b) <==> Lt(b, a)
    ensures Lt(a, b) && Lt(b, c) ==> Lt(a, c)
    ensures Eq(a, b) <==> a == b
  {
    LessIsStrictTotalOrder(a.path, b.path, c.path);
  }
}
