/** The process-wide registry of temp_file.cpp at the repository root: every path
    `create_tmpfile()` hands out is recorded in `tmp_file_holder_t`, `delete_tmpfile()`
    deletes a file and forgets its path, `scoped_tmpfile` ties one such path to a
    scope, and when the registry itself is destroyed at program exit it removes every
    path still recorded.

    The registry is a value threaded through the operations rather than a static
    behind a mutex: each operation takes it and returns the new one. */
module Registry {
  import opened Paths
  import opened Outcomes
  import opened Fs
  import Unique

  /** `tmp_file_holder_t`: the set of registered paths. */
  datatype TmpFileHolder = TmpFileHolder(paths: set<Path>)

  /** `insert(p)`: record `p`; recording it again changes nothing. */
  function Insert(h: TmpFileHolder, p: Path): (r: TmpFileHolder)
    ensures p in r.paths
    ensures forall q :: q in r.paths <==> q == p || q in h.paths
  {
    TmpFileHolder(h.paths + {p})
  }

  /** `erase(p)`: forget `p`; forgetting an unrecorded path changes nothing. */
  function Erase(h: TmpFileHolder, p: Path): (r: TmpFileHolder)
    ensures p !in r.paths
    ensures forall q :: q in r.paths <==> q != p && q in h.paths
  {
    TmpFileHolder(h.paths - {p})
  }

  /** `create_tmpfile()`: a fresh `.tmp` name in the temp directory, recorded in the
      registry. No file is created. */
  function CreateTmpfile(h: TmpFileHolder, tempDir: Path, stem: Path): (r: (Path, TmpFileHolder))
    ensures r.0 != Empty && |tempDir| < |r.0| && r.0[..|tempDir|] == tempDir
    ensures r.1 == Insert(h, r.0)
  {
    var p := Unique.GenerateTempFilePath(tempDir, stem);
    (p, Insert(h, p))
  }

  /** `delete_tmpfile(p)`: when something is at `p`, remove it and then forget `p`; when
      the removal throws, the exception leaves before the path is forgotten. When
      nothing is at `p`, nothing changes, and `p` stays registered. */
  function DeleteTmpfile(fs: FileSystem, h: TmpFileHolder, p: Path): (r: (FileSystem, TmpFileHolder, Outcome))
    ensures !fs.Exists(p) ==> r == (fs, h, Pass)
    ensures fs.Exists(p) && p in fs.undeletable ==> r == (fs, h, Fail(RemoveFailed))
    ensures fs.Exists(p) && p !in fs.undeletable ==> (&& r.0.entries == fs.entries - {p}
                                                       && r.1 == Erase(h, p) && r.2 == Pass)
    ensures r.0.undeletable == fs.undeletable && r.0.open == fs.open && r.0.nextFd == fs.nextFd
  {
    if fs.Exists(p) then
      var (fs', res) := Fs.Remove(fs, p);
      if res.Err? then (fs', h, Fail(res.error))
      else (fs', Erase(h, p), Pass)
    else (fs, h, Pass)
  }

  /** `scoped_tmpfile`: one registered path, deleted when the scope ends. */
  datatype ScopedTmpfile = ScopedTmpfile(path: Path)

  /** The constructor: `create_tmpfile()`. */
  function ScopedNew(h: TmpFileHolder, tempDir: Path, stem: Path): (r: (ScopedTmpfile, TmpFileHolder))
    ensures r.0.path != Empty && r.0.path in r.1.paths
    ensures r.1.paths == h.paths + {r.0.path}
  {
    var (p, h') := CreateTmpfile(h, tempDir, stem);
    (ScopedTmpfile(p), h')
  }

  /** `reset()`: take the path out of the scope and out of the registry, deleting
      nothing; it is now the caller's file. */
  function Reset(s: ScopedTmpfile, h: TmpFileHolder): (r: (ScopedTmpfile, TmpFileHolder, Path))
    ensures r.0.path == Empty && r.2 == s.path
    ensures r.1 == Erase(h, s.path)
  {
    (ScopedTmpfile(Empty), Erase(h, s.path), s.path)
  }

  /** The destructor: for a non-empty path, empty the scope and `delete_tmpfile()` the
      path, swallowing any error. */
  function ScopedDestroy(s: ScopedTmpfile, fs: FileSystem, h: TmpFileHolder): (r: (FileSystem, TmpFileHolder))
    ensures s.path == Empty || !fs.Exists(s.path) || s.path in fs.undeletable ==> r == (fs, h)
    ensures s.path != Empty && fs.Exists(s.path) && s.path !in fs.undeletable ==>
              r.0.entries == fs.entries - {s.path} && r.1 == Erase(h, s.path)
    ensures r.0.undeletable == fs.undeletable && r.0.open == fs.open && r.0.nextFd == fs.nextFd
  {
    if s.path != Empty then
      var tmp := s.path;
      var (fs', h', _) := DeleteTmpfile(fs, h, tmp);
      (fs', h')
    else (fs, h)
  }

  /** What the sweep at exit leaves on disk: every registered path is gone except those
      the OS refuses to remove (and the empty path, which names nothing); everything
      else is as it was. */
  ghost predicate SweptFrom(fs: FileSystem, gone: set<Path>, fs': FileSystem)
  {
    && fs'.entries.Keys == fs.entries.Keys - (gone - fs.undeletable - {Empty})
    && (forall q | q in fs'.entries :: fs'.entries[q] == fs.entries[q])
    && fs'.undeletable == fs.undeletable && fs'.open == fs.open && fs'.nextFd == fs.nextFd
  }

  /** `~tmp_file_holder_t`: for each registered path in turn, remove it when something
      is there; an error on one path is reported and the sweep goes on. */
  method Sweep(fs: FileSystem, h: TmpFileHolder) returns (fs': FileSystem)
    ensures SweptFrom(fs, h.paths, fs')
    ensures forall p | p in h.paths :: fs'.Exists(p) <==> fs.Exists(p) && p in fs.undeletable
    ensures forall q | q !in h.paths :: fs'.Exists(q) <==> fs.Exists(q)
  {
    fs' := fs;
    var todo := h.paths;
    while todo != {}
      invariant todo <= h.paths
      invariant SweptFrom(fs, h.paths - todo, fs')
      decreases |todo|
    {
      var p :| p in todo;
      if fs'.Exists(p) {
        var (fs2, _) := Fs.Remove(fs', p);
        fs' := fs2;
      }
      todo := todo - {p};
    }
  }

  // ----- properties -----

  /** Inserting twice is inserting once, erasing what was never inserted changes
      nothing, and erasing undoes inserting a new path. */
  lemma InsertEraseLaws(h: TmpFileHolder, p: Path)
    ensures Insert(Insert(h, p), p) == Insert(h, p)
    ensures p !in h.paths ==> Erase(h, p) == h && Erase(Insert(h, p), p) == h
  {
  }

  /** `delete_tmpfile()` of a path that is not there leaves it registered, so the sweep
      at exit still tries it; once something is there again the sweep removes it. */
  lemma DeleteMissingKeepsRegistration(fs: FileSystem, h: TmpFileHolder, p: Path)
    requires p in h.paths && !fs.Exists(p)
    ensures DeleteTmpfile(fs, h, p).1.paths == h.paths
    ensures p in DeleteTmpfile(fs, h, p).1.paths
  {
  }

  /** The scope of a `scoped_tmpfile` whose file the caller wrote in between: the file
      exists inside the scope and is gone after it, the registry forgets the path, and
      no other path on disk or in the registry changes. */
  lemma ScopedFileIsGoneAfterScope(fs: FileSystem, h: TmpFileHolder, tempDir: Path, stem: Path)
    requires Unique.GenerateTempFilePath(tempDir, stem) !in fs.undeletable
    requires Unique.GenerateTempFilePath(tempDir, stem) !in h.paths
    ensures var (s, h1) := ScopedNew(h, tempDir, stem);
            var written := fs.(entries := fs.entries[s.path := Regular]);
            var (fs2, h2) := ScopedDestroy(s, written, h1);
            && written.Exists(s.path)
            && !fs2.Exists(s.path)
            && (forall q | q != s.path :: fs2.Exists(q) <==> fs.Exists(q))
            && h2 == h
  {
    var (s, h1) := ScopedNew(h, tempDir, stem);
    assert h1.paths - {s.path} == h.paths;
  }

  /** `reset()` hands the path to the caller: the destructor afterwards deletes nothing,
      the registry no longer holds the path, so the sweep at exit leaves it too, and a
      second `reset()` hands out the empty path. */
  lemma ResetThenDestroyKeepsFile(s: ScopedTmpfile, fs: FileSystem, h: TmpFileHolder)
    ensures var (s1, h1, p) := Reset(s, h);
            && p == s.path
            && ScopedDestroy(s1, fs, h1) == (fs, h1)
            && p !in h1.paths
            && Reset(s1, h1).2 == Empty
  {
  }

  /** A path deleted with `delete_tmpfile()` is not swept again at exit; a path still
      registered is removed by the sweep unless the OS refuses. */
  lemma DeletedPathsAreNotSwept(fs: FileSystem, h: TmpFileHolder, p: Path, fs': FileSystem)
    requires fs.Exists(p) && p !in fs.undeletable
    requires SweptFrom(DeleteTmpfile(fs, h, p).0, DeleteTmpfile(fs, h, p).1.paths, fs')
    ensures p !in DeleteTmpfile(fs, h, p).1.paths && !fs'.Exists(p)
    ensures forall q | q in h.paths && q !in fs.undeletable :: !fs'.Exists(q)
  {
  }
}
