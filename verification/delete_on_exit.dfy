/** `delete_on_exit` of include/delete_on_exit.h and src/delete_on_exit.cpp (the
    copy at the repository root runs the same code without the `secure_create_*`
    functions): a copyable handle whose copies share one `scoped_delete_on_exit`
    block, and the last copy to go deletes whatever is at the block's path.

    Unlike `shared_temp_file`, the block is a bare path: the path constructor keeps
    its argument as it is, directories included, `operator*` hands out the path for
    writing, `disconnect()` and `operator bool` accept a null pointer, and
    `secure_create_fd()` returns the raw result of `open`. */
module DeleteOnExit {
  import opened Paths
  import opened Outcomes
  import opened Fs
  import opened SharedCells
  import Unique

  /** `impl::scoped_delete_on_exit`: the path the block deletes when freed. */
  datatype ScopedDeleteOnExit = ScopedDeleteOnExit(path: Path)
  {
    predicate IsEmpty() { path == Empty }
  }

  /** The block's default constructor: a fresh `.tmp` name in the temp directory. */
  function ScopedNew(tempDir: Path, stem: Path): (s: ScopedDeleteOnExit)
    ensures !s.IsEmpty() && |tempDir| < |s.path| && s.path[..|tempDir|] == tempDir
    ensures EndsWith(s.path, TmpExtension)
  {
    var p := Unique.GenerateTempFilePath(tempDir, stem);
    ScopedDeleteOnExit(p)
  }

  /** The block's `disconnect()`: exchange the path with the empty path. */
  function ScopedDisconnect(s: ScopedDeleteOnExit): (r: (ScopedDeleteOnExit, Path))
    ensures r.0.IsEmpty() && r.1 == s.path
  {
    (ScopedDeleteOnExit(Empty), s.path)
  }

  /** The block's destructor: remove the path when it is not empty and something is
      there, and swallow the error the OS may raise. */
  function ScopedDestroy(s: ScopedDeleteOnExit, fs: FileSystem): (fs': FileSystem)
    ensures fs'.entries == if !s.IsEmpty() && s.path !in fs.undeletable then fs.entries - {s.path} else fs.entries
    ensures fs'.undeletable == fs.undeletable && fs'.open == fs.open && fs'.nextFd == fs.nextFd
  {
    if !s.IsEmpty() && fs.Exists(s.path) then Fs.Remove(fs, s.path).0 else fs
  }

  /** The filesystem and every `delete_on_exit` variable of the program. */
  datatype World = World(fs: FileSystem, store: Store<ScopedDeleteOnExit>)
  {
    ghost predicate Valid() { store.Valid() }
  }

  /** What freeing a block does: run `~scoped_delete_on_exit`. */
  function Finalize(fs: FileSystem, dropped: Option<ScopedDeleteOnExit>): (fs': FileSystem)
    ensures dropped.None? ==> fs' == fs
    ensures dropped.Some? ==> fs' == ScopedDestroy(dropped.value, fs)
  {
    if dropped.Some? then ScopedDestroy(dropped.value, fs) else fs
  }

  /** The default constructor: a new variable with a fresh name; nothing is created. */
  function New(w: World, tempDir: Path, stem: Path): (r: World)
    ensures r.fs == w.fs && |r.store.refs| == |w.store.refs| + 1
    ensures r.store.Holds(|w.store.refs|) && r.store.Get(|w.store.refs|) == ScopedNew(tempDir, stem)
  {
    World(w.fs, Make(w.store, ScopedNew(tempDir, stem)))
  }

  /** The path constructor: the block holds `p` exactly, whatever is there. */
  function FromPath(w: World, p: Path): (r: World)
    ensures r.fs == w.fs && |r.store.refs| == |w.store.refs| + 1
    ensures r.store.Holds(|w.store.refs|) && r.store.Get(|w.store.refs|).path == p
  {
    World(w.fs, Make(w.store, ScopedDeleteOnExit(p)))
  }

  // As in `Shared`, copy, move and drop are a thin layer over `SharedCells` with this
  // class's own block contents and block destructor.

  /** The defaulted copy constructor: a new variable sharing variable `i`'s block. */
  function Copy(w: World, i: nat): (r: World)
    requires i < |w.store.refs|
    ensures r.fs == w.fs && r.store.refs == w.store.refs + [w.store.refs[i]]
    ensures w.store.Holds(i) ==> r.store.Holds(|w.store.refs|) && r.store.Get(|w.store.refs|) == w.store.Get(i)
    ensures forall k | 0 <= k < |w.store.refs| && w.store.Holds(k) :: r.store.Holds(k) && r.store.Get(k) == w.store.Get(k)
  {
    World(w.fs, Share(w.store, i))
  }

  /** The defaulted copy assignment `v_i = v_j`. */
  function CopyAssign(w: World, i: nat, j: nat): (r: World)
    requires i < |w.store.refs| && j < |w.store.refs|
    ensures r.store.refs == w.store.refs[i := w.store.refs[j]]
  {
    var (store', dropped) := SharedCells.CopyAssign(w.store, i, j);
    World(Finalize(w.fs, dropped), store')
  }

  /** The defaulted move constructor: a new variable takes variable `i`'s block. */
  function Move(w: World, i: nat): (r: World)
    requires i < |w.store.refs|
    ensures r.fs == w.fs && |r.store.refs| == |w.store.refs| + 1
    ensures r.store.refs[i] == None && r.store.refs[|w.store.refs|] == w.store.refs[i]
    ensures forall k | 0 <= k < |w.store.refs| && k != i :: r.store.refs[k] == w.store.refs[k]
    ensures w.store.Holds(i) ==> r.store.Holds(|w.store.refs|) && r.store.Get(|w.store.refs|) == w.store.Get(i)
    ensures forall k | 0 <= k < |w.store.refs| && k != i && w.store.Holds(k) :: r.store.Holds(k) && r.store.Get(k) == w.store.Get(k)
  {
    World(w.fs, MoveOut(w.store, i))
  }

  /** The defaulted move assignment `v_i = std::move(v_j)`. */
  function MoveAssign(w: World, i: nat, j: nat): (r: World)
    requires i < |w.store.refs| && j < |w.store.refs|
    ensures i == j ==> r == w
    ensures i != j ==> r.store.refs == w.store.refs[i := w.store.refs[j]][j := None]
  {
    var (store', dropped) := SharedCells.MoveAssign(w.store, i, j);
    World(Finalize(w.fs, dropped), store')
  }

  /** Variable `i` goes out of scope (its destructor is empty; the pointer does the work). */
  function Drop(w: World, i: nat): (r: World)
    requires i < |w.store.refs|
    ensures r.store.refs == w.store.refs[i := None]
  {
    var (store', dropped) := Release(w.store, i);
    World(Finalize(w.fs, dropped), store')
  }

  /** `operator*` / `operator->` / `get()`: the block's path; the pointer must not be null. */
  function Deref(w: World, i: nat): Path
    requires w.store.Holds(i)
  {
    w.store.Get(i).path
  }

  /** Writing through the non-const `operator*`: the block's path becomes `p`, for
      every copy at once. */
  function SetPath(w: World, i: nat, p: Path): (r: World)
    requires w.store.Holds(i)
    ensures r.fs == w.fs && r.store.refs == w.store.refs
    ensures r.store.Holds(i) && Deref(r, i) == p
    ensures forall k | 0 <= k < |w.store.refs| && w.store.refs[k] == w.store.refs[i] ::
              r.store.Holds(k) && Deref(r, k) == p
    ensures forall k | 0 <= k < |w.store.refs| && w.store.refs[k] != w.store.refs[i] && w.store.Holds(k) ::
              r.store.Holds(k) && Deref(r, k) == Deref(w, k)
  {
    World(w.fs, Update(w.store, i, ScopedDeleteOnExit(p)))
  }

  /** `disconnect()`: the block's path, exchanged with the empty path; a null pointer
      gives the empty path and changes nothing. */
  function Disconnect(w: World, i: nat): (r: (World, Path))
    requires i < |w.store.refs|
    ensures r.0.fs == w.fs && r.0.store.refs == w.store.refs
    ensures !w.store.Holds(i) ==> r == (w, Empty)
    ensures w.store.Holds(i) ==> r.1 == Deref(w, i) && r.0.store.Holds(i) && Deref(r.0, i) == Empty
    ensures w.store.Holds(i) ==> forall k | 0 <= k < |w.store.refs| && w.store.refs[k] == w.store.refs[i] ::
                                   r.0.store.Holds(k) && IsEmpty(r.0, k)
    ensures forall k | 0 <= k < |w.store.refs| && w.store.refs[k] != w.store.refs[i] && w.store.Holds(k) ::
              r.0.store.Holds(k) && Deref(r.0, k) == Deref(w, k)
  {
    if w.store.Holds(i) then
      var (s', p) := ScopedDisconnect(w.store.Get(i));
      (World(w.fs, Update(w.store, i, s')), p)
    else (w, Empty)
  }

  /** `empty()`: a null pointer or an empty path. */
  predicate IsEmpty(w: World, i: nat)
    requires i < |w.store.refs|
  {
    !w.store.Holds(i) || w.store.Get(i).IsEmpty()
  }

  /** `operator bool`: a pointer that is not null, to a path that is not empty. */
  predicate IsArmed(w: World, i: nat)
    requires i < |w.store.refs|
  {
    w.store.Holds(i) && !w.store.Get(i).IsEmpty()
  }

  /** `secure_create_fd()`: refuse an empty handle, then return what
      `open(O_CREAT | O_RDWR | O_EXCL)` returns, -1 included. */
  function SecureCreateFd(w: World, i: nat): (r: (World, Result<int>))
    requires i < |w.store.refs|
    ensures r.0.store == w.store
    ensures r.1 == Err(EmptyPath) <==> IsEmpty(w, i)
    ensures r.1.Err? ==> r == (w, Err(EmptyPath))
    ensures r.1.Ok? ==> (r.1.value < 0 <==> w.fs.Exists(Deref(w, i)))
    ensures r.1.Ok? && r.1.value < 0 ==> r == (w, Ok(-1))
    ensures r.1.Ok? && r.1.value >= 0 ==> (&& r.1.value == w.fs.nextFd
                                           && r.0.fs.IsRegularFile(Deref(w, i))
                                           && r.0.fs.open == w.fs.open + {w.fs.nextFd})
  {
    if IsEmpty(w, i) then (w, Err(EmptyPath))
    else
      var (fs', fd) := OpenExclusive(w.fs, Deref(w, i));
      (World(fs', w.store), Ok(fd))
  }

  /** `secure_create_file()`: refuse an empty handle, open exclusively, fail when that
      gave a negative descriptor, close it, and fail when the path does not exist. */
  function SecureCreateFile(w: World, i: nat): (r: (World, Outcome))
    requires i < |w.store.refs|
  {
    if IsEmpty(w, i) then (w, Fail(EmptyPath))
    else
      var (fs1, fd) := OpenExclusive(w.fs, Deref(w, i));
      if fd < 0 then (World(fs1, w.store), Fail(CouldNotCreate))
      else
        var fs2 := Close(fs1, fd);
        if !fs2.Exists(Deref(w, i)) then (World(fs2, w.store), Fail(FailedToCreate))
        else (World(fs2, w.store), Pass)
  }

  /** `secure_create_stream()`: `secure_create_fd()` (whose empty-handle error passes
      through), fail on a negative descriptor or a missing path, otherwise a stream
      that owns the descriptor. */
  function SecureCreateStream(w: World, i: nat): (r: (World, Result<Stream>))
    requires i < |w.store.refs|
  {
    var (w1, res) := SecureCreateFd(w, i);
    if res.Err? then (w1, Err(res.error))
    else if res.value < 0 then (w1, Err(CouldNotCreate))
    else if !w1.fs.Exists(Deref(w, i)) then (w1, Err(FailedToCreate))
    else (w1, Ok(Stream(res.value as nat)))
  }

  // ----- properties -----

  /** The block's destructor deletes the file at a non-empty path unless the OS
      refuses, touches nothing else, and leaves the disk alone when the path is empty
      or nothing is there. */
  lemma ScopedDestroyDeletesOnlyItsPath(s: ScopedDeleteOnExit, fs: FileSystem)
    ensures s.IsEmpty() || !fs.Exists(s.path) ==> ScopedDestroy(s, fs) == fs
    ensures !s.IsEmpty() && s.path !in fs.undeletable ==> !ScopedDestroy(s, fs).Exists(s.path)
    ensures forall q | q != s.path :: ScopedDestroy(s, fs).Exists(q) <==> fs.Exists(q)
  {
  }

  /** Dropping a variable deletes the path only when it was the block's last owner;
      the other variables keep seeing the same path. */
  lemma DropDeletesOnlyLast(w: World, i: nat)
    requires w.Valid() && w.store.Holds(i)
    ensures Drop(w, i).Valid()
    ensures Count(w.store.refs, w.store.refs[i].value) > 1 ==> Drop(w, i).fs == w.fs
    ensures Count(w.store.refs, w.store.refs[i].value) == 1 ==> Drop(w, i).fs == ScopedDestroy(w.store.Get(i), w.fs)
    ensures forall k | 0 <= k < |w.store.refs| && k != i && w.store.Holds(k) ::
              Drop(w, i).store.Holds(k) && Deref(Drop(w, i), k) == Deref(w, k)
  {
    ReleaseValid(w.store, i);
  }

  /** Copy assignment: variable `i` then sees `j`'s path, every other variable keeps
      its own, and `i`'s old block is finalised exactly when `i` was its last owner
      and the two blocks differ, so self-assignment deletes nothing. */
  lemma CopyAssignDropsOldBlock(w: World, i: nat, j: nat)
    requires w.Valid() && i < |w.store.refs| && j < |w.store.refs|
    ensures CopyAssign(w, i, j).Valid()
    ensures var last := w.store.Holds(i) && w.store.refs[i] != w.store.refs[j]
                        && Count(w.store.refs, w.store.refs[i].value) == 1;
            CopyAssign(w, i, j).fs == if last then ScopedDestroy(w.store.Get(i), w.fs) else w.fs
    ensures w.store.Holds(j) ==> CopyAssign(w, i, j).store.Holds(i) && CopyAssign(w, i, j).store.Get(i) == w.store.Get(j)
    ensures forall k | 0 <= k < |w.store.refs| && k != i && w.store.Holds(k) ::
              CopyAssign(w, i, j).store.Holds(k) && CopyAssign(w, i, j).store.Get(k) == w.store.Get(k)
  {
    CopyAssignValid(w.store, i, j);
    CopyAssignKeepsPayloads(w.store, i, j);
  }

  /** Move assignment between two variables: `i` takes `j`'s path, `j` is left null,
      every other variable keeps its own, and `i`'s old block is finalised exactly
      when `i` was its last owner; self-move deletes nothing. */
  lemma MoveAssignDropsOldBlock(w: World, i: nat, j: nat)
    requires w.Valid() && i < |w.store.refs| && j < |w.store.refs|
    ensures MoveAssign(w, i, j).Valid()
    ensures var last := i != j && w.store.Holds(i) && Count(w.store.refs, w.store.refs[i].value) == 1;
            MoveAssign(w, i, j).fs == if last then ScopedDestroy(w.store.Get(i), w.fs) else w.fs
    ensures i != j && w.store.Holds(j) ==> && MoveAssign(w, i, j).store.Holds(i) && !MoveAssign(w, i, j).store.Holds(j)
                                           && MoveAssign(w, i, j).store.Get(i) == w.store.Get(j)
    ensures forall k | 0 <= k < |w.store.refs| && k != i && k != j && w.store.Holds(k) ::
              MoveAssign(w, i, j).store.Holds(k) && MoveAssign(w, i, j).store.Get(k) == w.store.Get(k)
  {
    MoveAssignValid(w.store, i, j);
    MoveAssignKeepsPayloads(w.store, i, j);
  }

  /** The last copy deletes: with two copies of a block, dropping the first leaves the
      disk alone and dropping the second deletes the file. */
  lemma LastCopyDeletes(w: World, i: nat)
    requires w.Valid() && w.store.Holds(i)
    requires Count(w.store.refs, w.store.refs[i].value) == 1
    ensures var w1 := Copy(w, i);
            var k := |w.store.refs|;
            && w1.Valid() && w1.store.Holds(k) && Deref(w1, k) == Deref(w, i)
            && Drop(w1, i).fs == w.fs
            && Drop(Drop(w1, i), k).fs == ScopedDestroy(w.store.Get(i), w.fs)
  {
    var w1 := Copy(w, i);
    var k := |w.store.refs|;
    var c := w.store.refs[i].value;
    ShareValid(w.store, i);
    CountAppend(w.store.refs, w.store.refs[i], c);
    assert w1.store.refs[k] == Some(c);
    DropDeletesOnlyLast(w1, i);
    var w2 := Drop(w1, i);
    CountUpdate(w1.store.refs, i, None, c);
    DropDeletesOnlyLast(w2, k);
  }

  /** `disconnect()` through one copy empties every copy and hands out the path, so
      dropping any copy afterwards deletes nothing. */
  lemma DisconnectVisibleToAllCopies(w: World, i: nat)
    requires w.Valid() && w.store.Holds(i)
    ensures var (w1, p) := Disconnect(w, i);
            && p == Deref(w, i) && w1.Valid()
            && (forall k | 0 <= k < |w.store.refs| && w.store.refs[k] == w.store.refs[i] ::
                  IsEmpty(w1, k) && Drop(w1, k).fs == w.fs)
  {
    var (w1, p) := Disconnect(w, i);
    UpdateValid(w.store, i, ScopedDeleteOnExit(Empty));
    forall k | 0 <= k < |w.store.refs| && w.store.refs[k] == w.store.refs[i]
      ensures IsEmpty(w1, k) && Drop(w1, k).fs == w.fs
    {
      ReleaseValid(w1.store, k);
    }
  }

  /** Writing a new path through `operator*` retargets the deletion for every copy: the
      last copy to go deletes the new path and leaves the old one on disk. */
  lemma SetPathRetargetsDeletion(w: World, i: nat, p: Path)
    requires w.Valid() && w.store.Holds(i)
    requires Count(w.store.refs, w.store.refs[i].value) == 1
    requires p != Deref(w, i)
    ensures var w1 := SetPath(w, i, p);
            && w1.Valid()
            && Drop(w1, i).fs == ScopedDestroy(ScopedDeleteOnExit(p), w.fs)
            && (Drop(w1, i).fs.Exists(Deref(w, i)) <==> w.fs.Exists(Deref(w, i)))
  {
    var w1 := SetPath(w, i, p);
    UpdateValid(w.store, i, ScopedDeleteOnExit(p));
    DropDeletesOnlyLast(w1, i);
  }

  /** The path constructor does not apply the directory rule of `unique_temp_file`:
      given a directory it keeps the directory's own path, so the last copy tries to
      remove the directory itself. */
  lemma NoDirectoryRule(w: World, p: Path, stem: Path)
    requires w.fs.IsDirectory(p)
    ensures Deref(FromPath(w, p), |w.store.refs|) == p
    ensures Unique.FromPath(w.fs, p, stem).path != p
  {
  }

  /** `disconnect()`, `empty()` and `operator bool` on a moved-from variable (null
      pointer): the empty path, true and false, with nothing changed. */
  lemma MovedFromIsEmpty(w: World, i: nat)
    requires i < |w.store.refs|
    ensures var w1 := Move(w, i);
            && IsEmpty(w1, i) && !IsArmed(w1, i)
            && Disconnect(w1, i) == (w1, Empty)
            && SecureCreateFd(w1, i) == (w1, Err(EmptyPath))
  {
  }

  /** `empty()` and `operator bool` are each other's negation everywhere. */
  lemma EmptyIsNotArmed(w: World, i: nat)
    requires i < |w.store.refs|
    ensures IsEmpty(w, i) <==> !IsArmed(w, i)
  {
  }

  /** `secure_create_file()`: an empty handle and an existing path are the only ways to
      fail; "Failed to create temp file" cannot happen after a successful exclusive
      open; on success the file is a new regular file and no descriptor stays open. */
  lemma SecureCreateFileOutcomes(w: World, i: nat)
    requires w.fs.Valid() && i < |w.store.refs|
    ensures var (w1, o) := SecureCreateFile(w, i);
            && w1.store == w.store
            && (o == Fail(EmptyPath) <==> IsEmpty(w, i))
            && (o == Fail(CouldNotCreate) <==> !IsEmpty(w, i) && w.fs.Exists(Deref(w, i)))
            && (o == Pass <==> !IsEmpty(w, i) && !w.fs.Exists(Deref(w, i)))
            && o != Fail(FailedToCreate)
            && (o.Fail? ==> w1 == w)
            && (o == Pass ==> && w1.fs.IsRegularFile(Deref(w, i)) && !w.fs.Exists(Deref(w, i))
                              && w1.fs.entries == w.fs.entries[Deref(w, i) := Regular]
                              && w1.fs.open == w.fs.open)
  {
    if !IsEmpty(w, i) {
      OpenExclusiveFresh(w.fs, Deref(w, i));
      OpenThenCloseRestoresDescriptors(w.fs, Deref(w, i));
    }
  }

  /** `secure_create_stream()`: fails exactly as `secure_create_file()` does, and on
      success the stream owns the one new descriptor, which dropping it closes. */
  lemma SecureCreateStreamOutcomes(w: World, i: nat)
    requires w.fs.Valid() && i < |w.store.refs|
    ensures var (w1, r) := SecureCreateStream(w, i);
            && (r.Err? <==> SecureCreateFile(w, i).1.Fail?)
            && (r.Err? ==> r.error == SecureCreateFile(w, i).1.error && w1 == w)
            && (r.Ok? ==> && w1.fs.IsRegularFile(Deref(w, i)) && r.value.fd !in w.fs.open
                          && w1.fs.entries == w.fs.entries[Deref(w, i) := Regular]
                          && Unique.CloseStream(r.value, w1.fs).open == w.fs.open)
  {
    SecureCreateFileOutcomes(w, i);
    if !IsEmpty(w, i) {
      OpenExclusiveFresh(w.fs, Deref(w, i));
      OpenThenCloseRestoresDescriptors(w.fs, Deref(w, i));
    }
  }

  /** A new handle in a store with no other variables: `secure_create_file()` creates
      the file, and dropping the handle deletes it again, leaving the disk as before. */
  lemma CreateThenDrop(fs: FileSystem, tempDir: Path, stem: Path)
    requires fs.Valid()
    requires !fs.Exists(ScopedNew(tempDir, stem).path) && ScopedNew(tempDir, stem).path !in fs.undeletable
    ensures var w := New(World(fs, Store(map[], 0, [])), tempDir, stem);
            var (w1, o) := SecureCreateFile(w, 0);
            && o == Pass && w1.fs.IsRegularFile(Deref(w, 0))
            && !Drop(w1, 0).fs.Exists(Deref(w, 0)) && Drop(w1, 0).fs.entries == fs.entries
  {
    var empty := World(fs, Store(map[], 0, []));
    assert empty.Valid();
    var w := New(empty, tempDir, stem);
    MakeValid(empty.store, ScopedNew(tempDir, stem));
    SecureCreateFileOutcomes(w, 0);
    var (w1, o) := SecureCreateFile(w, 0);
    assert w1.fs.entries == fs.entries[Deref(w, 0) := Regular];
    assert Count(w1.store.refs, w1.store.refs[0].value) == 1;
    DropDeletesOnlyLast(w1, 0);
    assert w1.fs.entries - {Deref(w, 0)} == fs.entries;
  }

  /** The same handle disconnected after `secure_create_file()`: the path is handed
      out, and dropping the handle afterwards leaves the created file on disk. */
  lemma CreateDisconnectThenDrop(fs: FileSystem, tempDir: Path, stem: Path)
    requires fs.Valid()
    requires !fs.Exists(ScopedNew(tempDir, stem).path)
    ensures var w := New(World(fs, Store(map[], 0, [])), tempDir, stem);
            var (w1, o) := SecureCreateFile(w, 0);
            var (w2, p) := Disconnect(w1, 0);
            && o == Pass && p == Deref(w, 0)
            && Drop(w2, 0).fs == w1.fs && Drop(w2, 0).fs.IsRegularFile(p)
  {
    var w := New(World(fs, Store(map[], 0, [])), tempDir, stem);
    SecureCreateFileOutcomes(w, 0);
    var (w1, o) := SecureCreateFile(w, 0);
    var (w2, p) := Disconnect(w1, 0);
    assert w2.store.Get(0).IsEmpty();
  }
}
