/** `shared_temp_file` of include/daw/temp_file.h: copies share one
    `make_shared<unique_temp_file>` control block, and the file is deleted when the
    last copy lets go of it.

    A `World` is the filesystem together with every `shared_temp_file` variable of
    the program (a `Store` of blocks holding `UniqueTempFile`s). Variable `i` is the
    `i`-th `shared_ptr` in the store. */
module Shared {
  import opened Paths
  import opened Outcomes
  import opened Fs
  import opened SharedCells
  import opened Unique

  datatype World = World(fs: FileSystem, store: Store<UniqueTempFile>)
  {
    ghost predicate Valid() { store.Valid() }
  }

  /** What freeing a control block does: run `~unique_temp_file` on the handle it held. */
  function Finalize(fs: FileSystem, dropped: Option<UniqueTempFile>): (fs': FileSystem)
    ensures dropped.None? ==> fs' == fs
    ensures dropped.Some? ==> fs' == Destroy(dropped.value, fs)
  {
    if dropped.Some? then Destroy(dropped.value, fs) else fs
  }

  /** The default constructor: a new variable owning a fresh name in the temp directory. */
  function New(w: World, tempDir: Path, stem: Path): (r: World)
    ensures r.fs == w.fs && |r.store.refs| == |w.store.refs| + 1
    ensures r.store.Holds(|w.store.refs|) && r.store.Get(|w.store.refs|) == Unique.New(tempDir, stem)
  {
    World(w.fs, Make(w.store, Unique.New(tempDir, stem)))
  }

  /** The path constructor: the block holds `unique_temp_file(p)`, so the directory
      rule of the unique handle applies. */
  function FromPath(w: World, p: Path, stem: Path): (r: World)
    ensures r.fs == w.fs && |r.store.refs| == |w.store.refs| + 1
    ensures r.store.Holds(|w.store.refs|) && r.store.Get(|w.store.refs|) == Unique.FromPath(w.fs, p, stem)
  {
    World(w.fs, Make(w.store, Unique.FromPath(w.fs, p, stem)))
  }

  /** Construction from `unique_temp_file&&`: the source is disconnected and its path
      handed to the path constructor of a new block. Returns the new world and the
      emptied source. */
  function FromUnique(w: World, u: UniqueTempFile, stem: Path): (r: (World, UniqueTempFile))
    ensures r.1.IsEmpty() && r.0.fs == w.fs && |r.0.store.refs| == |w.store.refs| + 1
    ensures r.0.store.Holds(|w.store.refs|) && r.0.store.Get(|w.store.refs|) == Unique.FromPath(w.fs, u.path, stem)
  {
    var (u', p) := Unique.Disconnect(u);
    (World(w.fs, Make(w.store, Unique.FromPath(w.fs, p, stem))), u')
  }

  /** Assignment from `unique_temp_file&&` to variable `i`: `m_path.reset()` first (the
      old block loses an owner, and its file goes if that was the last one), then a
      new block built from the disconnected source. */
  function AssignUnique(w: World, i: nat, u: UniqueTempFile, stem: Path): (r: (World, UniqueTempFile))
    requires i < |w.store.refs|
    ensures r.1.IsEmpty()
  {
    var (store1, dropped) := Release(w.store, i);
    var fs1 := Finalize(w.fs, dropped);
    var (u', p) := Unique.Disconnect(u);
    (World(fs1, Install(store1, i, Unique.FromPath(fs1, p, stem))), u')
  }

  // Copy, move and drop below are this class's own thin layer over `SharedCells`, as
  // are those of `DeleteOnExit`: the two classes hold different objects in their
  // blocks and run different destructors (`Finalize`) when a block is freed.

  /** The copy constructor: a new variable sharing variable `i`'s block. */
  function Copy(w: World, i: nat): (r: World)
    requires i < |w.store.refs|
    ensures r.fs == w.fs && r.store.refs == w.store.refs + [w.store.refs[i]]
    ensures w.store.Holds(i) ==> r.store.Holds(|w.store.refs|) && r.store.Get(|w.store.refs|) == w.store.Get(i)
    ensures forall k | 0 <= k < |w.store.refs| && w.store.Holds(k) :: r.store.Holds(k) && r.store.Get(k) == w.store.Get(k)
  {
    World(w.fs, Share(w.store, i))
  }

  /** Copy assignment `v_i = v_j`. */
  function CopyAssign(w: World, i: nat, j: nat): (r: World)
    requires i < |w.store.refs| && j < |w.store.refs|
    ensures r.store.refs == w.store.refs[i := w.store.refs[j]]
  {
    var (store', dropped) := SharedCells.CopyAssign(w.store, i, j);
    World(Finalize(w.fs, dropped), store')
  }

  /** The move constructor: a new variable takes variable `i`'s block. */
  function Move(w: World, i: nat): (r: World)
    requires i < |w.store.refs|
    ensures r.fs == w.fs && |r.store.refs| == |w.store.refs| + 1
    ensures r.store.refs[i] == None && r.store.refs[|w.store.refs|] == w.store.refs[i]
    ensures forall k | 0 <= k < |w.store.refs| && k != i :: r.store.refs[k] == w.store.refs[k]
    ensures w.store.Holds(i) ==> r.store.Holds(|w.store.refs|) && r.store.Get(|w.store.refs|) == w.store.Get(i)
    ensures forall k | 0 <= k < |w.store.refs| && k != i && w.store.Holds(k) :: r.store.Holds(k) && r.store.Get(k) == w.store.Get(k)
  {
    World(w.fs, MoveOut(w.store, i))
  }

  /** Move assignment `v_i = std::move(v_j)`. */
  function MoveAssign(w: World, i: nat, j: nat): (r: World)
    requires i < |w.store.refs| && j < |w.store.refs|
    ensures i == j ==> r == w
    ensures i != j ==> r.store.refs == w.store.refs[i := w.store.refs[j]][j := None]
  {
    var (store', dropped) := SharedCells.MoveAssign(w.store, i, j);
    World(Finalize(w.fs, dropped), store')
  }

  /** Variable `i` goes out of scope. */
  function Drop(w: World, i: nat): (r: World)
    requires i < |w.store.refs|
    ensures r.store.refs == w.store.refs[i := None]
  {
    var (store', dropped) := Release(w.store, i);
    World(Finalize(w.fs, dropped), store')
  }

  /** `operator*`: the path in the shared block. */
  function Deref(w: World, i: nat): Path
    requires w.store.Holds(i)
  {
    w.store.Get(i).path
  }

  /** `disconnect()`: disconnect the shared unique handle, for every copy at once. */
  function Disconnect(w: World, i: nat): (r: (World, Path))
    requires w.store.Holds(i)
    ensures r.1 == Deref(w, i) && r.0.fs == w.fs && r.0.store.refs == w.store.refs
    ensures forall k | 0 <= k < |w.store.refs| && w.store.refs[k] == w.store.refs[i] ::
              r.0.store.Holds(k) && IsEmpty(r.0, k)
    ensures forall k | 0 <= k < |w.store.refs| && w.store.refs[k] != w.store.refs[i] && w.store.Holds(k) ::
              r.0.store.Holds(k) && r.0.store.Get(k) == w.store.Get(k)
  {
    var (u', p) := Unique.Disconnect(w.store.Get(i));
    (World(w.fs, Update(w.store, i, u')), p)
  }

  /** `empty()`: a null pointer or an empty path. */
  predicate IsEmpty(w: World, i: nat)
    requires i < |w.store.refs|
  {
    !w.store.Holds(i) || w.store.Get(i).IsEmpty()
  }

  /** `operator bool`: asks the shared unique handle, so the pointer must not be null. */
  predicate IsArmed(w: World, i: nat)
    requires w.store.Holds(i)
  {
    w.store.Get(i).IsArmed()
  }

  /** `secure_create_fd()`: refuse an empty handle, then the unique handle's own. */
  function SecureCreateFd(w: World, i: nat): (r: (World, Result<nat>))
    requires i < |w.store.refs|
    ensures r.0.store == w.store
    ensures IsEmpty(w, i) ==> r == (w, Err(EmptyPath))
    ensures !IsEmpty(w, i) ==> (r.0.fs == Unique.SecureCreateFd(w.store.Get(i), w.fs).0
                                && r.1 == Unique.SecureCreateFd(w.store.Get(i), w.fs).1)
  {
    if IsEmpty(w, i) then (w, Err(EmptyPath))
    else
      var (fs', res) := Unique.SecureCreateFd(w.store.Get(i), w.fs);
      (World(fs', w.store), res)
  }

  /** `secure_create_file()`: refuse an empty handle, then the unique handle's own. */
  function SecureCreateFile(w: World, i: nat): (r: (World, Outcome))
    requires i < |w.store.refs|
    ensures r.0.store == w.store
    ensures IsEmpty(w, i) ==> r == (w, Fail(EmptyPath))
    ensures !IsEmpty(w, i) ==> (r.0.fs == Unique.SecureCreateFile(w.store.Get(i), w.fs).0
                                && r.1 == Unique.SecureCreateFile(w.store.Get(i), w.fs).1)
  {
    if IsEmpty(w, i) then (w, Fail(EmptyPath))
    else
      var (fs', o) := Unique.SecureCreateFile(w.store.Get(i), w.fs);
      (World(fs', w.store), o)
  }

  /** `secure_create_stream()`: straight to the unique handle, whose own check refuses
      an empty path. */
  function SecureCreateStream(w: World, i: nat): (r: (World, Result<Stream>))
    requires w.store.Holds(i)
    ensures r.0.store == w.store
    ensures r.0.fs == Unique.SecureCreateStream(w.store.Get(i), w.fs).0
    ensures r.1 == Unique.SecureCreateStream(w.store.Get(i), w.fs).1
  {
    var (fs', res) := Unique.SecureCreateStream(w.store.Get(i), w.fs);
    (World(fs', w.store), res)
  }

  // ----- comparison operators, on the paths `*lhs` and `*rhs` -----
  // `operator bool` of a handle whose block is present is "its path is not empty",
  // so a (present?, path) pair is fully described by the path.

  predicate Eq(l: Path, r: Path) {
    if l != Empty then (if r != Empty then l == r else false) else false
  }

  predicate Ne(l: Path, r: Path) {
    if l != Empty then (if r != Empty then l != r else true) else true
  }

  predicate Lt(l: Path, r: Path) {
    if r != Empty then (if l != Empty then Less(l, r) else true) else false
  }

  predicate Gt(l: Path, r: Path) {
    if l != Empty then (if r != Empty then Less(r, l) else true) else false
  }

  predicate Le(l: Path, r: Path) {
    if l != Empty then (if r != Empty then !Less(r, l) else false) else true
  }

  predicate Ge(l: Path, r: Path) {
    if r != Empty then (if l != Empty then !Less(l, r) else false) else true
  }

  // ----- properties -----

  /** Dropping a variable deletes the file only when it was the block's last owner;
      with other owners left nothing on disk changes and they still see the path. */
  lemma DropDeletesOnlyLast(w: World, i: nat)
    requires w.Valid() && w.store.Holds(i)
    ensures Drop(w, i).Valid()
    ensures Count(w.store.refs, w.store.refs[i].value) > 1 ==> Drop(w, i).fs == w.fs
    ensures Count(w.store.refs, w.store.refs[i].value) == 1 ==> Drop(w, i).fs == Destroy(w.store.Get(i), w.fs)
    ensures forall k | 0 <= k < |w.store.refs| && k != i && w.store.Holds(k) ::
              Drop(w, i).store.Holds(k) && Deref(Drop(w, i), k) == Deref(w, k)
  {
    ReleaseValid(w.store, i);
  }

  /** A copy shares the block: it sees the same path, dropping the original leaves
      the file alone, and dropping the copy afterwards deletes it. */
  lemma CopyThenDropBoth(w: World, i: nat)
    requires w.Valid() && w.store.Holds(i)
    requires Count(w.store.refs, w.store.refs[i].value) == 1
    ensures var w1 := Copy(w, i);
            var k := |w.store.refs|;
            && w1.Valid() && w1.store.Holds(k) && Deref(w1, k) == Deref(w, i)
            && Drop(w1, i).fs == w.fs
            && Drop(Drop(w1, i), k).fs == Destroy(w.store.Get(i), w.fs)
  {
    var w1 := Copy(w, i);
    var k := |w.store.refs|;
    var c := w.store.refs[i].value;
    ShareValid(w.store, i);
    CountAppend(w.store.refs, w.store.refs[i], c);
    assert w1.store.refs[k] == Some(c);
    DropDeletesOnlyLast(w1, i);
    var w2 := Drop(w1, i);
    CountUpdate(w1.store.refs, i, None, c);
    DropDeletesOnlyLast(w2, k);
  }

  /** `disconnect()` through one copy empties every copy of the same block and hands
      out the path; the block now holds an empty handle, so dropping any copy never
      deletes the disconnected file. */
  lemma DisconnectVisibleToAllCopies(w: World, i: nat)
    requires w.Valid() && w.store.Holds(i)
    ensures var (w1, p) := Disconnect(w, i);
            && p == Deref(w, i) && w1.Valid()
            && (forall k | 0 <= k < |w.store.refs| && w.store.refs[k] == w.store.refs[i] ::
                  IsEmpty(w1, k) && Drop(w1, k).fs == w.fs)
  {
    var (w1, p) := Disconnect(w, i);
    UpdateValid(w.store, i, UniqueTempFile(Empty));
    forall k | 0 <= k < |w.store.refs| && w.store.refs[k] == w.store.refs[i]
      ensures IsEmpty(w1, k) && Drop(w1, k).fs == w.fs
    {
      ReleaseValid(w1.store, k);
      var (s2, dropped) := Release(w1.store, k);
      if dropped.Some? {
        DisconnectSuppressesDeletion(w.store.Get(i), w.fs);
      }
    }
  }

  /** Absorbing a unique handle leaves the source empty, so its own destructor no
      longer deletes anything: the new block is the only owner that will. An absorbed
      path that is not a directory is kept as it is, and an empty source gives an
      empty shared handle. */
  lemma AbsorbLeavesOneDeleter(w: World, u: UniqueTempFile, stem: Path)
    requires w.Valid()
    ensures var (w1, u') := FromUnique(w, u, stem);
            && w1.Valid()
            && Destroy(u', w.fs) == w.fs
            && (!w.fs.IsDirectory(u.path) ==> Deref(w1, |w.store.refs|) == u.path)
            && (IsEmpty(w1, |w.store.refs|) <==> u.IsEmpty())
            && Count(w1.store.refs, w1.store.refs[|w.store.refs|].value) == 1
  {
    var (w1, u') := FromUnique(w, u, stem);
    MakeValid(w.store, Unique.FromPath(w.fs, u.path, stem));
    Unique.DisconnectSuppressesDeletion(u, w.fs);
  }

  /** Absorbing a unique handle whose path has since become a directory does not keep
      that path: the path constructor puts a fresh file name inside the directory. */
  lemma AbsorbDirectoryGetsFreshName(w: World, u: UniqueTempFile, stem: Path)
    requires w.fs.IsDirectory(u.path)
    ensures Deref(FromUnique(w, u, stem).0, |w.store.refs|) != u.path
  {
  }

  /** Assigning a unique handle first drops the variable's old block, deleting its file
      if this variable was the last owner, and then builds the new block with the path
      constructor on the disk as it is after that deletion. The source's path is
      kept unless it names a directory, even when it is the path just deleted; the
      other variables keep their handles. */
  lemma AssignUniqueDropsOldFirst(w: World, i: nat, u: UniqueTempFile, stem: Path)
    requires w.Valid() && i < |w.store.refs|
    ensures var (w1, u') := AssignUnique(w, i, u, stem);
            && w1.Valid() && u'.IsEmpty() && w1.store.Holds(i)
            && w1.fs == (if w.store.Holds(i) && Count(w.store.refs, w.store.refs[i].value) == 1
                         then Destroy(w.store.Get(i), w.fs) else w.fs)
            && w1.store.Get(i) == Unique.FromPath(w1.fs, u.path, stem)
            && (!w.fs.IsDirectory(u.path) ==> Deref(w1, i) == u.path)
            && (IsEmpty(w1, i) <==> u.IsEmpty())
            && (forall k | 0 <= k < |w.store.refs| && k != i && w.store.Holds(k) ::
                  w1.store.Holds(k) && w1.store.Get(k) == w.store.Get(k))
  {
    ReleaseValid(w.store, i);
    var (store1, dropped) := Release(w.store, i);
    var fs1 := Finalize(w.fs, dropped);
    assert fs1.IsDirectory(u.path) ==> w.fs.IsDirectory(u.path);
    InstallValid(store1, i, Unique.FromPath(fs1, u.path, stem));
  }

  /** Copies made with the copy constructor or copy assignment keep the store valid. */
  lemma CopyOperationsKeepCounts(w: World, i: nat, j: nat)
    requires w.Valid() && i < |w.store.refs| && j < |w.store.refs|
    ensures Copy(w, i).Valid() && Move(w, i).Valid()
    ensures CopyAssign(w, i, j).Valid() && MoveAssign(w, i, j).Valid()
    ensures w.store.refs[i] == w.store.refs[j] ==> CopyAssign(w, i, j).fs == w.fs
  {
    ShareValid(w.store, i);
    MoveOutValid(w.store, i);
    CopyAssignValid(w.store, i, j);
    MoveAssignValid(w.store, i, j);
  }

  /** Copy assignment: variable `i` then sees `j`'s handle, every other variable keeps
      its own, and `i`'s old block is finalised exactly when `i` was its last owner
      and the two blocks differ, so self-assignment deletes nothing. */
  lemma CopyAssignDropsOldBlock(w: World, i: nat, j: nat)
    requires w.Valid() && i < |w.store.refs| && j < |w.store.refs|
    ensures var last := w.store.Holds(i) && w.store.refs[i] != w.store.refs[j]
                        && Count(w.store.refs, w.store.refs[i].value) == 1;
            CopyAssign(w, i, j).fs == if last then Destroy(w.store.Get(i), w.fs) else w.fs
    ensures w.store.Holds(j) ==> CopyAssign(w, i, j).store.Holds(i) && CopyAssign(w, i, j).store.Get(i) == w.store.Get(j)
    ensures forall k | 0 <= k < |w.store.refs| && k != i && w.store.Holds(k) ::
              CopyAssign(w, i, j).store.Holds(k) && CopyAssign(w, i, j).store.Get(k) == w.store.Get(k)
  {
    CopyAssignValid(w.store, i, j);
    CopyAssignKeepsPayloads(w.store, i, j);
  }

  /** Move assignment between two variables: `i` takes `j`'s handle, `j` is left null,
      every other variable keeps its own, and `i`'s old block is finalised exactly
      when `i` was its last owner; self-move deletes nothing. */
  lemma MoveAssignDropsOldBlock(w: World, i: nat, j: nat)
    requires w.Valid() && i < |w.store.refs| && j < |w.store.refs|
    ensures var last := i != j && w.store.Holds(i) && Count(w.store.refs, w.store.refs[i].value) == 1;
            MoveAssign(w, i, j).fs == if last then Destroy(w.store.Get(i), w.fs) else w.fs
    ensures i != j && w.store.Holds(j) ==> && MoveAssign(w, i, j).store.Holds(i) && !MoveAssign(w, i, j).store.Holds(j)
                                           && MoveAssign(w, i, j).store.Get(i) == w.store.Get(j)
    ensures forall k | 0 <= k < |w.store.refs| && k != i && k != j && w.store.Holds(k) ::
              MoveAssign(w, i, j).store.Holds(k) && MoveAssign(w, i, j).store.Get(k) == w.store.Get(k)
  {
    MoveAssignValid(w.store, i, j);
    MoveAssignKeepsPayloads(w.store, i, j);
  }

  /** `secure_create_fd()` on a shared handle: an empty or moved-from handle is an
      error; otherwise the exclusive open decides, as for the unique handle. */
  lemma SharedSecureCreateFdOutcomes(w: World, i: nat)
    requires w.fs.Valid() && i < |w.store.refs|
    ensures var (w1, r) := SecureCreateFd(w, i);
            && (r == Err(EmptyPath) <==> IsEmpty(w, i))
            && (r == Err(CouldNotCreate) <==> !IsEmpty(w, i) && w.fs.Exists(Deref(w, i)))
            && (r.Ok? <==> !IsEmpty(w, i) && !w.fs.Exists(Deref(w, i)))
            && (r.Err? ==> w1 == w)
            && (r.Ok? ==> && w1.fs.IsRegularFile(Deref(w, i)) && r.value !in w.fs.open
                          && w1.fs.entries == w.fs.entries[Deref(w, i) := Regular])
  {
    if !IsEmpty(w, i) {
      SecureCreateFdOutcomes(w.store.Get(i), w.fs);
    }
  }

  /** `secure_create_stream()` on a shared handle whose block is present: the unique
      handle's own check refuses an empty path, an existing path fails and leaves the
      disk alone, and otherwise the path becomes a new regular file whose descriptor
      the stream owns; no variable changes block or handle. */
  lemma SharedSecureCreateStreamOutcomes(w: World, i: nat)
    requires w.fs.Valid() && w.store.Holds(i)
    ensures var (w1, r) := SecureCreateStream(w, i);
            && w1.store == w.store
            && (r == Err(EmptyPath) <==> IsEmpty(w, i))
            && (r == Err(CouldNotCreate) <==> !IsEmpty(w, i) && w.fs.Exists(Deref(w, i)))
            && (r.Ok? <==> !IsEmpty(w, i) && !w.fs.Exists(Deref(w, i)))
            && (r.Err? ==> w1 == w)
            && (r.Ok? ==> && w1.fs.entries == w.fs.entries[Deref(w, i) := Regular]
                          && r.value.fd !in w.fs.open
                          && Unique.CloseStream(r.value, w1.fs).open == w.fs.open)
  {
    Unique.SecureCreateFdOutcomes(w.store.Get(i), w.fs);
    Unique.SecureCreateStreamOwnsDescriptor(w.store.Get(i), w.fs);
  }

  /** `empty()` and `operator bool` are each other's negation on a present block. */
  lemma EmptyIsNotArmed(w: World, i: nat)
    requires w.store.Holds(i)
    ensures IsEmpty(w, i) <==> !IsArmed(w, i)
    ensures IsArmed(w, i) <==> Deref(w, i) != Empty
  {
  }

  /** How the six operators relate: `==` is false once either side is empty, `!=` is
      its negation, `>` is `<` flipped, `<=` is not `>`, `>=` is not `<`, and an empty
      side sorts below every armed one. */
  lemma ComparisonRelations(a: Path, b: Path)
    ensures (a == Empty || b == Empty) ==> !Eq(a, b)
    ensures Ne(a, b) <==> !Eq(a, b)
    ensures Gt(a, b) <==> Lt(b, a)
    ensures Le(a, b) <==> !Gt(a, b)
    ensures Ge(a, b) <==> !Lt(a, b)
    ensures a == Empty && b != Empty ==> Lt(a, b) && !Lt(b, a) && Le(a, b) && !Le(b, a)
  {
    LessIsStrictTotalOrder(a, b, a);
  }

  /** Empty handles are never equal yet always `<=` each other, so `<=` is not "`<` or
      `==`" here; among armed handles it is. */
  lemma EmptyComparesAsymmetrically(a: Path, b: Path)
    ensures !Eq(Empty, Empty) && Le(Empty, Empty) && Ge(Empty, Empty) && !Lt(Empty, Empty)
    ensures a != Empty && b != Empty ==> (Le(a, b) <==> Lt(a, b) || Eq(a, b))
    ensures Eq(a, b) <==> a != Empty && a == b
  {
    LessIsStrictTotalOrder(a, b, a);
  }

  /** `<` is a strict weak order: irreflexive and transitive, with all empty handles
      equivalent to one another. */
  lemma {:induction false} LtIsStrictWeakOrder(a: Path, b: Path, c: Path)
    ensures !Lt(a, a)
    ensures Lt(a, b) && Lt(b, c) ==> Lt(a, c)
    ensures Lt(a, b) ==> !Lt(b, a)
  {
    LessIsStrictTotalOrder(a, b, c);
    LessIrreflexive(a);
  }

  /** A handle built on a directory, as the only variable of its store: it owns a fresh
      name inside the directory, `secure_create_stream()` creates that file, and once
      the stream is closed and the handle dropped the file is gone again. */
  lemma DirectoryArgumentScenario(fs: FileSystem, dir: Path, stem: Path)
    requires fs.Valid() && fs.IsDirectory(dir)
    requires !fs.Exists(GenerateTempFilePath(dir, stem)) && GenerateTempFilePath(dir, stem) !in fs.undeletable
    ensures var w := FromPath(World(fs, Store(map[], 0, [])), dir, stem);
            var (w1, r) := SecureCreateStream(w, 0);
            var w2 := World(CloseStream(r.value, w1.fs), w1.store);
            && Deref(w, 0) != dir && Deref(w, 0)[..|dir|] == dir
            && r.Ok? && w1.fs.IsRegularFile(Deref(w, 0))
            && !Drop(w2, 0).fs.Exists(Deref(w, 0))
            && Drop(w2, 0).fs.entries == fs.entries && Drop(w2, 0).fs.open == fs.open
  {
    var h := UniqueTempFile(GenerateTempFilePath(dir, stem));
    var w := FromPath(World(fs, Store(map[], 0, [])), dir, stem);
    assert w.store == Store(map[0 := Cell(h, 1)], 1, [Some(0)]);
    SecureCreateFdOutcomes(h, fs);
    SecureCreateStreamOwnsDescriptor(h, fs);
    var (w1, r) := SecureCreateStream(w, 0);
    var w2 := World(CloseStream(r.value, w1.fs), w1.store);
    assert Release(w2.store, 0).1 == Some(h);
    assert w2.fs.entries == fs.entries[h.path := Regular];
    assert w2.fs.entries - {h.path} == fs.entries;
  }
}
