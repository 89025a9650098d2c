/** The non-template pair of include/temp_file.h and src/temp_file.cpp.

    Its `unique_temp_file` runs the same code as the template one (module `Unique`),
    and its `shared_temp_file` keeps the same kind of control block with the same
    copy, move and destruction (module `Shared`). What differs is modelled here:
    absorbing a unique handle moves it into the block instead of re-running the path
    constructor, `operator bool` tolerates a null pointer, the `secure_create_*`
    functions go straight to the block, and the comparisons compare raw paths. */
module Legacy {
  import opened Paths
  import opened Outcomes
  import opened Fs
  import opened SharedCells
  import opened Unique
  import Shared

  /** Construction from `unique_temp_file&&`: `make_shared<unique_temp_file>(std::move(tmp))`
      move-constructs the handle into a new block. Returns the new world and the
      moved-from source. */
  function FromUnique(w: Shared.World, u: UniqueTempFile): (r: (Shared.World, UniqueTempFile))
    ensures r.1.IsEmpty() && r.0.fs == w.fs && |r.0.store.refs| == |w.store.refs| + 1
    ensures r.0.store.Holds(|w.store.refs|) && r.0.store.Get(|w.store.refs|) == u
  {
    var (inner, u') := MoveConstruct(u);
    (Shared.World(w.fs, Make(w.store, inner)), u')
  }

  /** Assignment from `unique_temp_file&&` to variable `i`: `m_path.reset()`, then a new
      block move-constructed from the source. */
  function AssignUnique(w: Shared.World, i: nat, u: UniqueTempFile): (r: (Shared.World, UniqueTempFile))
    requires i < |w.store.refs|
    ensures r.1.IsEmpty() && r.0.store.Holds(i) && Shared.Deref(r.0, i) == u.path
  {
    var (store1, dropped) := Release(w.store, i);
    var (inner, u') := MoveConstruct(u);
    (Shared.World(Shared.Finalize(w.fs, dropped), Install(store1, i, inner)), u')
  }

  /** `operator bool`: `!empty()`, which checks the pointer before looking at the path. */
  predicate IsArmed(w: Shared.World, i: nat)
    requires i < |w.store.refs|
  {
    !Shared.IsEmpty(w, i)
  }

  /** `secure_create_fd()`: the block's own, with no check of the pointer. */
  function SecureCreateFd(w: Shared.World, i: nat): (r: (Shared.World, Result<nat>))
    requires w.store.Holds(i)
  {
    var (fs', res) := Unique.SecureCreateFd(w.store.Get(i), w.fs);
    (Shared.World(fs', w.store), res)
  }

  /** `secure_create_file()`: the block's own. */
  function SecureCreateFile(w: Shared.World, i: nat): (r: (Shared.World, Outcome))
    requires w.store.Holds(i)
  {
    var (fs', o) := Unique.SecureCreateFile(w.store.Get(i), w.fs);
    (Shared.World(fs', w.store), o)
  }

  // ----- comparison operators: `*lhs` against `*rhs`, raw paths -----

  predicate Eq(l: Path, r: Path) { l == r }
  predicate Ne(l: Path, r: Path) { l != r }
  predicate Lt(l: Path, r: Path) { Less(l, r) }
  predicate Gt(l: Path, r: Path) { Less(r, l) }
  predicate Le(l: Path, r: Path) { !Less(r, l) }
  predicate Ge(l: Path, r: Path) { !Less(l, r) }

  // ----- properties -----

  /** Absorbing a unique handle keeps its path as it is (even one that now names a
      directory), leaves the source empty so that it deletes nothing, and makes the new
      block the only owner. */
  lemma AbsorbMovesHandle(w: Shared.World, u: UniqueTempFile)
    requires w.Valid()
    ensures var (w1, u') := FromUnique(w, u);
            && w1.Valid()
            && Shared.Deref(w1, |w.store.refs|) == u.path
            && Destroy(u', w.fs) == w.fs
            && Count(w1.store.refs, w1.store.refs[|w.store.refs|].value) == 1
  {
    var (w1, u') := FromUnique(w, u);
    MakeValid(w.store, MoveConstruct(u).0);
    DisconnectSuppressesDeletion(u, w.fs);
  }

  /** Assigning a unique handle first drops the variable's old block (deleting its file
      when this was the last owner), then holds the moved source; the other variables
      keep their handles. */
  lemma AssignUniqueDropsOldFirst(w: Shared.World, i: nat, u: UniqueTempFile)
    requires w.Valid() && i < |w.store.refs|
    ensures var (w1, u') := AssignUnique(w, i, u);
            && w1.Valid() && u'.IsEmpty() && w1.store.Get(i) == u
            && w1.fs == (if w.store.Holds(i) && Count(w.store.refs, w.store.refs[i].value) == 1
                         then Destroy(w.store.Get(i), w.fs) else w.fs)
            && (forall k | 0 <= k < |w.store.refs| && k != i && w.store.Holds(k) ::
                  w1.store.Holds(k) && w1.store.Get(k) == w.store.Get(k))
  {
    ReleaseValid(w.store, i);
    var (store1, dropped) := Release(w.store, i);
    InstallValid(store1, i, MoveConstruct(u).0);
  }

  /** `operator bool` is the negation of `empty()`, and a null pointer is empty rather
      than an error; on a present block it agrees with the template's. */
  lemma BoolIsNotEmpty(w: Shared.World, i: nat)
    requires i < |w.store.refs|
    ensures IsArmed(w, i) <==> w.store.Holds(i) && Shared.Deref(w, i) != Empty
    ensures w.store.refs[i].None? ==> Shared.IsEmpty(w, i) && !IsArmed(w, i)
    ensures w.store.Holds(i) ==> (IsArmed(w, i) <==> Shared.IsArmed(w, i))
  {
  }

  /** On a present block the `secure_create_*` functions behave exactly as the
      template's, whose extra emptiness check repeats the unique handle's own. */
  lemma SecureCreateAgreesWithTemplate(w: Shared.World, i: nat)
    requires w.store.Holds(i)
    ensures SecureCreateFd(w, i) == Shared.SecureCreateFd(w, i)
    ensures SecureCreateFile(w, i) == Shared.SecureCreateFile(w, i)
    ensures Shared.IsEmpty(w, i) ==> SecureCreateFd(w, i).1 == Err(EmptyPath)
  {
  }

  /** The raw comparisons are those of a total order with the empty path as least
      element; two empty handles compare equal. */
  lemma RawComparisonsAreTotal(a: Path, b: Path)
    ensures Eq(Empty, Empty) && Le(Empty, Empty)
    ensures Le(a, b) <==> Lt(a, b) || Eq(a, b)
    ensures Ge(a, b) <==> Gt(a, b) || Eq(a, b)
    ensures Ne(a, b) <==> !Eq(a, b)
    ensures a != Empty ==> Lt(Empty, a)
  {
    LessIsStrictTotalOrder(a, b, a);
    NotGreaterIsLessOrEqual(a, b);
    NotGreaterIsLessOrEqual(b, a);
  }

  /** The two shared variants order paths identically; they disagree only on `==` and
      `!=`, and only when both sides are empty. */
  lemma VariantsDifferOnlyOnEmptyEquality(a: Path, b: Path)
    ensures Lt(a, b) == Shared.Lt(a, b) && Gt(a, b) == Shared.Gt(a, b)
    ensures Le(a, b) == Shared.Le(a, b) && Ge(a, b) == Shared.Ge(a, b)
    ensures Eq(a, b) != Shared.Eq(a, b) <==> a == Empty && b == Empty
    ensures Ne(a, b) != Shared.Ne(a, b) <==> a == Empty && b == Empty
  {
    LessIsStrictTotalOrder(a, b, a);
  }
}
