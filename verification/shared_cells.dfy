/** `std::shared_ptr` over `make_shared` control blocks, as the shared handles use
    it, with the use count kept explicitly.

    A `Store` holds every live control block (its object and use count) and every
    `shared_ptr` variable of the program, in order of creation. A variable that is
    null — default, moved-from or already destroyed — is `None`. The invariant
    `Valid` says each block's use count is the number of variables pointing at it,
    and no variable dangles. */
module SharedCells {
  import opened Outcomes

  type CellId = nat

  type Ref = Option<CellId>

  /** One control block: the owned object and its use count. */
  datatype Cell<T> = Cell(value: T, owners: nat)

  datatype Store<T> = Store(cells: map<CellId, Cell<T>>, next: CellId, refs: seq<Ref>)
  {
    ghost predicate Valid() {
      && (forall c | c in cells :: c < next && cells[c].owners > 0 && cells[c].owners == Count(refs, c))
      && (forall i | 0 <= i < |refs| && refs[i].Some? :: refs[i].value in cells)
    }

    /** Variable `i` points at a live block. */
    predicate Holds(i: nat) { i < |refs| && refs[i].Some? && refs[i].value in cells }

    /** `*p` for variable `i`. */
    function Get(i: nat): T
      requires Holds(i)
    {
      cells[refs[i].value].value
    }
  }

  function Ind(r: Ref, c: CellId): nat { if r == Some(c) then 1 else 0 }

  /** How many of the variables `refs` point at block `c`. */
  function Count(refs: seq<Ref>, c: CellId): (n: nat)
    ensures n <= |refs|
    ensures n == 0 <==> forall i | 0 <= i < |refs| :: refs[i] != Some(c)
  {
    if refs == [] then 0 else Count(refs[..|refs| - 1], c) + Ind(refs[|refs| - 1], c)
  }

  lemma CountAppend(refs: seq<Ref>, x: Ref, c: CellId)
    ensures Count(refs + [x], c) == Count(refs, c) + Ind(x, c)
  {
    assert (refs + [x])[..|refs|] == refs;
  }

  /** Re-pointing one variable moves one unit of count from its old block to its new one. */
  lemma {:induction false} CountUpdate(refs: seq<Ref>, i: nat, x: Ref, c: CellId)
    requires i < |refs|
    ensures Count(refs[i := x], c) + Ind(refs[i], c) == Count(refs, c) + Ind(x, c)
    decreases |refs|
  {
    var n := |refs| - 1;
    if i == n {
      assert refs[i := x][..n] == refs[..n];
    } else {
      assert refs[i := x][..n] == refs[..n][i := x];
      CountUpdate(refs[..n], i, x, c);
    }
  }

  /** A variable that is its block's only owner shares it with no other variable. */
  lemma LastOwnerIsAlone(refs: seq<Ref>, i: nat, k: nat)
    requires i < |refs| && k < |refs| && k != i
    requires refs[i].Some? && Count(refs, refs[i].value) == 1
    ensures refs[k] != refs[i]
  {
    CountUpdate(refs, i, None, refs[i].value);
    assert refs[i := None][k] == refs[k];
  }

  /** Increment the use count of the block `r` points at (copying a `shared_ptr`). */
  function Inc<T>(cells: map<CellId, Cell<T>>, r: Ref): (m: map<CellId, Cell<T>>)
    ensures m.Keys == cells.Keys
    ensures forall c | c in m :: m[c].value == cells[c].value
    ensures forall c | c in m :: m[c].owners == cells[c].owners + Ind(r, c)
  {
    if r.Some? && r.value in cells then
      cells[r.value := cells[r.value].(owners := cells[r.value].owners + 1)]
    else cells
  }

  /** Decrement the use count of the block `r` points at; the last owner frees the
      block and hands back the object, whose destructor then runs. */
  function Dec<T>(cells: map<CellId, Cell<T>>, r: Ref): (m: (map<CellId, Cell<T>>, Option<T>))
    ensures m.1.Some? <==> r.Some? && r.value in cells && cells[r.value].owners <= 1
    ensures m.1.Some? ==> m.1.value == cells[r.value].value && m.0 == cells - {r.value}
    ensures m.1.None? ==> m.0.Keys == cells.Keys
    ensures m.1.None? ==> forall c | c in m.0 :: m.0[c].value == cells[c].value && m.0[c].owners + Ind(r, c) == cells[c].owners
  {
    if r.Some? && r.value in cells then
      var cell := cells[r.value];
      if cell.owners <= 1 then (cells - {r.value}, Some(cell.value))
      else (cells[r.value := cell.(owners := cell.owners - 1)], None)
    else (cells, None)
  }

  /** `make_shared(v)` into a new variable. */
  function Make<T>(s: Store<T>, v: T): (r: Store<T>)
    ensures |r.refs| == |s.refs| + 1 && r.refs[..|s.refs|] == s.refs
    ensures r.Holds(|s.refs|) && r.Get(|s.refs|) == v
  {
    Store(s.cells[s.next := Cell(v, 1)], s.next + 1, s.refs + [Some(s.next)])
  }

  /** The copy constructor: a new variable pointing where variable `i` points. */
  function Share<T>(s: Store<T>, i: nat): (r: Store<T>)
    requires i < |s.refs|
    ensures r.refs == s.refs + [s.refs[i]]
    ensures s.Holds(i) ==> r.Holds(|s.refs|) && r.Get(|s.refs|) == s.Get(i)
    ensures forall k | 0 <= k < |s.refs| && s.Holds(k) :: r.Holds(k) && r.Get(k) == s.Get(k)
  {
    Store(Inc(s.cells, s.refs[i]), s.next, s.refs + [s.refs[i]])
  }

  /** The move constructor: a new variable takes variable `i`'s block, `i` becomes null. */
  function MoveOut<T>(s: Store<T>, i: nat): (r: Store<T>)
    requires i < |s.refs|
    ensures |r.refs| == |s.refs| + 1 && r.refs[|s.refs|] == s.refs[i] && r.refs[i] == None
    ensures forall k | 0 <= k < |s.refs| && k != i :: r.refs[k] == s.refs[k]
    ensures s.Holds(i) ==> r.Holds(|s.refs|) && r.Get(|s.refs|) == s.Get(i)
    ensures forall k | 0 <= k < |s.refs| && k != i && s.Holds(k) :: r.Holds(k) && r.Get(k) == s.Get(k)
  {
    Store(s.cells, s.next, s.refs[i := None] + [s.refs[i]])
  }

  /** The destructor, or `reset()`: variable `i` becomes null; the object comes back
      when this was its last owner. */
  function Release<T>(s: Store<T>, i: nat): (r: (Store<T>, Option<T>))
    requires i < |s.refs|
    ensures r.0.refs == s.refs[i := None]
    ensures r.1.Some? ==> s.Holds(i) && r.1.value == s.Get(i)
  {
    var (cells', dropped) := Dec(s.cells, s.refs[i]);
    (Store(cells', s.next, s.refs[i := None]), dropped)
  }

  /** Copy assignment `v_i = v_j`: `j`'s block gains an owner before `i`'s loses one,
      so self-assignment never frees anything. */
  function CopyAssign<T>(s: Store<T>, i: nat, j: nat): (r: (Store<T>, Option<T>))
    requires i < |s.refs| && j < |s.refs|
    ensures r.0.refs == s.refs[i := s.refs[j]]
  {
    var (cells', dropped) := Dec(Inc(s.cells, s.refs[j]), s.refs[i]);
    (Store(cells', s.next, s.refs[i := s.refs[j]]), dropped)
  }

  /** Move assignment `v_i = std::move(v_j)`: `i` takes `j`'s block, `j` becomes null,
      and `i`'s old block loses an owner. Self-move leaves everything as it was. */
  function MoveAssign<T>(s: Store<T>, i: nat, j: nat): (r: (Store<T>, Option<T>))
    requires i < |s.refs| && j < |s.refs|
    ensures i == j ==> r == (s, None)
    ensures i != j ==> r.0.refs == s.refs[i := s.refs[j]][j := None]
  {
    if i == j then (s, None)
    else
      var (cells', dropped) := Dec(s.cells, s.refs[i]);
      (Store(cells', s.next, s.refs[i := s.refs[j]][j := None]), dropped)
  }

  /** `v_i = make_shared(v)` into a variable that is null. */
  function Install<T>(s: Store<T>, i: nat, v: T): (r: Store<T>)
    requires i < |s.refs| && s.refs[i] == None
    ensures |r.refs| == |s.refs| && r.Holds(i) && r.Get(i) == v
  {
    Store(s.cells[s.next := Cell(v, 1)], s.next + 1, s.refs[i := Some(s.next)])
  }

  /** Mutate the object variable `i` points at; every variable sharing it sees the change. */
  function Update<T>(s: Store<T>, i: nat, v: T): (r: Store<T>)
    requires s.Holds(i)
    ensures r.refs == s.refs && r.Holds(i) && r.Get(i) == v
    ensures forall k | 0 <= k < |s.refs| && s.refs[k] == s.refs[i] :: r.Holds(k) && r.Get(k) == v
    ensures forall k | 0 <= k < |s.refs| && s.refs[k] != s.refs[i] && s.Holds(k) :: r.Holds(k) && r.Get(k) == s.Get(k)
  {
    var c := s.refs[i].value;
    Store(s.cells[c := s.cells[c].(value := v)], s.next, s.refs)
  }

  // ----- the use count stays right -----

  lemma MakeValid<T>(s: Store<T>, v: T)
    requires s.Valid()
    ensures Make(s, v).Valid()
    ensures s.next !in s.cells
    ensures forall k | 0 <= k < |s.refs| && s.Holds(k) :: Make(s, v).Holds(k) && Make(s, v).Get(k) == s.Get(k)
  {
    var r := Make(s, v);
    forall c | c in r.cells
      ensures c < r.next && r.cells[c].owners > 0 && r.cells[c].owners == Count(r.refs, c)
    {
      CountAppend(s.refs, Some(s.next), c);
      if c == s.next {
        assert Count(s.refs, c) == 0;
      }
    }
  }

  lemma InstallValid<T>(s: Store<T>, i: nat, v: T)
    requires s.Valid() && i < |s.refs| && s.refs[i] == None
    ensures Install(s, i, v).Valid()
    ensures forall k | 0 <= k < |s.refs| && s.Holds(k) :: Install(s, i, v).Holds(k) && Install(s, i, v).Get(k) == s.Get(k)
  {
    var r := Install(s, i, v);
    forall c | c in r.cells
      ensures c < r.next && r.cells[c].owners > 0 && r.cells[c].owners == Count(r.refs, c)
    {
      CountUpdate(s.refs, i, Some(s.next), c);
      if c == s.next {
        assert Count(s.refs, c) == 0;
      }
    }
  }

  lemma ShareValid<T>(s: Store<T>, i: nat)
    requires s.Valid() && i < |s.refs|
    ensures Share(s, i).Valid()
  {
    var r := Share(s, i);
    forall c | c in r.cells
      ensures c < r.next && r.cells[c].owners > 0 && r.cells[c].owners == Count(r.refs, c)
    {
      CountAppend(s.refs, s.refs[i], c);
    }
    forall k | 0 <= k < |r.refs| && r.refs[k].Some?
      ensures r.refs[k].value in r.cells
    {
      assert r.refs[k] == if k < |s.refs| then s.refs[k] else s.refs[i];
    }
  }

  lemma MoveOutValid<T>(s: Store<T>, i: nat)
    requires s.Valid() && i < |s.refs|
    ensures MoveOut(s, i).Valid()
  {
    var r := MoveOut(s, i);
    forall c | c in r.cells
      ensures c < r.next && r.cells[c].owners > 0 && r.cells[c].owners == Count(r.refs, c)
    {
      CountUpdate(s.refs, i, None, c);
      CountAppend(s.refs[i := None], s.refs[i], c);
    }
  }

  /** Releasing keeps the store valid and frees the block exactly when variable `i`
      was its last owner; a freed block is pointed at by no variable any more. */
  lemma ReleaseValid<T>(s: Store<T>, i: nat)
    requires s.Valid() && i < |s.refs|
    ensures Release(s, i).0.Valid()
    ensures Release(s, i).1.Some? <==> s.refs[i].Some? && Count(s.refs, s.refs[i].value) == 1
    ensures Release(s, i).1.Some? ==> s.refs[i].value !in Release(s, i).0.cells
    ensures forall k | 0 <= k < |s.refs| && k != i && s.Holds(k) :: Release(s, i).0.Holds(k) && Release(s, i).0.Get(k) == s.Get(k)
  {
    var (cells', dropped) := Dec(s.cells, s.refs[i]);
    var r := Store(cells', s.next, s.refs[i := None]);
    assert Release(s, i) == (r, dropped);
    forall c | c in r.cells
      ensures c < r.next && r.cells[c].owners > 0 && r.cells[c].owners == Count(r.refs, c)
    {
      CountUpdate(s.refs, i, None, c);
    }
    forall k | 0 <= k < |r.refs| && r.refs[k].Some?
      ensures r.refs[k].value in r.cells
    {
      assert k != i && r.refs[k] == s.refs[k];
      if dropped.Some? {
        LastOwnerIsAlone(s.refs, i, k);
      }
    }
  }

  lemma CopyAssignValid<T>(s: Store<T>, i: nat, j: nat)
    requires s.Valid() && i < |s.refs| && j < |s.refs|
    ensures CopyAssign(s, i, j).0.Valid()
    ensures CopyAssign(s, i, j).1.Some? <==> s.refs[i].Some? && s.refs[i] != s.refs[j] && Count(s.refs, s.refs[i].value) == 1
    ensures CopyAssign(s, i, j).1.Some? ==> CopyAssign(s, i, j).1.value == s.Get(i)
  {
    var (cells', dropped) := Dec(Inc(s.cells, s.refs[j]), s.refs[i]);
    var r := Store(cells', s.next, s.refs[i := s.refs[j]]);
    assert CopyAssign(s, i, j) == (r, dropped);
    forall c | c in r.cells
      ensures c < r.next && r.cells[c].owners > 0 && r.cells[c].owners == Count(r.refs, c)
    {
      CountUpdate(s.refs, i, s.refs[j], c);
    }
    forall k | 0 <= k < |r.refs| && r.refs[k].Some?
      ensures r.refs[k].value in r.cells
    {
      if dropped.Some? && k != i {
        LastOwnerIsAlone(s.refs, i, k);
      }
    }
  }

  /** Re-pointing variable `i` at `j`'s block and nulling `j` takes one unit of count
      from `i`'s old block and leaves every other count as it was. */
  lemma MoveCount(refs: seq<Ref>, i: nat, j: nat, c: CellId)
    requires i < |refs| && j < |refs| && i != j
    ensures Count(refs[i := refs[j]][j := None], c) + Ind(refs[i], c) == Count(refs, c)
  {
    var mid := refs[i := refs[j]];
    CountUpdate(refs, i, refs[j], c);
    CountUpdate(mid, j, None, c);
  }

  lemma MoveAssignValid<T>(s: Store<T>, i: nat, j: nat)
    requires s.Valid() && i < |s.refs| && j < |s.refs|
    ensures MoveAssign(s, i, j).0.Valid()
    ensures MoveAssign(s, i, j).1.Some? <==> i != j && s.refs[i].Some? && Count(s.refs, s.refs[i].value) == 1
    ensures MoveAssign(s, i, j).1.Some? ==> MoveAssign(s, i, j).1.value == s.Get(i)
  {
    if i != j {
      var (cells', dropped) := Dec(s.cells, s.refs[i]);
      var mid := s.refs[i := s.refs[j]];
      var r := Store(cells', s.next, mid[j := None]);
      assert MoveAssign(s, i, j) == (r, dropped);
      assert mid[j] == s.refs[j];
      forall c | c in r.cells
        ensures c < r.next && r.cells[c].owners > 0 && r.cells[c].owners == Count(r.refs, c)
      {
        MoveCount(s.refs, i, j, c);
      }
      forall k | 0 <= k < |r.refs| && r.refs[k].Some?
        ensures r.refs[k].value in r.cells
      {
        if dropped.Some? {
          LastOwnerIsAlone(s.refs, i, if k == i then j else k);
        }
      }
    }
  }

  /** Copy assignment: the target then holds the source's object, and every other
      variable keeps its own. */
  lemma CopyAssignKeepsPayloads<T>(s: Store<T>, i: nat, j: nat)
    requires s.Valid() && i < |s.refs| && j < |s.refs|
    ensures s.Holds(j) ==> CopyAssign(s, i, j).0.Holds(i) && CopyAssign(s, i, j).0.Get(i) == s.Get(j)
    ensures forall k | 0 <= k < |s.refs| && k != i && s.Holds(k) ::
              CopyAssign(s, i, j).0.Holds(k) && CopyAssign(s, i, j).0.Get(k) == s.Get(k)
  {
    var (cells', dropped) := Dec(Inc(s.cells, s.refs[j]), s.refs[i]);
    if dropped.Some? {
      var ci := s.refs[i].value;
      assert Count(s.refs, ci) == 1 && s.refs[j] != Some(ci);
      forall k | 0 <= k < |s.refs| && k != i
        ensures s.refs[k] != Some(ci)
      {
        LastOwnerIsAlone(s.refs, i, k);
      }
    }
  }

  /** Move assignment between two variables: the target then holds the source's
      object, and every other variable keeps its own. */
  lemma MoveAssignKeepsPayloads<T>(s: Store<T>, i: nat, j: nat)
    requires s.Valid() && i < |s.refs| && j < |s.refs|
    ensures i != j && s.Holds(j) ==> MoveAssign(s, i, j).0.Holds(i) && MoveAssign(s, i, j).0.Get(i) == s.Get(j)
    ensures forall k | 0 <= k < |s.refs| && k != i && k != j && s.Holds(k) ::
              MoveAssign(s, i, j).0.Holds(k) && MoveAssign(s, i, j).0.Get(k) == s.Get(k)
  {
    if i != j {
      var (cells', dropped) := Dec(s.cells, s.refs[i]);
      if dropped.Some? {
        var ci := s.refs[i].value;
        assert Count(s.refs, ci) == 1;
        forall k | 0 <= k < |s.refs| && k != i
          ensures s.refs[k] != Some(ci)
        {
          LastOwnerIsAlone(s.refs, i, k);
        }
      }
    }
  }

  lemma UpdateValid<T>(s: Store<T>, i: nat, v: T)
    requires s.Valid() && s.Holds(i)
    ensures Update(s, i, v).Valid()
  {
  }
}
