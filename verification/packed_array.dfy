/** The dense handle store (Engine/ECS/Include/Laniakea/ECS/PackedArray.h).

    Elements live contiguously in `data`; a handle names an element for as long
    as it lives, whatever happens to the other elements. Two maps translate
    between handles and indices, and released handles wait in `freeHandles`
    until `Add` hands the smallest of them out again.

    `PackedState` is the store as a value: its invariant and the effect of each
    mutator are stated here once, and the lemmas below prove what the store
    promises. `PackedArray` is the store as the source has it, an object whose
    methods update the four fields step by step; each method is proved to
    produce the `PackedState` transition of the same name. */
module PackedArrays {
  import opened Wrappers
  import opened Maps

  predicate IsLeast(m: nat, s: set<nat>) {
    m in s && forall k :: k in s ==> m <= k
  }

  /** Descending from any element `n` of `s` reaches the least one. */
  lemma {:induction false} LeastBelow(s: set<nat>, n: nat)
    requires n in s
    ensures exists m :: IsLeast(m, s)
    decreases n
  {
    if !IsLeast(n, s) {
      var k :| k in s && k < n;
      LeastBelow(s, k);
    }
  }

  /** The smallest element of a non-empty set: what `std::set::begin` points at. */
  function Least(s: set<nat>): (m: nat)
    requires s != {}
    ensures m in s && forall k :: k in s ==> m <= k
  {
    var n :| n in s;
    LeastBelow(s, n);
    var m :| IsLeast(m, s);
    m
  }

  /** The contents of a store: `m_Data`, `m_HandleToIndex`, `m_IndexToHandle`
      and `m_FreeHandles`. */
  datatype PackedState<T> = PackedState(
    data: seq<T>,
    handleToIndex: map<nat, nat>,
    indexToHandle: map<nat, nat>,
    freeHandles: set<nat>)
  {
    /** The store's invariant: the two maps are inverse bijections between the
        live handles and the indices `0 .. Size() - 1`; live and free handles are
        disjoint, and together they are every handle issued so far,
        `0 .. Size() + |freeHandles| - 1`. */
    ghost predicate Valid() {
      && (forall i: nat :: i in indexToHandle <==> i < |data|)
      && (forall i :: i in indexToHandle ==>
            indexToHandle[i] in handleToIndex && handleToIndex[indexToHandle[i]] == i)
      && (forall h :: h in handleToIndex ==>
            handleToIndex[h] in indexToHandle && indexToHandle[handleToIndex[h]] == h)
      && (forall h :: h in freeHandles ==> h !in handleToIndex)
      && (forall h: nat :: h in handleToIndex || h in freeHandles <==> h < |data| + |freeHandles|)
    }

    function Size(): nat {
      |data|
    }

    predicate IsValidHandle(handle: nat) {
      handle in handleToIndex
    }

    /** What the store holds, handle by handle. */
    ghost function Contents(): map<nat, T>
      requires Valid()
    {
      map h | h in handleToIndex :: data[handleToIndex[h]]
    }

    /** The handle the next insertion assigns: the smallest free handle, or the
        current size when none is free. */
    function NextHandle(): nat {
      if freeHandles == {} then |data| else Least(freeHandles)
    }

    /** The store after `Add(x)` / `EmplaceBack(...)`: `x` is appended and
        bound to `NextHandle()`. */
    function Add(x: T): PackedState<T> {
      var h := NextHandle();
      PackedState(data + [x], handleToIndex[h := |data|], indexToHandle[|data| := h], freeHandles - {h})
    }

    /** The store after `Remove(handle)`: the last element is moved into the
        removed element's slot, the last slot is dropped, both maps are fixed
        up for the moved element, and `handle` is released. The maps are
        assigned before the erasures, so removing the last element itself
        (where the moved and the removed element coincide) erases it. */
    function Remove(handle: nat): PackedState<T>
      requires Valid() && IsValidHandle(handle)
    {
      var i := handleToIndex[handle];
      var last := |data| - 1;
      var lastHandle := indexToHandle[last];
      PackedState(
        data[i := data[last]][..last],
        handleToIndex[lastHandle := i] - {handle},
        indexToHandle[i := lastHandle] - {last},
        freeHandles + {handle})
    }

    /** The store after a write through the reference that `Get(handle)` returns. */
    function Set(handle: nat, x: T): PackedState<T>
      requires Valid() && IsValidHandle(handle)
    {
      this.(data := data[handleToIndex[handle] := x])
    }
  }

  /** A new or cleared store. */
  function Empty<T>(): PackedState<T> {
    PackedState([], map[], map[], {})
  }

  lemma EmptyIsValid<T>()
    ensures Empty<T>().Valid()
    ensures Empty<T>().Contents() == map[]
    ensures Empty<T>().NextHandle() == 0
  {
  }

  /** The handle the next insertion assigns is never live. */
  lemma NextHandleIsFresh<T>(s: PackedState<T>)
    requires s.Valid()
    ensures !s.IsValidHandle(s.NextHandle())
    ensures s.NextHandle() <= s.Size() + |s.freeHandles|
  {
    if s.freeHandles != {} {
      assert Least(s.freeHandles) in s.freeHandles;
    }
  }

  /** Adding appends the value at the last index, binds it to the handle that
      `NextHandle()` announced, keeps every other handle's value, and keeps the
      invariant. */
  lemma {:induction false} AddSpec<T>(s: PackedState<T>, x: T)
    requires s.Valid()
    ensures s.Add(x).Valid()
    ensures s.Add(x).Size() == s.Size() + 1
    ensures s.Add(x).data[s.Size()] == x
    ensures s.Add(x).handleToIndex[s.NextHandle()] == s.Size()
    ensures s.Add(x).freeHandles == s.freeHandles - {s.NextHandle()}
    ensures s.Add(x).Contents() == s.Contents()[s.NextHandle() := x]
  {
    AddKeepsValid(s, x);
    AddContents(s, x);
  }

  /** The contents half of `AddSpec`. */
  lemma {:induction false} AddContents<T>(s: PackedState<T>, x: T)
    requires s.Valid() && s.Add(x).Valid()
    ensures s.Add(x).Contents() == s.Contents()[s.NextHandle() := x]
  {
    var h := s.NextHandle();
    var t := s.Add(x);
    var after, expected := t.Contents(), s.Contents()[h := x];
    forall k | k in t.handleToIndex
      ensures after[k] == expected[k]
    {
      if k != h {
        assert t.handleToIndex[k] == s.handleToIndex[k];
      }
    }
    SameMaps(after, expected);
  }

  /** The invariant half of `AddSpec`. */
  lemma {:induction false} AddKeepsValid<T>(s: PackedState<T>, x: T)
    requires s.Valid()
    ensures s.Add(x).Valid()
  {
    var h, n := s.NextHandle(), |s.data|;
    var t := s.Add(x);
    NextHandleIsFresh(s);
    forall i | i in t.indexToHandle
      ensures t.indexToHandle[i] in t.handleToIndex && t.handleToIndex[t.indexToHandle[i]] == i
    {
      if i != n {
        assert s.indexToHandle[i] != h;
      }
    }
    if s.freeHandles != {} {
      assert h in s.freeHandles;
      assert s.freeHandles == (s.freeHandles - {h}) + {h};
      assert |t.freeHandles| == |s.freeHandles| - 1;
    }
    assert |t.data| + |t.freeHandles| == n + |s.freeHandles| + (if s.freeHandles == {} then 1 else 0);
    forall k: nat
      ensures k in t.handleToIndex || k in t.freeHandles <==> k < |t.data| + |t.freeHandles|
    {
      assert k in t.handleToIndex <==> k in s.handleToIndex || k == h;
      assert k in t.freeHandles <==> k in s.freeHandles && k != h;
      assert k in s.handleToIndex || k in s.freeHandles <==> k < n + |s.freeHandles|;
    }
  }

  /** After a removal the two maps are still inverse to each other, and every
      handle that stays live keeps its value. */
  lemma RemoveKeepsBinding<T>(s: PackedState<T>, handle: nat)
    requires s.Valid() && s.IsValidHandle(handle)
    ensures var t := s.Remove(handle);
      && (forall j :: j in t.indexToHandle ==>
            t.indexToHandle[j] in t.handleToIndex && t.handleToIndex[t.indexToHandle[j]] == j)
      && (forall k :: k in t.handleToIndex ==>
            k in s.handleToIndex && t.handleToIndex[k] in t.indexToHandle &&
            t.indexToHandle[t.handleToIndex[k]] == k && t.data[t.handleToIndex[k]] == s.data[s.handleToIndex[k]])
  {
    var t := s.Remove(handle);
    var i, last := s.handleToIndex[handle], |s.data| - 1;
    var lastHandle := s.indexToHandle[last];
    forall j | j in t.indexToHandle
      ensures t.indexToHandle[j] in t.handleToIndex && t.handleToIndex[t.indexToHandle[j]] == j
    {
      if j != i {
        assert s.indexToHandle[j] != handle && s.indexToHandle[j] != lastHandle;
      }
    }
    forall k | k in t.handleToIndex
      ensures k in s.handleToIndex && t.handleToIndex[k] in t.indexToHandle
      ensures t.indexToHandle[t.handleToIndex[k]] == k
      ensures t.data[t.handleToIndex[k]] == s.data[s.handleToIndex[k]]
    {
      if k != lastHandle {
        assert s.handleToIndex[k] != i && s.handleToIndex[k] != last;
      }
    }
  }

  /** After a removal the live and the free handles are still every handle
      issued so far. */
  lemma RemoveKeepsIssued<T>(s: PackedState<T>, handle: nat)
    requires s.Valid() && s.IsValidHandle(handle)
    ensures var t := s.Remove(handle);
      forall k: nat :: k in t.handleToIndex || k in t.freeHandles <==> k < |t.data| + |t.freeHandles|
  {
    var t := s.Remove(handle);
    assert |t.freeHandles| == |s.freeHandles| + 1;
    assert |t.data| + |t.freeHandles| == |s.data| + |s.freeHandles|;
    forall k: nat
      ensures k in t.handleToIndex || k in t.freeHandles <==> k < |t.data| + |t.freeHandles|
    {
      assert k in t.handleToIndex <==> k in s.handleToIndex && k != handle;
      assert k in t.freeHandles <==> k in s.freeHandles || k == handle;
      assert k in s.handleToIndex || k in s.freeHandles <==> k < |s.data| + |s.freeHandles|;
    }
  }

  /** Removing a live handle shrinks the store by one, makes the handle invalid
      and free, keeps the value of every other live handle, and keeps the
      invariant. */
  lemma {:induction false} RemoveSpec<T>(s: PackedState<T>, handle: nat)
    requires s.Valid() && s.IsValidHandle(handle)
    ensures s.Remove(handle).Valid()
    ensures s.Remove(handle).Size() == s.Size() - 1
    ensures !s.Remove(handle).IsValidHandle(handle)
    ensures s.Remove(handle).freeHandles == s.freeHandles + {handle}
    ensures s.Remove(handle).Contents() == s.Contents() - {handle}
  {
    RemoveKeepsValid(s, handle);
    RemoveContents(s, handle);
  }

  /** The invariant half of `RemoveSpec`. */
  lemma {:induction false} RemoveKeepsValid<T>(s: PackedState<T>, handle: nat)
    requires s.Valid() && s.IsValidHandle(handle)
    ensures s.Remove(handle).Valid()
  {
    var t := s.Remove(handle);
    RemoveKeepsBinding(s, handle);
    RemoveKeepsIssued(s, handle);
    assert |t.data| == |s.data| - 1;
    forall j: nat
      ensures j in t.indexToHandle <==> j < |t.data|
    {
      assert j in s.indexToHandle <==> j < |s.data|;
    }
    forall h | h in t.freeHandles
      ensures h !in t.handleToIndex
    {
      if h != handle {
        assert h in s.freeHandles;
      }
    }
  }

  /** The contents half of `RemoveSpec`. */
  lemma {:induction false} RemoveContents<T>(s: PackedState<T>, handle: nat)
    requires s.Valid() && s.IsValidHandle(handle) && s.Remove(handle).Valid()
    ensures s.Remove(handle).Contents() == s.Contents() - {handle}
  {
    var t := s.Remove(handle);
    var after, expected := t.Contents(), s.Contents() - {handle};
    RemoveKeepsBinding(s, handle);
    assert s.indexToHandle[|s.data| - 1] in s.handleToIndex;
    assert t.handleToIndex.Keys == s.handleToIndex.Keys - {handle};
    forall k | k in t.handleToIndex
      ensures after[k] == expected[k]
    {
    }
    SameMaps(after, expected);
  }

  /** Two maps that are inverse to each other have as many keys. */
  lemma {:induction false} InverseMapsCard(m: map<nat, nat>, inv: map<nat, nat>)
    requires forall k :: k in m ==> m[k] in inv && inv[m[k]] == k
    requires forall j :: j in inv ==> inv[j] in m && m[inv[j]] == j
    ensures |m.Keys| == |inv.Keys|
    decreases |m.Keys|
  {
    if m.Keys != {} {
      var k :| k in m;
      var j := m[k];
      InverseMapsCard(m - {k}, inv - {j});
      assert (m - {k}).Keys == m.Keys - {k};
      assert (inv - {j}).Keys == inv.Keys - {j};
    }
  }

  /** A map whose keys are exactly `0 .. n - 1` has `n` keys. */
  lemma {:induction false} DenseKeysCard(m: map<nat, nat>, n: nat)
    requires forall i: nat :: i in m <==> i < n
    ensures |m.Keys| == n
  {
    if n > 0 {
      DenseKeysCard(m - {n - 1}, n - 1);
      assert (m - {n - 1}).Keys == m.Keys - {n - 1};
    }
  }

  /** A store of size `n` holds exactly `n` live handles. */
  lemma LiveHandlesCount<T>(s: PackedState<T>)
    ensures s.Valid() ==> |s.Contents().Keys| == s.Size()
  {
    if s.Valid() {
      InverseMapsCard(s.handleToIndex, s.indexToHandle);
      DenseKeysCard(s.indexToHandle, |s.data|);
      assert s.Contents().Keys == s.handleToIndex.Keys;
    }
  }

  /** Swap-remove: the element that sat at the last index now sits where the
      removed element was, under its old handle. */
  lemma RemoveMovesLast<T>(s: PackedState<T>, handle: nat)
    requires s.Valid() && s.IsValidHandle(handle)
    requires s.handleToIndex[handle] != s.Size() - 1
    ensures var lastHandle := s.indexToHandle[s.Size() - 1];
      && s.Remove(handle).IsValidHandle(lastHandle)
      && s.Remove(handle).handleToIndex[lastHandle] == s.handleToIndex[handle]
      && s.Remove(handle).indexToHandle[s.handleToIndex[handle]] == lastHandle
      && s.Remove(handle).data[s.handleToIndex[handle]] == s.data[s.Size() - 1]
  {
    var lastHandle := s.indexToHandle[s.Size() - 1];
    assert lastHandle != handle;
  }

  /** Removing the element that already sits at the last index just drops the
      last slot and the removed handle's two map entries. */
  lemma RemoveAtLastIndex<T>(s: PackedState<T>, handle: nat)
    requires s.Valid() && s.IsValidHandle(handle)
    requires s.handleToIndex[handle] == s.Size() - 1
    ensures s.Remove(handle).data == s.data[..s.Size() - 1]
    ensures s.Remove(handle).handleToIndex == s.handleToIndex - {handle}
    ensures s.Remove(handle).indexToHandle == s.indexToHandle - {s.Size() - 1}
  {
    assert s.indexToHandle[s.Size() - 1] == handle;
  }

  /** Writing through a live handle's reference changes that handle's value only. */
  lemma SetSpec<T>(s: PackedState<T>, handle: nat, x: T)
    requires s.Valid() && s.IsValidHandle(handle)
    ensures s.Set(handle, x).Valid()
    ensures s.Set(handle, x).handleToIndex == s.handleToIndex
    ensures s.Set(handle, x).freeHandles == s.freeHandles
    ensures s.Set(handle, x).NextHandle() == s.NextHandle()
    ensures s.Set(handle, x).Contents() == s.Contents()[handle := x]
  {
    var t := s.Set(handle, x);
    forall k | k in s.handleToIndex
      ensures t.data[t.handleToIndex[k]] == (if k == handle then x else s.data[s.handleToIndex[k]])
    {
      if k != handle {
        assert s.handleToIndex[k] != s.handleToIndex[handle];
      }
    }
    assert t.Contents() == s.Contents()[handle := x];
  }

  /** The store as the source has it. */
  class PackedArray<T> {
    var data: seq<T>
    var handleToIndex: map<nat, nat>
    var indexToHandle: map<nat, nat>
    var freeHandles: set<nat>

    function State(): PackedState<T>
      reads this
    {
      PackedState(data, handleToIndex, indexToHandle, freeHandles)
    }

    ghost predicate Valid()
      reads this
    {
      State().Valid()
    }

    constructor ()
      ensures Valid() && State() == Empty()
    {
      data, handleToIndex, indexToHandle, freeHandles := [], map[], map[], {};
      new;
      EmptyIsValid<T>();
    }

    /** `Add(object)`; `EmplaceBack(args...)` is the same insertion of the
        object built from `args`. */
    method Add(x: T) returns (handle: nat)
      requires Valid()
      modifies this
      ensures Valid()
      ensures handle == old(GetNextHandle()) && !old(IsValidHandle(handle))
      ensures State() == old(State()).Add(x)
      ensures Size() == old(Size()) + 1 && data[Size() - 1] == x
      ensures State().Contents() == old(State().Contents())[handle := x]
    {
      handle := AllocateHandleForIndex(|data|);
      data := data + [x];
      AddSpec(old(State()), x);
      NextHandleIsFresh(old(State()));
    }

    /** Binds the next handle to `index`. When no handle is free, the handle is
        the current size unless `index` exceeds it; every caller passes the
        current size, so that second arm is never taken. */
    method AllocateHandleForIndex(index: nat) returns (handle: nat)
      modifies this
      ensures data == old(data)
      ensures old(freeHandles) == {} ==> handle == (if index <= |data| then |data| else index)
      ensures old(freeHandles) != {} ==> handle == Least(old(freeHandles))
      ensures index == |data| ==> handle == old(State().NextHandle())
      ensures handleToIndex == old(handleToIndex)[handle := index]
      ensures indexToHandle == old(indexToHandle)[index := handle]
      ensures freeHandles == old(freeHandles) - {handle}
    {
      if freeHandles == {} {
        handle := if index <= |data| then |data| else index;
      } else {
        handle := Least(freeHandles);
        freeHandles := freeHandles - {handle};
      }
      handleToIndex := handleToIndex[handle := index];
      indexToHandle := indexToHandle[index := handle];
    }

    method Remove(handle: nat)
      requires Valid() && IsValidHandle(handle)
      modifies this
      ensures Valid()
      ensures State() == old(State()).Remove(handle)
      ensures Size() == old(Size()) - 1
      ensures !IsValidHandle(handle) && handle in freeHandles
      ensures State().Contents() == old(State().Contents()) - {handle}
    {
      var removeIndex := handleToIndex[handle];
      var removeHandle := indexToHandle[removeIndex];
      var lastIndex := |data| - 1;
      var lastHandle := indexToHandle[lastIndex];

      data := data[removeIndex := data[lastIndex]];
      data := data[..lastIndex];

      indexToHandle := indexToHandle[removeIndex := lastHandle];
      indexToHandle := indexToHandle - {lastIndex};

      handleToIndex := handleToIndex[lastHandle := removeIndex];
      handleToIndex := handleToIndex - {removeHandle};

      freeHandles := freeHandles + {removeHandle};
      RemoveSpec(old(State()), handle);
    }

    method RemoveByIndex(index: nat)
      requires Valid() && IsValidIndex(index)
      modifies this
      ensures Valid()
      ensures State() == old(State()).Remove(old(indexToHandle[index]))
      ensures !IsValidHandle(old(indexToHandle[index]))
      ensures State().Contents() == old(State().Contents()) - {old(indexToHandle[index])}
    {
      var handle := indexToHandle[index];
      Remove(handle);
    }

    /** Write through the reference `Get(handle)` / `operator[]` returns. */
    method Set(handle: nat, x: T)
      requires Valid() && IsValidHandle(handle)
      modifies this
      ensures Valid()
      ensures State() == old(State()).Set(handle, x)
      ensures State().Contents() == old(State().Contents())[handle := x]
    {
      data := data[handleToIndex[handle] := x];
      SetSpec(old(State()), handle, x);
    }

    function Get(handle: nat): (x: T)
      reads this
      requires Valid() && IsValidHandle(handle)
      ensures handle in State().Contents() && x == State().Contents()[handle]
    {
      data[handleToIndex[handle]]
    }

    function GetByIndex(index: nat): (x: T)
      reads this
      requires Valid() && IsValidIndex(index)
      ensures x == State().Contents()[indexToHandle[index]]
    {
      data[index]
    }

    /** A handle is valid exactly when it has been issued and not released since. */
    predicate IsValidHandle(handle: nat)
      reads this
      ensures Valid() ==>
        (IsValidHandle(handle) <==> handle < Size() + |freeHandles| && handle !in freeHandles)
    {
      handle in handleToIndex
    }

    predicate IsValidIndex(index: nat)
      reads this
      ensures Valid() ==> (IsValidIndex(index) <==> index in indexToHandle)
    {
      index < |data|
    }

    function GetHandleFromIndex(index: nat): (handle: nat)
      reads this
      requires Valid() && IsValidIndex(index)
      ensures IsValidHandle(handle) && handleToIndex[handle] == index
    {
      indexToHandle[index]
    }

    function Size(): (n: nat)
      reads this
      ensures Valid() ==> forall i: nat :: i < n <==> i in indexToHandle
      ensures Valid() ==> n == |State().Contents().Keys|
    {
      LiveHandlesCount(State());
      |data|
    }

    method Clear()
      requires Valid()
      modifies this
      ensures Valid() && State() == Empty()
      ensures forall h :: !IsValidHandle(h)
      ensures GetNextHandle() == 0
    {
      data := [];
      handleToIndex := map[];
      indexToHandle := map[];
      freeHandles := {};
      EmptyIsValid<T>();
    }

    /** The handle the next `Add` will return. */
    function GetNextHandle(): (handle: nat)
      reads this
      requires Valid()
      ensures !IsValidHandle(handle)
      ensures freeHandles == {} ==> handle == Size()
      ensures freeHandles != {} ==> handle in freeHandles && forall k :: k in freeHandles ==> handle <= k
    {
      NextHandleIsFresh(State());
      State().NextHandle()
    }

    method RemoveChecked(handle: nat) returns (removed: bool)
      requires Valid()
      modifies this
      ensures Valid()
      ensures removed == old(IsValidHandle(handle))
      ensures removed ==> State() == old(State()).Remove(handle)
      ensures !removed ==> State() == old(State())
    {
      if !IsValidHandle(handle) {
        return false;
      }
      Remove(handle);
      return true;
    }

    method RemoveByIndexChecked(index: nat) returns (removed: bool)
      requires Valid()
      modifies this
      ensures Valid()
      ensures removed == old(IsValidIndex(index))
      ensures removed ==> State() == old(State()).Remove(old(indexToHandle[index]))
      ensures !removed ==> State() == old(State())
    {
      if !IsValidIndex(index) {
        return false;
      }
      RemoveByIndex(index);
      return true;
    }

    function GetChecked(handle: nat): (r: Option<T>)
      reads this
      requires Valid()
      ensures r.None? <==> handle !in State().Contents()
      ensures r.Some? ==> r.value == State().Contents()[handle]
    {
      if !IsValidHandle(handle) then None else Some(Get(handle))
    }

    function GetByIndexChecked(index: nat): (r: Option<T>)
      reads this
      requires Valid()
      ensures r.None? <==> index !in indexToHandle
      ensures r.Some? ==> r.value == State().Contents()[indexToHandle[index]]
    {
      if !IsValidIndex(index) then None else Some(GetByIndex(index))
    }

    function GetHandleFromIndexChecked(index: nat): (r: Option<nat>)
      reads this
      requires Valid()
      ensures r.None? <==> index >= Size()
      ensures r.Some? ==> IsValidHandle(r.value) && handleToIndex[r.value] == index
    {
      if !IsValidIndex(index) then None else Some(GetHandleFromIndex(index))
    }
  }

  /** Three insertions into a new store, a removal from the middle and handle
      reuse: the handles issued and the answers of the queries along the way. */
  method RemoveAndReuseScenario()
    returns (id1: nat, id2: nat, id3: nat, id4: nat, sizeAfterRemove: nat, queriesHold: bool)
    ensures id1 == 0 && id2 == 1 && id3 == 2
    ensures sizeAfterRemove == 2
    ensures id4 == id2
    ensures queriesHold
  {
    var data := new PackedArray<int>();
    var filled;
    id1, id2, id3, filled := FillScenario(data);
    var reused;
    sizeAfterRemove, id4, reused := RemoveMiddleScenario(data);
    queriesHold := filled && reused;
  }

  /** The first part: three insertions into an empty store. */
  method FillScenario(data: PackedArray<int>) returns (id1: nat, id2: nat, id3: nat, queriesHold: bool)
    requires data.Valid() && data.State() == Empty()
    modifies data
    ensures data.Valid()
    ensures data.State() == Empty<int>().Add(3).Add(4).Add(10)
    ensures id1 == 0 && id2 == 1 && id3 == 2
    ensures queriesHold
  {
    ThreeInsertions();
    id1 := data.Add(3);
    id2 := data.Add(4);
    id3 := data.Add(10);
    queriesHold := data.Size() == 3 && data.Get(id1) == 3 && data.Get(id2) == 4 && data.Get(id3) == 10;
  }

  /** The store after the first part, written out. */
  lemma ThreeInsertions()
    ensures Empty<int>().Add(3).Add(4).Add(10)
         == PackedState([3, 4, 10], map[0 := 0, 1 := 1, 2 := 2], map[0 := 0, 1 := 1, 2 := 2], {})
  {
    var s1 := Empty<int>().Add(3);
    assert s1 == PackedState([3], map[0 := 0], map[0 := 0], {});
    var s2 := s1.Add(4);
    assert s2 == PackedState([3, 4], map[0 := 0, 1 := 1], map[0 := 0, 1 := 1], {});
    assert s2.Add(10).data == [3, 4, 10];
  }

  /** Removing the middle of three: the last element moves to index 1. */
  lemma MiddleRemoval(s: PackedState<int>)
    requires s.Valid()
    requires s == PackedState([3, 4, 10], map[0 := 0, 1 := 1, 2 := 2], map[0 := 0, 1 := 1, 2 := 2], {})
    ensures s.Remove(1) == PackedState([3, 10], map[0 := 0, 2 := 1], map[0 := 0, 1 := 2], {1})
  {
    assert s.Remove(1).data == [3, 10];
    assert s.Remove(1).handleToIndex == map[0 := 0, 2 := 1];
    assert s.Remove(1).indexToHandle == map[0 := 0, 1 := 2];
  }

  /** The second part: the middle element is removed, the last one takes its
      index, and the next insertion reuses the freed handle. */
  method RemoveMiddleScenario(data: PackedArray<int>) returns (sizeAfterRemove: nat, id4: nat, queriesHold: bool)
    requires data.Valid()
    requires data.State() == Empty<int>().Add(3).Add(4).Add(10)
    modifies data
    ensures sizeAfterRemove == 2 && id4 == 1
    ensures queriesHold
  {
    ThreeInsertions();
    MiddleRemoval(data.State());
    var removed := data.RemoveChecked(1);
    var ok := removed && data.IsValidHandle(data.GetHandleFromIndex(1));
    sizeAfterRemove := data.Size();
    ok := ok && data.Get(0) == 3 && data.Get(2) == 10 && data.GetChecked(1).None?;
    id4 := data.Add(25);
    ok := ok && data.Get(0) == 3 && data.Get(2) == 10 && data.Get(id4) == 25;
    queriesHold := ok;
  }

  /** Clearing a store invalidates its handles, and numbering starts again at
      0 afterwards. */
  method ClearScenario(data: PackedArray<int>) returns (id5: nat, queriesHold: bool)
    requires data.Valid()
    modifies data
    ensures id5 == 0
    ensures queriesHold
  {
    var id1 := data.GetNextHandle();
    data.Clear();
    var ok := data.GetChecked(id1).None?;
    id5 := data.Add(8);
    ok := ok && data.Get(id5) == 8;
    var removed := data.RemoveChecked(id5);
    ok := ok && removed && data.GetChecked(id5).None?;
    queriesHold := ok;
  }
}
