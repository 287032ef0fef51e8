/** The typed object store (engine/ecs/include/ObjectManager.h): every
    operation forwards to the `PackedArray` it owns, so each one is proved to
    have exactly the effect of the store operation it calls. */
module ObjectManagers {
  import opened Wrappers
  import opened PackedArrays

  class ObjectManager<T> {
    /** `m_Objects`, owned by value: the manager never replaces it. */
    const objects: PackedArray<T>

    function State(): PackedState<T>
      reads objects
    {
      objects.State()
    }

    ghost predicate Valid()
      reads objects
    {
      objects.Valid()
    }

    /** What the manager holds, handle by handle. */
    ghost function Contents(): map<nat, T>
      reads objects
      requires Valid()
    {
      State().Contents()
    }

    constructor ()
      ensures Valid() && State() == Empty() && Contents() == map[]
      ensures fresh(objects)
    {
      objects := new PackedArray<T>();
      new;
      EmptyIsValid<T>();
    }

    /** `AddObject(object)`; `CreateObject(args...)` is the same insertion of
        the object built from `args`. The handle returned is the one
        `GetNextHandle()` announced. */
    method AddObject(x: T) returns (handle: nat)
      requires Valid()
      modifies objects
      ensures Valid()
      ensures handle == old(GetNextHandle()) && !old(GetIsValidHandle(handle))
      ensures State() == old(State()).Add(x)
      ensures Contents() == old(Contents())[handle := x]
      ensures Size() == old(Size()) + 1
    {
      handle := objects.Add(x);
    }

    method RemoveObject(handle: nat)
      requires Valid() && GetIsValidHandle(handle)
      modifies objects
      ensures Valid()
      ensures State() == old(State()).Remove(handle)
      ensures !GetIsValidHandle(handle)
      ensures Contents() == old(Contents()) - {handle}
      ensures Size() == old(Size()) - 1
    {
      objects.Remove(handle);
    }

    method RemoveObjectByIndex(index: nat)
      requires Valid() && index < Size()
      modifies objects
      ensures Valid()
      ensures State() == old(State()).Remove(old(GetHandleFromIndex(index)))
      ensures Contents() == old(Contents()) - {old(GetHandleFromIndex(index))}
    {
      objects.RemoveByIndex(index);
    }

    /** A write through the reference `GetObject(handle)` returns. */
    method SetObject(handle: nat, x: T)
      requires Valid() && GetIsValidHandle(handle)
      modifies objects
      ensures Valid()
      ensures State() == old(State()).Set(handle, x)
      ensures Contents() == old(Contents())[handle := x]
    {
      objects.Set(handle, x);
    }

    function GetObject(handle: nat): (x: T)
      reads objects
      requires Valid() && GetIsValidHandle(handle)
      ensures handle in Contents() && x == Contents()[handle]
    {
      objects.Get(handle)
    }

    function GetObjectByIndex(index: nat): (x: T)
      reads objects
      requires Valid() && index < Size()
      ensures GetHandleFromIndex(index) in Contents() && x == Contents()[GetHandleFromIndex(index)]
    {
      objects.GetByIndex(index)
    }

    function GetHandleFromIndex(index: nat): (handle: nat)
      reads objects
      requires Valid() && index < Size()
      ensures GetIsValidHandle(handle) && State().handleToIndex[handle] == index
    {
      objects.GetHandleFromIndex(index)
    }

    predicate GetIsValidHandle(handle: nat)
      reads objects
      ensures Valid() ==> (GetIsValidHandle(handle) <==> handle in Contents())
    {
      objects.IsValidHandle(handle)
    }

    method Clear()
      requires Valid()
      modifies objects
      ensures Valid() && State() == Empty()
      ensures Contents() == map[]
      ensures GetNextHandle() == 0
    {
      objects.Clear();
      EmptyIsValid<T>();
    }

    /** The number of live objects: one per live handle. */
    function Size(): (n: nat)
      reads objects
      ensures Valid() ==> n == |Contents().Keys|
    {
      LiveHandlesCount(State());
      objects.Size()
    }

    function GetNextHandle(): (handle: nat)
      reads objects
      requires Valid()
      ensures handle == State().NextHandle() && !GetIsValidHandle(handle)
    {
      objects.GetNextHandle()
    }

    method RemoveObjectChecked(handle: nat) returns (removed: bool)
      requires Valid()
      modifies objects
      ensures Valid()
      ensures removed == old(GetIsValidHandle(handle))
      ensures removed ==> State() == old(State()).Remove(handle)
      ensures !removed ==> State() == old(State())
      ensures Contents() == old(Contents()) - {handle}
    {
      removed := objects.RemoveChecked(handle);
      if removed {
        RemoveSpec(old(State()), handle);
      }
    }

    method RemoveObjectByIndexChecked(index: nat) returns (removed: bool)
      requires Valid()
      modifies objects
      ensures Valid()
      ensures removed == (index < old(Size()))
      ensures removed ==> State() == old(State()).Remove(old(GetHandleFromIndex(index)))
      ensures !removed ==> State() == old(State())
    {
      removed := objects.RemoveByIndexChecked(index);
    }

    function GetObjectChecked(handle: nat): (r: Option<T>)
      reads objects
      requires Valid()
      ensures r.None? <==> !GetIsValidHandle(handle)
      ensures r.Some? ==> r.value == Contents()[handle]
    {
      objects.GetChecked(handle)
    }

    function GetObjectByIndexChecked(index: nat): (r: Option<T>)
      reads objects
      requires Valid()
      ensures r.None? <==> index >= Size()
      ensures r.Some? ==> r.value == GetObjectByIndex(index)
    {
      objects.GetByIndexChecked(index)
    }

    function GetHandleFromIndexChecked(index: nat): (r: Option<nat>)
      reads objects
      requires Valid()
      ensures r.None? <==> index >= Size()
      ensures r.Some? ==> r.value == GetHandleFromIndex(index)
    {
      objects.GetHandleFromIndexChecked(index)
    }
  }
}
