/** The entity registry (Engine/ECS/Source/EntityManager.cpp): an object store
    of entity records in which every record carries the handle it is stored
    under. */
module EntityManagers {
  import opened Wrappers
  import opened PackedArrays
  import opened ObjectManagers
  import opened Entities

  class EntityManager {
    /** `m_Entities`, owned by value. */
    const entities: ObjectManager<Entity>

    /** The live entities, by handle. */
    ghost function Table(): map<EntityHandle, Entity>
      reads entities.objects
      requires entities.Valid()
    {
      entities.Contents()
    }

    /** The store is well formed and every live handle stores the entity whose
        own handle it is. */
    ghost predicate Valid()
      reads entities.objects
    {
      && entities.Valid()
      && forall h :: h in Table() ==> Table()[h].handle == h
    }

    constructor ()
      ensures Valid() && Table() == map[]
      ensures fresh(entities) && fresh(entities.objects)
    {
      entities := new ObjectManager<Entity>();
    }

    /** A step that does not write the store leaves the registry well formed
        and its entities as they were. */
    twostate lemma Untouched()
      requires unchanged(entities.objects)
      ensures old(Valid()) ==> Valid() && Table() == old(Table())
    {
    }

    /** The new entity is stored under the handle it was built with, which
        was not live before; nothing else changes. */
    method CreateEntity() returns (handle: EntityHandle)
      requires Valid()
      modifies entities.objects
      ensures Valid()
      ensures handle !in old(Table())
      ensures handle == old(entities.GetNextHandle())
      ensures Table() == old(Table())[handle := NewEntity(handle)]
      ensures GetEntity(handle).handle == handle && GetEntity(handle).components == map[]
    {
      var e := NewEntity(entities.GetNextHandle());
      handle := entities.AddObject(e);
      forall h | h in Table()
        ensures Table()[h].handle == h
      {
        if h != handle {
          assert h in old(Table());
        }
      }
    }

    /** Only `handle` disappears; every other entity keeps its record. */
    method RemoveEntity(handle: EntityHandle)
      requires Valid() && GetIsValidEntityHandle(handle)
      modifies entities.objects
      ensures Valid()
      ensures !GetIsValidEntityHandle(handle)
      ensures Table() == old(Table()) - {handle}
    {
      entities.RemoveObject(handle);
    }

    /** A write through the reference `GetEntity(handle)` returns. The record
        keeps its handle: an entity's handle has no setter. */
    method SetEntity(handle: EntityHandle, e: Entity)
      requires Valid() && GetIsValidEntityHandle(handle) && e.handle == handle
      modifies entities.objects
      ensures Valid()
      ensures Table() == old(Table())[handle := e]
    {
      entities.SetObject(handle, e);
    }

    function GetEntity(handle: EntityHandle): (e: Entity)
      reads entities.objects
      requires Valid() && GetIsValidEntityHandle(handle)
      ensures handle in Table() && e == Table()[handle]
      ensures e.handle == handle
    {
      entities.GetObject(handle)
    }

    method RemoveAllEntities()
      requires Valid()
      modifies entities.objects
      ensures Valid() && Table() == map[]
      ensures forall h :: !GetIsValidEntityHandle(h)
    {
      entities.Clear();
    }

    predicate GetIsValidEntityHandle(handle: EntityHandle)
      reads entities.objects
      ensures entities.Valid() ==> (GetIsValidEntityHandle(handle) <==> handle in Table())
    {
      entities.GetIsValidHandle(handle)
    }

    function GetEntityChecked(handle: EntityHandle): (r: Option<Entity>)
      reads entities.objects
      requires Valid()
      ensures r.None? <==> handle !in Table()
      ensures r.Some? ==> r.value == Table()[handle] && r.value.handle == handle
    {
      entities.GetObjectChecked(handle)
    }

    method RemoveEntityChecked(handle: EntityHandle) returns (removed: bool)
      requires Valid()
      modifies entities.objects
      ensures Valid()
      ensures removed == (handle in old(Table()))
      ensures Table() == old(Table()) - {handle}
      ensures !removed ==> entities.State() == old(entities.State())
    {
      ghost var before := Table();
      removed := entities.RemoveObjectChecked(handle);
      assert Table() == before - {handle};
      forall h | h in Table()
        ensures Table()[h].handle == h
      {
        assert h in before;
      }
    }
  }
}
