/** The facade (Engine/ECS/Include/Laniakea/ECS/ECS.h and
    Engine/ECS/Source/ECS.cpp): one entity registry, one component registry
    and one system registry, and the operations that keep the three in step.

    The facade's invariant `Valid` adds to the registries' own invariants the
    two that tie them together: the components recorded on the live entities
    are live in their stores (`Consistent`), and every system lists only live
    entities that satisfy its signature (`MembershipSound`). Each operation is
    specified by what it does to the three abstract states `Table`, `Stores`
    and `Views`. */
module Ecs {
  import opened Wrappers
  import opened PackedArrays
  import opened ObjectManagers
  import opened Entities
  import opened EntityManagers
  import opened ComponentManagers
  import opened Systems
  import opened SystemManagers
  import opened EcsInvariants

  /** `std::set{GetComponentType<Ts>()...}`: the signature made of the listed types. */
  function GetComponentsSignature(types: seq<ComponentType>): (signature: Signature)
    ensures forall t :: t in signature <==> t in types
    decreases |types|
  {
    if types == [] then {} else {types[0]} + GetComponentsSignature(types[1..])
  }

  class ECS<C> {
    /** `m_ComponentManager`, `m_EntityManager` and `m_SystemManager`, owned by value. */
    const componentManager: ComponentManager<C>
    const entityManager: EntityManager
    const systemManager: SystemManager

    ghost function Table(): map<EntityHandle, Entity>
      reads entityManager.entities.objects
      requires entityManager.entities.Valid()
    {
      entityManager.Table()
    }

    ghost function Stores(): (stores: map<ComponentType, PackedState<C>>)
      reads componentManager, componentManager.Repr
      requires componentManager.Owned()
      ensures stores.Keys == componentManager.components.Keys
    {
      componentManager.Stores()
    }

    ghost function Views(): (views: map<SystemType, SystemView>)
      reads systemManager, systemManager.Repr
      requires systemManager.Owned()
      ensures views.Keys == systemManager.systems.Keys
    {
      systemManager.Views()
    }

    /** The three registries own disjoint objects. */
    ghost predicate Separate()
      reads componentManager, systemManager
    {
      && entityManager.entities.objects !in componentManager.Repr
      && entityManager.entities.objects !in systemManager.Repr
      && componentManager.Repr !! systemManager.Repr
      && componentManager !in systemManager.Repr
      && systemManager !in componentManager.Repr
    }

    /** Each registry is well formed on its own. */
    ghost predicate Wellformed()
      reads entityManager.entities.objects, componentManager, componentManager.Repr,
            systemManager, systemManager.Repr
    {
      && entityManager.Valid() && componentManager.Valid() && systemManager.Valid()
      && Separate()
    }

    /** The registries agree with each other. */
    ghost predicate Valid()
      reads entityManager.entities.objects, componentManager, componentManager.Repr,
            systemManager, systemManager.Repr
    {
      && Wellformed()
      && Linked(Table(), Stores(), Views())
    }

    constructor ()
      ensures Valid()
      ensures Table() == map[] && Stores() == map[] && Views() == map[]
      ensures fresh(entityManager.entities.objects) && fresh(componentManager) && fresh(componentManager.Repr)
      ensures fresh(systemManager) && fresh(systemManager.Repr)
    {
      componentManager := new ComponentManager<C>();
      entityManager := new EntityManager();
      systemManager := new SystemManager();
    }

    /** A new entity with no components, stored under a handle that was not live. */
    method CreateEntity() returns (handle: EntityHandle)
      requires Valid()
      modifies entityManager.entities.objects
      ensures Valid()
      ensures handle !in old(Table())
      ensures Table() == old(Table())[handle := NewEntity(handle)]
      ensures Stores() == old(Stores()) && Views() == old(Views())
    {
      handle := entityManager.CreateEntity();
      componentManager.Untouched();
      systemManager.Untouched();
      LinkedAfterCreate(old(Table()), old(Stores()), old(Views()), handle);
    }

    /** Deletes the entity's components, drops it from every system, then
        deletes the entity. */
    method RemoveEntity(handle: EntityHandle)
      requires Valid() && GetIsValidEntityHandle(handle)
      modifies entityManager.entities.objects, componentManager.Repr, systemManager.Repr
      ensures Valid()
      ensures Table() == old(Table()) - {handle}
      ensures Stores() == PurgeEntity(old(Stores()), old(Table()[handle]))
      ensures Views() == RemovedAll(old(Views()), handle)
    {
      RecordedAreRegistered(Table(), Stores(), Views(), handle);
      var e := entityManager.GetEntity(handle);
      assert e == old(Table()[handle]);
      componentManager.OnEntityRemoved(e);
      label Purged:
      systemManager.Untouched();
      systemManager.OnEntityRemoved(e);
      label Told:
      entityManager.Untouched();
      entityManager.RemoveEntity(handle);
      componentManager.Untouched@Purged();
      systemManager.Untouched@Told();
      LinkedAfterRemoveEntity(old(Table()), old(Stores()), old(Views()), handle);
    }

    predicate GetIsValidEntityHandle(handle: EntityHandle)
      reads entityManager.entities.objects
      ensures entityManager.entities.Valid() ==> (GetIsValidEntityHandle(handle) <==> handle in Table())
    {
      entityManager.GetIsValidEntityHandle(handle)
    }

    function GetEntity(handle: EntityHandle): (e: Entity)
      reads entityManager.entities.objects, componentManager, componentManager.Repr,
            systemManager, systemManager.Repr
      requires Valid() && GetIsValidEntityHandle(handle)
      ensures handle in Table() && e == Table()[handle] && e.handle == handle
    {
      entityManager.GetEntity(handle)
    }

    function GetEntityChecked(handle: EntityHandle): (r: Option<Entity>)
      reads entityManager.entities.objects, componentManager, componentManager.Repr,
            systemManager, systemManager.Repr
      requires Valid()
      ensures r.None? <==> handle !in Table()
      ensures r.Some? ==> r.value == Table()[handle] && r.value.handle == handle
    {
      entityManager.GetEntityChecked(handle)
    }

    /** Removes the entity if its handle is live; otherwise nothing changes. */
    method RemoveEntityChecked(handle: EntityHandle) returns (removed: bool)
      requires Valid()
      modifies entityManager.entities.objects, componentManager.Repr, systemManager.Repr
      ensures Valid()
      ensures removed == (handle in old(Table()))
      ensures Table() == old(Table()) - {handle}
      ensures removed ==> Stores() == PurgeEntity(old(Stores()), old(Table()[handle]))
      ensures removed ==> Views() == RemovedAll(old(Views()), handle)
      ensures !removed ==> Stores() == old(Stores()) && Views() == old(Views())
    {
      if !GetIsValidEntityHandle(handle) {
        return false;
      }
      RemoveEntity(handle);
      return true;
    }

    /** Whether the live entity has a component of the type. */
    predicate GetEntityHasComponent(handle: EntityHandle, componentType: ComponentType)
      reads entityManager.entities.objects, componentManager, componentManager.Repr,
            systemManager, systemManager.Repr
      requires Valid() && GetIsValidEntityHandle(handle)
      ensures GetEntityHasComponent(handle, componentType) ==> componentType in Stores()
      ensures GetEntityHasComponent(handle, componentType) <==> componentType in Table()[handle].components
    {
      var e := GetEntity(handle);
      if e.GetHasComponent(componentType) then
        RecordedIsLive(Table(), Stores(), Views(), handle, componentType);
        true
      else
        false
    }

    /** False for a dead handle or an unregistered type, otherwise the same
        answer as `GetEntityHasComponent`. */
    predicate GetEntityHasComponentChecked(handle: EntityHandle, componentType: ComponentType)
      reads entityManager.entities.objects, componentManager, componentManager.Repr,
            systemManager, systemManager.Repr
      requires Valid()
      ensures GetEntityHasComponentChecked(handle, componentType) <==>
        handle in Table() && componentType in Table()[handle].components
    {
      if !GetIsValidEntityHandle(handle) then false
      else if !GetIsComponentRegistered(componentType) then
        NotRecordedUnlessRegistered(handle, componentType);
        false
      else GetEntityHasComponent(handle, componentType)
    }

    /** No live entity records a component of an unregistered type. */
    lemma NotRecordedUnlessRegistered(handle: EntityHandle, componentType: ComponentType)
      requires Valid() && handle in Table() && componentType !in Stores()
      ensures componentType !in Table()[handle].components
    {
      if componentType in Table()[handle].components {
        RecordedIsLive(Table(), Stores(), Views(), handle, componentType);
      }
    }

    predicate GetIsComponentRegistered(componentType: ComponentType)
      reads componentManager
      ensures GetIsComponentRegistered(componentType) <==> componentType in componentManager.components
    {
      componentManager.GetIsComponentRegistered(componentType)
    }

    /** Installs an empty store for the type. A type that was registered
        already loses its store, and the entities that recorded a component
        of it then name handles of the new store. */
    method RegisterComponent(componentType: ComponentType)
      requires Valid()
      modifies componentManager
      ensures Wellformed()
      ensures Table() == old(Table()) && Views() == old(Views())
      ensures Stores() == old(Stores())[componentType := Empty()]
      ensures (forall h :: h in Table() ==> componentType !in Table()[h].components) ==> Valid()
      ensures fresh(componentManager.Repr - old(componentManager.Repr))
    {
      componentManager.RegisterComponent(componentType);
      entityManager.Untouched();
      systemManager.Untouched();
      if forall h :: h in Table() ==> componentType !in Table()[h].components {
        LinkedAfterRegisterComponent(Table(), old(Stores()), Views(), componentType);
      }
    }

    /** Registers the type unless it already is; the invariant always holds
        afterwards, since no live entity records an unregistered type. */
    method RegisterComponentChecked(componentType: ComponentType) returns (registered: bool)
      requires Valid()
      modifies componentManager
      ensures Valid()
      ensures registered == (componentType !in old(Stores()))
      ensures Table() == old(Table()) && Views() == old(Views())
      ensures registered ==> Stores() == old(Stores())[componentType := Empty()]
      ensures !registered ==> Stores() == old(Stores())
      ensures fresh(componentManager.Repr - old(componentManager.Repr))
    {
      if GetIsComponentRegistered(componentType) {
        return false;
      }
      RegisterComponent(componentType);
      return true;
    }

    /** Stores the value, records its handle on the entity and tells every
        system the entity's new signature. An entity that already has the
        type keeps its old component; the new value is then recorded nowhere. */
    method AddComponent(handle: EntityHandle, componentType: ComponentType, x: C)
      requires Valid() && GetIsValidEntityHandle(handle) && GetIsComponentRegistered(componentType)
      modifies entityManager.entities.objects, componentManager.Repr, systemManager.Repr
      ensures Valid()
      ensures var e := old(Table()[handle]).AddComponent(ComponentInfo(componentType, old(Stores()[componentType].NextHandle())));
        && Table() == old(Table())[handle := e]
        && Stores() == old(Stores())[componentType := old(Stores()[componentType]).Add(x)]
        && Views() == SignatureChangedAll(old(Views()), handle, e.components.Keys)
    {
      var e := entityManager.GetEntity(handle);
      assert e == old(Table()[handle]);
      var updated := StoreComponent(e, componentType, x);
      Publish(handle, updated);
      LinkedAfterAddComponent(old(Table()), old(Stores()), old(Views()), handle, componentType, x);
    }

    /** Deletes the entity's component of the type and tells every system the
        entity's new signature. The entity must have a component of the type
        (`m_Components.at`, `m_Components.at(type)` in the registries); the
        handle it records is then live, so the unchecked removal applies. */
    method RemoveComponent(handle: EntityHandle, componentType: ComponentType)
      requires Valid() && GetIsValidEntityHandle(handle) && GetEntityHasComponent(handle, componentType)
      modifies entityManager.entities.objects, componentManager.Repr, systemManager.Repr
      ensures Valid()
      ensures var e := old(Table()[handle]).RemoveComponent(componentType);
        && Table() == old(Table())[handle := e]
        && Stores() == old(Stores())[componentType :=
             old(Stores()[componentType]).Remove(old(Table()[handle].components[componentType]))]
        && Views() == SignatureChangedAll(old(Views()), handle, e.components.Keys)
    {
      RecordedIsLive(Table(), Stores(), Views(), handle, componentType);
      var e := entityManager.GetEntity(handle);
      assert e == old(Table()[handle]);
      var updated := DropComponent(e, componentType);
      Publish(handle, updated);
      LinkedAfterRemoveComponent(old(Table()), old(Stores()), old(Views()), handle, componentType);
    }

    /** Adds the component unless the handle is dead, the type unregistered or
        the entity already has the type; on refusal nothing changes. */
    method AddComponentChecked(handle: EntityHandle, componentType: ComponentType, x: C) returns (added: bool)
      requires Valid()
      modifies entityManager.entities.objects, componentManager.Repr, systemManager.Repr
      ensures Valid()
      ensures added == (handle in old(Table()) && componentType in old(Stores()) &&
                        componentType !in old(Table()[handle].components))
      ensures added ==> var e := old(Table()[handle]).AddComponent(ComponentInfo(componentType, old(Stores()[componentType].NextHandle())));
        && Table() == old(Table())[handle := e]
        && Stores() == old(Stores())[componentType := old(Stores()[componentType]).Add(x)]
        && Views() == SignatureChangedAll(old(Views()), handle, e.components.Keys)
      ensures !added ==> Table() == old(Table()) && Stores() == old(Stores()) && Views() == old(Views())
    {
      if !GetIsValidEntityHandle(handle) {
        return false;
      }
      var e := entityManager.GetEntity(handle);
      assert e == old(Table()[handle]);
      var updated;
      added, updated := StoreComponentChecked(e, componentType, x);
      if !added {
        return false;
      }
      Publish(handle, updated);
      LinkedAfterAddComponent(old(Table()), old(Stores()), old(Views()), handle, componentType, x);
    }

    /** Removes the component unless the handle is dead or the entity has no
        component of the type; on refusal nothing changes. The registry also
        refuses an unregistered type or a dead component handle, but neither
        can occur on a live entity. */
    method RemoveComponentChecked(handle: EntityHandle, componentType: ComponentType) returns (removed: bool)
      requires Valid()
      modifies entityManager.entities.objects, componentManager.Repr, systemManager.Repr
      ensures Valid()
      ensures removed == (handle in old(Table()) && componentType in old(Table()[handle].components))
      ensures removed ==> var e := old(Table()[handle]).RemoveComponent(componentType);
        && Table() == old(Table())[handle := e]
        && Stores() == old(Stores())[componentType :=
             old(Stores()[componentType]).Remove(old(Table()[handle].components[componentType]))]
        && Views() == SignatureChangedAll(old(Views()), handle, e.components.Keys)
      ensures !removed ==> Table() == old(Table()) && Stores() == old(Stores()) && Views() == old(Views())
    {
      if !GetIsValidEntityHandle(handle) {
        return false;
      }
      var e := entityManager.GetEntity(handle);
      assert e == old(Table()[handle]);
      if componentType in e.components {
        RecordedIsLive(Table(), Stores(), Views(), handle, componentType);
      }
      var updated;
      removed, updated := DropComponentChecked(e, componentType);
      if !removed {
        return false;
      }
      Publish(handle, updated);
      LinkedAfterRemoveComponent(old(Table()), old(Stores()), old(Views()), handle, componentType);
    }

    /** The value of the live entity's component of the type. */
    function GetComponent(handle: EntityHandle, componentType: ComponentType): (x: C)
      reads entityManager.entities.objects, componentManager, componentManager.Repr,
            systemManager, systemManager.Repr
      requires Valid() && GetIsValidEntityHandle(handle) && GetEntityHasComponent(handle, componentType)
      ensures Table()[handle].components[componentType] in Stores()[componentType].Contents()
      ensures x == Stores()[componentType].Contents()[Table()[handle].components[componentType]]
    {
      RecordedIsLive(Table(), Stores(), Views(), handle, componentType);
      componentManager.GetComponent(GetEntity(handle), componentType)
    }

    /** The entity's component of the type, or nothing when the handle is dead
        or the entity has no component of the type. */
    function GetComponentChecked(handle: EntityHandle, componentType: ComponentType): (r: Option<C>)
      reads entityManager.entities.objects, componentManager, componentManager.Repr,
            systemManager, systemManager.Repr
      requires Valid()
      ensures r.None? <==> !(handle in Table() && componentType in Table()[handle].components)
      ensures r.Some? ==> r.value == Stores()[componentType].Contents()[Table()[handle].components[componentType]]
    {
      match GetEntityChecked(handle)
      case None => None
      case Some(e) =>
        if componentType in e.components then
          RecordedIsLive(Table(), Stores(), Views(), handle, componentType);
          componentManager.GetComponentChecked(e, componentType)
        else
          componentManager.GetComponentChecked(e, componentType)
    }

    /** The store of a type, or nothing when the type is not registered. */
    function GetComponentsByType(componentType: ComponentType): (r: Option<ObjectManager<C>>)
      reads componentManager, componentManager.Repr
      requires componentManager.Valid()
      ensures r.None? <==> componentType !in Stores()
      ensures r.Some? ==> r.value.State() == Stores()[componentType]
    {
      componentManager.GetComponentsByType(componentType)
    }

    /** Installs a fresh system of the type requiring the listed component
        types and listing no entity, replacing any system the type had. The
        system is not told about the entities that exist already. */
    method RegisterSystem(systemType: SystemType, types: seq<ComponentType>)
      requires Valid()
      modifies systemManager
      ensures Valid()
      ensures Table() == old(Table()) && Stores() == old(Stores())
      ensures Views() == old(Views())[systemType := SystemView(GetComponentsSignature(types), {})]
      ensures fresh(systemManager.Repr - old(systemManager.Repr))
    {
      systemManager.RegisterSystem(systemType, GetComponentsSignature(types));
      entityManager.Untouched();
      componentManager.Untouched();
      LinkedAfterRegisterSystem(old(Table()), old(Stores()), old(Views()), systemType, GetComponentsSignature(types));
    }

    /** Registers the system unless its type already is; an existing system is kept. */
    method RegisterSystemChecked(systemType: SystemType, types: seq<ComponentType>) returns (registered: bool)
      requires Valid()
      modifies systemManager
      ensures Valid()
      ensures registered == (systemType !in old(Views()))
      ensures Table() == old(Table()) && Stores() == old(Stores())
      ensures registered ==> Views() == old(Views())[systemType := SystemView(GetComponentsSignature(types), {})]
      ensures !registered ==> Views() == old(Views())
      ensures fresh(systemManager.Repr - old(systemManager.Repr))
    {
      if GetIsSystemRegistered(systemType) {
        return false;
      }
      RegisterSystem(systemType, types);
      return true;
    }

    predicate GetIsSystemRegistered(systemType: SystemType)
      reads systemManager
      ensures GetIsSystemRegistered(systemType) <==> systemType in systemManager.systems
    {
      systemManager.GetIsSystemRegistered(systemType)
    }

    /** The system of a type, or nothing when none is registered. */
    function GetSystem(systemType: SystemType): (r: Option<System>)
      reads systemManager, systemManager.Repr
      requires systemManager.Owned()
      ensures r.None? <==> systemType !in Views()
      ensures r.Some? ==> r.value.View() == Views()[systemType]
    {
      systemManager.GetSystem(systemType)
    }

    /** Whether a system of the type is registered to be run. */
    method RunSystemChecked(systemType: SystemType) returns (ran: bool)
      ensures ran <==> GetIsSystemRegistered(systemType)
    {
      ran := systemManager.RunSystemChecked(systemType);
    }

    /** `m_ComponentManager.AddComponent(e, component)`: only the stores change. */
    method StoreComponent(e: Entity, componentType: ComponentType, x: C) returns (updated: Entity)
      requires Wellformed() && GetIsComponentRegistered(componentType)
      modifies componentManager.Repr
      ensures Wellformed()
      ensures Table() == old(Table()) && Views() == old(Views())
      ensures Stores() == old(Stores())[componentType := old(Stores()[componentType]).Add(x)]
      ensures updated == e.AddComponent(ComponentInfo(componentType, old(Stores()[componentType].NextHandle())))
    {
      ghost var written: object, others := componentManager.components[componentType].objects, systemManager.Repr;
      assert written in componentManager.Repr && written !in others;
      updated := componentManager.AddComponent(e, componentType, x);
      forall o | o in others ensures unchanged(o) { assert o != written; }
      ComponentsOnly();
    }

    /** `m_ComponentManager.AddComponentChecked(e, component)`: only the stores change. */
    method StoreComponentChecked(e: Entity, componentType: ComponentType, x: C) returns (added: bool, updated: Entity)
      requires Wellformed()
      modifies componentManager.Repr
      ensures Wellformed()
      ensures Table() == old(Table()) && Views() == old(Views())
      ensures added == (componentType in old(Stores()) && componentType !in e.components)
      ensures added ==> Stores() == old(Stores())[componentType := old(Stores()[componentType]).Add(x)]
      ensures added ==> updated == e.AddComponent(ComponentInfo(componentType, old(Stores()[componentType].NextHandle())))
      ensures !added ==> Stores() == old(Stores()) && updated == e
    {
      ghost var others := systemManager.Repr;
      ghost var written: object := componentManager;
      if componentType in componentManager.components {
        written := componentManager.components[componentType].objects;
        assert written in componentManager.Repr;
      }
      assert written !in others;
      added, updated := componentManager.AddComponentChecked(e, componentType, x);
      forall o | o in others ensures unchanged(o) { assert o != written; }
      ComponentsOnly();
      if !added {
        assert Stores() == old(Stores());
      }
    }

    /** `m_ComponentManager.RemoveComponent<T>(e)`: only the stores change. */
    method DropComponent(e: Entity, componentType: ComponentType) returns (updated: Entity)
      requires Wellformed() && GetIsComponentRegistered(componentType) && componentType in e.components
      requires Stores()[componentType].IsValidHandle(e.components[componentType])
      modifies componentManager.Repr
      ensures Wellformed()
      ensures Table() == old(Table()) && Views() == old(Views())
      ensures Stores() == old(Stores())[componentType := old(Stores()[componentType]).Remove(e.components[componentType])]
      ensures updated == e.RemoveComponent(componentType)
    {
      ghost var written: object, others := componentManager.components[componentType].objects, systemManager.Repr;
      assert written in componentManager.Repr && written !in others;
      updated := componentManager.RemoveComponent(e, componentType);
      forall o | o in others ensures unchanged(o) { assert o != written; }
      ComponentsOnly();
    }

    /** `m_ComponentManager.RemoveComponentChecked<T>(e)`: only the stores change. */
    method DropComponentChecked(e: Entity, componentType: ComponentType) returns (removed: bool, updated: Entity)
      requires Wellformed()
      modifies componentManager.Repr
      ensures Wellformed()
      ensures Table() == old(Table()) && Views() == old(Views())
      ensures removed == (componentType in old(Stores()) && componentType in e.components &&
                          old(Stores()[componentType]).IsValidHandle(e.components[componentType]))
      ensures removed ==> Stores() == old(Stores())[componentType := old(Stores()[componentType]).Remove(e.components[componentType])]
      ensures removed ==> updated == e.RemoveComponent(componentType)
      ensures !removed ==> Stores() == old(Stores()) && updated == e
    {
      ghost var others := systemManager.Repr;
      ghost var written: object := componentManager;
      if componentType in componentManager.components {
        written := componentManager.components[componentType].objects;
        assert written in componentManager.Repr;
      }
      assert written !in others;
      removed, updated := componentManager.RemoveComponentChecked(e, componentType);
      forall o | o in others ensures unchanged(o) { assert o != written; }
      ComponentsOnly();
    }

    /** The entity's new record is written back and every system is told its
        new signature. */
    method Publish(handle: EntityHandle, e: Entity)
      requires Wellformed() && handle in Table() && e.handle == handle
      modifies entityManager.entities.objects, systemManager.Repr
      ensures Wellformed()
      ensures Table() == old(Table())[handle := e] && Stores() == old(Stores())
      ensures Views() == SignatureChangedAll(old(Views()), handle, e.components.Keys)
    {
      WriteEntity(handle, e);
      TellSignature(e);
    }

    /** The write through the entity reference: only the entity's record changes. */
    method WriteEntity(handle: EntityHandle, e: Entity)
      requires Wellformed() && handle in Table() && e.handle == handle
      modifies entityManager.entities.objects
      ensures Wellformed()
      ensures Table() == old(Table())[handle := e]
      ensures Stores() == old(Stores()) && Views() == old(Views())
    {
      entityManager.SetEntity(handle, e);
      componentManager.Untouched();
      systemManager.Untouched();
    }

    /** `m_SystemManager.OnEntitySignatureChanged(e, e.GetSignature())`: only
        the systems change. */
    method TellSignature(e: Entity)
      requires Wellformed()
      modifies systemManager.Repr
      ensures Wellformed()
      ensures Table() == old(Table()) && Stores() == old(Stores())
      ensures Views() == SignatureChangedAll(old(Views()), e.handle, e.components.Keys)
    {
      var signature := e.GetSignature();
      assert systemManager.Views() == old(systemManager.Views());
      systemManager.OnEntitySignatureChanged(e, signature);
      SystemsOnly();
    }

    /** A step that wrote only objects the component registry owns, and left
        it well formed, leaves the facade well formed and the entities and
        systems as they were. */
    twostate lemma ComponentsOnly()
      requires old(Wellformed()) && componentManager.Valid()
      requires unchanged(entityManager.entities.objects, systemManager) && unchanged(old(systemManager.Repr))
      requires componentManager.Repr == old(componentManager.Repr)
      ensures Wellformed() && Table() == old(Table()) && Views() == old(Views())
    {
      entityManager.Untouched();
      systemManager.Untouched();
    }

    /** A step that wrote only objects the system registry owns, and left it
        well formed, leaves the facade well formed and the entities and
        stores as they were. */
    twostate lemma SystemsOnly()
      requires old(Wellformed()) && systemManager.Valid()
      requires unchanged(entityManager.entities.objects, componentManager) && unchanged(old(componentManager.Repr))
      requires systemManager.Repr == old(systemManager.Repr)
      ensures Wellformed() && Table() == old(Table()) && Stores() == old(Stores())
    {
      entityManager.Untouched();
      componentManager.Untouched();
    }
  }
}
