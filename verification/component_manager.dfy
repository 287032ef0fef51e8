/** The component registry (Engine/ECS/Include/Laniakea/ECS/ComponentManager.h
    and engine/ecs/source/ComponentManager.cpp): one object store per
    registered component type, keyed by the type's identifier.

    The source keeps the stores behind `shared_ptr<IObjectManager>` and casts
    them back to `ObjectManager<T>`; here every store holds values of one type
    parameter `C` and the map holds the stores themselves. The entity a
    component operation updates through `Entity&` is passed in and returned
    updated. */
module ComponentManagers {
  import opened Wrappers
  import opened PackedArrays
  import opened ObjectManagers
  import opened Entities
  import opened Maps

  /** A store after a checked removal of `handle`: unchanged when the handle is
      not live. */
  function RemoveIfLive<C>(s: PackedState<C>, handle: ComponentHandle): (r: PackedState<C>)
    requires s.Valid()
    ensures r.Valid()
    ensures r.Contents() == s.Contents() - {handle}
  {
    if s.IsValidHandle(handle) then
      RemoveSpec(s, handle);
      s.Remove(handle)
    else
      s
  }

  /** The stores after the components of the types in `done` (all of them on
      the entity) have been deleted. */
  ghost function PartialPurge<C>(stores: map<ComponentType, PackedState<C>>, e: Entity,
                                 done: set<ComponentType>): (r: map<ComponentType, PackedState<C>>)
    requires forall t :: t in stores ==> stores[t].Valid()
    requires done <= e.components.Keys
    ensures r.Keys == stores.Keys
  {
    map t | t in stores :: if t in done then RemoveIfLive(stores[t], e.components[t]) else stores[t]
  }

  /** Every store after an entity's components are deleted: the store of each
      type the entity has loses the handle recorded for it. */
  ghost function PurgeEntity<C>(stores: map<ComponentType, PackedState<C>>, e: Entity): (r: map<ComponentType, PackedState<C>>)
    requires forall t :: t in stores ==> stores[t].Valid()
    ensures r.Keys == stores.Keys
  {
    PartialPurge(stores, e, e.components.Keys)
  }

  /** A purge that has not started changes nothing, and one that has done
      every type of the entity is the whole purge. */
  lemma PartialPurgeEnds<C>(stores: map<ComponentType, PackedState<C>>, e: Entity)
    requires forall t :: t in stores ==> stores[t].Valid()
    ensures PartialPurge(stores, e, e.components.Keys - e.components.Keys) == stores
    ensures PartialPurge(stores, e, e.components.Keys - {}) == PurgeEntity(stores, e)
  {
    assert e.components.Keys - e.components.Keys == {};
    assert e.components.Keys - {} == e.components.Keys;
  }

  /** Deleting the component of one more type extends a partial purge: the
      types still to do are `rest`, and `t` is taken from them. */
  lemma PartialPurgeStep<C>(stores: map<ComponentType, PackedState<C>>, e: Entity,
                            rest: set<ComponentType>, t: ComponentType)
    requires forall t :: t in stores ==> stores[t].Valid()
    requires rest <= e.components.Keys && t in rest && t in stores
    ensures var current := PartialPurge(stores, e, e.components.Keys - rest);
      current[t := RemoveIfLive(current[t], e.components[t])] ==
      PartialPurge(stores, e, e.components.Keys - (rest - {t}))
  {
    assert e.components.Keys - (rest - {t}) == (e.components.Keys - rest) + {t};
  }

  /** After the purge no handle recorded on the entity is live in its store,
      every other live component keeps its value, and the stores of types the
      entity lacks are untouched. */
  lemma PurgeEntitySpec<C>(stores: map<ComponentType, PackedState<C>>, e: Entity)
    requires forall t :: t in stores ==> stores[t].Valid()
    ensures forall t :: t in stores ==> PurgeEntity(stores, e)[t].Valid()
    ensures forall t :: t in stores && t in e.components ==>
      !PurgeEntity(stores, e)[t].IsValidHandle(e.components[t])
    ensures forall t :: t in stores && t in e.components ==>
      PurgeEntity(stores, e)[t].Contents() == stores[t].Contents() - {e.components[t]}
    ensures forall t :: t in stores && t !in e.components ==> PurgeEntity(stores, e)[t] == stores[t]
  {
    forall t | t in stores && t in e.components
      ensures !PurgeEntity(stores, e)[t].IsValidHandle(e.components[t])
    {
      var r := RemoveIfLive(stores[t], e.components[t]);
      assert e.components[t] !in r.Contents();
    }
  }

  class ComponentManager<C> {
    /** `m_Components`. */
    var components: map<ComponentType, ObjectManager<C>>
    /** The arrays of all stores ever installed. */
    ghost var Repr: set<object>
    /** The type each installed array belongs to. */
    ghost var Owner: map<object, ComponentType>

    /** Every store's array is among the objects owned. */
    ghost predicate Owned()
      reads this, Repr
    {
      && this !in Repr
      && forall t :: t in components ==> components[t].objects in Repr
    }

    /** Every store is well formed, and each array belongs to the one type
        whose store it is, so no two types share an array. */
    ghost predicate Valid()
      reads this, Repr
    {
      && Owned()
      && (forall t :: t in components ==> components[t].Valid())
      && (forall t :: t in components ==> components[t].objects in Owner && Owner[components[t].objects] == t)
    }

    /** The stores, by component type. */
    ghost function Stores(): (stores: map<ComponentType, PackedState<C>>)
      reads this, Repr
      requires Owned()
      ensures stores.Keys == components.Keys
      ensures Valid() ==> forall t :: t in stores ==> stores[t].Valid()
    {
      map t | t in components :: components[t].State()
    }

    constructor ()
      ensures Valid() && Stores() == map[]
      ensures fresh(Repr)
    {
      components := map[];
      Repr := {};
      Owner := map[];
    }

    /** A step that writes neither the manager nor any object it owns leaves
        it well formed and its stores as they were. */
    twostate lemma Untouched()
      requires unchanged(this) && unchanged(old(Repr))
      ensures old(Valid()) ==> Valid() && Stores() == old(Stores())
    {
    }

    /** Installs a fresh empty store for the type, replacing any store it had. */
    method RegisterComponent(componentType: ComponentType)
      requires Valid()
      modifies this
      ensures Valid()
      ensures Stores() == old(Stores())[componentType := Empty()]
      ensures fresh(Repr - old(Repr))
    {
      var store := new ObjectManager<C>();
      ghost var added: set<object> := {store.objects};
      assert fresh(added);
      components := components[componentType := store];
      Repr := Repr + added;
      Owner := Owner[store.objects := componentType];
      assert Repr - old(Repr) <= added;
      InstallKeepsValid(componentType, store);
    }

    /** Installing a new store, whose arrays are not owned yet, keeps the
        others well formed and unchanged. */
    twostate lemma InstallKeepsValid(componentType: ComponentType, new store: ObjectManager<C>)
      requires old(Valid()) && store.Valid() && store.objects !in old(Repr)
      requires components == old(components)[componentType := store]
      requires Repr == old(Repr) + {store.objects}
      requires Owner == old(Owner)[store.objects := componentType]
      requires forall o :: o in old(Repr) ==> unchanged(o)
      ensures Valid()
      ensures Stores() == old(Stores())[componentType := store.State()]
    {
      var after := old(Stores())[componentType := store.State()];
      forall t | t in components && t != componentType
        ensures components[t].objects in old(Repr)
        ensures components[t].Valid() && components[t].State() == after[t]
      {
        assert t in old(components) && components[t] == old(components[t]);
        assert unchanged(components[t].objects);
      }
      SameMaps(Stores(), after);
    }

    /** Stores the value in its type's store and records the new handle on the
        entity. An entity that already has the type keeps its old handle, and
        the value stored by this call is then recorded nowhere. */
    method AddComponent(e: Entity, componentType: ComponentType, x: C) returns (updated: Entity)
      requires Valid() && GetIsComponentRegistered(componentType)
      modifies components[componentType].objects
      ensures Valid() && components == old(components) && Repr == old(Repr)
      ensures Stores() == old(Stores())[componentType := old(Stores()[componentType]).Add(x)]
      ensures updated == e.AddComponent(ComponentInfo(componentType, old(Stores()[componentType].NextHandle())))
    {
      var handle := components[componentType].AddObject(x);
      updated := e.AddComponent(ComponentInfo(componentType, handle));
      OtherStoresValid(componentType);
      StoresAfterWrite(old(Stores()), componentType);
    }

    /** After a write to the arrays of one type, the other stores, whose arrays
        are distinct objects, are still well formed. */
    twostate lemma OtherStoresValid(componentType: ComponentType)
      requires old(Valid()) && componentType in components
      requires components == old(components) && Repr == old(Repr) && Owner == old(Owner)
      requires components[componentType].Valid()
      requires forall o :: o in Repr && o != components[componentType].objects ==> unchanged(o)
      ensures Valid()
      ensures forall t :: t in components && t != componentType ==>
        components[t].State() == old(components[t].State())
    {
      forall t | t in components && t != componentType
        ensures components[t].Valid() && components[t].State() == old(components[t].State())
      {
        assert components[t].objects != components[componentType].objects;
        assert unchanged(components[t].objects);
      }
    }

    /** The stores after the arrays of one type changed and no other did. */
    lemma StoresAfterWrite(before: map<ComponentType, PackedState<C>>, componentType: ComponentType)
      requires Owned() && componentType in components
      requires before.Keys == components.Keys
      requires forall t :: t in components && t != componentType ==> before[t] == components[t].State()
      ensures Stores() == before[componentType := components[componentType].State()]
    {
      var after := before[componentType := components[componentType].State()];
      forall t | t in components
        ensures Stores()[t] == after[t]
      {
      }
      SameMaps(Stores(), after);
    }

    /** Deletes the entity's component of this type from the store and from the
        entity. The type must be registered and present on the entity, and the
        recorded handle live (the store removes it unchecked). */
    method RemoveComponent(e: Entity, componentType: ComponentType) returns (updated: Entity)
      requires Valid() && GetIsComponentRegistered(componentType)
      requires e.GetHasComponent(componentType)
      requires components[componentType].GetIsValidHandle(e.GetComponentHandle(componentType))
      modifies components[componentType].objects
      ensures Valid() && components == old(components) && Repr == old(Repr)
      ensures Stores() == old(Stores())[componentType :=
        old(Stores()[componentType]).Remove(e.GetComponentHandle(componentType))]
      ensures updated == e.RemoveComponent(componentType)
    {
      var handle := e.GetComponentHandle(componentType);
      components[componentType].RemoveObject(handle);
      updated := e.RemoveComponent(componentType);
      OtherStoresValid(componentType);
      StoresAfterWrite(old(Stores()), componentType);
    }

    /** The value of the entity's component of this type. */
    function GetComponent(e: Entity, componentType: ComponentType): (x: C)
      reads this, Repr
      requires Valid() && GetIsComponentRegistered(componentType)
      requires e.GetHasComponent(componentType)
      requires components[componentType].GetIsValidHandle(e.GetComponentHandle(componentType))
      ensures e.GetComponentHandle(componentType) in Stores()[componentType].Contents()
      ensures x == Stores()[componentType].Contents()[e.GetComponentHandle(componentType)]
    {
      components[componentType].GetObject(e.GetComponentHandle(componentType))
    }

    /** Deletes every component recorded on the entity, tolerating handles
        that are no longer live. Every type on the entity must be registered;
        the entity itself is left as it is. */
    method OnEntityRemoved(e: Entity)
      requires Valid()
      requires forall t :: t in e.components ==> GetIsComponentRegistered(t)
      modifies Repr
      ensures Valid()
      ensures components == old(components) && Repr == old(Repr)
      ensures Stores() == PurgeEntity(old(Stores()), e)
    {
      ghost var initial := Stores();
      PartialPurgeEnds(initial, e);
      var rest := e.components.Keys;
      while rest != {}
        invariant Valid() && components == old(components) && Repr == old(Repr)
        invariant rest <= e.components.Keys
        invariant Stores() == PartialPurge(initial, e, e.components.Keys - rest)
        decreases rest
      {
        var t :| t in rest;
        PurgeOne(e, initial, rest, t);
        rest := rest - {t};
      }
    }

    /** One turn of the purge: the component of type `t` is deleted. */
    method PurgeOne(e: Entity, ghost initial: map<ComponentType, PackedState<C>>,
                    ghost rest: set<ComponentType>, t: ComponentType)
      requires Valid() && t in e.components && GetIsComponentRegistered(t)
      requires forall t :: t in initial ==> initial[t].Valid()
      requires rest <= e.components.Keys && t in rest && t in initial
      requires Stores() == PartialPurge(initial, e, e.components.Keys - rest)
      modifies components[t].objects
      ensures Valid() && components == old(components) && Repr == old(Repr)
      ensures Stores() == PartialPurge(initial, e, e.components.Keys - (rest - {t}))
    {
      PartialPurgeStep(initial, e, rest, t);
      var _ := RemoveFromStoreChecked(t, e.components[t]);
    }

    /** `m_Components.at(type)->RemoveObjectChecked(handle)`: one store loses
        the handle if it is live, and no other store changes. */
    method RemoveFromStoreChecked(componentType: ComponentType, handle: ComponentHandle) returns (removed: bool)
      requires Valid() && GetIsComponentRegistered(componentType)
      modifies components[componentType].objects
      ensures Valid() && components == old(components) && Repr == old(Repr)
      ensures removed == old(Stores()[componentType]).IsValidHandle(handle)
      ensures Stores() == old(Stores())[componentType := RemoveIfLive(old(Stores()[componentType]), handle)]
    {
      assert components[componentType].objects in Repr;
      removed := components[componentType].RemoveObjectChecked(handle);
      OtherStoresValid(componentType);
      StoresAfterWrite(old(Stores()), componentType);
    }

    /** The store of a type, or nothing when the type is not registered. */
    function GetComponentsByType(componentType: ComponentType): (r: Option<ObjectManager<C>>)
      reads this
      ensures r.None? <==> !GetIsComponentRegistered(componentType)
      ensures r.Some? ==> r.value == GetComponentArray(componentType)
    {
      if GetIsComponentRegistered(componentType) then Some(GetComponentArray(componentType)) else None
    }

    /** The store of a registered type (`m_Components.at`). */
    function GetComponentArray(componentType: ComponentType): (store: ObjectManager<C>)
      reads this
      requires GetIsComponentRegistered(componentType)
      ensures Valid() ==> store.State() == Stores()[componentType]
    {
      components[componentType]
    }

    predicate GetIsComponentRegistered(componentType: ComponentType)
      reads this
      ensures GetIsComponentRegistered(componentType) <==> componentType in components
    {
      componentType in components
    }

    /** Registers the type unless it already is; an existing store is kept. */
    method RegisterComponentChecked(componentType: ComponentType) returns (registered: bool)
      requires Valid()
      modifies this
      ensures Valid()
      ensures registered == !old(GetIsComponentRegistered(componentType))
      ensures registered ==> Stores() == old(Stores())[componentType := Empty()]
      ensures !registered ==> Stores() == old(Stores()) && components == old(components)
      ensures fresh(Repr - old(Repr))
    {
      if GetIsComponentRegistered(componentType) {
        return false;
      }
      RegisterComponent(componentType);
      return true;
    }

    /** Adds the component unless the type is unregistered or the entity
        already has it; on refusal nothing changes. */
    method AddComponentChecked(e: Entity, componentType: ComponentType, x: C) returns (added: bool, updated: Entity)
      requires Valid()
      modifies if componentType in components then {components[componentType].objects} else {}
      ensures Valid() && components == old(components) && Repr == old(Repr)
      ensures added == (componentType in old(components) && componentType !in e.components)
      ensures added ==> Stores() == old(Stores())[componentType := old(Stores()[componentType]).Add(x)]
      ensures added ==> updated == e.AddComponent(ComponentInfo(componentType, old(Stores()[componentType].NextHandle())))
      ensures !added ==> Stores() == old(Stores()) && updated == e
    {
      if !GetIsComponentRegistered(componentType) {
        return false, e;
      }
      if e.GetHasComponent(componentType) {
        return false, e;
      }
      updated := AddComponent(e, componentType, x);
      added := true;
    }

    /** Removes the component unless the type is unregistered, absent from the
        entity, or its recorded handle is not live; on refusal nothing changes. */
    method RemoveComponentChecked(e: Entity, componentType: ComponentType) returns (removed: bool, updated: Entity)
      requires Valid()
      modifies if componentType in components then {components[componentType].objects} else {}
      ensures Valid() && components == old(components) && Repr == old(Repr)
      ensures removed == (old(GetIsComponentRegistered(componentType)) && e.GetHasComponent(componentType) &&
        old(Stores()[componentType]).IsValidHandle(e.GetComponentHandle(componentType)))
      ensures removed ==> Stores() == old(Stores())[componentType :=
        old(Stores()[componentType]).Remove(e.GetComponentHandle(componentType))]
      ensures removed ==> updated == e.RemoveComponent(componentType)
      ensures !removed ==> Stores() == old(Stores()) && updated == e
    {
      if !GetIsComponentRegistered(componentType) {
        return false, e;
      }
      if !e.GetHasComponent(componentType) {
        return false, e;
      }
      var handle := e.GetComponentHandle(componentType);
      ghost var before := Stores();
      removed := RemoveFromStoreChecked(componentType, handle);
      if !removed {
        SameMaps(Stores(), before);
        return false, e;
      }
      updated := e.RemoveComponent(componentType);
    }

    /** The entity's component of this type, or nothing when the type is
        unregistered, absent from the entity, or its handle is not live. */
    function GetComponentChecked(e: Entity, componentType: ComponentType): (r: Option<C>)
      reads this, Repr
      requires Valid()
      ensures r.None? <==>
        !(componentType in Stores() && componentType in e.components &&
          e.components[componentType] in Stores()[componentType].Contents())
      ensures r.Some? ==> r.value == Stores()[componentType].Contents()[e.components[componentType]]
    {
      if !GetIsComponentRegistered(componentType) then None
      else if !e.GetHasComponent(componentType) then None
      else components[componentType].GetObjectChecked(e.GetComponentHandle(componentType))
    }
  }
}
