/** Entities (Engine/ECS/Source/Entity.cpp) and the identifiers shared by the
    whole library (Engine/ECS/Include/Laniakea/ECS/Core.h).

    An entity carries its own handle and the set of `ComponentInfo{Type,
    Handle}` pairs of its components. That set is ordered and searched by type
    alone (every lookup builds the key `{type, NULL_HANDLE}`), so it holds at
    most one pair per type and is modelled as a map from type to handle. The
    entity is a value: the managers store copies of it, and its two mutators
    return the updated record. */
module Entities {
  import opened Wrappers

  type EntityHandle = nat
  type ComponentType = nat
  type ComponentHandle = nat
  type SystemType = nat

  /** The component types an entity has, or a system requires. */
  type Signature = set<ComponentType>

  datatype ComponentInfo = ComponentInfo(componentType: ComponentType, handle: ComponentHandle)

  datatype Entity = Entity(handle: EntityHandle, components: map<ComponentType, ComponentHandle>)
  {
    /** The component set as the source keeps it. */
    function GetComponentsInfo(): (infos: set<ComponentInfo>)
      ensures forall info :: info in infos <==>
        info.componentType in components && components[info.componentType] == info.handle
    {
      set t | t in components :: ComponentInfo(t, components[t])
    }

    /** `insert` into a set ordered by type: a type already present keeps its
        handle, otherwise the pair is added. */
    function AddComponent(info: ComponentInfo): (r: Entity)
      ensures r.handle == handle
      ensures r.GetHasComponent(info.componentType)
      ensures !GetHasComponent(info.componentType) ==>
        r.GetComponentHandle(info.componentType) == info.handle
      ensures GetHasComponent(info.componentType) ==> r == this
      ensures forall t :: t != info.componentType ==>
        (r.GetHasComponent(t) <==> GetHasComponent(t)) &&
        (GetHasComponent(t) ==> r.GetComponentHandle(t) == GetComponentHandle(t))
    {
      if info.componentType in components then this
      else this.(components := components[info.componentType := info.handle])
    }

    /** `erase` of the type's pair; nothing happens when the type is absent. */
    function RemoveComponent(componentType: ComponentType): (r: Entity)
      ensures r.handle == handle
      ensures !r.GetHasComponent(componentType)
      ensures !GetHasComponent(componentType) ==> r == this
      ensures forall t :: t != componentType ==>
        (r.GetHasComponent(t) <==> GetHasComponent(t)) &&
        (GetHasComponent(t) ==> r.GetComponentHandle(t) == GetComponentHandle(t))
    {
      this.(components := components - {componentType})
    }

    /** `count({type, NULL_HANDLE}) != 0`; see `HasComponentSpec`. */
    predicate GetHasComponent(componentType: ComponentType) {
      componentType in components
    }

    /** Dereferences the result of `find`, so the type must be present. */
    function GetComponentHandle(componentType: ComponentType): (h: ComponentHandle)
      requires GetHasComponent(componentType)
      ensures ComponentInfo(componentType, h) in GetComponentsInfo()
    {
      components[componentType]
    }

    /** The signature, collected pair by pair. */
    method GetSignature() returns (signature: Signature)
      ensures forall t :: t in signature <==> GetHasComponent(t)
      ensures signature == components.Keys
    {
      signature := {};
      var rest := components.Keys;
      while rest != {}
        invariant signature + rest == components.Keys
        decreases |rest|
      {
        var t :| t in rest;
        signature := signature + {t};
        rest := rest - {t};
      }
    }

    function GetComponentHandleChecked(componentType: ComponentType): (r: Option<ComponentHandle>)
      ensures r.None? <==> !GetHasComponent(componentType)
      ensures r.Some? ==> r.value == GetComponentHandle(componentType)
    {
      if !GetHasComponent(componentType) then None else Some(GetComponentHandle(componentType))
    }
  }

  /** `Entity(id)`: the given handle and no components. */
  function NewEntity(id: EntityHandle): (e: Entity)
    ensures e.handle == id
    ensures forall t :: !e.GetHasComponent(t)
  {
    Entity(id, map[])
  }

  /** The component set holds at most one pair per type. */
  lemma OneInfoPerType(e: Entity, a: ComponentInfo, b: ComponentInfo)
    requires a in e.GetComponentsInfo() && b in e.GetComponentsInfo()
    requires a.componentType == b.componentType
    ensures a == b
  {
  }

  /** Adding a type the entity lacks extends its signature by that type. */
  /** An entity has a component of a type exactly when its component set
      holds a pair of that type, whatever its handle: the set is searched by
      type alone. */
  lemma HasComponentSpec(e: Entity, componentType: ComponentType)
    ensures e.GetHasComponent(componentType) <==>
      exists h :: ComponentInfo(componentType, h) in e.GetComponentsInfo()
  {
    if e.GetHasComponent(componentType) {
      assert ComponentInfo(componentType, e.components[componentType]) in e.GetComponentsInfo();
    }
  }

  lemma AddComponentSignature(e: Entity, info: ComponentInfo)
    ensures e.AddComponent(info).components.Keys == e.components.Keys + {info.componentType}
  {
  }

  /** Removing a type takes it out of the signature and nothing else. */
  lemma RemoveComponentSignature(e: Entity, componentType: ComponentType)
    ensures e.RemoveComponent(componentType).components.Keys == e.components.Keys - {componentType}
  {
  }

  /** Removing a component just added restores the entity. */
  lemma RemoveUndoesAdd(e: Entity, info: ComponentInfo)
    requires !e.GetHasComponent(info.componentType)
    ensures e.AddComponent(info).RemoveComponent(info.componentType) == e
  {
    assert e.AddComponent(info).RemoveComponent(info.componentType).components == e.components;
  }
}
