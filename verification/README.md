# Laniakea ECS in Dafny

A model of the entity-component-system (ECS) library of the Laniakea engine,
with proofs of what the library promises. The library keeps every object
behind an integer handle, so the model is about that handle bookkeeping.

The model has five layers, one Dafny module (and file) each, plus a module
of cross-manager invariants, one of the membership rule over a history of
operations, and one of the library's test scenarios.

- **`PackedArrays`** (`packed_array.dfy`) is the dense handle store.
  - The class `PackedArray<T>` has the four fields of the C++ class: the data
    sequence, the handle-to-index and index-to-handle maps, and the set of
    free handles. Its methods update those fields step by step, as the
    source does.
  - The datatype `PackedState<T>` is the same store as a value. It carries
    the store's invariant and the transition functions `Add`, `Remove` and
    `Set`. The methods `Add`, `Remove` and `Set` are proved to produce the
    transition of the same name; `RemoveByIndex` produces `Remove` of the
    handle bound to the index; `Clear` produces the empty store; and
    `AllocateHandleForIndex` is specified field by field. Lemmas prove the
    store's properties on the transitions.
- **`ObjectManagers`** (`object_manager.dfy`) is the forwarding wrapper
  `ObjectManager<T>` that owns one `PackedArray<T>`.
- **`Entities`** (`entity.dfy`) is the entity record: its own handle, and a
  map from component type to component handle, holding at most one entry
  per type. The record's signature is the key set of that map.
- **`EntityManagers`**, **`ComponentManagers`**, **`Systems`** and
  **`SystemManagers`** are the registries:
  - the entity table;
  - one store of component values per registered component type;
  - the systems. Each system lists the entities whose signature includes
    its own, and the system manager tells every system about signature
    changes and removals.
- **`Ecs`** (`ecs.dfy`) is the facade that drives the three registries
  together.
- **`EcsInvariants`** (`invariants.dfy`) states what ties the registries
  together, on their abstract states. Two facts make it up:
  - every component an entity records is live in its type's store, and no
    two entities share one;
  - every system lists only live entities whose signature includes the
    system's.
  It proves that every facade operation keeps both (`RegisterComponent`
  only when no live entity records the type; see "Left out").
- **`MembershipRule`** (`membership_rule.dfy`) states the other half of
  the membership rule over a history of facade operations: once an
  entity's signature has changed, or the entity was removed, after a
  system was registered, the system lists it exactly when it is live and
  its signature includes the system's.
- **`EcsScenarios`** (`ecs_scenarios.dfy`) restates the library's own tests
  (`Engine/ECS/Test/test_ecs.cpp`) as methods whose postconditions are the
  answers the tests expect.

How the model represents the source:
- Component types and system types are naturals. The source derives them
  from `typeid(T).hash_code()`.
- Handles are unbounded naturals.
- Every component type shares one value type parameter `C`.

## Model

| member | source | states |
|---|---|---|
| PackedArrays.Least | Engine/ECS/Include/Laniakea/ECS/PackedArray.h:305-313 | the smallest free handle, which `AllocateHandleForIndex` reuses, is in the set and no larger than any member |
| PackedArrays.LeastBelow | Engine/ECS/Include/Laniakea/ECS/PackedArray.h:307-308 | a non-empty set of handles has a least element, so `*m_FreeHandles.begin()` is defined |
| PackedArrays.EmptyIsValid | Engine/ECS/Include/Laniakea/ECS/PackedArray.h:320-324 | a new store satisfies the invariant, holds nothing and will issue handle 0 first |
| PackedArrays.NextHandleIsFresh | Engine/ECS/Include/Laniakea/ECS/PackedArray.h:225-228 | the handle the next insertion gets is not live, and it lies within the handles issued so far plus one |
| PackedArrays.AddSpec | Engine/ECS/Include/Laniakea/ECS/PackedArray.h:45-62 | insertion keeps the invariant, appends the value at the last index, grows the size by one, binds the announced handle to that index, takes it out of the free set, and adds exactly that binding to the contents |
| PackedArrays.AddContents | Engine/ECS/Include/Laniakea/ECS/PackedArray.h:45-50 | after an insertion, every earlier handle still yields its old value and the new handle yields the inserted one |
| PackedArrays.AddKeepsValid | Engine/ECS/Include/Laniakea/ECS/PackedArray.h:305-318 | insertion keeps the maps mutual inverses over the dense indices `0..Size()-1`, and keeps live and free handles disjoint and together equal to `0..Size()+|free|-1` |
| PackedArrays.RemoveKeepsBinding | Engine/ECS/Include/Laniakea/ECS/PackedArray.h:71-92 | after a swap-remove, every surviving handle is still bound to an index that maps back to it, and that index holds the handle's old value |
| PackedArrays.RemoveKeepsIssued | Engine/ECS/Include/Laniakea/ECS/PackedArray.h:71-92 | after a removal, live and free handles still cover exactly the handles issued so far |
| PackedArrays.RemoveSpec | Engine/ECS/Include/Laniakea/ECS/PackedArray.h:71-92 | removal of a live handle keeps the invariant, shrinks the size by one, makes the handle invalid and free, and drops exactly that handle from the contents |
| PackedArrays.RemoveKeepsValid | Engine/ECS/Include/Laniakea/ECS/PackedArray.h:71-92 | removal keeps the store's invariant |
| PackedArrays.RemoveContents | Engine/ECS/Include/Laniakea/ECS/PackedArray.h:71-92 | every other live handle still yields its old value after a removal |
| PackedArrays.LiveHandlesCount | Engine/ECS/Include/Laniakea/ECS/PackedArray.h:169-172 | in a valid store, the size equals the number of live handles |
| PackedArrays.RemoveMovesLast | Engine/ECS/Include/Laniakea/ECS/PackedArray.h:80-89 | removing an element that is not last moves the last element into the freed index, and that element keeps its handle |
| PackedArrays.RemoveAtLastIndex | Engine/ECS/Include/Laniakea/ECS/PackedArray.h:80-89 | removing the element at the last index only truncates the data and unbinds that handle and index; the assign-then-erase order is harmless here |
| PackedArrays.SetSpec | Engine/ECS/Include/Laniakea/ECS/PackedArray.h:109-112 | a write through the reference for a live handle keeps the invariant and every binding, and changes that handle's value only |
| PackedArrays.PackedArray.constructor | Engine/ECS/Include/Laniakea/ECS/PackedArray.h:320-324 | a new array is the empty store |
| PackedArrays.PackedArray.Add | Engine/ECS/Include/Laniakea/ECS/PackedArray.h:45-62 | returns the handle `GetNextHandle` announced, which was not live; the value lands at the last index; the state is the insertion transition |
| PackedArrays.PackedArray.AllocateHandleForIndex | Engine/ECS/Include/Laniakea/ECS/PackedArray.h:305-318 | with no free handle the new handle is the size when `index <= size` and `index` itself in the other, unreachable arm; otherwise it is the least free handle; at `index == size` it is the announced next handle; both maps gain the binding and the handle leaves the free set |
| PackedArrays.PackedArray.Remove | Engine/ECS/Include/Laniakea/ECS/PackedArray.h:71-92 | the state is the removal transition; the size drops by one; the handle is invalid and free; the contents lose exactly that handle |
| PackedArrays.PackedArray.RemoveByIndex | Engine/ECS/Include/Laniakea/ECS/PackedArray.h:98-102 | removes the handle bound to the index, with the same effect as `Remove` on it |
| PackedArrays.PackedArray.Set | Engine/ECS/Include/Laniakea/ECS/PackedArray.h:109-112 | a write through `operator[]` changes the value of that handle only |
| PackedArrays.PackedArray.Get | Engine/ECS/Include/Laniakea/ECS/PackedArray.h:119-122 | the value stored under a live handle |
| PackedArrays.PackedArray.GetByIndex | Engine/ECS/Include/Laniakea/ECS/PackedArray.h:129-132 | the value of the handle bound to a live index |
| PackedArrays.PackedArray.IsValidHandle | Engine/ECS/Include/Laniakea/ECS/PackedArray.h:139-142 | true exactly for the handles with a value in the contents |
| PackedArrays.PackedArray.IsValidIndex | Engine/ECS/Include/Laniakea/ECS/PackedArray.h:149-152 | true exactly for the bound indices |
| PackedArrays.PackedArray.GetHandleFromIndex | Engine/ECS/Include/Laniakea/ECS/PackedArray.h:160-163 | a live handle that maps back to the index |
| PackedArrays.PackedArray.Size | Engine/ECS/Include/Laniakea/ECS/PackedArray.h:169-172 | the live indices are exactly those below the size, and the size is the number of live handles |
| PackedArrays.PackedArray.Clear | Engine/ECS/Include/Laniakea/ECS/PackedArray.h:177-183 | the store is empty again: no handle is valid and the next handle is 0 |
| PackedArrays.PackedArray.GetNextHandle | Engine/ECS/Include/Laniakea/ECS/PackedArray.h:225-228 | a handle that is not live: the size when no handle is free, else the least free handle |
| PackedArrays.PackedArray.RemoveChecked | Engine/ECS/Include/Laniakea/ECS/PackedArray.h:239-245 | true and a removal exactly when the handle was valid; otherwise false and no change |
| PackedArrays.PackedArray.RemoveByIndexChecked | Engine/ECS/Include/Laniakea/ECS/PackedArray.h:252-258 | true and a removal exactly when the index was valid; otherwise false and no change |
| PackedArrays.PackedArray.GetChecked | Engine/ECS/Include/Laniakea/ECS/PackedArray.h:265-271 | empty exactly when the handle is not live, otherwise its value |
| PackedArrays.PackedArray.GetByIndexChecked | Engine/ECS/Include/Laniakea/ECS/PackedArray.h:278-283 | empty exactly when the index is not bound, otherwise the value there |
| PackedArrays.PackedArray.GetHandleFromIndexChecked | Engine/ECS/Include/Laniakea/ECS/PackedArray.h:290-295 | empty exactly when the index is at or past the size, otherwise a live handle mapping back to it |
| PackedArrays.RemoveAndReuseScenario | Engine/ECS/Test/test_ecs.cpp:188-230 | three insertions get handles 0, 1 and 2; removing the middle leaves size 2; the next insertion reuses handle 1; every query of the test answers as the test expects |
| PackedArrays.FillScenario | Engine/ECS/Test/test_ecs.cpp:190-200 | the first three insertions and the queries after them |
| PackedArrays.ThreeInsertions | Engine/ECS/Test/test_ecs.cpp:192-194 | the store after inserting 3, 4 and 10, written out field by field |
| PackedArrays.MiddleRemoval | Engine/ECS/Test/test_ecs.cpp:202 | removing handle 1 moves the value 10 to index 1 and frees handle 1 |
| PackedArrays.RemoveMiddleScenario | Engine/ECS/Test/test_ecs.cpp:202-216 | the removal, the size after it, the reuse of handle 1 and the queries between |
| PackedArrays.ClearScenario | Engine/ECS/Test/test_ecs.cpp:218-227 | after clearing, the old handles are invalid, the next insertion gets handle 0, and removing it succeeds |
| ObjectManagers.ObjectManager.constructor | engine/ecs/include/ObjectManager.h:245 | a new manager holds an empty store |
| ObjectManagers.ObjectManager.AddObject | engine/ecs/include/ObjectManager.h:55-68 | returns the handle the store announced; the store makes the insertion transition |
| ObjectManagers.ObjectManager.RemoveObject | engine/ecs/include/ObjectManager.h:74-77 | the handle becomes invalid, the contents lose exactly it, and the size drops by one |
| ObjectManagers.ObjectManager.RemoveObjectByIndex | engine/ecs/include/ObjectManager.h:83-86 | removes the handle bound to the index |
| ObjectManagers.ObjectManager.SetObject | engine/ecs/include/ObjectManager.h:93-96 | a write through the reference `GetObject` returns changes that handle's value only |
| ObjectManagers.ObjectManager.GetObject | engine/ecs/include/ObjectManager.h:93-96 | the value stored under a live handle |
| ObjectManagers.ObjectManager.GetObjectByIndex | engine/ecs/include/ObjectManager.h:103-106 | the value of the handle bound to the index |
| ObjectManagers.ObjectManager.GetHandleFromIndex | engine/ecs/include/ObjectManager.h:113-116 | a live handle bound to the index |
| ObjectManagers.ObjectManager.GetIsValidHandle | engine/ecs/include/ObjectManager.h:123-126 | true exactly for the handles in the contents |
| ObjectManagers.ObjectManager.Clear | engine/ecs/include/ObjectManager.h:131-134 | the store is empty and the next handle is 0 |
| ObjectManagers.ObjectManager.Size | engine/ecs/include/ObjectManager.h:140-143 | the number of live handles |
| ObjectManagers.ObjectManager.GetNextHandle | engine/ecs/include/ObjectManager.h:149-152 | the store's next handle, which is not live |
| ObjectManagers.ObjectManager.RemoveObjectChecked | engine/ecs/include/ObjectManager.h:198-201 | true and a removal exactly when the handle was valid; otherwise false and no change |
| ObjectManagers.ObjectManager.RemoveObjectByIndexChecked | engine/ecs/include/ObjectManager.h:208-211 | true and a removal exactly when the index was below the size; otherwise false and no change |
| ObjectManagers.ObjectManager.GetObjectChecked | engine/ecs/include/ObjectManager.h:218-221 | empty exactly when the handle is invalid, otherwise its value |
| ObjectManagers.ObjectManager.GetObjectByIndexChecked | engine/ecs/include/ObjectManager.h:228-231 | empty exactly when the index is at or past the size, otherwise the value there |
| ObjectManagers.ObjectManager.GetHandleFromIndexChecked | engine/ecs/include/ObjectManager.h:238-241 | empty exactly when the index is at or past the size, otherwise the bound handle |
| Entities.NewEntity | Engine/ECS/Source/Entity.cpp:4-8 | a new entity carries the given handle and has no component |
| Entities.Entity.GetComponentsInfo | Engine/ECS/Source/Entity.cpp:35-38 | the `{type, handle}` pairs are exactly the entity's entries |
| Entities.Entity.AddComponent | Engine/ECS/Source/Entity.cpp:15-18 | afterwards the type is present; a new type is recorded with the given handle; a type already present keeps its old handle, since a set insertion never replaces; no other type changes |
| Entities.Entity.RemoveComponent | Engine/ECS/Source/Entity.cpp:20-23 | afterwards the type is absent; it is a no-op when the type was absent; no other type changes |
| Entities.HasComponentSpec | Engine/ECS/Source/Entity.cpp:25-28 | true exactly when the entity's component set holds a pair of that type, whatever its handle |
| Entities.Entity.GetComponentHandle | Engine/ECS/Source/Entity.cpp:30-33 | the handle of the entry for a type the entity has |
| Entities.Entity.GetSignature | Engine/ECS/Source/Entity.cpp:40-47 | the loop collects exactly the types of the entries |
| Entities.Entity.GetComponentHandleChecked | Engine/ECS/Source/Entity.cpp:49-54 | empty exactly when the entity lacks the type, otherwise `GetComponentHandle` |
| Entities.OneInfoPerType | Engine/ECS/Source/Entity.cpp:15-33 | two entries of the same type are the same entry |
| Entities.AddComponentSignature | Engine/ECS/Source/Entity.cpp:15-18 | adding a component adds its type to the signature |
| Entities.RemoveComponentSignature | Engine/ECS/Source/Entity.cpp:20-23 | removing a component takes its type out of the signature |
| Entities.RemoveUndoesAdd | Engine/ECS/Source/Entity.cpp:15-23 | removing a type just added gives back the original entity |
| EntityManagers.EntityManager.constructor | engine/ecs/include/EntityManager.h:74-76 | a new manager has no entity |
| EntityManagers.EntityManager.CreateEntity | Engine/ECS/Source/EntityManager.cpp:3-7 | the handle is the store's next one and was not live; it now holds a new entity carrying that same handle; every live entity's own handle equals its slot's handle |
| EntityManagers.EntityManager.RemoveEntity | Engine/ECS/Source/EntityManager.cpp:9-12 | the handle becomes invalid and every other entity is unchanged |
| EntityManagers.EntityManager.SetEntity | Engine/ECS/Source/EntityManager.cpp:14-17 | a write through the reference `GetEntity` returns changes that entity only |
| EntityManagers.EntityManager.GetEntity | Engine/ECS/Source/EntityManager.cpp:14-17 | the entity in a live slot, which carries that slot's handle |
| EntityManagers.EntityManager.RemoveAllEntities | Engine/ECS/Source/EntityManager.cpp:19-22 | no handle is valid afterwards |
| EntityManagers.EntityManager.GetIsValidEntityHandle | Engine/ECS/Source/EntityManager.cpp:24-27 | true exactly for the live handles |
| EntityManagers.EntityManager.GetEntityChecked | Engine/ECS/Source/EntityManager.cpp:29-32 | empty exactly for a handle that is not live |
| EntityManagers.EntityManager.RemoveEntityChecked | Engine/ECS/Source/EntityManager.cpp:34-37 | true and a removal exactly when the handle was live; otherwise false and the store unchanged |
| ComponentManagers.RemoveIfLive | engine/ecs/source/ComponentManager.cpp:12 | a checked removal keeps the store valid and takes the handle out of the contents whether or not it was live |
| ComponentManagers.PurgeEntitySpec | engine/ecs/source/ComponentManager.cpp:8-14 | after an entity's components are purged, every store is still valid; each handle the entity recorded is invalid in its store; other live handles keep their values; stores of types the entity lacks are unchanged |
| ComponentManagers.ComponentManager.constructor | Engine/ECS/Include/Laniakea/ECS/ComponentManager.h:269 | no type is registered at first |
| ComponentManagers.ComponentManager.Stores | Engine/ECS/Include/Laniakea/ECS/ComponentManager.h:126-131 | there is one store per registered type, each valid when the manager is |
| ComponentManagers.ComponentManager.RegisterComponent | Engine/ECS/Include/Laniakea/ECS/ComponentManager.h:28-33 | the type gets a fresh empty store, replacing any store it had; other stores are unchanged |
| ComponentManagers.ComponentManager.AddComponent | Engine/ECS/Include/Laniakea/ECS/ComponentManager.h:41-59 | the value goes into the type's store under the handle that store announced; the entity records that handle; nothing else changes |
| ComponentManagers.ComponentManager.RemoveComponent | Engine/ECS/Include/Laniakea/ECS/ComponentManager.h:66-76 | the entity's recorded handle leaves the type's store and the type leaves the entity |
| ComponentManagers.ComponentManager.GetComponent | Engine/ECS/Include/Laniakea/ECS/ComponentManager.h:84-90 | the value stored under the handle the entity records for the type |
| ComponentManagers.ComponentManager.OnEntityRemoved | engine/ecs/source/ComponentManager.cpp:8-14 | the loop over the entity's entries leaves the stores purged of every handle the entity recorded |
| ComponentManagers.ComponentManager.PurgeOne | engine/ecs/source/ComponentManager.cpp:11-13 | one iteration of that loop removes one recorded handle from its store |
| ComponentManagers.ComponentManager.RemoveFromStoreChecked | engine/ecs/source/ComponentManager.cpp:12 | `RemoveObjectChecked` on a type's store: true exactly when the handle was live; the store makes the checked removal |
| ComponentManagers.ComponentManager.GetComponentsByType | Engine/ECS/Include/Laniakea/ECS/ComponentManager.h:115-119 | empty exactly when the type is not registered, otherwise the type's store |
| ComponentManagers.ComponentManager.GetComponentArray | Engine/ECS/Include/Laniakea/ECS/ComponentManager.h:249-267 | the store registered for the type |
| ComponentManagers.ComponentManager.GetIsComponentRegistered | engine/ecs/source/ComponentManager.cpp:3-6 | true exactly when a store is keyed by the type |
| ComponentManagers.ComponentManager.RegisterComponentChecked | Engine/ECS/Include/Laniakea/ECS/ComponentManager.h:148-155 | true and a registration exactly when the type was not registered; otherwise false and no change |
| ComponentManagers.ComponentManager.AddComponentChecked | Engine/ECS/Include/Laniakea/ECS/ComponentManager.h:164-195 | true and an addition exactly when the type is registered and the entity lacks it; otherwise false and nothing changes, and the existing component stays |
| ComponentManagers.ComponentManager.RemoveComponentChecked | Engine/ECS/Include/Laniakea/ECS/ComponentManager.h:203-219 | true and a removal exactly when the type is registered, the entity has it and its handle is live in the store; otherwise false and no change |
| ComponentManagers.ComponentManager.GetComponentChecked | Engine/ECS/Include/Laniakea/ECS/ComponentManager.h:227-240 | empty exactly when the type is unregistered, the entity lacks it, or its handle is not live; otherwise the stored value |
| Systems.SystemView.SignatureChanged | Engine/ECS/Source/System.cpp:17-29 | the entity is a member afterwards exactly when its signature includes the system's (`std::includes`); other members and the signature are unchanged |
| Systems.SystemView.Matches | Engine/ECS/Source/System.cpp:19-20 | the `std::includes` test: true exactly when every type the system requires is in the entity's signature |
| Systems.SystemView.EntityRemoved | Engine/ECS/Source/System.cpp:39-45 | the entity is no member afterwards; other members and the signature are unchanged |
| Systems.SignatureChangedIdempotent | Engine/ECS/Source/System.cpp:17-45 | telling a system the same signature twice has the effect of telling it once |
| Systems.EmptySignatureMatchesAll | Engine/ECS/Source/System.cpp:19-20 | a system that requires no component type lists every entity it is told about |
| Systems.AgreeMembers | Engine/ECS/Source/System.cpp:3-14 | when the handle map and the entity store agree, the members are exactly the entity handles the store holds |
| Systems.System.constructor | Engine/ECS/Include/Laniakea/ECS/System.h:117-121 | a new system requires nothing and lists nobody |
| Systems.System.AddEntity | Engine/ECS/Source/System.cpp:3-7 | the entity handle goes into the system's store under the store's next handle, and the map records that handle |
| Systems.System.RemoveEntity | Engine/ECS/Source/System.cpp:10-14 | the member's slot leaves the store and its entry leaves the map; the other members stay |
| Systems.System.AddEntityChecked | Engine/ECS/Source/System.cpp:31-37 | true exactly when the entity was not a member; a member afterwards either way; nothing changes when false |
| Systems.System.RemoveEntityChecked | Engine/ECS/Source/System.cpp:39-45 | true exactly when the entity was a member; no member afterwards; nothing changes when false |
| Systems.System.OnEntitySignatureChanged | Engine/ECS/Source/System.cpp:17-29 | the system's view makes the signature-change transition: membership follows the inclusion rule |
| Systems.System.SetSignature | Engine/ECS/Source/System.cpp:47-55 | the required signature is replaced and the members stay |
| SystemManagers.SignatureChangedAllSpec | Engine/ECS/Source/SystemManager.cpp:13-18 | after the broadcast, every registered system lists the entity exactly when its signature includes the system's; signatures, the set of systems and other entities' membership are unchanged |
| SystemManagers.RemovedAllSpec | Engine/ECS/Source/SystemManager.cpp:20-25 | after the removal broadcast, no system lists the entity; signatures, the set of systems and other entities' membership are unchanged |
| SystemManagers.SystemManager.constructor | engine/ecs/include/SystemManager.h:143-145 | no system is registered at first |
| SystemManagers.SystemManager.RegisterSystem | engine/ecs/include/SystemManager.h:28-34 | the type gets a fresh system with the given signature and no member, replacing any system it had; other systems are unchanged |
| SystemManagers.SystemManager.NewSystem | engine/ecs/include/SystemManager.h:32-33 | `make_shared` then `SetSignature`: a fresh valid system with the signature and no member |
| SystemManagers.SystemManager.RegisterSystemChecked | engine/ecs/include/SystemManager.h:118-125 | true and a registration exactly when the type was not registered; otherwise false and no change |
| SystemManagers.SystemManager.GetSystem | Engine/ECS/Source/SystemManager.cpp:3-6 | empty exactly when the type is not registered, otherwise its system |
| SystemManagers.SystemManager.GetIsSystemRegistered | Engine/ECS/Source/SystemManager.cpp:8-11 | true exactly when the type is a key |
| SystemManagers.SystemManager.RunSystemChecked | engine/ecs/include/SystemManager.h:133-141 | reports a run exactly when the type is registered |
| SystemManagers.SystemManager.OnEntitySignatureChanged | Engine/ECS/Source/SystemManager.cpp:13-18 | the loop over the systems leaves every view after the signature-change broadcast |
| SystemManagers.SystemManager.OnEntityRemoved | Engine/ECS/Source/SystemManager.cpp:20-25 | the loop over the systems leaves every view after the removal broadcast |
| SystemManagers.SystemManager.TellSignature | Engine/ECS/Source/SystemManager.cpp:15-17 | one iteration of the broadcast: only that system's view changes |
| SystemManagers.SystemManager.TellRemoved | Engine/ECS/Source/SystemManager.cpp:22-24 | one iteration of the removal broadcast: only that system's view changes |
| EcsInvariants.LiveHandles | Engine/ECS/Include/Laniakea/ECS/PackedArray.h:139-142 | the live handles of each registered store |
| EcsInvariants.ConsistentAfterCreate | Engine/ECS/Source/ECS.cpp:3-6 | a new entity keeps the component records consistent |
| EcsInvariants.ConsistentAfterRegister | Engine/ECS/Include/Laniakea/ECS/ComponentManager.h:28-33 | registering a type that no entity records keeps the records consistent |
| EcsInvariants.ConsistentAfterAdd | Engine/ECS/Include/Laniakea/ECS/ComponentManager.h:41-59 | recording a fresh handle of a registered type keeps every record live and unshared |
| EcsInvariants.ConsistentAfterRemove | Engine/ECS/Include/Laniakea/ECS/ComponentManager.h:66-76 | dropping a record and its handle keeps the others live and unshared |
| EcsInvariants.ConsistentAfterPurge | Engine/ECS/Source/ECS.cpp:8-14 | purging an entity's handles and then its record keeps the other entities' records live |
| EcsInvariants.SoundAfterCreate | Engine/ECS/Source/ECS.cpp:3-6 | a new entity keeps every system listing only matching live entities |
| EcsInvariants.SoundAfterSignatureChange | Engine/ECS/Include/Laniakea/ECS/ECS.h:79-112 | writing the entity back and broadcasting its new signature keeps every system's list sound |
| EcsInvariants.SoundAfterRemoval | Engine/ECS/Source/ECS.cpp:8-14 | removing the entity from every system and from the table keeps the lists sound |
| EcsInvariants.SoundAfterRegisterSystem | engine/ecs/include/SystemManager.h:28-34 | a new system with no member keeps the lists sound |
| EcsInvariants.RecordedIsLive | Engine/ECS/Include/Laniakea/ECS/ComponentManager.h:203-219 | under the invariant, a component an entity records is registered and live, so the checked removal's store test always passes |
| EcsInvariants.RecordedAreRegistered | engine/ecs/source/ComponentManager.cpp:12 | under the invariant, every type an entity records is registered, as the purge's `.at` requires |
| EcsInvariants.LinkedAfterCreate | Engine/ECS/Source/ECS.cpp:3-6 | entity creation keeps the facade invariant |
| EcsInvariants.LinkedAfterRemoveEntity | Engine/ECS/Source/ECS.cpp:8-14 | the ordered removal cascade keeps the facade invariant |
| EcsInvariants.LinkedAfterRegisterComponent | Engine/ECS/Include/Laniakea/ECS/ECS.h:67-71 | registering a type no entity records keeps the facade invariant |
| EcsInvariants.LinkedAfterAddComponent | Engine/ECS/Include/Laniakea/ECS/ECS.h:79-99 | adding a component and broadcasting keeps the facade invariant |
| EcsInvariants.LinkedAfterRemoveComponent | Engine/ECS/Include/Laniakea/ECS/ECS.h:106-112 | removing a component and broadcasting keeps the facade invariant |
| EcsInvariants.LinkedAfterRegisterSystem | Engine/ECS/Include/Laniakea/ECS/ECS.h:164-168 | registering a system keeps the facade invariant |
| MembershipRule.RuleAfterChange | Engine/ECS/Include/Laniakea/ECS/ECS.h:79-112 | after an entity's new signature is broadcast, every registered system lists it exactly when its signature includes the system's |
| MembershipRule.RuleAfterRemoval | Engine/ECS/Source/ECS.cpp:8-14 | after an entity is removed, no registered system lists it, which is the rule for a dead entity |
| MembershipRule.RuleAfterRegistration | Engine/ECS/Include/Laniakea/ECS/ECS.h:164-168 | a newly registered system lists nobody, so it follows the rule for an entity exactly when that entity does not already match it |
| MembershipRule.RuleKept | Engine/ECS/Source/SystemManager.cpp:13-25 | creating, removing or changing another entity, or registering another system type, keeps a system's rule for an entity |
| MembershipRule.RuleKeptByTrace | Engine/ECS/Source/SystemManager.cpp:13-25 | any sequence of such operations keeps the rule |
| MembershipRule.RuleSinceLastChange | Engine/ECS/Include/Laniakea/ECS/ECS.h:260-308 | when an entity's signature last changed, or it was removed, after a system was registered and that system was not registered again, the system lists the entity exactly when it is live and its signature includes the system's |
| Ecs.GetComponentsSignature | Engine/ECS/Include/Laniakea/ECS/ECS.h:218-222 | the set of the listed component types |
| Ecs.ECS.constructor | Engine/ECS/Include/Laniakea/ECS/ECS.h:367-369 | a new world has no entity, no registered type and no system, and satisfies the facade invariant |
| Ecs.ECS.Stores | Engine/ECS/Include/Laniakea/ECS/ECS.h:153-157 | one store per registered type |
| Ecs.ECS.Views | Engine/ECS/Include/Laniakea/ECS/ECS.h:207-211 | one view per registered system type |
| Ecs.ECS.CreateEntity | Engine/ECS/Source/ECS.cpp:3-6 | a handle that was not live now holds a new entity carrying it; the stores and systems are unchanged |
| Ecs.ECS.RemoveEntity | Engine/ECS/Source/ECS.cpp:8-14 | the entity's components are purged from their stores, then no system lists it, then its record is gone; everything else is unchanged; the invariant holds |
| Ecs.ECS.GetIsValidEntityHandle | Engine/ECS/Source/ECS.cpp:21-25 | true exactly for the live entities |
| Ecs.ECS.GetEntity | Engine/ECS/Source/ECS.cpp:16-19 | the live entity, which carries its own handle |
| Ecs.ECS.GetEntityChecked | Engine/ECS/Source/ECS.cpp:27-30 | empty exactly for a handle that is not live |
| Ecs.ECS.RemoveEntityChecked | Engine/ECS/Source/ECS.cpp:32-38 | true and the removal cascade exactly when the handle was live; otherwise false and no change |
| Ecs.ECS.GetEntityHasComponent | Engine/ECS/Include/Laniakea/ECS/ECS.h:48-54 | whether the live entity records the type; a recorded type is registered |
| Ecs.ECS.GetEntityHasComponentChecked | Engine/ECS/Include/Laniakea/ECS/ECS.h:332-338 | false on a handle that is not live; otherwise whether the entity records the type |
| Ecs.ECS.NotRecordedUnlessRegistered | Engine/ECS/Include/Laniakea/ECS/ECS.h:332-338 | no live entity records an unregistered type, so the unregistered-type test adds nothing to the handle test |
| Ecs.ECS.GetIsComponentRegistered | Engine/ECS/Include/Laniakea/ECS/ECS.h:153-157 | true exactly when the type has a store |
| Ecs.ECS.RegisterComponent | Engine/ECS/Include/Laniakea/ECS/ECS.h:67-71 | the type gets a fresh empty store and nothing else changes; the invariant holds whenever no live entity records the type |
| Ecs.ECS.RegisterComponentChecked | Engine/ECS/Include/Laniakea/ECS/ECS.h:247-251 | true and a registration exactly when the type was not registered; otherwise false and no change; the invariant always holds |
| Ecs.ECS.AddComponent | Engine/ECS/Include/Laniakea/ECS/ECS.h:79-99 | the value is stored under the store's next handle, the entity records it, and every system is told the entity's new signature |
| Ecs.ECS.RemoveComponent | Engine/ECS/Include/Laniakea/ECS/ECS.h:106-112 | the recorded handle leaves its store, the type leaves the entity, and every system is told the new signature |
| Ecs.ECS.AddComponentChecked | Engine/ECS/Include/Laniakea/ECS/ECS.h:260-289 | true and an addition exactly when the handle is live, the type is registered and the entity lacks it; otherwise false, with no change and no broadcast |
| Ecs.ECS.RemoveComponentChecked | Engine/ECS/Include/Laniakea/ECS/ECS.h:298-308 | true and a removal exactly when the handle is live and the entity records the type; otherwise false and no change |
| Ecs.ECS.GetComponent | Engine/ECS/Include/Laniakea/ECS/ECS.h:120-125 | the value stored under the handle the entity records for the type |
| Ecs.ECS.GetComponentChecked | Engine/ECS/Include/Laniakea/ECS/ECS.h:316-324 | empty exactly when the handle is not live or the entity lacks the type; otherwise the stored value |
| Ecs.ECS.GetComponentsByType | Engine/ECS/Include/Laniakea/ECS/ECS.h:142-146 | empty exactly when the type is unregistered, otherwise the type's store |
| Ecs.ECS.RegisterSystem | Engine/ECS/Include/Laniakea/ECS/ECS.h:164-168 | the type gets a system that requires the listed types and lists nobody, including entities that already match; nothing else changes |
| Ecs.ECS.RegisterSystemChecked | Engine/ECS/Include/Laniakea/ECS/ECS.h:347-352 | true and a registration exactly when the type was not registered; otherwise false and no change |
| Ecs.ECS.GetIsSystemRegistered | Engine/ECS/Include/Laniakea/ECS/ECS.h:207-211 | true exactly when the type has a system |
| Ecs.ECS.GetSystem | Engine/ECS/Include/Laniakea/ECS/ECS.h:185-189 | empty exactly when the type is unregistered, otherwise a system whose view is the registered one |
| Ecs.ECS.RunSystemChecked | Engine/ECS/Include/Laniakea/ECS/ECS.h:359-363 | reports a run exactly when the type is registered |
| Ecs.ECS.StoreComponent | Engine/ECS/Include/Laniakea/ECS/ECS.h:83 | the component manager's step of `AddComponent`: only the stores change |
| Ecs.ECS.StoreComponentChecked | Engine/ECS/Include/Laniakea/ECS/ECS.h:266-267 | the component manager's step of `AddComponentChecked`: true exactly when the type is registered and the entity lacks it |
| Ecs.ECS.DropComponent | Engine/ECS/Include/Laniakea/ECS/ECS.h:110 | the component manager's step of `RemoveComponent`: only the stores change |
| Ecs.ECS.DropComponentChecked | Engine/ECS/Include/Laniakea/ECS/ECS.h:304-305 | the component manager's step of `RemoveComponentChecked`: true exactly when the type is registered and the entity's handle is live |
| Ecs.ECS.Publish | Engine/ECS/Include/Laniakea/ECS/ECS.h:82-84 | the entity is written back and every system is told its signature |
| Ecs.ECS.WriteEntity | Engine/ECS/Include/Laniakea/ECS/ECS.h:82-83 | the write through the `Entity&` that `GetEntity` returns: only that entity's record changes; stores and systems are unchanged |
| Ecs.ECS.TellSignature | Engine/ECS/Include/Laniakea/ECS/ECS.h:84 | only the systems' views change, by the signature-change broadcast |
| EcsScenarios.ComponentRegistrationScenario | Engine/ECS/Test/test_ecs.cpp:239-242 | a plainly registered type is registered and another is not |
| EcsScenarios.CheckedComponentRegistrationScenario | Engine/ECS/Test/test_ecs.cpp:245-247 | a second checked registration of a type is refused and the type stays registered |
| EcsScenarios.SystemRegistrationScenario | Engine/ECS/Test/test_ecs.cpp:251-255 | a plainly registered system type is registered and another is not |
| EcsScenarios.CheckedSystemRegistrationScenario | Engine/ECS/Test/test_ecs.cpp:256-260 | a system type is refused a second time whatever types are listed, and stays registered |
| EcsScenarios.RunSystemScenario | Engine/ECS/Test/test_ecs.cpp:353-355 | an unregistered system does not run; after a checked registration it does |
| EcsScenarios.EntityCreationScenario | Engine/ECS/Test/test_ecs.cpp:263-282 | handle 0 is invalid in a new world; each entity carries its own handle; a removed handle is invalid and cannot be removed again; the other entity survives until removed |
| EcsScenarios.DuplicateComponentScenario | Engine/ECS/Test/test_ecs.cpp:302 | a checked addition of a type the entity has is refused |
| EcsScenarios.RemoveTwiceScenario | Engine/ECS/Test/test_ecs.cpp:309-311 | a checked removal succeeds once and is refused the second time |
| EcsScenarios.RemovedEntityScenario | Engine/ECS/Test/test_ecs.cpp:312-313 | a removed entity has no component any more |
| EcsScenarios.PartialSignatureScenario | Engine/ECS/Test/test_ecs.cpp:172-173 | an entity given a movement but no location is not listed by the system that requires both |
| EcsScenarios.JoinScenario | Engine/ECS/Test/test_ecs.cpp:172-174 | given a location as well, the entity joins that system |
| EcsScenarios.LeaveScenario | Engine/ECS/Include/Laniakea/ECS/ECS.h:106-112 | losing a required type, the entity leaves the system |
| EcsScenarios.RemovalScenario | Engine/ECS/Source/ECS.cpp:8-14 | a removed entity is listed by no system |

## Left out

- `System::Run`, `RunSystem` and the test systems' bodies are user code. They do floating-point vector arithmetic on component values. `RunSystemChecked` is modelled as the lookup that decides whether `Run` is called.
- `GetComponentType` and `GetSystemType` hash `typeid(T)`. Type identifiers are given naturals here, and hashing is assumed injective.
- `NULL_HANDLE` (`-1ULL`, `Engine/ECS/Include/Laniakea/ECS/Core.h:4`) is only a lookup key in `Entity.cpp`. Handles and sizes are unbounded naturals, so `size_t` wrap-around is not modelled.
- The `begin`/`end` iterators of the store and the object manager are not modelled. They expose the data sequence, which is the `data` field.
- `EmplaceBack` and `CreateObject` construct the value in place. In the model they are the same operation as `Add` and `AddObject` on the constructed value.
- `IObjectManager` is the type-erased interface through which the component manager removes. With a single value type it is the object manager's own `RemoveObject`, `RemoveObjectChecked` and `Clear`.
- Every component type shares one value type `C`. Component structs of different types are not distinguished.
- `shared_ptr`/`weak_ptr` ownership is not modelled, and neither is the aliasing of stores and systems that `GetComponentsByType`, `GetComponentArray` and `GetSystem` hand out. The registries are maps to objects owned by their manager.
- `GetComponent` and `GetComponentChecked` return a reference to the stored component in the source. The model returns the value. A write through that reference, as the test does at `Engine/ECS/Test/test_ecs.cpp:298-301`, is modelled only at the store level (`PackedArray.Set`, `ObjectManager.SetObject`), not through the facade.
- `Entity` is a value in the model. The source mutates it through `Entity&`; the model writes the updated record back to its slot (`EntityManager.SetEntity`, `ECS.Publish`).
- The unchecked operations are not modelled where the source throws or has undefined behaviour; the model states the source's precondition as a `requires` instead. The cases are:
  - a handle that is not live, in `PackedArray::Remove` and the other unchecked store operations, where `.at` throws or `operator[]` inserts a default entry;
  - a component type that is not registered, where `m_Components.at` throws `std::out_of_range` (`Engine/ECS/Include/Laniakea/ECS/ComponentManager.h:264`): `ComponentManager.AddComponent`, `RemoveComponent`, `GetComponent`, `GetComponentArray` and `OnEntityRemoved`, and `ECS.AddComponent`;
  - a type the entity does not have, where `find(...)->Handle` dereferences the end iterator (`Engine/ECS/Source/Entity.cpp:32`): `Entity.GetComponentHandle`, `ECS.RemoveComponent` and `ECS.GetComponent`;
  - an entity that is not a member, in `System.RemoveEntity`, where `m_EntitiesHandles.at` throws (`Engine/ECS/Source/System.cpp:12`).
- Systems.System.AddEntity: the system's invariant is guaranteed only when the entity was not a member already. For a member, the source adds a second store slot and leaves the old one orphaned, so its handle map and store no longer agree. `AddEntityChecked` and the broadcasts never do that.
- Ecs.ECS.RegisterComponent: the facade invariant is guaranteed only when no live entity records a component of the type. Re-registering such a type replaces its store with an empty one, and the entity's records then name handles that are not live.
- Rendering, windowing, input, events, the application, the logger, the asset manager and the sample programs are not part of this model. They are I/O against OpenGL, GLFW, files and the terminal.
