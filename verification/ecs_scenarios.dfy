/** The facade scenarios of the library's tests (Engine/ECS/Test/test_ecs.cpp),
    stated as methods whose postconditions are the answers the tests expect.
    Component values are integers, and component and system types are
    numbered. */
module EcsScenarios {
  import opened Wrappers
  import opened Entities
  import opened Systems
  import opened SystemManagers
  import opened Ecs

  const Location: ComponentType := 0
  const Movement: ComponentType := 1
  const Damage: ComponentType := 2
  const HP: ComponentType := 3

  const MovementSystem: SystemType := 0
  const DamageSystem: SystemType := 1
  const RenderSystem: SystemType := 2

  /** A plainly registered component type is registered; another is not. */
  method ComponentRegistrationScenario() returns (a0: bool, a1: bool)
    ensures a0 && !a1
  {
    var ecs := new ECS<int>();
    ecs.RegisterComponent(Location);
    a0 := ecs.GetIsComponentRegistered(Location);
    a1 := ecs.GetIsComponentRegistered(Movement);
  }

  /** A second checked registration of a type is refused, and the type stays
      registered. */
  method CheckedComponentRegistrationScenario() returns (a0: bool, a1: bool, a2: bool)
    ensures a0 && !a1 && a2
  {
    var ecs := new ECS<int>();
    a0 := ecs.RegisterComponentChecked(HP);
    a1 := ecs.RegisterComponentChecked(HP);
    a2 := ecs.GetIsComponentRegistered(HP);
  }

  /** A plainly registered system type is registered; another is not. */
  method SystemRegistrationScenario() returns (a0: bool, a1: bool)
    ensures a0 && !a1
  {
    var ecs := new ECS<int>();
    ecs.RegisterSystem(MovementSystem, [Location, Movement]);
    a0 := ecs.GetIsSystemRegistered(MovementSystem);
    a1 := ecs.GetIsSystemRegistered(DamageSystem);
  }

  /** A system type registered once is refused a second time, whatever
      component types are listed, and stays registered. */
  method CheckedSystemRegistrationScenario() returns (a0: bool, a1: bool, a2: bool)
    ensures a0 && !a1 && a2
  {
    var ecs := new ECS<int>();
    a0 := ecs.RegisterSystemChecked(DamageSystem, [Damage, HP]);
    a1 := ecs.RegisterSystemChecked(DamageSystem, [HP, Damage]);
    a2 := ecs.GetIsSystemRegistered(DamageSystem);
  }

  /** A system that is not registered does not run; once registered it does. */
  method RunSystemScenario() returns (a0: bool, a1: bool, a2: bool)
    ensures !a0 && a1 && a2
  {
    var ecs := new ECS<int>();
    a0 := ecs.RunSystemChecked(RenderSystem);
    a1 := ecs.RegisterSystemChecked(RenderSystem, []);
    a2 := ecs.RunSystemChecked(RenderSystem);
  }

  /** Creating and removing entities: each new entity carries its own handle,
      a removed handle is no longer valid and cannot be removed again, and
      the other entity is unaffected. */
  method EntityCreationScenario() returns (e1: EntityHandle, e2: EntityHandle, answers: seq<bool>)
    ensures e1 != e2
    ensures answers == [false, true, true, true, true, false, true, false, true, false]
  {
    var ecs := new ECS<int>();
    var a0 := ecs.GetIsValidEntityHandle(0);
    e1 := ecs.CreateEntity();
    e2 := ecs.CreateEntity();
    var a1 := ecs.GetEntity(e1).handle == e1;
    var en2 := ecs.GetEntityChecked(e2);
    var a2 := en2.Some? && en2.value.handle == e2;
    var a3 := ecs.GetIsValidEntityHandle(e1);
    var a4 := ecs.GetIsValidEntityHandle(e2);
    ecs.RemoveEntity(e1);
    var a5 := ecs.GetIsValidEntityHandle(e1);
    var a6 := ecs.GetIsValidEntityHandle(e2);
    var a7 := ecs.RemoveEntityChecked(e1);
    var a8 := ecs.RemoveEntityChecked(e2);
    var a9 := ecs.GetIsValidEntityHandle(e2);
    answers := [a0, a1, a2, a3, a4, a5, a6, a7, a8, a9];
  }

  /* Steps of the component scenario of the library's tests, each from the
     state the previous step leaves. */

  /** A checked addition of a type the entity already has is refused. */
  method DuplicateComponentScenario(ecs: ECS<int>, e: EntityHandle) returns (added: bool)
    requires ecs.Valid() && e in ecs.Table() && Location in ecs.Table()[e].components
    modifies ecs.entityManager.entities.objects, ecs.componentManager.Repr, ecs.systemManager.Repr
    ensures !added
  {
    added := ecs.AddComponentChecked(e, Location, 0);
  }

  /** A checked removal succeeds once and is refused the second time. */
  method RemoveTwiceScenario(ecs: ECS<int>, e: EntityHandle) returns (first: bool, second: bool)
    requires ecs.Valid() && e in ecs.Table() && HP in ecs.Table()[e].components
    modifies ecs.entityManager.entities.objects, ecs.componentManager.Repr, ecs.systemManager.Repr
    ensures first && !second
  {
    first := ecs.RemoveComponentChecked(e, HP);
    second := ecs.RemoveComponentChecked(e, HP);
  }

  /** A removed entity has no component any more. */
  method RemovedEntityScenario(ecs: ECS<int>, e: EntityHandle) returns (has: bool)
    requires ecs.Valid() && e in ecs.Table()
    modifies ecs.entityManager.entities.objects, ecs.componentManager.Repr, ecs.systemManager.Repr
    ensures !has
  {
    ecs.RemoveEntity(e);
    has := ecs.GetEntityHasComponentChecked(e, Location);
  }

  /* The movement scenario of the library's tests: a system registered for
     locations and movements follows the signature of an entity whose
     components change after the system was registered. It is stated one
     step at a time, each from the state the previous step leaves. */

  /** An entity given a movement but no location is not listed. */
  method PartialSignatureScenario(ecs: ECS<int>, e: EntityHandle) returns (listed: bool)
    requires ecs.Valid() && ecs.GetIsValidEntityHandle(e) && !ecs.GetEntityHasComponent(e, Location)
    requires ecs.GetIsComponentRegistered(Movement)
    requires MovementSystem in ecs.Views() && ecs.Views()[MovementSystem].signature == {Location, Movement}
    modifies ecs.entityManager.entities.objects, ecs.componentManager.Repr, ecs.systemManager.Repr
    ensures !listed
  {
    ecs.AddComponent(e, Movement, 5);
    assert Location !in ecs.Table()[e].components;
    var system := ecs.GetSystem(MovementSystem);
    listed := system.Some? && e in system.value.Members();
  }

  /** Given a location as well, the entity joins the system. */
  method JoinScenario(ecs: ECS<int>, e: EntityHandle) returns (listed: bool)
    requires ecs.Valid() && e in ecs.Table() && ecs.Table()[e].components.Keys == {Movement}
    requires ecs.GetIsComponentRegistered(Location)
    requires MovementSystem in ecs.Views() && ecs.Views()[MovementSystem].signature == {Location, Movement}
    modifies ecs.entityManager.entities.objects, ecs.componentManager.Repr, ecs.systemManager.Repr
    ensures listed
  {
    ecs.AddComponent(e, Location, 7);
    var system := ecs.GetSystem(MovementSystem);
    listed := system.Some? && e in system.value.Members();
  }

  /** Losing its location, the entity leaves the system. */
  method LeaveScenario(ecs: ECS<int>, e: EntityHandle) returns (listed: bool)
    requires ecs.Valid() && ecs.GetIsValidEntityHandle(e) && ecs.GetEntityHasComponent(e, Location)
    requires MovementSystem in ecs.Views() && Location in ecs.Views()[MovementSystem].signature
    modifies ecs.entityManager.entities.objects, ecs.componentManager.Repr, ecs.systemManager.Repr
    ensures !listed
  {
    ecs.RemoveComponent(e, Location);
    var system := ecs.GetSystem(MovementSystem);
    listed := system.Some? && e in system.value.Members();
  }

  /** A removed entity is listed by no system. */
  method RemovalScenario(ecs: ECS<int>, e: EntityHandle, s: SystemType) returns (listed: bool)
    requires ecs.Valid() && e in ecs.Table() && s in ecs.Views()
    modifies ecs.entityManager.entities.objects, ecs.componentManager.Repr, ecs.systemManager.Repr
    ensures !listed
  {
    ecs.RemoveEntity(e);
    var system := ecs.GetSystem(s);
    listed := system.Some? && e in system.value.Members();
  }
}
