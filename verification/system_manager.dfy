/** The system registry (engine/ecs/include/SystemManager.h and
    Engine/ECS/Source/SystemManager.cpp): one system per registered system
    type, each told about every change of an entity's signature and about
    every removed entity.

    The source keeps the systems behind `shared_ptr<System>`; here the map
    holds the system objects themselves, each made fresh on registration. */
module SystemManagers {
  import opened Wrappers
  import opened PackedArrays
  import opened ObjectManagers
  import opened Entities
  import opened Systems
  import opened Maps

  /** The views after the systems of the types in `done` have been told that
      the entity's signature is now `entitySignature`. */
  ghost function PartialSignatureChanged(views: map<SystemType, SystemView>, entity: EntityHandle,
                                         entitySignature: Signature, done: set<SystemType>): (r: map<SystemType, SystemView>)
    ensures r.Keys == views.Keys
  {
    map t | t in views :: if t in done then views[t].SignatureChanged(entity, entitySignature) else views[t]
  }

  /** Every system told about the entity's new signature. */
  ghost function SignatureChangedAll(views: map<SystemType, SystemView>, entity: EntityHandle,
                                     entitySignature: Signature): (r: map<SystemType, SystemView>)
    ensures r.Keys == views.Keys
  {
    PartialSignatureChanged(views, entity, entitySignature, views.Keys)
  }

  /** The views after the systems of the types in `done` dropped the entity. */
  ghost function PartialRemoved(views: map<SystemType, SystemView>, entity: EntityHandle,
                                done: set<SystemType>): (r: map<SystemType, SystemView>)
    ensures r.Keys == views.Keys
  {
    map t | t in views :: if t in done then views[t].EntityRemoved(entity) else views[t]
  }

  /** Every system without the entity. */
  ghost function RemovedAll(views: map<SystemType, SystemView>, entity: EntityHandle): (r: map<SystemType, SystemView>)
    ensures r.Keys == views.Keys
  {
    PartialRemoved(views, entity, views.Keys)
  }

  /** A broadcast that has not started changes nothing, and one that has
      reached every type is the whole broadcast. */
  lemma BroadcastEnds(views: map<SystemType, SystemView>, entity: EntityHandle, entitySignature: Signature)
    ensures PartialSignatureChanged(views, entity, entitySignature, views.Keys - views.Keys) == views
    ensures PartialSignatureChanged(views, entity, entitySignature, views.Keys - {})
         == SignatureChangedAll(views, entity, entitySignature)
    ensures PartialRemoved(views, entity, views.Keys - views.Keys) == views
    ensures PartialRemoved(views, entity, views.Keys - {}) == RemovedAll(views, entity)
  {
    assert views.Keys - views.Keys == {};
    assert views.Keys - {} == views.Keys;
  }

  /** Telling one more system extends a partial broadcast; `rest` are the
      types not yet told and `t` is taken from them. */
  lemma BroadcastStep(views: map<SystemType, SystemView>, entity: EntityHandle, entitySignature: Signature,
                      rest: set<SystemType>, t: SystemType)
    requires rest <= views.Keys && t in rest
    ensures var current := PartialSignatureChanged(views, entity, entitySignature, views.Keys - rest);
      current[t := current[t].SignatureChanged(entity, entitySignature)] ==
      PartialSignatureChanged(views, entity, entitySignature, views.Keys - (rest - {t}))
    ensures var current := PartialRemoved(views, entity, views.Keys - rest);
      current[t := current[t].EntityRemoved(entity)] ==
      PartialRemoved(views, entity, views.Keys - (rest - {t}))
  {
    assert views.Keys - (rest - {t}) == (views.Keys - rest) + {t};
  }

  /** After the broadcast of a new signature, every system lists the entity
      exactly when that signature includes the system's own, keeps its other
      members, and keeps its signature. */
  lemma {:induction false} SignatureChangedAllSpec(views: map<SystemType, SystemView>, entity: EntityHandle,
                                                   entitySignature: Signature)
    ensures forall t :: t in views ==>
      SignatureChangedAll(views, entity, entitySignature)[t].signature == views[t].signature
    ensures forall t :: t in views ==>
      (entity in SignatureChangedAll(views, entity, entitySignature)[t].members
       <==> views[t].signature <= entitySignature)
    ensures forall t, other :: t in views && other != entity ==>
      (other in SignatureChangedAll(views, entity, entitySignature)[t].members <==> other in views[t].members)
  {
    forall t | t in views
      ensures SignatureChangedAll(views, entity, entitySignature)[t] == views[t].SignatureChanged(entity, entitySignature)
    {
    }
  }

  /** After an entity is removed no system lists it, and every system keeps its
      other members and its signature. */
  lemma {:induction false} RemovedAllSpec(views: map<SystemType, SystemView>, entity: EntityHandle)
    ensures forall t :: t in views ==> RemovedAll(views, entity)[t].signature == views[t].signature
    ensures forall t :: t in views ==> entity !in RemovedAll(views, entity)[t].members
    ensures forall t, other :: t in views && other != entity ==>
      (other in RemovedAll(views, entity)[t].members <==> other in views[t].members)
  {
    forall t | t in views
      ensures RemovedAll(views, entity)[t] == views[t].EntityRemoved(entity)
    {
    }
  }

  class SystemManager {
    /** `m_Systems`. */
    var systems: map<SystemType, System>
    /** The systems ever installed and their stores. */
    ghost var Repr: set<object>
    /** The type each installed system and store belongs to. */
    ghost var Owner: map<object, SystemType>

    /** Every registered system and its store are among the objects owned. */
    ghost predicate Owned()
      reads this, Repr
    {
      && this !in Repr
      && forall t :: t in systems ==> systems[t] in Repr && systems[t].entities.objects in Repr
    }

    /** Every system is well formed, and each system and its store belong to
        the one type they are registered under, so no two types share a
        system or a store. */
    ghost predicate Valid()
      reads this, Repr
    {
      && Owned()
      && (forall t :: t in systems ==> systems[t].Valid())
      && (forall t :: t in systems ==>
            && systems[t] in Owner && Owner[systems[t]] == t
            && systems[t].entities.objects in Owner && Owner[systems[t].entities.objects] == t)
    }

    /** Each registered system's signature and members, by system type. */
    ghost function Views(): (views: map<SystemType, SystemView>)
      reads this, Repr
      requires Owned()
      ensures views.Keys == systems.Keys
    {
      map t | t in systems :: systems[t].View()
    }

    constructor ()
      ensures Valid() && Views() == map[]
      ensures fresh(Repr)
    {
      systems := map[];
      Repr := {};
      Owner := map[];
    }

    /** A step that writes neither the manager nor any object it owns leaves
        it well formed and its views as they were. */
    twostate lemma Untouched()
      requires unchanged(this) && unchanged(old(Repr))
      ensures old(Valid()) ==> Valid() && Views() == old(Views())
    {
    }

    /** Installs a fresh system requiring `systemSignature` and listing no
        entity, replacing any system the type had. */
    method RegisterSystem(systemType: SystemType, systemSignature: Signature)
      requires Valid()
      modifies this
      ensures Valid()
      ensures Views() == old(Views())[systemType := SystemView(systemSignature, {})]
      ensures fresh(Repr - old(Repr))
    {
      var system := NewSystem(systemSignature);
      ghost var added: set<object> := {system, system.entities.objects};
      assert fresh(added);
      systems := systems[systemType := system];
      Repr := Repr + added;
      Owner := Owner[system := systemType][system.entities.objects := systemType];
      assert Repr - old(Repr) <= added;
      InstallKeepsValid(systemType, system);
    }

    /** `std::make_shared<T>()` followed by `SetSignature`. */
    static method NewSystem(systemSignature: Signature) returns (system: System)
      ensures fresh(system) && fresh(system.entities.objects)
      ensures system.Valid() && system.View() == SystemView(systemSignature, {})
    {
      system := new System();
      system.SetSignature(systemSignature);
    }

    /** Registers the system unless its type already is; an existing system is kept. */
    method RegisterSystemChecked(systemType: SystemType, systemSignature: Signature) returns (registered: bool)
      requires Valid()
      modifies this
      ensures Valid()
      ensures registered == !old(GetIsSystemRegistered(systemType))
      ensures registered ==> Views() == old(Views())[systemType := SystemView(systemSignature, {})]
      ensures !registered ==> Views() == old(Views()) && systems == old(systems)
      ensures fresh(Repr - old(Repr))
    {
      if GetIsSystemRegistered(systemType) {
        return false;
      }
      RegisterSystem(systemType, systemSignature);
      return true;
    }

    /** The system of a type, or nothing when none is registered. */
    function GetSystem(systemType: SystemType): (r: Option<System>)
      reads this
      ensures r.None? <==> !GetIsSystemRegistered(systemType)
      ensures r.Some? ==> systemType in systems && r.value == systems[systemType]
    {
      if systemType in systems then Some(systems[systemType]) else None
    }

    predicate GetIsSystemRegistered(systemType: SystemType)
      reads this
      ensures GetIsSystemRegistered(systemType) <==> systemType in systems
    {
      systemType in systems
    }

    /** Whether `RunSystemChecked` finds a system to run: it runs one exactly
        when the type is registered. Running it is not modelled. */
    method RunSystemChecked(systemType: SystemType) returns (ran: bool)
      ensures ran <==> GetIsSystemRegistered(systemType)
    {
      var system := GetSystem(systemType);
      if system.None? {
        return false;
      }
      return true;
    }

    /** Tells every system the entity's new signature: afterwards each lists
        the entity exactly when the signature includes its own. */
    method OnEntitySignatureChanged(e: Entity, entitySignature: Signature)
      requires Valid()
      modifies Repr
      ensures Valid()
      ensures systems == old(systems) && Repr == old(Repr)
      ensures Views() == SignatureChangedAll(old(Views()), e.handle, entitySignature)
    {
      ghost var initial := Views();
      BroadcastEnds(initial, e.handle, entitySignature);
      var rest := systems.Keys;
      while rest != {}
        invariant Valid() && systems == old(systems) && Repr == old(Repr)
        invariant rest <= systems.Keys
        invariant Views() == PartialSignatureChanged(initial, e.handle, entitySignature, systems.Keys - rest)
        decreases rest
      {
        var t :| t in rest;
        BroadcastStep(initial, e.handle, entitySignature, rest, t);
        TellSignature(t, e, entitySignature);
        rest := rest - {t};
      }
    }

    /** Tells every system the entity is gone: afterwards none lists it. */
    method OnEntityRemoved(e: Entity)
      requires Valid()
      modifies Repr
      ensures Valid()
      ensures systems == old(systems) && Repr == old(Repr)
      ensures Views() == RemovedAll(old(Views()), e.handle)
    {
      ghost var initial := Views();
      BroadcastEnds(initial, e.handle, {});
      var rest := systems.Keys;
      while rest != {}
        invariant Valid() && systems == old(systems) && Repr == old(Repr)
        invariant rest <= systems.Keys
        invariant Views() == PartialRemoved(initial, e.handle, systems.Keys - rest)
        decreases rest
      {
        var t :| t in rest;
        BroadcastStep(initial, e.handle, {}, rest, t);
        TellRemoved(t, e);
        rest := rest - {t};
      }
    }

    /** `System.second->OnEntitySignatureChanged(entity, signature)` for one
        system; no other system changes. */
    method TellSignature(systemType: SystemType, e: Entity, entitySignature: Signature)
      requires Valid() && systemType in systems
      modifies systems[systemType], systems[systemType].entities.objects
      ensures Valid() && systems == old(systems) && Repr == old(Repr)
      ensures Views() == old(Views())[systemType := old(Views()[systemType]).SignatureChanged(e.handle, entitySignature)]
    {
      var system := systems[systemType];
      assert system in Repr && system.entities.objects in Repr;
      system.OnEntitySignatureChanged(e, entitySignature);
      OtherSystemsValid(systemType);
    }

    /** `System.second->RemoveEntityChecked(entity)` for one system; no other
        system changes. */
    method TellRemoved(systemType: SystemType, e: Entity)
      requires Valid() && systemType in systems
      modifies systems[systemType], systems[systemType].entities.objects
      ensures Valid() && systems == old(systems) && Repr == old(Repr)
      ensures Views() == old(Views())[systemType := old(Views()[systemType]).EntityRemoved(e.handle)]
    {
      var system := systems[systemType];
      assert system in Repr && system.entities.objects in Repr;
      var _ := system.RemoveEntityChecked(e);
      OtherSystemsValid(systemType);
    }

    /** After a write to one system and its store, the other systems, which
        are distinct objects with distinct stores, are still well formed and
        unchanged. */
    twostate lemma OtherSystemsValid(systemType: SystemType)
      requires old(Valid()) && systemType in systems
      requires systems == old(systems) && Repr == old(Repr) && Owner == old(Owner)
      requires systems[systemType].Valid()
      requires forall o :: o in Repr && o != systems[systemType] && o != systems[systemType].entities.objects ==> unchanged(o)
      ensures Valid()
      ensures Views() == old(Views())[systemType := systems[systemType].View()]
    {
      forall t | t in systems && t != systemType
        ensures systems[t].Valid() && systems[t].View() == old(systems[t].View())
      {
        var s := systems[t];
        assert s != systems[systemType] && s.entities.objects != systems[systemType].entities.objects;
        assert unchanged(s) && unchanged(s.entities.objects);
      }
      ViewsAfterWrite(systemType);
    }

    /** The views after one system changed or was installed and no other
        changed. */
    twostate lemma ViewsAfterWrite(systemType: SystemType)
      requires old(Owned()) && Owned() && systemType in systems
      requires systems.Keys == old(systems).Keys + {systemType}
      requires forall t :: t in systems && t != systemType ==> t in old(systems) && systems[t].View() == old(systems[t].View())
      ensures Views() == old(Views())[systemType := systems[systemType].View()]
    {
      var after := old(Views())[systemType := systems[systemType].View()];
      forall t | t in systems
        ensures Views()[t] == after[t]
      {
      }
      SameMaps(Views(), after);
    }

    /** Installing a new system, whose object and store are not owned yet,
        keeps the others well formed and unchanged. */
    twostate lemma InstallKeepsValid(systemType: SystemType, new system: System)
      requires old(Valid()) && system.Valid()
      requires system !in old(Repr) && system.entities.objects !in old(Repr)
      requires systems == old(systems)[systemType := system]
      requires Repr == old(Repr) + {system, system.entities.objects}
      requires Owner == old(Owner)[system := systemType][system.entities.objects := systemType]
      requires forall o :: o in old(Repr) ==> unchanged(o)
      ensures Valid()
      ensures Views() == old(Views())[systemType := system.View()]
    {
      forall t | t in systems && t != systemType
        ensures systems[t] in old(Repr) && systems[t].entities.objects in old(Repr)
        ensures systems[t].Valid() && systems[t].View() == old(systems[t].View())
        ensures systems[t] in Owner && Owner[systems[t]] == t
        ensures systems[t].entities.objects in Owner && Owner[systems[t].entities.objects] == t
      {
        assert t in old(systems) && systems[t] == old(systems[t]);
        assert unchanged(systems[t]) && unchanged(systems[t].entities.objects);
        assert systems[t] != system && systems[t].entities.objects != system.entities.objects;
      }
      assert Owned();
      ViewsAfterWrite(systemType);
    }
  }
}
