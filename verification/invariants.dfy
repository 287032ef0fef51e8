/** The invariants that tie the three managers of the ECS facade together,
    stated on their abstract states, and the proofs that every facade
    operation keeps them.

    - `Consistent`: each component recorded on a live entity is live in its
      type's store, and no two entities share one. It is stated on the live
      handles of the stores, which is all it depends on.
    - `MembershipSound`: a system lists only live entities whose signature
      includes the system's. The converse is not an invariant of the source:
      a system registered after an entity got its components does not list
      it until that entity's signature changes again; the module
      `MembershipRule` states the rule from that change on. */
module EcsInvariants {
  import opened PackedArrays
  import opened Entities
  import opened ComponentManagers
  import opened Systems
  import opened SystemManagers
  import opened Maps

  ghost predicate StoresValid<C>(stores: map<ComponentType, PackedState<C>>) {
    forall t :: t in stores ==> stores[t].Valid()
  }

  /** The live handles of every registered store. */
  function LiveHandles<C>(stores: map<ComponentType, PackedState<C>>): (live: map<ComponentType, set<ComponentHandle>>)
    ensures live.Keys == stores.Keys
    ensures forall t, h :: t in stores ==> (h in live[t] <==> stores[t].IsValidHandle(h))
  {
    map t | t in stores :: stores[t].handleToIndex.Keys
  }

  /** The components recorded on live entities are all there: every pair
      `{t, h}` on a live entity names a registered type whose store has `h`
      live, and no two entities record the same handle of the same type. */
  ghost predicate Consistent(table: map<EntityHandle, Entity>, live: map<ComponentType, set<ComponentHandle>>) {
    && (forall e, t :: e in table && t in table[e].components ==>
          t in live && table[e].components[t] in live[t])
    && (forall e1, e2, t :: e1 in table && e2 in table && e1 != e2 &&
          t in table[e1].components && t in table[e2].components
          ==> table[e1].components[t] != table[e2].components[t])
  }

  ghost predicate MembershipSound(table: map<EntityHandle, Entity>, views: map<SystemType, SystemView>) {
    forall s, h :: s in views && h in views[s].members ==>
      h in table && views[s].Matches(table[h].components.Keys)
  }

  /** An insertion makes the announced handle, which was not live, live. */
  lemma LiveAfterAdd<C>(stores: map<ComponentType, PackedState<C>>, t: ComponentType, x: C)
    requires t in stores && stores[t].Valid()
    ensures stores[t].NextHandle() !in LiveHandles(stores)[t]
    ensures LiveHandles(stores[t := stores[t].Add(x)])
         == LiveHandles(stores)[t := LiveHandles(stores)[t] + {stores[t].NextHandle()}]
  {
    NextHandleIsFresh(stores[t]);
    var next := stores[t].NextHandle();
    var after := LiveHandles(stores[t := stores[t].Add(x)]);
    var expected := LiveHandles(stores)[t := LiveHandles(stores)[t] + {next}];
    forall u | u in stores
      ensures after[u] == expected[u]
    {
      if u == t {
        assert stores[t].Add(x).handleToIndex == stores[t].handleToIndex[next := stores[t].Size()];
      }
    }
  }

  /** A removal makes exactly the removed handle dead. */
  lemma LiveAfterRemove<C>(stores: map<ComponentType, PackedState<C>>, t: ComponentType, handle: ComponentHandle)
    requires t in stores && stores[t].Valid() && stores[t].IsValidHandle(handle)
    ensures LiveHandles(stores[t := stores[t].Remove(handle)])
         == LiveHandles(stores)[t := LiveHandles(stores)[t] - {handle}]
  {
    RemoveSpec(stores[t], handle);
    assert stores[t].Remove(handle).Contents().Keys == stores[t].Remove(handle).handleToIndex.Keys;
    assert stores[t].Contents().Keys == stores[t].handleToIndex.Keys;
  }

  /** The live handles after an entity's components are deleted. */
  ghost function PurgedHandles(live: map<ComponentType, set<ComponentHandle>>, e: Entity): (r: map<ComponentType, set<ComponentHandle>>)
    ensures r.Keys == live.Keys
  {
    map t | t in live :: if t in e.components then live[t] - {e.components[t]} else live[t]
  }

  /** Purging an entity makes exactly the handles it records dead. */
  lemma {:induction false} LiveAfterPurge<C>(stores: map<ComponentType, PackedState<C>>, e: Entity)
    requires StoresValid(stores)
    ensures StoresValid(PurgeEntity(stores, e))
    ensures LiveHandles(PurgeEntity(stores, e)) == PurgedHandles(LiveHandles(stores), e)
  {
    var purged := PurgeEntity(stores, e);
    var live := LiveHandles(purged);
    var expected := PurgedHandles(LiveHandles(stores), e);
    forall t | t in stores
      ensures purged[t].Valid() && live[t] == expected[t]
    {
      LiveAfterPurgeAt(stores, e, t);
    }
    SameMaps(live, expected);
  }


  /** The same, for the store of one type. */
  lemma LiveAfterPurgeAt<C>(stores: map<ComponentType, PackedState<C>>, e: Entity, t: ComponentType)
    requires StoresValid(stores) && t in stores
    ensures PurgeEntity(stores, e)[t].Valid()
    ensures PurgeEntity(stores, e)[t].handleToIndex.Keys == PurgedHandles(LiveHandles(stores), e)[t]
  {
    var purged := PurgeEntity(stores, e);
    if t in e.components {
      var r := RemoveIfLive(stores[t], e.components[t]);
      assert purged[t] == r;
      assert r.Contents().Keys == r.handleToIndex.Keys;
      assert stores[t].Contents().Keys == stores[t].handleToIndex.Keys;
    } else {
      assert purged[t] == stores[t];
    }
  }

  /** A new entity has no components, so it records nothing. */
  lemma ConsistentAfterCreate(table: map<EntityHandle, Entity>, live: map<ComponentType, set<ComponentHandle>>,
                              h: EntityHandle)
    requires Consistent(table, live)
    ensures Consistent(table[h := NewEntity(h)], live)
  {
  }

  /** Installing an empty store keeps the records right as long as no live
      entity records a component of that type. */
  lemma ConsistentAfterRegister(table: map<EntityHandle, Entity>, live: map<ComponentType, set<ComponentHandle>>,
                                t: ComponentType)
    requires Consistent(table, live)
    requires forall h :: h in table ==> t !in table[h].components
    ensures Consistent(table, live[t := {}])
  {
  }

  /** Making a dead handle live and recording it on the entity keeps the
      records right: since it was dead, no other entity records it. When the
      entity already has the type it keeps its record and the new handle is
      recorded nowhere. */
  lemma {:induction false} ConsistentAfterAdd(table: map<EntityHandle, Entity>,
                                              live: map<ComponentType, set<ComponentHandle>>,
                                              h: EntityHandle, t: ComponentType, next: ComponentHandle)
    requires Consistent(table, live)
    requires h in table && t in live && next !in live[t]
    ensures Consistent(table[h := table[h].AddComponent(ComponentInfo(t, next))], live[t := live[t] + {next}])
  {
    var table' := table[h := table[h].AddComponent(ComponentInfo(t, next))];
    forall e1, e2, u | e1 in table' && e2 in table' && e1 != e2 &&
        u in table'[e1].components && u in table'[e2].components
      ensures table'[e1].components[u] != table'[e2].components[u]
    {
      if u == t && e1 == h && t !in table[h].components {
        assert table[e2].components[u] in live[t];
      } else if u == t && e2 == h && t !in table[h].components {
        assert table[e1].components[u] in live[t];
      }
    }
  }

  /** Deleting the entity's component of one type from the live handles and
      from the entity keeps the records right: no other entity records that
      handle. The handle is live, so the unchecked removal may be used. */
  lemma {:induction false} ConsistentAfterRemove(table: map<EntityHandle, Entity>,
                                                 live: map<ComponentType, set<ComponentHandle>>,
                                                 h: EntityHandle, t: ComponentType)
    requires Consistent(table, live)
    requires h in table && t in table[h].components
    ensures t in live && table[h].components[t] in live[t]
    ensures Consistent(table[h := table[h].RemoveComponent(t)], live[t := live[t] - {table[h].components[t]}])
  {
    var handle := table[h].components[t];
    var table' := table[h := table[h].RemoveComponent(t)];
    forall e, u | e in table' && u in table'[e].components
      ensures table'[e].components[u] in live[t := live[t] - {handle}][u]
    {
      assert u in table[e].components && table'[e].components[u] == table[e].components[u];
      if u == t {
        assert e != h;
      }
    }
  }

  /** Killing every handle an entity records and dropping the entity keeps
      the records of the others right: none of them shares a handle with it. */
  lemma {:induction false} ConsistentAfterPurge(table: map<EntityHandle, Entity>,
                                                live: map<ComponentType, set<ComponentHandle>>, h: EntityHandle)
    requires Consistent(table, live)
    requires h in table
    ensures Consistent(table - {h}, PurgedHandles(live, table[h]))
  {
    var e := table[h];
    forall other, u | other in table - {h} && u in table[other].components
      ensures table[other].components[u] in PurgedHandles(live, e)[u]
    {
      if u in e.components {
        assert table[other].components[u] != e.components[u];
      }
    }
  }

  /** A new entity is listed by no system. */
  lemma SoundAfterCreate(table: map<EntityHandle, Entity>, views: map<SystemType, SystemView>, h: EntityHandle)
    requires MembershipSound(table, views) && h !in table
    ensures MembershipSound(table[h := NewEntity(h)], views)
  {
  }

  /** Writing an entity back and telling every system its new signature keeps
      every listing sound. */
  lemma {:induction false} SoundAfterSignatureChange(table: map<EntityHandle, Entity>,
                                                     views: map<SystemType, SystemView>, e: Entity)
    requires MembershipSound(table, views)
    ensures MembershipSound(table[e.handle := e], SignatureChangedAll(views, e.handle, e.components.Keys))
  {
    var views' := SignatureChangedAll(views, e.handle, e.components.Keys);
    SignatureChangedAllSpec(views, e.handle, e.components.Keys);
    forall s, m | s in views' && m in views'[s].members
      ensures m in table[e.handle := e] && views'[s].Matches(table[e.handle := e][m].components.Keys)
    {
      if m != e.handle {
        assert m in views[s].members;
      }
    }
  }

  /** Removing an entity from the world and from every system keeps every
      listing sound. */
  lemma {:induction false} SoundAfterRemoval(table: map<EntityHandle, Entity>,
                                             views: map<SystemType, SystemView>, h: EntityHandle)
    requires MembershipSound(table, views)
    ensures MembershipSound(table - {h}, RemovedAll(views, h))
  {
    var views' := RemovedAll(views, h);
    RemovedAllSpec(views, h);
    forall s, m | s in views' && m in views'[s].members
      ensures m in table - {h} && views'[s].Matches(table[m].components.Keys)
    {
      assert m in views[s].members && m != h;
    }
  }

  /** A newly registered system lists nobody. */
  lemma SoundAfterRegisterSystem(table: map<EntityHandle, Entity>, views: map<SystemType, SystemView>,
                                 s: SystemType, signature: Signature)
    requires MembershipSound(table, views)
    ensures MembershipSound(table, views[s := SystemView(signature, {})])
  {
  }

  /** Both invariants of the facade, on the three abstract states. */
  ghost predicate Linked<C>(table: map<EntityHandle, Entity>, stores: map<ComponentType, PackedState<C>>,
                            views: map<SystemType, SystemView>) {
    Consistent(table, LiveHandles(stores)) && MembershipSound(table, views)
  }

  /** Every component recorded on a live entity is live in its registered store. */
  lemma RecordedIsLive<C>(table: map<EntityHandle, Entity>, stores: map<ComponentType, PackedState<C>>,
                          views: map<SystemType, SystemView>, h: EntityHandle, t: ComponentType)
    requires Linked(table, stores, views) && h in table && t in table[h].components
    ensures t in stores && stores[t].IsValidHandle(table[h].components[t])
  {
    assert table[h].components[t] in LiveHandles(stores)[t];
  }

  /** Every type recorded on a live entity is registered. */
  lemma RecordedAreRegistered<C>(table: map<EntityHandle, Entity>, stores: map<ComponentType, PackedState<C>>,
                                 views: map<SystemType, SystemView>, h: EntityHandle)
    requires Linked(table, stores, views) && h in table
    ensures forall t :: t in table[h].components ==> t in stores
  {
    forall t | t in table[h].components
      ensures t in stores
    {
      RecordedIsLive(table, stores, views, h, t);
    }
  }

  /** `CreateEntity` keeps both invariants. */
  lemma LinkedAfterCreate<C>(table: map<EntityHandle, Entity>, stores: map<ComponentType, PackedState<C>>,
                             views: map<SystemType, SystemView>, h: EntityHandle)
    requires Linked(table, stores, views) && h !in table
    ensures Linked(table[h := NewEntity(h)], stores, views)
  {
    ConsistentAfterCreate(table, LiveHandles(stores), h);
    SoundAfterCreate(table, views, h);
  }

  /** `RemoveEntity` keeps both invariants; every type the entity records is
      registered, as the purge of its components needs. */
  lemma LinkedAfterRemoveEntity<C>(table: map<EntityHandle, Entity>, stores: map<ComponentType, PackedState<C>>,
                                   views: map<SystemType, SystemView>, h: EntityHandle)
    requires Linked(table, stores, views) && StoresValid(stores) && h in table
    ensures forall t :: t in table[h].components ==> t in stores
    ensures StoresValid(PurgeEntity(stores, table[h]))
    ensures Linked(table - {h}, PurgeEntity(stores, table[h]), RemovedAll(views, h))
  {
    LiveAfterPurge(stores, table[h]);
    ConsistentAfterPurge(table, LiveHandles(stores), h);
    SoundAfterRemoval(table, views, h);
  }

  /** Registering a component type keeps both invariants when no live entity
      records that type, which holds whenever the type was not registered. */
  lemma LinkedAfterRegisterComponent<C>(table: map<EntityHandle, Entity>,
                                        stores: map<ComponentType, PackedState<C>>,
                                        views: map<SystemType, SystemView>, t: ComponentType)
    requires Linked(table, stores, views)
    requires forall h :: h in table ==> t !in table[h].components
    ensures Linked(table, stores[t := Empty()], views)
  {
    var live := LiveHandles(stores[t := Empty()]);
    forall u | u in live
      ensures live[u] == LiveHandles(stores)[t := {}][u]
    {
    }
    SameMaps(live, LiveHandles(stores)[t := {}]);
    ConsistentAfterRegister(table, LiveHandles(stores), t);
  }

  /** `AddComponent` keeps both invariants: the store gains the value, the
      entity records the new handle (unless it had the type), and every system
      learns the entity's signature. */
  lemma LinkedAfterAddComponent<C>(table: map<EntityHandle, Entity>, stores: map<ComponentType, PackedState<C>>,
                                   views: map<SystemType, SystemView>, h: EntityHandle, t: ComponentType, x: C)
    requires Linked(table, stores, views) && h in table && table[h].handle == h
    requires t in stores && stores[t].Valid()
    ensures var e := table[h].AddComponent(ComponentInfo(t, stores[t].NextHandle()));
      Linked(table[h := e], stores[t := stores[t].Add(x)], SignatureChangedAll(views, h, e.components.Keys))
  {
    var e := table[h].AddComponent(ComponentInfo(t, stores[t].NextHandle()));
    LiveAfterAdd(stores, t, x);
    ConsistentAfterAdd(table, LiveHandles(stores), h, t, stores[t].NextHandle());
    SoundAfterSignatureChange(table, views, e);
  }

  /** `RemoveComponent` keeps both invariants; the handle the entity records
      is live, so the unchecked removal applies. */
  lemma LinkedAfterRemoveComponent<C>(table: map<EntityHandle, Entity>, stores: map<ComponentType, PackedState<C>>,
                                      views: map<SystemType, SystemView>, h: EntityHandle, t: ComponentType)
    requires Linked(table, stores, views) && StoresValid(stores) && h in table && table[h].handle == h
    requires t in table[h].components
    ensures t in stores && stores[t].IsValidHandle(table[h].components[t])
    ensures var e := table[h].RemoveComponent(t);
      Linked(table[h := e], stores[t := stores[t].Remove(table[h].components[t])],
             SignatureChangedAll(views, h, e.components.Keys))
  {
    var e := table[h].RemoveComponent(t);
    ConsistentAfterRemove(table, LiveHandles(stores), h, t);
    LiveAfterRemove(stores, t, table[h].components[t]);
    SoundAfterSignatureChange(table, views, e);
  }

  /** Registering a system keeps both invariants. */
  lemma LinkedAfterRegisterSystem<C>(table: map<EntityHandle, Entity>, stores: map<ComponentType, PackedState<C>>,
                                     views: map<SystemType, SystemView>, s: SystemType, signature: Signature)
    requires Linked(table, stores, views)
    ensures Linked(table, stores, views[s := SystemView(signature, {})])
  {
    SoundAfterRegisterSystem(table, views, s, signature);
  }
}
