/** Systems (Engine/ECS/Source/System.cpp): a system requires a signature and
    keeps the list of entities that currently satisfy it.

    Membership is kept twice, as in the source: the object store `entities`
    holds the members' entity handles, and `entitiesHandles` maps each member
    to the handle of its copy in that store. */
module Systems {
  import opened PackedArrays
  import opened ObjectManagers
  import opened Entities
  import opened Maps

  /** What a system is, seen from outside: the signature it requires and the
      entities it lists. */
  datatype SystemView = SystemView(signature: Signature, members: set<EntityHandle>)
  {
    /** The membership rule (`std::includes(signature, m_Signature)`): an
        entity belongs exactly when its signature contains every type the
        system requires. */
    predicate Matches(entitySignature: Signature)
      ensures Matches(entitySignature) <==> forall t :: t in signature ==> t in entitySignature
    {
      signature <= entitySignature
    }

    /** The view after the entity's signature became `entitySignature`. */
    function SignatureChanged(entity: EntityHandle, entitySignature: Signature): (r: SystemView)
      ensures r.signature == signature
      ensures entity in r.members <==> Matches(entitySignature)
      ensures forall other :: other != entity ==> (other in r.members <==> other in members)
    {
      if Matches(entitySignature) then this.(members := members + {entity})
      else this.(members := members - {entity})
    }

    /** The view after the entity was removed from the world. */
    function EntityRemoved(entity: EntityHandle): (r: SystemView)
      ensures r.signature == signature
      ensures entity !in r.members
      ensures forall other :: other != entity ==> (other in r.members <==> other in members)
    {
      this.(members := members - {entity})
    }
  }

  /** Telling a system the same signature twice has the effect of telling it once. */
  lemma {:induction false} SignatureChangedIdempotent(v: SystemView, entity: EntityHandle, entitySignature: Signature)
    ensures v.SignatureChanged(entity, entitySignature).SignatureChanged(entity, entitySignature)
         == v.SignatureChanged(entity, entitySignature)
  {
    var once := v.SignatureChanged(entity, entitySignature);
    if v.Matches(entitySignature) {
      assert once.members + {entity} == once.members;
    } else {
      assert once.members - {entity} == once.members;
    }
  }

  /** A system that requires nothing lists every entity it is told about. */
  lemma EmptySignatureMatchesAll(members: set<EntityHandle>, entity: EntityHandle, entitySignature: Signature)
    ensures SystemView({}, members).SignatureChanged(entity, entitySignature).members == members + {entity}
  {
  }

  /** The two records of membership agree: `records` maps each member to a
      handle whose copy in `copies` is that member, and every copy belongs to
      the member recorded for it. */
  ghost predicate Agree(records: map<EntityHandle, nat>, copies: map<nat, EntityHandle>) {
    && (forall e :: e in records ==> records[e] in copies && copies[records[e]] == e)
    && (forall h :: h in copies ==> copies[h] in records && records[copies[h]] == h)
  }

  /** Recording a new member under a handle not in use keeps the records in
      agreement. */
  lemma {:induction false} AgreeAfterAdd(records: map<EntityHandle, nat>, copies: map<nat, EntityHandle>,
                                         e: EntityHandle, h: nat)
    requires Agree(records, copies) && e !in records && h !in copies
    ensures Agree(records[e := h], copies[h := e])
  {
    var records', copies' := records[e := h], copies[h := e];
    forall m | m in records'
      ensures records'[m] in copies' && copies'[records'[m]] == m
    {
      if m != e {
        assert records[m] in copies;
      }
    }
  }

  /** Dropping a member and its copy keeps the records in agreement. */
  lemma {:induction false} AgreeAfterRemove(records: map<EntityHandle, nat>, copies: map<nat, EntityHandle>,
                                            e: EntityHandle)
    requires Agree(records, copies) && e in records
    ensures Agree(records - {e}, copies - {records[e]})
  {
    forall m | m in records - {e}
      ensures records[m] in copies - {records[e]}
    {
      assert copies[records[m]] == m;
    }
    forall h | h in copies - {records[e]}
      ensures copies[h] in records - {e}
    {
      assert records[copies[h]] == h;
    }
  }

  /** With the records in agreement, the members are exactly the values of
      the copies. */
  lemma {:induction false} AgreeMembers(records: map<EntityHandle, nat>, copies: map<nat, EntityHandle>)
    requires Agree(records, copies)
    ensures records.Keys == copies.Values
  {
    forall m | m in records
      ensures m in copies.Values
    {
      assert copies[records[m]] == m;
    }
    forall m | m in copies.Values
      ensures m in records
    {
      var h :| h in copies && copies[h] == m;
    }
  }

  class System {
    /** `m_Signature`. */
    var signature: Signature
    /** `m_EntitiesHandles`: member entity handle to the handle of its copy. */
    var entitiesHandles: map<EntityHandle, nat>
    /** `m_Entities`, owned by value. */
    const entities: ObjectManager<EntityHandle>

    /** The entities the system lists. */
    function Members(): set<EntityHandle>
      reads this
    {
      entitiesHandles.Keys
    }

    ghost function View(): SystemView
      reads this
    {
      SystemView(signature, Members())
    }

    /** The two records of membership agree: each member has exactly one live
        copy in the store, and the store holds nothing else. */
    ghost predicate Valid()
      reads this, entities.objects
    {
      && entities.Valid()
      && Agree(entitiesHandles, entities.Contents())
    }

    constructor ()
      ensures Valid() && signature == {} && Members() == {}
      ensures fresh(entities) && fresh(entities.objects)
    {
      signature := {};
      entitiesHandles := map[];
      entities := new ObjectManager<EntityHandle>();
    }

    /** Stores a copy of the entity's handle and records where it is. Adding
        an entity that is already a member stores a second copy and forgets
        the first, so the records then disagree; only the checked form is
        proved to keep them in agreement. */
    method AddEntity(e: Entity)
      requires Valid()
      modifies this, entities.objects
      ensures entities.Valid()
      ensures signature == old(signature)
      ensures Members() == old(Members()) + {e.handle}
      ensures entitiesHandles == old(entitiesHandles)[e.handle := old(entities.GetNextHandle())]
      ensures entities.Contents() == old(entities.Contents())[old(entities.GetNextHandle()) := e.handle]
      ensures e.handle !in old(Members()) ==> Valid()
    {
      ghost var copies := entities.Contents();
      ghost var records := entitiesHandles;
      var handle := entities.AddObject(e.handle);
      assert unchanged(this);
      if e.handle !in entitiesHandles {
        AgreeAfterAdd(entitiesHandles, copies, e.handle, handle);
      }
      entitiesHandles := entitiesHandles[e.handle := handle];
      SameMaps(entitiesHandles, records[e.handle := handle]);
    }

    /** Deletes the member's copy and its record; the entity must be a member
        (`m_EntitiesHandles.at`). */
    method RemoveEntity(e: Entity)
      requires Valid() && e.handle in Members()
      modifies this, entities.objects
      ensures Valid()
      ensures signature == old(signature)
      ensures Members() == old(Members()) - {e.handle}
      ensures entitiesHandles == old(entitiesHandles) - {e.handle}
      ensures entities.Contents() == old(entities.Contents()) - {old(entitiesHandles[e.handle])}
    {
      ghost var copies := entities.Contents();
      ghost var records := entitiesHandles;
      var handle := entitiesHandles[e.handle];
      AgreeAfterRemove(entitiesHandles, copies, e.handle);
      entities.RemoveObject(handle);
      assert unchanged(this);
      entitiesHandles := entitiesHandles - {e.handle};
      SameMaps(entitiesHandles, records - {e.handle});
      assert Members() == records.Keys - {e.handle};
    }

    /** Adds the entity unless it is a member already; on refusal nothing changes. */
    method AddEntityChecked(e: Entity) returns (added: bool)
      requires Valid()
      modifies this, entities.objects
      ensures Valid()
      ensures added == (e.handle !in old(Members()))
      ensures signature == old(signature)
      ensures Members() == old(Members()) + {e.handle}
      ensures !added ==> entitiesHandles == old(entitiesHandles) && entities.State() == old(entities.State())
    {
      if e.handle in entitiesHandles {
        return false;
      }
      AddEntity(e);
      return true;
    }

    /** Removes the entity if it is a member; otherwise nothing changes. */
    method RemoveEntityChecked(e: Entity) returns (removed: bool)
      requires Valid()
      modifies this, entities.objects
      ensures Valid()
      ensures removed == (e.handle in old(Members()))
      ensures signature == old(signature)
      ensures Members() == old(Members()) - {e.handle}
      ensures !removed ==> entitiesHandles == old(entitiesHandles) && entities.State() == old(entities.State())
    {
      if e.handle !in entitiesHandles {
        return false;
      }
      RemoveEntity(e);
      return true;
    }

    /** Lists the entity exactly when its new signature includes the system's.
        When the membership is already right nothing changes, so a repeated
        call is a no-op. */
    method OnEntitySignatureChanged(e: Entity, entitySignature: Signature)
      requires Valid()
      modifies this, entities.objects
      ensures Valid()
      ensures View() == old(View()).SignatureChanged(e.handle, entitySignature)
      ensures (e.handle in old(Members())) == old(View()).Matches(entitySignature) ==>
        entitiesHandles == old(entitiesHandles) && entities.State() == old(entities.State())
    {
      var matches := signature <= entitySignature;
      if matches {
        var _ := AddEntityChecked(e);
      } else {
        var _ := RemoveEntityChecked(e);
      }
    }

    /** Replaces the required signature; the members stay as they are. */
    method SetSignature(newSignature: Signature)
      requires Valid()
      modifies this
      ensures Valid()
      ensures View() == SystemView(newSignature, old(Members()))
      ensures entitiesHandles == old(entitiesHandles)
    {
      signature := newSignature;
    }
  }
}
