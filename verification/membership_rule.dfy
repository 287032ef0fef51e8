/** The membership rule of the facade over time. A system lists an entity
    exactly when the entity is live and its signature includes the
    system's, provided the entity's signature changed (or the entity was
    removed) after the system was registered. Registration itself does not
    look at existing entities, so before such a change the rule can fail.

    The facade operations act on the entity table and the system views as
    the events below do (see the postconditions of `Ecs.ECS`):
    `CreateEntity` is `Created`, `RemoveEntity` is `Removed`, `AddComponent`
    and `RemoveComponent` (and their checked forms when they succeed) are
    `Changed` of the updated entity, and `RegisterSystem` is
    `SystemRegistered`. Registering a component type and the refused checked
    calls leave both unchanged. */
module MembershipRule {
  import opened Entities
  import opened Systems
  import opened SystemManagers

  /** What one facade operation does to the table and the views. */
  datatype Event =
    | Created(handle: EntityHandle)
    | Removed(handle: EntityHandle)
    | Changed(entity: Entity)
    | SystemRegistered(systemType: SystemType, signature: Signature)

  /** The entity table and the system views. */
  datatype World = World(table: map<EntityHandle, Entity>, views: map<SystemType, SystemView>)

  ghost function Apply(w: World, event: Event): World {
    match event
    case Created(g) => w.(table := w.table[g := NewEntity(g)])
    case Removed(g) => World(w.table - {g}, RemovedAll(w.views, g))
    case Changed(e) => World(w.table[e.handle := e], SignatureChangedAll(w.views, e.handle, e.components.Keys))
    case SystemRegistered(t, signature) => w.(views := w.views[t := SystemView(signature, {})])
  }

  /** The world after the events of `trace`, oldest first. */
  ghost function Replay(w: World, trace: seq<Event>): World
    decreases |trace|
  {
    if trace == [] then w else Apply(Replay(w, trace[..|trace| - 1]), trace[|trace| - 1])
  }

  /** Whether the event concerns the entity `h` or re-registers the system `s`. */
  predicate Touches(event: Event, s: SystemType, h: EntityHandle) {
    match event
    case Created(g) => g == h
    case Removed(g) => g == h
    case Changed(e) => e.handle == h
    case SystemRegistered(t, _) => t == s
  }

  /** The system `s` is registered and lists `h` exactly when `h` is live and
      its signature includes the system's. */
  ghost predicate FollowsRule(w: World, s: SystemType, h: EntityHandle) {
    && s in w.views
    && (h in w.views[s].members <==> h in w.table && w.views[s].Matches(w.table[h].components.Keys))
  }

  /** After an entity's signature is broadcast, every registered system
      follows the rule for it. */
  lemma {:induction false} RuleAfterChange(w: World, e: Entity, s: SystemType)
    requires s in w.views
    ensures FollowsRule(Apply(w, Changed(e)), s, e.handle)
  {
    SignatureChangedAllSpec(w.views, e.handle, e.components.Keys);
  }

  /** After an entity is removed, every registered system follows the rule
      for it: it lists it no more. */
  lemma {:induction false} RuleAfterRemoval(w: World, h: EntityHandle, s: SystemType)
    requires s in w.views
    ensures FollowsRule(Apply(w, Removed(h)), s, h)
  {
    RemovedAllSpec(w.views, h);
  }

  /** A freshly registered system follows the rule for an entity exactly
      when the entity does not already match it: registration lists nobody. */
  lemma RuleAfterRegistration(w: World, s: SystemType, signature: Signature, h: EntityHandle)
    ensures h !in Apply(w, SystemRegistered(s, signature)).views[s].members
    ensures FollowsRule(Apply(w, SystemRegistered(s, signature)), s, h)
        <==> !(h in w.table && signature <= w.table[h].components.Keys)
  {
  }

  /** An event that neither concerns `h` nor re-registers `s` keeps the rule. */
  lemma {:induction false} RuleKept(w: World, event: Event, s: SystemType, h: EntityHandle)
    requires FollowsRule(w, s, h) && !Touches(event, s, h)
    ensures FollowsRule(Apply(w, event), s, h)
  {
    match event
    case Created(g) =>
      assert g != h;
    case Removed(g) =>
      RemovedAllSpec(w.views, g);
    case Changed(e) =>
      SignatureChangedAllSpec(w.views, e.handle, e.components.Keys);
    case SystemRegistered(t, signature) =>
      assert t != s;
  }

  /** Events that neither concern `h` nor re-register `s` keep the rule. */
  lemma {:induction false} RuleKeptByTrace(w: World, trace: seq<Event>, s: SystemType, h: EntityHandle)
    requires FollowsRule(w, s, h)
    requires forall i :: 0 <= i < |trace| ==> !Touches(trace[i], s, h)
    ensures FollowsRule(Replay(w, trace), s, h)
    decreases |trace|
  {
    if trace != [] {
      var prefix := trace[..|trace| - 1];
      RuleKeptByTrace(w, prefix, s, h);
      RuleKept(Replay(w, prefix), trace[|trace| - 1], s, h);
    }
  }

  /** Replaying two traces one after the other replays their concatenation. */
  lemma {:induction false} ReplayAppend(w: World, first: seq<Event>, second: seq<Event>)
    ensures Replay(w, first + second) == Replay(Replay(w, first), second)
    decreases |second|
  {
    if second == [] {
      assert first + second == first;
    } else {
      var last := second[|second| - 1];
      var shorter := second[..|second| - 1];
      assert (first + second)[..|first + second| - 1] == first + shorter;
      ReplayAppend(w, first, shorter);
    }
  }

  /** The rule over a whole history: if event `i` changed the signature of
      `h` or removed it, `s` was registered by then, and no later event
      concerns `h` or re-registers `s`, then `s` follows the rule for `h`
      at the end. */
  lemma {:induction false} RuleSinceLastChange(w: World, trace: seq<Event>, i: nat, s: SystemType, h: EntityHandle)
    requires i < |trace|
    requires (trace[i].Changed? && trace[i].entity.handle == h) || trace[i] == Removed(h)
    requires s in Replay(w, trace[..i]).views
    requires forall j :: i < j < |trace| ==> !Touches(trace[j], s, h)
    ensures FollowsRule(Replay(w, trace), s, h)
  {
    var before := Replay(w, trace[..i]);
    assert trace[..i + 1][..i] == trace[..i];
    var after := Replay(w, trace[..i + 1]);
    assert after == Apply(before, trace[i]);
    if trace[i].Changed? {
      RuleAfterChange(before, trace[i].entity, s);
    } else {
      RuleAfterRemoval(before, h, s);
    }
    var rest := trace[i + 1..];
    forall j | 0 <= j < |rest|
      ensures !Touches(rest[j], s, h)
    {
      assert rest[j] == trace[i + 1 + j];
    }
    RuleKeptByTrace(after, rest, s, h);
    assert trace[..i + 1] + rest == trace;
    ReplayAppend(w, trace[..i + 1], rest);
  }
}
