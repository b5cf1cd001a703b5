/**
 * The ECS `Layer`: it owns an entity manager (each entity's component
 * signature), a component manager (the stored components of each type) and
 * a system manager (each system's interest signature and entity set), and
 * keeps them in step when components are added or removed and when
 * entities are destroyed.
 *
 * The three managers are described here by the behaviour the layer relies
 * on: a signature per entity, a store per component type, and systems whose
 * entity set follows "the signature contains the system's interest".
 */
module Ecs {
  import opened Wrappers

  // ---------------------------------------------------------------------
  // Settings
  // ---------------------------------------------------------------------

  const MaxEntities: Entity := 20000
  const MaxComponents: int := 32
  /** The id that stands for "no entity", one past the last id the entity manager hands out. */
  const EntityNull: Entity := MaxEntities + 1

  /** `Entity` is a 32-bit unsigned id. */
  type Entity = x: int | 0 <= x < 0x1_0000_0000
  /** `ComponentType` is an 8-bit unsigned id. */
  type ComponentType = x: int | 0 <= x < 0x100

  /** `Signature` is a `std::bitset<MAXCOMPONENTS>`: the set of its set bits. */
  type Signature = s: set<ComponentType> | forall t :: t in s ==> t < MaxComponents

  /** `bitset::set(pos, value)`, which throws `std::out_of_range` for a position past the end. */
  function SetBit(s: Signature, t: ComponentType, value: bool): (r: Result<Signature, LayerError>)
    ensures r.Ok? <==> t < MaxComponents
    ensures r.Ok? ==> (t in r.value) == value && (forall u :: u != t ==> (u in r.value <==> u in s))
  {
    if t >= MaxComponents then Err(OutOfRange)
    else if value then Ok(s + {t})
    else Ok(s - {t})
  }

  datatype LayerError = OutOfRange

  // ---------------------------------------------------------------------
  // The managers
  // ---------------------------------------------------------------------

  datatype EntityManager = EntityManager(signatures: map<Entity, Signature>) {

    /** An entity without a recorded signature has the empty one. */
    function GetSignature(e: Entity): Signature
    {
      if e in signatures then signatures[e] else {}
    }

    function SetSignature(e: Entity, s: Signature): EntityManager
    {
      EntityManager(signatures[e := s])
    }

    function DestroyEntity(e: Entity): EntityManager
    {
      EntityManager(signatures - {e})
    }
  }

  datatype ComponentManager<V> = ComponentManager(stores: map<ComponentType, map<Entity, V>>) {

    predicate Has(e: Entity, t: ComponentType)
    {
      t in stores && e in stores[t]
    }

    function Store(t: ComponentType): map<Entity, V>
    {
      if t in stores then stores[t] else map[]
    }

    function AddComponent(e: Entity, c: V, t: ComponentType): ComponentManager<V>
    {
      ComponentManager(stores[t := Store(t)[e := c]])
    }

    function RemoveComponent(e: Entity, t: ComponentType): ComponentManager<V>
    {
      ComponentManager(stores[t := Store(t) - {e}])
    }

    function DestroyEntity(e: Entity): ComponentManager<V>
    {
      ComponentManager(map t | t in stores :: stores[t] - {e})
    }
  }

  datatype System = System(interest: Signature, entities: set<Entity>) {

    /** The system keeps `e` exactly when `e`'s signature contains its interest. */
    function SignatureChanged(e: Entity, s: Signature): System
    {
      if interest <= s then System(interest, entities + {e}) else System(interest, entities - {e})
    }
  }

  datatype SystemManager = SystemManager(systems: seq<System>) {

    /** `EntitySignatureChanged`: every system re-decides whether it holds `e`. */
    function EntitySignatureChanged(e: Entity, s: Signature): (r: SystemManager)
      ensures |r.systems| == |systems|
    {
      SystemManager(seq(|systems|, i requires 0 <= i < |systems| => systems[i].SignatureChanged(e, s)))
    }

    function DestroyEntity(e: Entity): (r: SystemManager)
      ensures |r.systems| == |systems|
    {
      SystemManager(seq(|systems|, i requires 0 <= i < |systems| =>
        System(systems[i].interest, systems[i].entities - {e})))
    }
  }

  /** The three managers together. */
  datatype Managers<V> = Managers(entities: EntityManager, components: ComponentManager<V>, systems: SystemManager)

  /** An entity has a component type's bit exactly when a component of that type is stored for it. */
  predicate SignaturesMatchStores<V>(m: Managers<V>)
  {
    forall e: Entity, t: ComponentType :: m.components.Has(e, t) <==> t in m.entities.GetSignature(e)
  }

  /** Every system holds exactly the entities whose signature contains its interest. */
  predicate SystemsInStep<V>(m: Managers<V>)
  {
    forall i, e: Entity :: 0 <= i < |m.systems.systems| ==>
      (e in m.systems.systems[i].entities <==>
       e in m.entities.signatures && m.systems.systems[i].interest <= m.entities.signatures[e])
  }

  /** Destroying one entity in all three managers. */
  function DestroyOne<V>(m: Managers<V>, e: Entity): Managers<V>
  {
    Managers(m.entities.DestroyEntity(e), m.components.DestroyEntity(e), m.systems.DestroyEntity(e))
  }

  /** Destroying the queued entities one after the other, in queue order. */
  function DestroyAll<V>(m: Managers<V>, queue: seq<Entity>): Managers<V>
  {
    if queue == [] then m
    else DestroyOne(DestroyAll(m, queue[..|queue| - 1]), queue[|queue| - 1])
  }

  /** The entities a queue holds, each once. */
  function Queued(queue: seq<Entity>): set<Entity>
  {
    set e | e in queue
  }

  /** The queued entities adding the last one of a queue to the others. */
  lemma QueuedSplit(queue: seq<Entity>)
    requires queue != []
    ensures Queued(queue) == Queued(queue[..|queue| - 1]) + {queue[|queue| - 1]}
  {
    assert queue == queue[..|queue| - 1] + [queue[|queue| - 1]];
  }

  /** Destroying a queue drops exactly the queued entities' signatures. */
  lemma {:induction false} DestroyAllSignatures<V>(m: Managers<V>, queue: seq<Entity>)
    ensures DestroyAll(m, queue).entities.signatures == m.entities.signatures - Queued(queue)
  {
    if queue != [] {
      DestroyAllSignatures(m, queue[..|queue| - 1]);
      QueuedSplit(queue);
    }
  }

  /** Destroying a queue keeps every collection and drops exactly the queued entities from each. */
  lemma {:induction false} DestroyAllStores<V>(m: Managers<V>, queue: seq<Entity>)
    ensures var r := DestroyAll(m, queue).components.stores;
            r.Keys == m.components.stores.Keys &&
            forall t :: t in r ==> r[t] == m.components.stores[t] - Queued(queue)
  {
    if queue != [] {
      DestroyAllStores(m, queue[..|queue| - 1]);
      QueuedSplit(queue);
    }
  }

  /** Destroying a queue keeps every system's interest and drops exactly the queued entities from its set. */
  lemma {:induction false} DestroyAllSystems<V>(m: Managers<V>, queue: seq<Entity>)
    ensures var r := DestroyAll(m, queue).systems.systems;
            |r| == |m.systems.systems| &&
            forall i :: 0 <= i < |r| ==>
              r[i] == System(m.systems.systems[i].interest, m.systems.systems[i].entities - Queued(queue))
  {
    if queue != [] {
      DestroyAllSystems(m, queue[..|queue| - 1]);
      QueuedSplit(queue);
    }
  }

  /**
   * Destroying a queue removes exactly the queued entities from every
   * signature, store and system, whatever their order, and leaves the
   * rest alone.
   */
  lemma DestroyAllRemoves<V>(m: Managers<V>, queue: seq<Entity>)
    ensures var r := DestroyAll(m, queue);
            var gone := Queued(queue);
            r.entities.signatures == m.entities.signatures - gone &&
            r.components.stores.Keys == m.components.stores.Keys &&
            (forall t :: t in r.components.stores ==> r.components.stores[t] == m.components.stores[t] - gone) &&
            |r.systems.systems| == |m.systems.systems| &&
            (forall i :: 0 <= i < |r.systems.systems| ==>
               r.systems.systems[i] == System(m.systems.systems[i].interest, m.systems.systems[i].entities - gone))
  {
    DestroyAllSignatures(m, queue);
    DestroyAllStores(m, queue);
    DestroyAllSystems(m, queue);
  }

  /** Destroying an entity keeps signatures and stores matched, and systems in step. */
  lemma DestroyOnePreserves<V>(m: Managers<V>, e: Entity)
    ensures SignaturesMatchStores(m) ==> SignaturesMatchStores(DestroyOne(m, e))
    ensures SystemsInStep(m) ==> SystemsInStep(DestroyOne(m, e))
  {
    var r := DestroyOne(m, e);
    if SignaturesMatchStores(m) {
      forall x: Entity, t: ComponentType
        ensures r.components.Has(x, t) <==> t in r.entities.GetSignature(x)
      {
        assert m.components.Has(x, t) <==> t in m.entities.GetSignature(x);
      }
    }
  }

  lemma {:induction false} DestroyAllPreserves<V>(m: Managers<V>, queue: seq<Entity>)
    ensures SignaturesMatchStores(m) ==> SignaturesMatchStores(DestroyAll(m, queue))
    ensures SystemsInStep(m) ==> SystemsInStep(DestroyAll(m, queue))
  {
    if queue != [] {
      DestroyAllPreserves(m, queue[..|queue| - 1]);
      DestroyOnePreserves(DestroyAll(m, queue[..|queue| - 1]), queue[|queue| - 1]);
    }
  }

  /** Setting a bit and storing a component of that type keeps signatures and stores matched. */
  lemma AddPreservesMatch<V>(m: Managers<V>, e: Entity, c: V, t: ComponentType)
    requires SignaturesMatchStores(m) && t < MaxComponents
    ensures var s := m.entities.GetSignature(e) + {t};
            SignaturesMatchStores(Managers(m.entities.SetSignature(e, s), m.components.AddComponent(e, c, t), m.systems))
  {
    var s := m.entities.GetSignature(e) + {t};
    var r := Managers(m.entities.SetSignature(e, s), m.components.AddComponent(e, c, t), m.systems);
    forall x: Entity, u: ComponentType
      ensures r.components.Has(x, u) <==> u in r.entities.GetSignature(x)
    {
      assert m.components.Has(x, u) <==> u in m.entities.GetSignature(x);
    }
  }

  /** Clearing a bit and erasing the stored component of that type keeps signatures and stores matched. */
  lemma RemovePreservesMatch<V>(m: Managers<V>, e: Entity, t: ComponentType)
    requires SignaturesMatchStores(m) && t < MaxComponents
    ensures var s := m.entities.GetSignature(e) - {t};
            SignaturesMatchStores(Managers(m.entities.SetSignature(e, s), m.components.RemoveComponent(e, t), m.systems))
  {
    var s := m.entities.GetSignature(e) - {t};
    var r := Managers(m.entities.SetSignature(e, s), m.components.RemoveComponent(e, t), m.systems);
    forall x: Entity, u: ComponentType
      ensures r.components.Has(x, u) <==> u in r.entities.GetSignature(x)
    {
      assert m.components.Has(x, u) <==> u in m.entities.GetSignature(x);
    }
  }

  /**
   * Storing the component in another type's collection breaks the match:
   * the entity then holds a component of type `collection` whose bit is
   * not set, unless it already had one.
   */
  lemma ForeignCollectionBreaksMatch<V>(m: Managers<V>, e: Entity, c: V, t: ComponentType, collection: ComponentType)
    requires SignaturesMatchStores(m) && t < MaxComponents && t != collection && !m.components.Has(e, collection)
    ensures var s := m.entities.GetSignature(e) + {t};
            !SignaturesMatchStores(Managers(m.entities.SetSignature(e, s), m.components.AddComponent(e, c, collection), m.systems))
  {
    var s := m.entities.GetSignature(e) + {t};
    var r := Managers(m.entities.SetSignature(e, s), m.components.AddComponent(e, c, collection), m.systems);
    assert r.components.Has(e, collection);
    assert collection !in m.entities.GetSignature(e);
    assert collection !in r.entities.GetSignature(e);
  }

  /** After a notification with the entity's new signature, the systems are in step again. */
  lemma SignatureChangedInStep<V>(m: Managers<V>, e: Entity, s: Signature)
    requires SystemsInStep(m)
    ensures SystemsInStep(Managers(m.entities.SetSignature(e, s), m.components, m.systems.EntitySignatureChanged(e, s)))
  {
  }

  /** A notification moves only `e`: every other entity keeps its system memberships. */
  lemma SignatureChangedOnlyMoves(sm: SystemManager, e: Entity, s: Signature, i: int, x: Entity)
    requires 0 <= i < |sm.systems|
    ensures x != e ==> (x in sm.EntitySignatureChanged(e, s).systems[i].entities <==> x in sm.systems[i].entities)
    ensures e in sm.EntitySignatureChanged(e, s).systems[i].entities <==> sm.systems[i].interest <= s
  {
  }

  // ---------------------------------------------------------------------
  // The layer
  // ---------------------------------------------------------------------

  class Layer<V> {
    var entityManager: EntityManager
    var componentManager: ComponentManager<V>
    var systemManager: SystemManager
    var entitiesToDestroy: seq<Entity>
    var ignoreSignatureChanged: bool

    function State(): Managers<V>
      reads this
    {
      Managers(entityManager, componentManager, systemManager)
    }

    /** Empty managers, nothing queued, notifications on. */
    constructor ()
      ensures State() == Managers(EntityManager(map[]), ComponentManager(map[]), SystemManager([]))
      ensures entitiesToDestroy == [] && !ignoreSignatureChanged
      ensures SignaturesMatchStores(State()) && SystemsInStep(State())
    {
      entityManager := EntityManager(map[]);
      componentManager := ComponentManager(map[]);
      systemManager := SystemManager([]);
      entitiesToDestroy := [];
      ignoreSignatureChanged := false;
    }

    /** Copies the other layer's managers; only allowed with nothing queued for destruction. */
    method Overwrite(other: Layer<V>)
      requires |entitiesToDestroy| == 0
      modifies this
      ensures State() == old(other.State())
      ensures entitiesToDestroy == old(entitiesToDestroy)
      ensures ignoreSignatureChanged == old(ignoreSignatureChanged)
    {
      var em, cm, sm := other.entityManager, other.componentManager, other.systemManager;
      entityManager := em;
      componentManager := cm;
      systemManager := sm;
    }

    /** Queues the entity; it keeps its signature and components until the queue is flushed. */
    method MarkEntityForDestruction(e: Entity)
      modifies this
      ensures entitiesToDestroy == old(entitiesToDestroy) + [e]
      ensures State() == old(State()) && ignoreSignatureChanged == old(ignoreSignatureChanged)
    {
      entitiesToDestroy := entitiesToDestroy + [e];
    }

    /** Destroys every queued entity in all three managers, in queue order, and empties the queue. */
    method DestroyMarkedEntities()
      modifies this
      ensures State() == DestroyAll(old(State()), old(entitiesToDestroy))
      ensures entitiesToDestroy == [] && ignoreSignatureChanged == old(ignoreSignatureChanged)
      ensures old(SignaturesMatchStores(State())) ==> SignaturesMatchStores(State())
      ensures old(SystemsInStep(State())) ==> SystemsInStep(State())
    {
      ghost var start := State();
      ghost var queue := entitiesToDestroy;
      for i := 0 to |entitiesToDestroy|
        invariant entitiesToDestroy == queue && ignoreSignatureChanged == old(ignoreSignatureChanged)
        invariant State() == DestroyAll(start, queue[..i])
      {
        var e := entitiesToDestroy[i];
        assert queue[..i + 1][..i] == queue[..i];
        assert DestroyAll(start, queue[..i + 1]) == DestroyOne(State(), e);
        entityManager := entityManager.DestroyEntity(e);
        componentManager := componentManager.DestroyEntity(e);
        systemManager := systemManager.DestroyEntity(e);
      }
      assert queue[..|queue|] == queue;
      entitiesToDestroy := [];
      DestroyAllPreserves(start, queue);
    }

    /** Destroys one entity in all three managers at once; the queue is not touched. */
    method ImmediatelyDestroyEntity(e: Entity)
      modifies this
      ensures State() == DestroyOne(old(State()), e)
      ensures entitiesToDestroy == old(entitiesToDestroy) && ignoreSignatureChanged == old(ignoreSignatureChanged)
      ensures old(SignaturesMatchStores(State())) ==> SignaturesMatchStores(State())
      ensures old(SystemsInStep(State())) ==> SystemsInStep(State())
    {
      DestroyOnePreserves(State(), e);
      entityManager := entityManager.DestroyEntity(e);
      componentManager := componentManager.DestroyEntity(e);
      systemManager := systemManager.DestroyEntity(e);
    }

    /** The entity's signature. */
    function GetSignature(e: Entity): (s: Signature)
      reads this
      ensures e in entityManager.signatures ==> s == entityManager.signatures[e]
      ensures e !in entityManager.signatures ==> s == {}
    {
      entityManager.GetSignature(e)
    }

    /**
     * `AddComponent(entity, component, componentType)`: sets the type's bit
     * in the entity's signature, tells the systems unless notifications are
     * suppressed, and stores the component.  A type past the last bit makes
     * `bitset::set` throw before anything changes.
     */
    method AddComponent(e: Entity, c: V, t: ComponentType) returns (r: Result<V, LayerError>)
      modifies this
      ensures t >= MaxComponents ==> r == Err(OutOfRange) && State() == old(State())
      ensures t < MaxComponents ==>
                var s := old(entityManager.GetSignature(e)) + {t};
                r == Ok(c) &&
                entityManager == old(entityManager).SetSignature(e, s) &&
                componentManager == old(componentManager).AddComponent(e, c, t) &&
                systemManager == (if old(ignoreSignatureChanged) then old(systemManager)
                                  else old(systemManager).EntitySignatureChanged(e, s))
      ensures entitiesToDestroy == old(entitiesToDestroy) && ignoreSignatureChanged == old(ignoreSignatureChanged)
      ensures old(SignaturesMatchStores(State())) ==> SignaturesMatchStores(State())
      ensures !ignoreSignatureChanged && old(SystemsInStep(State())) ==> SystemsInStep(State())
    {
      var signature :- SetBit(entityManager.GetSignature(e), t, true);
      if SignaturesMatchStores(State()) {
        AddPreservesMatch(State(), e, c, t);
      }
      if SystemsInStep(State()) {
        SignatureChangedInStep(State(), e, signature);
      }
      entityManager := entityManager.SetSignature(e, signature);
      if !ignoreSignatureChanged {
        systemManager := systemManager.EntitySignatureChanged(e, signature);
      }
      componentManager := componentManager.AddComponent(e, c, t);
      return Ok(c);
    }

    /**
     * The overload that adds through a component collection the caller
     * passes: the bit set is `t`'s, the store written is `collection`'s.
     * They agree only when the caller passes `t`'s own collection.
     */
    method AddComponentToCollection(e: Entity, c: V, t: ComponentType, collection: ComponentType)
      returns (r: Result<V, LayerError>)
      modifies this
      ensures t >= MaxComponents ==> r == Err(OutOfRange) && State() == old(State())
      ensures t < MaxComponents ==>
                var s := old(entityManager.GetSignature(e)) + {t};
                r == Ok(c) &&
                entityManager == old(entityManager).SetSignature(e, s) &&
                componentManager == old(componentManager).AddComponent(e, c, collection) &&
                systemManager == (if old(ignoreSignatureChanged) then old(systemManager)
                                  else old(systemManager).EntitySignatureChanged(e, s))
      ensures entitiesToDestroy == old(entitiesToDestroy) && ignoreSignatureChanged == old(ignoreSignatureChanged)
      ensures collection == t && old(SignaturesMatchStores(State())) ==> SignaturesMatchStores(State())
      ensures !ignoreSignatureChanged && old(SystemsInStep(State())) ==> SystemsInStep(State())
    {
      var signature :- SetBit(entityManager.GetSignature(e), t, true);
      if SignaturesMatchStores(State()) && collection == t {
        AddPreservesMatch(State(), e, c, t);
      }
      if SystemsInStep(State()) {
        SignatureChangedInStep(State(), e, signature);
      }
      entityManager := entityManager.SetSignature(e, signature);
      if !ignoreSignatureChanged {
        systemManager := systemManager.EntitySignatureChanged(e, signature);
      }
      componentManager := componentManager.AddComponent(e, c, collection);
      return Ok(c);
    }

    /**
     * `RemoveComponent`: erases the stored component, then clears the
     * type's bit and tells the systems unless notifications are suppressed.
     * A type past the last bit makes `bitset::set` throw after the
     * component is already erased.
     */
    method RemoveComponent(e: Entity, t: ComponentType) returns (r: Result<(), LayerError>)
      modifies this
      ensures componentManager == old(componentManager).RemoveComponent(e, t)
      ensures t >= MaxComponents ==>
                r == Err(OutOfRange) && entityManager == old(entityManager) && systemManager == old(systemManager)
      ensures t < MaxComponents ==>
                var s := old(entityManager.GetSignature(e)) - {t};
                r == Ok(()) &&
                entityManager == old(entityManager).SetSignature(e, s) &&
                systemManager == (if old(ignoreSignatureChanged) then old(systemManager)
                                  else old(systemManager).EntitySignatureChanged(e, s))
      ensures entitiesToDestroy == old(entitiesToDestroy) && ignoreSignatureChanged == old(ignoreSignatureChanged)
      ensures t < MaxComponents && old(SignaturesMatchStores(State())) ==> SignaturesMatchStores(State())
      ensures t < MaxComponents && !ignoreSignatureChanged && old(SystemsInStep(State())) ==> SystemsInStep(State())
    {
      ghost var before := State();
      componentManager := componentManager.RemoveComponent(e, t);
      var signature :- SetBit(entityManager.GetSignature(e), t, false);
      if SignaturesMatchStores(before) {
        RemovePreservesMatch(before, e, t);
      }
      if SystemsInStep(before) {
        SignatureChangedInStep(before, e, signature);
      }
      entityManager := entityManager.SetSignature(e, signature);
      if !ignoreSignatureChanged {
        systemManager := systemManager.EntitySignatureChanged(e, signature);
      }
      return Ok(());
    }

    /**
     * After a batch of changes with notifications suppressed: tells the
     * systems the entity's current signature and turns notifications on.
     */
    method FinalizeEntitySystems(e: Entity)
      modifies this
      ensures systemManager == old(systemManager).EntitySignatureChanged(e, old(entityManager.GetSignature(e)))
      ensures entityManager == old(entityManager) && componentManager == old(componentManager)
      ensures entitiesToDestroy == old(entitiesToDestroy) && !ignoreSignatureChanged
    {
      systemManager := systemManager.EntitySignatureChanged(e, entityManager.GetSignature(e));
      ignoreSignatureChanged := false;
    }

    method IgnoreSignatureChanged(value: bool)
      modifies this
      ensures ignoreSignatureChanged == value
      ensures State() == old(State()) && entitiesToDestroy == old(entitiesToDestroy)
    {
      ignoreSignatureChanged := value;
    }
  }

  /**
   * Batch adding: with notifications suppressed the systems do not move
   * while the components go in; finalizing the entity afterwards leaves
   * every system as one notification with the final signature would, so
   * systems that were in step are in step again.
   */
  method BatchAddThenFinalize<V>(layer: Layer<V>, e: Entity, c1: V, t1: ComponentType, c2: V, t2: ComponentType)
    requires t1 < MaxComponents && t2 < MaxComponents
    modifies layer
    ensures var s := old(layer.GetSignature(e)) + {t1, t2};
            layer.GetSignature(e) == s &&
            layer.systemManager == old(layer.systemManager).EntitySignatureChanged(e, s)
    ensures |layer.systemManager.systems| == old(|layer.systemManager.systems|)
    ensures forall i :: 0 <= i < |layer.systemManager.systems| ==>
              layer.systemManager.systems[i].interest == old(layer.systemManager.systems[i].interest) &&
              (e in layer.systemManager.systems[i].entities <==>
               layer.systemManager.systems[i].interest <= old(layer.GetSignature(e)) + {t1, t2})
    ensures old(SystemsInStep(layer.State())) ==> SystemsInStep(layer.State())
    ensures !layer.ignoreSignatureChanged
  {
    ghost var start := layer.State();
    ghost var s := layer.GetSignature(e) + {t1, t2};
    layer.IgnoreSignatureChanged(true);
    var r1 := layer.AddComponent(e, c1, t1);
    ghost var s1 := start.entities.GetSignature(e) + {t1};
    assert layer.entityManager.signatures == start.entities.signatures[e := s1];
    var r2 := layer.AddComponent(e, c2, t2);
    assert s1 + {t2} == s;
    assert layer.entityManager.signatures == start.entities.signatures[e := s1][e := s];
    assert layer.entityManager.signatures == start.entities.signatures[e := s];
    assert layer.systemManager == start.systems;
    layer.FinalizeEntitySystems(e);
    if SystemsInStep(start) {
      SignatureChangedInStep(start, e, s);
    }
    forall i | 0 <= i < |layer.systemManager.systems|
      ensures e in layer.systemManager.systems[i].entities <==> layer.systemManager.systems[i].interest <= s
    {
      SignatureChangedOnlyMoves(start.systems, e, s, i, e);
    }
  }
}
