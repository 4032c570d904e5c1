/** A scene, the entities in it and the registry of entities. */
module Scene {
  import opened Common
  import opened SeqFilter
  import opened SetIntersection
  import opened AxisIndex

  class EntityManager {
    var entities: map<Id, Entity>

    /** Every entity is registered under its own id. */
    ghost predicate Valid()
      reads this
    {
      forall id <- entities :: entities[id].id == id
    }

    constructor ()
      ensures Valid() && entities == map[]
    {
      entities := map[];
    }

    /** The first entity registered under an id stays. */
    method Add(entity: Entity)
      requires Valid()
      modifies this
      ensures Valid()
      ensures entities == if entity.id in old(entities) then old(entities) else old(entities)[entity.id := entity]
    {
      if entity.id !in entities {
        entities := entities[entity.id := entity];
      }
    }

    method GetEntity(id: Id) returns (entity: Entity?)
      ensures entity == if id in entities then entities[id] else null
    {
      entity := if id in entities then entities[id] else null;
    }

    method Erase(id: Id)
      requires Valid()
      modifies this
      ensures Valid() && entities == old(entities) - {id}
    {
      entities := entities - {id};
    }
  }

  class Entity {
    const id: Id
    var x: real
    var z: real
    var locateScene: Scene?

    constructor (id: Id, x: real, z: real)
      ensures this.id == id && this.x == x && this.z == z && locateScene == null
    {
      this.id, this.x, this.z, locateScene := id, x, z, null;
    }

    method UpdatePosition(x: real, z: real)
      modifies this`x, this`z
      ensures this.x == x && this.z == z
    {
      this.x, this.z := x, z;
    }

    /** Returns the receivers of the entering message, in the order sent. */
    method OnEnterScene(scene: Scene?, manager: EntityManager) returns (receivers: seq<Id>)
      requires manager.Valid()
      modifies this`locateScene, scene, manager
      ensures manager.Valid() && locateScene == scene
      ensures scene == null ==> receivers == [] && manager.entities == old(manager.entities)
      ensures scene != null ==>
        && id in manager.entities && old(manager.entities).Items <= manager.entities.Items
        && SameBuckets(scene.xs, Inserted(old(scene.xs), Trunc(x), id))
        && SameBuckets(scene.zs, Inserted(old(scene.zs), Trunc(z), id))
        && Broadcast(receivers, scene.xs, scene.zs, Trunc(x), Trunc(z), manager.entities.Keys)
    {
      locateScene := scene;
      receivers := [];
      if scene == null { return; }
      scene.EnterScene(this, manager);
      receivers := SendNearbyMessage(manager);
    }

    method OnLeaveScene(manager: EntityManager) returns (receivers: seq<Id>)
      requires manager.Valid()
      modifies locateScene
      ensures locateScene == null ==> receivers == []
      ensures locateScene != null ==>
        && SameBuckets(locateScene.xs, Erased(old(locateScene.xs), Trunc(x), id))
        && SameBuckets(locateScene.zs, Erased(old(locateScene.zs), Trunc(z), id))
        && Broadcast(receivers, locateScene.xs, locateScene.zs, Trunc(x), Trunc(z), manager.entities.Keys)
    {
      receivers := [];
      if locateScene == null { return; }
      locateScene.LeaveScene(this);
      receivers := SendNearbyMessage(manager);
    }

    /** As written: the entity takes its new position first, so the position the scene then erases at
        is already the new one. */
    method StepMove(x: real, z: real, manager: EntityManager) returns (receivers: seq<Id>)
      requires manager.Valid()
      modifies this`x, this`z, locateScene
      ensures locateScene == null ==> this.x == old(this.x) && this.z == old(this.z) && receivers == []
      ensures locateScene != null ==>
        && this.x == x && this.z == z
        && SameBuckets(locateScene.xs, MovedOn(old(locateScene.xs), Trunc(x), Trunc(x), id))
        && SameBuckets(locateScene.zs, MovedOn(old(locateScene.zs), Trunc(z), Trunc(z), id))
        && Broadcast(receivers, locateScene.xs, locateScene.zs, Trunc(x), Trunc(z), manager.entities.Keys)
    {
      receivers := [];
      if locateScene == null { return; }
      UpdatePosition(x, z);
      locateScene.UpdatePosition(this, x, z);
      receivers := SendNearbyMessage(manager);
    }

    /** Sends to each registered id of one nearby query, in the query's order. */
    method SendNearbyMessage(manager: EntityManager) returns (receivers: seq<Id>)
      requires manager.Valid()
      modifies locateScene
      ensures locateScene == null ==> receivers == []
      ensures locateScene != null ==>
        && SameBuckets(locateScene.xs, old(locateScene.xs)) && SameBuckets(locateScene.zs, old(locateScene.zs))
        && Broadcast(receivers, locateScene.xs, locateScene.zs, Trunc(x), Trunc(z), manager.entities.Keys)
    {
      receivers := [];
      if locateScene == null { return; }
      var entities, xOrder, zOrder := locateScene.GetNearByEntities(this);
      if |entities| != 0 {
        for i := 0 to |entities|
          modifies {}
          invariant receivers == Within(entities[..i], manager.entities.Keys)
        {
          FilterNext(entities, i, manager.entities.Keys);
          var near := manager.GetEntity(entities[i]);
          if near != null {
            receivers := receivers + [near.id];
          }
        }
        assert entities[..|entities|] == entities;
      }
      WindowOfSameBuckets(locateScene.xs, old(locateScene.xs), Trunc(x));
      WindowOfSameBuckets(locateScene.zs, old(locateScene.zs), Trunc(z));
      assert IsQueryResult(entities, locateScene.xs, locateScene.zs, Trunc(x), Trunc(z));
    }
  }

  class Scene {
    var xs: Axis
    var zs: Axis

    constructor ()
      ensures xs == map[] && zs == map[]
    {
      xs, zs := map[], map[];
    }

    method EnterScene(entity: Entity?, manager: EntityManager)
      requires manager.Valid()
      modifies this, manager
      ensures manager.Valid() && old(manager.entities).Items <= manager.entities.Items
      ensures entity == null ==> xs == old(xs) && zs == old(zs) && manager.entities == old(manager.entities)
      ensures entity != null ==>
        && entity.id in manager.entities
        && xs == Inserted(old(xs), Trunc(entity.x), entity.id) && zs == Inserted(old(zs), Trunc(entity.z), entity.id)
    {
      if entity == null { return; }
      manager.Add(entity);
      xs := Inserted(xs, Trunc(entity.x), entity.id);
      zs := Inserted(zs, Trunc(entity.z), entity.id);
    }

    method UpdatePosition(entity: Entity?, x: real, z: real)
      modifies this
      ensures entity == null ==> xs == old(xs) && zs == old(zs)
      ensures entity != null ==>
        && xs == MovedOn(old(xs), Trunc(entity.x), Trunc(x), entity.id)
        && zs == MovedOn(old(zs), Trunc(entity.z), Trunc(z), entity.id)
    {
      if entity == null { return; }
      xs := Erased(xs, Trunc(entity.x), entity.id);
      zs := Erased(zs, Trunc(entity.z), entity.id);
      xs := Inserted(xs, Trunc(x), entity.id);
      zs := Inserted(zs, Trunc(z), entity.id);
    }

    method LeaveScene(entity: Entity?)
      modifies this
      ensures entity == null ==> xs == old(xs) && zs == old(zs)
      ensures entity != null ==>
        && xs == Erased(old(xs), Trunc(entity.x), entity.id) && zs == Erased(old(zs), Trunc(entity.z), entity.id)
    {
      if entity == null { return; }
      xs := Erased(xs, Trunc(entity.x), entity.id);
      zs := Erased(zs, Trunc(entity.z), entity.id);
    }

    /** The two orders are the hash containers' own, so nothing is known of them. */
    method GetNearByEntities(entity: Entity?) returns (entities: seq<Id>, ghost xOrder: seq<Id>, ghost zOrder: seq<Id>)
      modifies this
      ensures SameBuckets(xs, old(xs)) && SameBuckets(zs, old(zs))
      ensures entity == null ==> entities == [] && xs == old(xs) && zs == old(zs)
      ensures entity != null ==>
        && Enumerates(xOrder, Window(old(xs), Trunc(entity.x)))
        && Enumerates(zOrder, Window(old(zs), Trunc(entity.z)))
        && entities == Merge(xOrder, zOrder)
    {
      entities, xOrder, zOrder := [], [], [];
      if entity == null { return; }
      var x, z := Trunc(entity.x), Trunc(entity.z);
      var xEntities, zEntities: set<Id> := {}, {};
      for xi := x - MAX_SIGHT_DISTANCE to x + MAX_SIGHT_DISTANCE + 1
        invariant SameBuckets(xs, old(xs)) && zs == old(zs)
        invariant xEntities == Between(old(xs), x - MAX_SIGHT_DISTANCE, xi)
      {
        BetweenNext(old(xs), x - MAX_SIGHT_DISTANCE, xi);
        xs := Touched(xs, xi);
        xEntities := xEntities + xs[xi];
      }
      for zi := z - MAX_SIGHT_DISTANCE to z + MAX_SIGHT_DISTANCE + 1
        invariant SameBuckets(xs, old(xs)) && SameBuckets(zs, old(zs))
        invariant zEntities == Between(old(zs), z - MAX_SIGHT_DISTANCE, zi)
      {
        BetweenNext(old(zs), z - MAX_SIGHT_DISTANCE, zi);
        zs := Touched(zs, zi);
        zEntities := zEntities + zs[zi];
      }
      var xRange := SomeOrder(xEntities);
      var zRange := SomeOrder(zEntities);
      entities := Intersect(xRange, zRange);
      xOrder, zOrder := xRange, zRange;
    }
  }

  // ---- what a query answers ----

  ghost predicate IsQueryResult(entities: seq<Id>, xs: Axis, zs: Axis, cx: int, cz: int) {
    exists xOrder, zOrder ::
      Enumerates(xOrder, Window(xs, cx)) && Enumerates(zOrder, Window(zs, cz)) && entities == Merge(xOrder, zOrder)
  }

  ghost predicate Broadcast(receivers: seq<Id>, xs: Axis, zs: Axis, cx: int, cz: int, registered: set<Id>) {
    exists entities :: IsQueryResult(entities, xs, zs, cx, cz) && receivers == Within(entities, registered)
  }

  /** The ids within sight of (cx, cz) on both axes. */
  ghost function InSight(atX: map<Id, int>, atZ: map<Id, int>, cx: int, cz: int): set<Id> {
    set id | id in atX && id in atZ && Near(cx, atX[id]) && Near(cz, atZ[id])
  }

  /** On an exact index: whatever the two orders, the query answers only ids in sight, none twice; and
      it answers all of them if and only if the orders are compatible, as sorted ones are. */
  lemma QueryAnswers(xs: Axis, zs: Axis, atX: map<Id, int>, atZ: map<Id, int>, cx: int, cz: int,
                     xOrder: seq<Id>, zOrder: seq<Id>)
    requires InverseImage(xs, atX) && InverseImage(zs, atZ)
    requires Enumerates(xOrder, Window(xs, cx)) && Enumerates(zOrder, Window(zs, cz))
    ensures Distinct(Merge(xOrder, zOrder))
    ensures Elements(Merge(xOrder, zOrder)) <= InSight(atX, atZ, cx, cz)
    ensures Elements(Merge(xOrder, zOrder)) == InSight(atX, atZ, cx, cz) <==> Compatible(xOrder, zOrder)
    ensures Sorted(xOrder) && Sorted(zOrder) ==> Elements(Merge(xOrder, zOrder)) == InSight(atX, atZ, cx, cz)
  {
    WindowIsExact(xs, atX, cx);
    WindowIsExact(zs, atZ, cz);
    MergeIsSound(xOrder, zOrder);
    CompleteIffCompatible(xOrder, zOrder);
    if Sorted(xOrder) && Sorted(zOrder) { SortedIsComplete(xOrder, zOrder); }
    InSightIsCommon(atX, atZ, cx, cz, xOrder, zOrder);
    CompleteIsAll(xOrder, zOrder, InSight(atX, atZ, cx, cz));
  }

  /** On an exact index, whichever way the two hash containers happen to iterate, the query answers
      everybody in sight if and only if there is nobody, or one entity only, whose id is moreover the
      largest of all those in either window. */
  lemma QueryAnswersAllInAnyOrderIff(xs: Axis, zs: Axis, atX: map<Id, int>, atZ: map<Id, int>, cx: int, cz: int)
    requires InverseImage(xs, atX) && InverseImage(zs, atZ)
    ensures (forall xOrder, zOrder :: Enumerates(xOrder, Window(xs, cx)) && Enumerates(zOrder, Window(zs, cz)) ==>
               Elements(Merge(xOrder, zOrder)) == InSight(atX, atZ, cx, cz))
       <==> OrderFree(set id | id in atX && Near(cx, atX[id]), set id | id in atZ && Near(cz, atZ[id]))
  {
    var a, b := Window(xs, cx), Window(zs, cz);
    WindowIsExact(xs, atX, cx);
    WindowIsExact(zs, atZ, cz);
    forall xOrder, zOrder | Enumerates(xOrder, a) && Enumerates(zOrder, b)
      ensures Elements(Merge(xOrder, zOrder)) == InSight(atX, atZ, cx, cz) <==> Complete(xOrder, zOrder)
    {
      InSightIsCommon(atX, atZ, cx, cz, xOrder, zOrder);
      MergeIsSound(xOrder, zOrder);
      CompleteIsAll(xOrder, zOrder, InSight(atX, atZ, cx, cz));
    }
    CompleteInAnyOrderIff(a, b);
  }

  /** So an entity that is indexed where it asks and has anybody else in sight can miss somebody. */
  lemma CompanyCanBeMissed(
    xs: Axis, zs: Axis, atX: map<Id, int>, atZ: map<Id, int>, cx: int, cz: int, self: Id, other: Id)
    requires InverseImage(xs, atX) && InverseImage(zs, atZ)
    requires self in InSight(atX, atZ, cx, cz) && other in InSight(atX, atZ, cx, cz) && self != other
    ensures exists xOrder, zOrder :: Enumerates(xOrder, Window(xs, cx)) && Enumerates(zOrder, Window(zs, cz)) &&
              Elements(Merge(xOrder, zOrder)) < InSight(atX, atZ, cx, cz)
  {
    QueryAnswersAllInAnyOrderIff(xs, zs, atX, atZ, cx, cz);
    var a, b := set id | id in atX && Near(cx, atX[id]), set id | id in atZ && Near(cz, atZ[id]);
    assert self in a * b && other in a * b;
    var xOrder, zOrder :| Enumerates(xOrder, Window(xs, cx)) && Enumerates(zOrder, Window(zs, cz)) &&
      Elements(Merge(xOrder, zOrder)) != InSight(atX, atZ, cx, cz);
    QueryAnswers(xs, zs, atX, atZ, cx, cz, xOrder, zOrder);
  }

  /** Two entities in one cell, and a query from it that answers only one of them. */
  lemma OneOfTwoInACellIsMissed()
    ensures var axis, at := map[0 := {1, 2}], map[1 := 0, 2 := 0];
      && InverseImage(axis, at) && InSight(at, at, 0, 0) == {1, 2}
      && IsQueryResult([2], axis, axis, 0, 0)
  {
    var axis, at := map[0 := {1, 2}], map[1 := 0, 2 := 0];
    forall k: int, id: Id ensures id in Bucket(axis, k) <==> id in at && at[id] == k {}
    WindowIsExact(axis, at, 0);
    assert InSight(at, at, 0, 0) == {1, 2};
    assert Window(axis, 0) == {1, 2};
    UnsortedLosesAnId();
  }

  lemma InSightIsCommon(atX: map<Id, int>, atZ: map<Id, int>, cx: int, cz: int, xOrder: seq<Id>, zOrder: seq<Id>)
    requires Enumerates(xOrder, set id | id in atX && Near(cx, atX[id]))
    requires Enumerates(zOrder, set id | id in atZ && Near(cz, atZ[id]))
    ensures forall id: Id :: id in InSight(atX, atZ, cx, cz) <==> id in xOrder && id in zOrder
  {
    assert forall id: Id :: id in xOrder <==> id in Elements(xOrder);
    assert forall id: Id :: id in zOrder <==> id in Elements(zOrder);
  }

  lemma CompleteIsAll(a: seq<Id>, b: seq<Id>, common: set<Id>)
    requires forall id: Id :: id in common <==> id in a && id in b
    requires forall id <- Merge(a, b) :: id in a && id in b
    ensures Elements(Merge(a, b)) <= common
    ensures Elements(Merge(a, b)) == common <==> Complete(a, b)
  {
    forall id | id in Elements(Merge(a, b)) ensures id in common {
      assert id in Merge(a, b);
    }
    if Complete(a, b) {
      forall id | id in common ensures id in Elements(Merge(a, b)) {}
    }
    if Elements(Merge(a, b)) == common {
      forall id | id in a && id in b ensures id in Merge(a, b) {
        assert id in Elements(Merge(a, b));
      }
    }
  }

  /** On an exact index a broadcast reaches only registered entities in sight, none twice. */
  lemma BroadcastStaysInSight(receivers: seq<Id>, xs: Axis, zs: Axis, atX: map<Id, int>, atZ: map<Id, int>,
                              cx: int, cz: int, registered: set<Id>)
    requires InverseImage(xs, atX) && InverseImage(zs, atZ)
    requires Broadcast(receivers, xs, zs, cx, cz, registered)
    ensures Elements(receivers) <= InSight(atX, atZ, cx, cz) * registered && Distinct(receivers)
  {
    var entities :| IsQueryResult(entities, xs, zs, cx, cz) && receivers == Within(entities, registered);
    var xOrder, zOrder :| Enumerates(xOrder, Window(xs, cx)) && Enumerates(zOrder, Window(zs, cz))
                          && entities == Merge(xOrder, zOrder);
    QueryAnswers(xs, zs, atX, atZ, cx, cz, xOrder, zOrder);
    WithinDistinct(entities, registered);
    forall id | id in receivers ensures id in InSight(atX, atZ, cx, cz) * registered {
      WithinMember(entities, registered, id);
      assert id in Elements(entities);
    }
  }
}
