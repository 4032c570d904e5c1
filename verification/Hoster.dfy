/** Residents that wander at random around the place they were born. */
module Hoster {
  import opened Common
  import opened AxisIndex
  import Scene
  import SceneRuns

  const STEPS_PER_SECOND: int := 20

  class Hoster {
    const entity: Scene.Entity
    const birthX: real
    const birthZ: real
    const speed: int

    /** A resident starts where its asset says, and keeps that record apart from its position. */
    constructor (id: Id, birthX: real, birthZ: real, speed: int)
      ensures fresh(entity) && entity.id == id && entity.x == birthX && entity.z == birthZ
      ensures entity.locateScene == null
      ensures this.birthX == birthX && this.birthZ == birthZ && this.speed == speed
    {
      this.birthX, this.birthZ, this.speed := birthX, birthZ, speed;
      entity := new Scene.Entity(id, birthX, birthZ);
    }

    /** One heartbeat; dx and dz are the two draws from [-speed, speed]. The step starts from the
        record of the birthplace, not from where the resident is. */
    method Update(heartCount: int, dx: int, dz: int, manager: Scene.EntityManager) returns (inScene: bool)
      requires manager.Valid() && -speed <= dx <= speed && -speed <= dz <= speed
      modifies entity`x, entity`z, entity.locateScene
      ensures inScene <==> entity.locateScene != null
      ensures !inScene || heartCount % STEPS_PER_SECOND != 0 ==>
        entity.x == old(entity.x) && entity.z == old(entity.z)
      ensures entity.locateScene != null && heartCount % STEPS_PER_SECOND != 0 ==>
        entity.locateScene.xs == old(entity.locateScene.xs) && entity.locateScene.zs == old(entity.locateScene.zs)
      ensures entity.locateScene != null && heartCount % STEPS_PER_SECOND == 0 ==>
        var cellX, cellZ := Cell(birthX, dx), Cell(birthZ, dz);
        && entity.x == birthX + dx as real && entity.z == birthZ + dz as real
        && SameBuckets(entity.locateScene.xs, MovedOn(old(entity.locateScene.xs), cellX, cellX, entity.id))
        && SameBuckets(entity.locateScene.zs, MovedOn(old(entity.locateScene.zs), cellZ, cellZ, entity.id))
      ensures Roams(old(entity.x), birthX, speed) && Roams(old(entity.z), birthZ, speed) ==>
        Roams(entity.x, birthX, speed) && Roams(entity.z, birthZ, speed)
    {
      if entity.locateScene == null { return false; }
      if heartCount % STEPS_PER_SECOND == 0 {
        var _ := entity.StepMove(birthX + dx as real, birthZ + dz as real, manager);
      }
      return true;
    }
  }

  /** The cell a step of d from the birthplace ends in. */
  function Cell(birth: real, d: int): int {
    Trunc(birth + d as real)
  }

  /** Within speed of the birthplace, on one axis. */
  predicate Roams(at: real, birth: real, speed: int) {
    birth - speed as real <= at <= birth + speed as real
  }

  // ---- every run of a resident, on one axis ----

  /** The cells a resident can step on: the truncations of its birthplace moved by a whole number. */
  function Range(birth: real, low: int, high: int): set<int>
    decreases high - low
  {
    if high < low then {} else {Cell(birth, high)} + Range(birth, low, high - 1)
  }

  lemma {:induction false} RangeMember(birth: real, low: int, high: int, d: int)
    requires low <= d <= high
    ensures Cell(birth, d) in Range(birth, low, high)
    decreases high - low
  {
    if d < high {
      RangeMember(birth, low, high - 1, d);
    }
  }

  lemma {:induction false} RangeSize(birth: real, low: int, high: int)
    requires low <= high + 1
    ensures |Range(birth, low, high)| <= high - low + 1
    decreases high - low
  {
    if low <= high {
      RangeSize(birth, low, high - 1);
    }
  }

  /** In this log the entity enters at its birthplace and steps only to whole numbers of at most speed
      from it; what other entities do is free. */
  ghost predicate OnlyRoams(log: seq<SceneRuns.Event>, id: Id, birth: real, speed: int) {
    forall i :: 0 <= i < |log| && log[i].id == id && !log[i].Leave? ==>
      if log[i].Enter? then log[i].cell == Trunc(birth)
      else exists d :: -speed <= d <= speed && log[i].cell == Cell(birth, d)
  }

  /** The buckets that hold the id. */
  ghost function Occupied(a: Axis, id: Id): set<int> {
    set k | k in a && id in a[k]
  }

  /** Although old buckets are never cleared, in every run a resident occupies at most 2 * speed + 1
      buckets of an axis, all of them at cells within its roaming range. */
  lemma StaleBucketsAreFew(log: seq<SceneRuns.Event>, id: Id, birth: real, speed: int)
    requires speed >= 0 && OnlyRoams(log, id, birth, speed)
    ensures Occupied(SceneRuns.After(log).axis, id) <= Range(birth, -speed, speed)
    ensures |Occupied(SceneRuns.After(log).axis, id)| <= 2 * speed + 1
  {
    var axis := SceneRuns.After(log).axis;
    forall k | k in Occupied(axis, id) ensures k in Range(birth, -speed, speed) {
      assert id in Bucket(axis, k);
      SceneRuns.BucketsHoldWhoLingers(log, id, k);
      var i :| 0 <= i < |log| && SceneRuns.Visits(log, i, id, k);
      if log[i].Enter? {
        assert birth + 0 as real == birth;
        RangeMember(birth, -speed, speed, 0);
      } else {
        var d :| -speed <= d <= speed && k == Cell(birth, d);
        RangeMember(birth, -speed, speed, d);
      }
    }
    RangeSize(birth, -speed, speed);
    SubsetSize(Occupied(axis, id), Range(birth, -speed, speed));
  }

  lemma {:induction false} SubsetSize(a: set<int>, b: set<int>)
    requires a <= b
    ensures |a| <= |b|
    decreases a
  {
    if a != {} {
      var x := SomeElement(a);
      SubsetSize(a - {x}, b - {x});
    }
  }
}
