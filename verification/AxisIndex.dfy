/** One axis of a scene's area-of-interest index: a map from coordinate to the ids in that bucket. */
module AxisIndex {

  import opened Common

  type Axis = map<int, set<Id>>

  const MAX_SIGHT_DISTANCE: nat := 60

  /** The conversion of a coordinate to an integer: truncation toward zero. */
  function Trunc(r: real): int {
    if r >= 0.0 then r.Floor else -((-r).Floor)
  }

  function Bucket(a: Axis, k: int): set<Id> {
    if k in a then a[k] else {}
  }

  // operator[] makes a missing bucket, so each of these leaves one behind

  function Touched(a: Axis, k: int): Axis { a[k := Bucket(a, k)] }
  function Inserted(a: Axis, k: int, id: Id): Axis { a[k := Bucket(a, k) + {id}] }
  function Erased(a: Axis, k: int, id: Id): Axis { a[k := Bucket(a, k) - {id}] }

  function MovedOn(a: Axis, held: int, to: int, id: Id): Axis {
    Inserted(Erased(a, held, id), to, id)
  }

  /** Same buckets, except for empty ones made on the way. */
  ghost predicate SameBuckets(a: Axis, b: Axis) {
    forall k: int :: Bucket(a, k) == Bucket(b, k)
  }

  /** The index agrees with the plain map from id to coordinate. */
  ghost predicate InverseImage(a: Axis, at: map<Id, int>) {
    forall k: int, id: Id :: id in Bucket(a, k) <==> id in at && at[id] == k
  }

  /** The ids in the buckets from lo up to, not including, hi. */
  ghost function Between(a: Axis, lo: int, hi: int): set<Id> {
    set k, id | k in a && lo <= k < hi && id in a[k] :: id
  }

  /** The ids the query collects around c. */
  ghost function Window(a: Axis, c: int): set<Id> {
    Between(a, c - MAX_SIGHT_DISTANCE, c + MAX_SIGHT_DISTANCE + 1)
  }

  predicate Near(a: int, b: int) {
    a - MAX_SIGHT_DISTANCE <= b <= a + MAX_SIGHT_DISTANCE
  }

  lemma BetweenMember(a: Axis, lo: int, hi: int, id: Id)
    ensures id in Between(a, lo, hi) <==> exists k: int :: lo <= k < hi && id in Bucket(a, k)
  {
    if id in Between(a, lo, hi) {
      var k :| k in a && lo <= k < hi && id in a[k];
      assert id in Bucket(a, k);
    }
  }

  lemma WindowMember(a: Axis, c: int, id: Id)
    ensures id in Window(a, c) <==> exists k: int :: Near(c, k) && id in Bucket(a, k)
  {
    BetweenMember(a, c - MAX_SIGHT_DISTANCE, c + MAX_SIGHT_DISTANCE + 1, id);
    if id in Window(a, c) {
      var k: int :| c - MAX_SIGHT_DISTANCE <= k < c + MAX_SIGHT_DISTANCE + 1 && id in Bucket(a, k);
      assert Near(c, k);
    }
  }

  lemma BetweenNext(a: Axis, lo: int, hi: int)
    requires lo <= hi
    ensures Between(a, lo, hi + 1) == Between(a, lo, hi) + Bucket(a, hi)
  {
    forall id ensures id in Between(a, lo, hi + 1) <==> id in Between(a, lo, hi) || id in Bucket(a, hi) {
      BetweenMember(a, lo, hi + 1, id);
      BetweenMember(a, lo, hi, id);
      if id in Between(a, lo, hi + 1) {
        var k: int :| lo <= k < hi + 1 && id in Bucket(a, k);
        assert k == hi || lo <= k < hi;
      }
      if id in Bucket(a, hi) {
        assert lo <= hi < hi + 1 && id in Bucket(a, hi);
      }
    }
  }

  lemma WindowOfSameBuckets(a: Axis, b: Axis, c: int)
    requires SameBuckets(a, b)
    ensures Window(a, c) == Window(b, c)
  {
    forall id ensures id in Window(a, c) <==> id in Window(b, c) {
      WindowMember(a, c, id);
      WindowMember(b, c, id);
    }
  }

  lemma IndexedAt(a: Axis, at: map<Id, int>, k: int, id: Id)
    requires InverseImage(a, at)
    ensures id in Bucket(a, k) <==> id in at && at[id] == k
  {
  }

  lemma InsertKeepsInverseImage(a: Axis, at: map<Id, int>, k: int, id: Id)
    requires InverseImage(a, at)
    ensures InverseImage(Inserted(a, k, id), at[id := k]) <==> (id in at ==> at[id] == k)
  {
    var a', at' := Inserted(a, k, id), at[id := k];
    forall j: int ensures Bucket(a', j) == Bucket(a, j) + if j == k then {id} else {} {}
    if id in at && at[id] != k {
      assert id in Bucket(a', at[id]);
      if InverseImage(a', at') { IndexedAt(a', at', at[id], id); }
    } else {
      forall j: int, other: Id ensures other in Bucket(a', j) <==> other in at' && at'[other] == j {
        assert other in Bucket(a, j) <==> other in at && at[other] == j;
      }
    }
  }

  lemma EraseKeepsInverseImage(a: Axis, at: map<Id, int>, held: int, id: Id)
    requires InverseImage(a, at)
    ensures InverseImage(Erased(a, held, id), at - {id}) <==> (id in at ==> at[id] == held)
  {
    var a' := Erased(a, held, id);
    forall j: int ensures Bucket(a', j) == Bucket(a, j) - if j == held then {id} else {} {}
    if id in at && at[id] != held {
      assert id in Bucket(a', at[id]);
      if InverseImage(a', at - {id}) { IndexedAt(a', at - {id}, at[id], id); }
    } else {
      forall j: int, other: Id ensures other in Bucket(a', j) <==> other in (at - {id}) && (at - {id})[other] == j {
        assert other in Bucket(a, j) <==> other in at && at[other] == j;
      }
    }
  }

  /** The scene's position update keeps the axis exact if and only if the coordinate the entity holds
      when it is called is the one it is indexed under, or it is not leaving its bucket anyway. */
  lemma MoveKeepsInverseImageIff(a: Axis, at: map<Id, int>, held: int, to: int, id: Id)
    requires InverseImage(a, at)
    ensures InverseImage(MovedOn(a, held, to, id), at[id := to]) <==> (id in at ==> at[id] == held || at[id] == to)
  {
    var a', at' := MovedOn(a, held, to, id), at[id := to];
    forall j: int
      ensures Bucket(a', j) == (Bucket(a, j) - if j == held then {id} else {}) + if j == to then {id} else {}
    {}
    if id in at && at[id] != held && at[id] != to {
      assert id in Bucket(a', at[id]);
      if InverseImage(a', at') { IndexedAt(a', at', at[id], id); }
    } else {
      forall j: int, other: Id ensures other in Bucket(a', j) <==> other in at' && at'[other] == j {
        assert other in Bucket(a, j) <==> other in at && at[other] == j;
      }
    }
  }

  /** An exact axis' window holds exactly the ids whose coordinate is within sight. */
  lemma WindowIsExact(a: Axis, at: map<Id, int>, c: int)
    requires InverseImage(a, at)
    ensures Window(a, c) == set id | id in at && Near(c, at[id])
  {
    forall id ensures id in Window(a, c) <==> id in at && Near(c, at[id]) {
      WindowMember(a, c, id);
      if id in at && Near(c, at[id]) {
        assert id in Bucket(a, at[id]);
      }
    }
  }

  // ---- truncated and true distance ----

  function Distance(x: real, y: real): real {
    if x < y then y - x else x - y
  }

  /** For coordinates of all signs, the window holds everything up to 60 away, nothing from 62 on. */
  lemma SightInTrueDistance(x: real, y: real)
    ensures Distance(x, y) <= 60.0 ==> Near(Trunc(x), Trunc(y))
    ensures Distance(x, y) >= 62.0 ==> !Near(Trunc(x), Trunc(y))
    ensures Near(Trunc(x), Trunc(y)) <==> Near(Trunc(y), Trunc(x))
  {
  }

  /** Between 60 and 62 either answer occurs. */
  lemma SightIsTightBetween()
    ensures Distance(-0.9, 60.9) > 61.7 && Near(Trunc(-0.9), Trunc(60.9))
    ensures Distance(0.9, 61.0) < 60.2 && !Near(Trunc(0.9), Trunc(61.0))
  {
  }
}
