/** The area-of-interest index over whole runs: with the scene's update called on the old position, as
    its comment asks, and with the move in the order the program writes it. */
module SceneRuns {
  import opened Common
  import opened AxisIndex
  import opened SeqFilter
  import opened SetIntersection
  import Scene

  // ---- updates that still see the old position ----

  datatype Position = Position(x: real, z: real)

  /** Held is the position the entity object has when the scene's method is called. */
  datatype Op =
    | EnterAt(id: Id, held: Position)
    | MoveTo(id: Id, held: Position, to: Position)
    | LeaveAt(id: Id, held: Position)

  datatype Index = Index(xs: Axis, zs: Axis, at: map<Id, Position>) {
    function CellsX(): map<Id, int> { map id | id in at :: Trunc(at[id].x) }
    function CellsZ(): map<Id, int> { map id | id in at :: Trunc(at[id].z) }

    ghost predicate Exact() { InverseImage(xs, CellsX()) && InverseImage(zs, CellsZ()) }

    predicate HoldsOld(op: Op) { op.id in at ==> at[op.id] == op.held }
  }

  function Perform(ix: Index, op: Op): Index {
    match op
    case EnterAt(id, p) =>
      Index(Inserted(ix.xs, Trunc(p.x), id), Inserted(ix.zs, Trunc(p.z), id), ix.at[id := p])
    case MoveTo(id, p, q) =>
      Index(MovedOn(ix.xs, Trunc(p.x), Trunc(q.x), id), MovedOn(ix.zs, Trunc(p.z), Trunc(q.z), id), ix.at[id := q])
    case LeaveAt(id, p) =>
      Index(Erased(ix.xs, Trunc(p.x), id), Erased(ix.zs, Trunc(p.z), id), ix.at - {id})
  }

  ghost predicate AllHoldOld(ix: Index, ops: seq<Op>)
    decreases |ops|
  {
    ops == [] || (ix.HoldsOld(ops[0]) && AllHoldOld(Perform(ix, ops[0]), ops[1..]))
  }

  function PerformAll(ix: Index, ops: seq<Op>): Index
    decreases |ops|
  {
    if ops == [] then ix else PerformAll(Perform(ix, ops[0]), ops[1..])
  }

  lemma PerformKeepsExact(ix: Index, op: Op)
    requires ix.Exact() && ix.HoldsOld(op)
    ensures Perform(ix, op).Exact()
  {
    CellsAfter(ix, op);
    match op
    case EnterAt(id, p) =>
      InsertKeepsInverseImage(ix.xs, ix.CellsX(), Trunc(p.x), id);
      InsertKeepsInverseImage(ix.zs, ix.CellsZ(), Trunc(p.z), id);
    case MoveTo(id, p, q) =>
      MoveKeepsInverseImageIff(ix.xs, ix.CellsX(), Trunc(p.x), Trunc(q.x), id);
      MoveKeepsInverseImageIff(ix.zs, ix.CellsZ(), Trunc(p.z), Trunc(q.z), id);
    case LeaveAt(id, p) =>
      EraseKeepsInverseImage(ix.xs, ix.CellsX(), Trunc(p.x), id);
      EraseKeepsInverseImage(ix.zs, ix.CellsZ(), Trunc(p.z), id);
  }

  lemma CellsAfter(ix: Index, op: Op)
    ensures Perform(ix, op).CellsX() == match op
      case EnterAt(id, p) => ix.CellsX()[id := Trunc(p.x)]
      case MoveTo(id, p, q) => ix.CellsX()[id := Trunc(q.x)]
      case LeaveAt(id, p) => ix.CellsX() - {id}
    ensures Perform(ix, op).CellsZ() == match op
      case EnterAt(id, p) => ix.CellsZ()[id := Trunc(p.z)]
      case MoveTo(id, p, q) => ix.CellsZ()[id := Trunc(q.z)]
      case LeaveAt(id, p) => ix.CellsZ() - {id}
  {
  }

  /** In every run in which entities still hold their old position, both axes are exactly the inverse
      image of the position map. */
  lemma {:induction false} ExactInEveryRun(ix: Index, ops: seq<Op>)
    requires ix.Exact() && AllHoldOld(ix, ops)
    ensures PerformAll(ix, ops).Exact()
    decreases |ops|
  {
    if ops != [] {
      PerformKeepsExact(ix, ops[0]);
      ExactInEveryRun(Perform(ix, ops[0]), ops[1..]);
    }
  }

  /** Where the entity is after the operation. */
  function PlaceAfter(op: Op): Option<Position> {
    match op case EnterAt(_, p) => Some(p) case MoveTo(_, _, q) => Some(q) case LeaveAt(_, _) => None
  }

  /** And the position map is where the entities' last operations have left them. */
  lemma {:induction false} LastOperationDecides(ix: Index, ops: seq<Op>, i: nat)
    requires i < |ops| && forall j :: i < j < |ops| ==> ops[j].id != ops[i].id
    ensures var id, at := ops[i].id, PerformAll(ix, ops).at;
      PlaceAfter(ops[i]) == if id in at then Some(at[id]) else None
    decreases |ops|
  {
    if i > 0 {
      LastOperationDecides(Perform(ix, ops[0]), ops[1..], i - 1);
    } else {
      UntouchedStays(Perform(ix, ops[0]), ops[1..], ops[0].id);
    }
  }

  lemma {:induction false} UntouchedStays(ix: Index, ops: seq<Op>, id: Id)
    requires forall j :: 0 <= j < |ops| ==> ops[j].id != id
    ensures var at := PerformAll(ix, ops).at;
      (id in at <==> id in ix.at) && (id in at ==> at[id] == ix.at[id])
    decreases |ops|
  {
    if ops != [] {
      UntouchedStays(Perform(ix, ops[0]), ops[1..], id);
    }
  }

  /** StepMove hands the scene an entity that already holds the new position. Then the index stays
      exact if and only if the entity was absent or stays in its bucket on both axes. */
  lemma StepMoveKeepsExactIff(ix: Index, id: Id, to: Position)
    requires ix.Exact()
    ensures Perform(ix, MoveTo(id, to, to)).Exact()
       <==> (id in ix.at ==> Trunc(ix.at[id].x) == Trunc(to.x) && Trunc(ix.at[id].z) == Trunc(to.z))
  {
    CellsAfter(ix, MoveTo(id, to, to));
    MoveKeepsInverseImageIff(ix.xs, ix.CellsX(), Trunc(to.x), Trunc(to.x), id);
    MoveKeepsInverseImageIff(ix.zs, ix.CellsZ(), Trunc(to.z), Trunc(to.z), id);
  }

  // ---- the written order, one axis at a time ----

  /** What entities do, seen on one axis: the cell is the truncated coordinate. */
  datatype Event = Enter(id: Id, cell: int) | Step(id: Id, cell: int) | Leave(id: Id)

  /** The axis, and the cell each entity that ever entered holds; an entity that leaves keeps its scene
      and its position, so it may step again. */
  datatype Walk = Walk(axis: Axis, held: map<Id, int>)

  function Apply(w: Walk, e: Event): Walk {
    match e
    case Enter(id, c) => Walk(Inserted(w.axis, c, id), w.held[id := c])
    case Step(id, c) => if id in w.held then Walk(MovedOn(w.axis, c, c, id), w.held[id := c]) else w
    case Leave(id) => if id in w.held then w.(axis := Erased(w.axis, w.held[id], id)) else w
  }

  function After(log: seq<Event>): Walk
    decreases |log|
  {
    if log == [] then Walk(map[], map[]) else Apply(After(log[..|log| - 1]), log[|log| - 1])
  }

  /** The cell of the entity's last visit, if it ever entered. */
  function LastCell(log: seq<Event>, id: Id): Option<int>
    decreases |log|
  {
    if log == [] then None
    else
      var before := LastCell(log[..|log| - 1], id);
      match log[|log| - 1]
      case Enter(other, c) => if other == id then Some(c) else before
      case Step(other, c) => if other == id && before.Some? then Some(c) else before
      case Leave(other) => before
  }

  /** Event i brings the entity to cell k: an entry, or a step of an entity that had entered. */
  predicate Visits(log: seq<Event>, i: nat, id: Id, k: int)
    requires i < |log|
  {
    log[i] == Enter(id, k) || (log[i] == Step(id, k) && LastCell(log[..i], id).Some?)
  }

  /** Event i is the entity's leave while it holds cell k. */
  predicate LeavesFrom(log: seq<Event>, i: nat, id: Id, k: int)
    requires i < |log|
  {
    log[i] == Leave(id) && LastCell(log[..i], id) == Some(k)
  }

  /** The entity once came to k and has not since left from k. */
  ghost predicate Lingers(log: seq<Event>, id: Id, k: int) {
    exists i :: 0 <= i < |log| && Visits(log, i, id, k) && forall j :: i < j < |log| ==> !LeavesFrom(log, j, id, k)
  }

  lemma {:induction false} HeldIsLastCell(log: seq<Event>, id: Id)
    ensures LastCell(log, id) == if id in After(log).held then Some(After(log).held[id]) else None
    decreases |log|
  {
    if log != [] {
      HeldIsLastCell(log[..|log| - 1], id);
    }
  }

  lemma LingersNext(log: seq<Event>, id: Id, k: int)
    requires log != []
    ensures var n := |log| - 1;
      Lingers(log, id, k) <==> Visits(log, n, id, k) || (Lingers(log[..n], id, k) && !LeavesFrom(log, n, id, k))
  {
    var n := |log| - 1;
    var before := log[..n];
    assert forall i :: 0 <= i < n ==> before[..i] == log[..i];
    assert forall i :: 0 <= i < n ==> (Visits(before, i, id, k) <==> Visits(log, i, id, k));
    assert forall i :: 0 <= i < n ==> (LeavesFrom(before, i, id, k) <==> LeavesFrom(log, i, id, k));
    if Lingers(before, id, k) && !LeavesFrom(log, n, id, k) {
      var i :| 0 <= i < n && Visits(before, i, id, k) && forall j :: i < j < n ==> !LeavesFrom(before, j, id, k);
      assert Visits(log, i, id, k);
    }
    if Lingers(log, id, k) && !Visits(log, n, id, k) {
      var i :| 0 <= i < |log| && Visits(log, i, id, k) && forall j :: i < j < |log| ==> !LeavesFrom(log, j, id, k);
      assert i < n && Visits(before, i, id, k);
    }
  }

  /** In every run of the program's own order, leaves and steps after leaving included, a bucket holds
      an id exactly if that entity once came to the cell and has not since left from it. */
  lemma {:induction false} BucketsHoldWhoLingers(log: seq<Event>, id: Id, k: int)
    ensures id in Bucket(After(log).axis, k) <==> Lingers(log, id, k)
    decreases |log|
  {
    if log != [] {
      var before := log[..|log| - 1];
      BucketsHoldWhoLingers(before, id, k);
      HeldIsLastCell(before, id);
      LingersNext(log, id, k);
    }
  }

  /** In runs without leaves: exactly if the entity has ever been at the cell. */
  lemma WithoutLeavesBucketsNeverForget(log: seq<Event>, id: Id, k: int)
    requires forall i :: 0 <= i < |log| ==> !log[i].Leave?
    ensures id in Bucket(After(log).axis, k) <==> exists i :: 0 <= i < |log| && Visits(log, i, id, k)
  {
    BucketsHoldWhoLingers(log, id, k);
  }

  /** The entity has entered and its last entry or step comes after any leave of it. */
  ghost predicate Present(log: seq<Event>, id: Id) {
    exists i, k :: 0 <= i < |log| && Visits(log, i, id, k) && forall j :: i < j < |log| ==> log[j] != Leave(id)
  }

  /** Where a present entity is, it is indexed. */
  lemma {:induction false} PresentIsIndexed(log: seq<Event>, id: Id)
    requires Present(log, id)
    ensures LastCell(log, id).Some? && id in Bucket(After(log).axis, LastCell(log, id).value)
    decreases |log|
  {
    var i, k :| 0 <= i < |log| && Visits(log, i, id, k) && forall j :: i < j < |log| ==> log[j] != Leave(id);
    var n := |log| - 1;
    HeldIsLastCell(log[..n], id);
    if i < n && !(log[n].id == id) {
      assert log[..n][..i] == log[..i];
      assert Visits(log[..n], i, id, k);
      PresentIsIndexed(log[..n], id);
    } else if i < n {
      StaysEntered(log, i, n, id, k);
    }
  }

  lemma {:induction false} StaysEntered(log: seq<Event>, i: nat, n: nat, id: Id, k: int)
    requires i < n <= |log| && Visits(log, i, id, k)
    ensures LastCell(log[..n], id).Some?
    decreases n
  {
    assert log[..n][..n - 1] == log[..n - 1];
    if i < n - 1 {
      StaysEntered(log, i, n - 1, id, k);
    }
  }

  // ---- both axes: what a query finds ----

  datatype Happening = Enters(id: Id, at: Position) | Steps(id: Id, to: Position) | Leaves(id: Id)

  function OnX(h: Happening): Event {
    match h
    case Enters(id, p) => Enter(id, Trunc(p.x))
    case Steps(id, p) => Step(id, Trunc(p.x))
    case Leaves(id) => Leave(id)
  }

  function OnZ(h: Happening): Event {
    match h
    case Enters(id, p) => Enter(id, Trunc(p.z))
    case Steps(id, p) => Step(id, Trunc(p.z))
    case Leaves(id) => Leave(id)
  }

  function LogX(hs: seq<Happening>): seq<Event> { seq(|hs|, i requires 0 <= i < |hs| => OnX(hs[i])) }
  function LogZ(hs: seq<Happening>): seq<Event> { seq(|hs|, i requires 0 <= i < |hs| => OnZ(hs[i])) }

  /** The ids in both windows around (cx, cz) after the happenings. */
  ghost function Candidates(hs: seq<Happening>, cx: int, cz: int): set<Id> {
    Window(After(LogX(hs)).axis, cx) * Window(After(LogZ(hs)).axis, cz)
  }

  /** The entity lingers within sight of c. */
  ghost predicate LingersNear(log: seq<Event>, c: int, id: Id) {
    exists k: int :: Near(c, k) && Lingers(log, id, k)
  }

  lemma WindowLingers(log: seq<Event>, c: int, id: Id)
    ensures id in Window(After(log).axis, c) <==> LingersNear(log, c, id)
  {
    WindowMember(After(log).axis, c, id);
    forall k: int ensures id in Bucket(After(log).axis, k) <==> Lingers(log, id, k) {
      BucketsHoldWhoLingers(log, id, k);
    }
  }

  /** The query's candidates are the entities lingering within sight on x and, perhaps from another
      time, on z. */
  lemma CandidatesLinger(hs: seq<Happening>, cx: int, cz: int, id: Id)
    ensures id in Candidates(hs, cx, cz) <==> LingersNear(LogX(hs), cx, id) && LingersNear(LogZ(hs), cz, id)
  {
    WindowLingers(LogX(hs), cx, id);
    WindowLingers(LogZ(hs), cz, id);
  }

  /** Nobody present and in sight is missing from the candidates. */
  lemma CandidatesMissNobody(hs: seq<Happening>, cx: int, cz: int, id: Id)
    requires Present(LogX(hs), id) && Present(LogZ(hs), id)
    requires LastCell(LogX(hs), id).Some? ==> Near(cx, LastCell(LogX(hs), id).value)
    requires LastCell(LogZ(hs), id).Some? ==> Near(cz, LastCell(LogZ(hs), id).value)
    ensures id in Candidates(hs, cx, cz)
  {
    PresentIsIndexed(LogX(hs), id);
    PresentIsIndexed(LogZ(hs), id);
    WindowMember(After(LogX(hs)).axis, cx, id);
    WindowMember(After(LogZ(hs)).axis, cz, id);
  }

  // ---- what the query and the broadcast then answer ----

  /** A possible answer of the query around (cx, cz) after the happenings. */
  ghost predicate Answer(hs: seq<Happening>, cx: int, cz: int, entities: seq<Id>) {
    Scene.IsQueryResult(entities, After(LogX(hs)).axis, After(LogZ(hs)).axis, cx, cz)
  }

  ghost predicate Receivers(hs: seq<Happening>, cx: int, cz: int, registered: set<Id>, receivers: seq<Id>) {
    Scene.Broadcast(receivers, After(LogX(hs)).axis, After(LogZ(hs)).axis, cx, cz, registered)
  }

  /** In every run of the written order, a query answers candidates only, none twice. */
  lemma AnswersAreCandidates(hs: seq<Happening>, cx: int, cz: int, entities: seq<Id>)
    requires Answer(hs, cx, cz, entities)
    ensures Distinct(entities) && Elements(entities) <= Candidates(hs, cx, cz)
  {
    var a, b := Window(After(LogX(hs)).axis, cx), Window(After(LogZ(hs)).axis, cz);
    var xOrder, zOrder :| Enumerates(xOrder, a) && Enumerates(zOrder, b) && entities == Merge(xOrder, zOrder);
    MergeIsSound(xOrder, zOrder);
    EnumeratesMembers(xOrder, a);
    EnumeratesMembers(zOrder, b);
    forall id: Id | id in Elements(entities) ensures id in Candidates(hs, cx, cz) {
      assert id in entities;
    }
  }

  /** The id is the largest of all that linger within sight on either axis. */
  ghost predicate LargestLingering(hs: seq<Happening>, cx: int, cz: int, id: Id) {
    forall u: Id :: LingersNear(LogX(hs), cx, u) || LingersNear(LogZ(hs), cz, u) ==> u <= id
  }

  /** In every run of the written order, a candidate is answered whatever the orders if and only if no
      larger id lingers within sight on either axis. */
  lemma AnsweredInAnyOrderIff(hs: seq<Happening>, cx: int, cz: int, id: Id)
    requires id in Candidates(hs, cx, cz)
    ensures (forall entities :: Answer(hs, cx, cz, entities) ==> id in entities) <==> LargestLingering(hs, cx, cz, id)
  {
    var a, b := Window(After(LogX(hs)).axis, cx), Window(After(LogZ(hs)).axis, cz);
    FoundInAnyOrderIff(a, b, id);
    forall u: Id ensures u in a + b <==> LingersNear(LogX(hs), cx, u) || LingersNear(LogZ(hs), cz, u) {
      WindowLingers(LogX(hs), cx, u);
      WindowLingers(LogZ(hs), cz, u);
    }
    if forall entities :: Answer(hs, cx, cz, entities) ==> id in entities {
      forall xOrder, zOrder | Enumerates(xOrder, a) && Enumerates(zOrder, b) ensures id in Merge(xOrder, zOrder) {
        assert Answer(hs, cx, cz, Merge(xOrder, zOrder));
      }
    }
  }

  /** So an entity present and in sight is answered whatever the orders exactly in that case. */
  lemma PresentIsAnsweredIff(hs: seq<Happening>, cx: int, cz: int, id: Id)
    requires Present(LogX(hs), id) && Present(LogZ(hs), id)
    requires LastCell(LogX(hs), id).Some? ==> Near(cx, LastCell(LogX(hs), id).value)
    requires LastCell(LogZ(hs), id).Some? ==> Near(cz, LastCell(LogZ(hs), id).value)
    ensures (forall entities :: Answer(hs, cx, cz, entities) ==> id in entities) <==> LargestLingering(hs, cx, cz, id)
  {
    CandidatesMissNobody(hs, cx, cz, id);
    AnsweredInAnyOrderIff(hs, cx, cz, id);
  }

  /** A broadcast reaches registered candidates only, none twice; and a candidate whatever the orders
      exactly if it is registered and no larger id lingers within sight on either axis. */
  lemma BroadcastReachesIff(hs: seq<Happening>, cx: int, cz: int, registered: set<Id>, id: Id)
    requires id in Candidates(hs, cx, cz)
    ensures forall rs :: Receivers(hs, cx, cz, registered, rs) ==>
      Distinct(rs) && Elements(rs) <= Candidates(hs, cx, cz) * registered
    ensures (forall rs :: Receivers(hs, cx, cz, registered, rs) ==> id in rs)
       <==> id in registered && LargestLingering(hs, cx, cz, id)
  {
    forall rs | Receivers(hs, cx, cz, registered, rs)
      ensures Distinct(rs) && Elements(rs) <= Candidates(hs, cx, cz) * registered
    {
      var entities :| Answer(hs, cx, cz, entities) && rs == Within(entities, registered);
      AnswersAreCandidates(hs, cx, cz, entities);
      WithinDistinct(entities, registered);
      forall other: Id ensures other in rs <==> other in entities && other in registered {
        WithinMember(entities, registered, other);
      }
      assert forall other: Id :: other in entities ==> other in Elements(entities);
    }
    AnsweredInAnyOrderIff(hs, cx, cz, id);
    forall entities | Answer(hs, cx, cz, entities)
      ensures Receivers(hs, cx, cz, registered, Within(entities, registered))
      ensures id in Within(entities, registered) <==> id in entities && id in registered
    {
      WithinMember(entities, registered, id);
    }
    SomeAnswer(hs, cx, cz);
  }

  lemma SomeAnswer(hs: seq<Happening>, cx: int, cz: int)
    ensures exists entities :: Answer(hs, cx, cz, entities)
  {
    var xOrder := OrderOf(Window(After(LogX(hs)).axis, cx));
    var zOrder := OrderOf(Window(After(LogZ(hs)).axis, cz));
    assert Answer(hs, cx, cz, Merge(xOrder, zOrder));
  }

  /** And somebody out of sight is a candidate: an entity that entered at the origin and stepped far away. */
  lemma CandidatesIncludeTheGone()
    ensures var hs := [Enters(1, Position(0.0, 0.0)), Steps(1, Position(500.0, 500.0))];
      1 in Candidates(hs, 0, 0) && LastCell(LogX(hs), 1) == Some(500) && !Near(0, 500)
  {
    var hs := [Enters(1, Position(0.0, 0.0)), Steps(1, Position(500.0, 500.0))];
    CandidatesLinger(hs, 0, 0, 1);
    assert Trunc(0.0) == 0 && Trunc(500.0) == 500;
    assert Visits(LogX(hs), 0, 1, 0) && Visits(LogZ(hs), 0, 1, 0);
    assert Lingers(LogX(hs), 1, 0) && Lingers(LogZ(hs), 1, 0);
    assert Near(0, 0);
    assert LogX(hs)[..1] == [Enter(1, 0)];
    assert [Enter(1, 0)][..0] == [];
    assert LastCell([Enter(1, 0)], 1) == Some(0);
  }
}
