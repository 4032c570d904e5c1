/** What every session is sent, over every run of one chat room. */
module ChatRuns {
  import opened Common
  import opened ChatMessage
  import opened SeqFilter
  import opened ChatReader
  import opened ChatRoom
  import opened ChatWire

  /** WriteOk and WriteErr complete a session's write in flight; ReadErr ends its read loop, on a
      failed read or a refused header. A message may be delivered by a session that is no longer a
      member: its read loop goes on after a failed write. */
  datatype Event<Id> =
    | Join(id: Id)
    | Deliver(m: Message)
    | WriteOk(id: Id)
    | WriteErr(id: Id)
    | ReadErr(id: Id)

  ghost predicate Enabled<Id>(room: Room<Id>, e: Event<Id>) {
    match e
    case Join(id) => id !in room.outboxes
    case Deliver(m) => m.WellFormed()
    case WriteOk(id) => id in room.outboxes && room.outboxes[id].inflight.Some? && room.outboxes[id].queue != []
    case WriteErr(id) => id in room.outboxes && room.outboxes[id].inflight.Some?
    case ReadErr(id) => id in room.outboxes
  }

  ghost function Apply<Id>(room: Room<Id>, e: Event<Id>): Room<Id>
    requires Enabled(room, e)
  {
    match e
    case Join(id) => Joined(room, id)
    case Deliver(m) => Delivered(room, m)
    case WriteOk(id) => room.(outboxes := room.outboxes[id := Completed(room.outboxes[id])])
    case WriteErr(id) => Left(room.(outboxes := room.outboxes[id := Failed(room.outboxes[id])]), id)
    case ReadErr(id) => Left(room, id)
  }

  ghost predicate Legal<Id>(log: seq<Event<Id>>)
    decreases |log|, 0
  {
    log == [] || (var before := log[..|log| - 1]; Legal(before) && Enabled(After(before), log[|log| - 1]))
  }

  ghost function After<Id>(log: seq<Event<Id>>): Room<Id>
    requires Legal(log)
    decreases |log|, 1
  {
    if log == [] then Room({}, [], map[]) else Apply(After(log[..|log| - 1]), log[|log| - 1])
  }

  /** The messages delivered to the room, in order. */
  function Messages<Id>(log: seq<Event<Id>>): seq<Message>
    decreases |log|
  {
    if log == [] then []
    else Messages(log[..|log| - 1]) + match log[|log| - 1] case Deliver(m) => [m] case _ => []
  }

  predicate Departs<Id(==)>(e: Event<Id>, id: Id) {
    e == WriteErr(id) || e == ReadErr(id)
  }

  // ---- what holds in every state ----

  ghost predicate RoomInv<Id>(room: Room<Id>, delivered: seq<Message>) {
    && room.recent == Last(delivered, MAX_RECENT)
    && (forall id <- room.outboxes :: room.outboxes[id].OneWrite())
    && (forall id <- room.outboxes :: room.outboxes[id].broken ==> room.outboxes[id].queue != [])
    && (forall id <- room.members :: id in room.outboxes && !room.outboxes[id].broken)
  }

  lemma StepKeepsRoom<Id>(room: Room<Id>, e: Event<Id>, delivered: seq<Message>)
    requires RoomInv(room, delivered) && Enabled(room, e)
    ensures RoomInv(Apply(room, e), delivered + match e case Deliver(m) => [m] case _ => [])
  {
    var room' := Apply(room, e);
    match e
    case Join(id) => PushedAllEffect(EMPTY_OUTBOX, room.recent);
    case Deliver(m) => assert room'.outboxes.Keys == room.outboxes.Keys;
    case WriteOk(id) => assert room'.outboxes[id].OneWrite();
    case WriteErr(id) => assert room'.members == room.members - {id};
    case ReadErr(id) => assert room'.outboxes == room.outboxes;
  }

  /** In every run, the history is the last hundred messages, each session has exactly one write in
      flight while its queue is nonempty and no write of it has failed, namely the front of its queue,
      and no member has a failed write. */
  lemma {:induction false} RunKeepsRoom<Id>(log: seq<Event<Id>>)
    requires Legal(log)
    ensures RoomInv(After(log), Messages(log))
    decreases |log|
  {
    if log != [] {
      var before := log[..|log| - 1];
      RunKeepsRoom(before);
      StepKeepsRoom(After(before), log[|log| - 1], Messages(before));
      assert Messages(before) + [] == Messages(before);
    }
  }

  /** In every run, the history is the latest hundred messages, or all while there are fewer. */
  lemma HistoryIsTheLatest<Id>(log: seq<Event<Id>>)
    requires Legal(log)
    ensures var all, recent := Messages(log), After(log).recent;
      |recent| == (if |all| <= 100 then |all| else 100) && recent == all[|all| - |recent|..]
  {
    RunKeepsRoom(log);
  }

  lemma {:induction false} PrefixLegal<Id>(log: seq<Event<Id>>, n: nat)
    requires Legal(log) && n <= |log|
    ensures Legal(log[..n])
    decreases |log|
  {
    if n < |log| {
      var before := log[..|log| - 1];
      PrefixLegal(before, n);
      assert before[..n] == log[..n];
    } else {
      assert log[..n] == log;
    }
  }

  // ---- the delivery guarantee ----

  /** The session joined at j and its membership lasted up to l: to its first departure, or to now. */
  ghost predicate MemberDuring<Id>(log: seq<Event<Id>>, id: Id, j: nat, l: nat) {
    && j < l <= |log| && log[j] == Join(id)
    && (l < |log| ==> Departs(log[l], id))
    && (forall k :: j < k < l ==> !Departs(log[k], id))
  }

  /** What the session is due: the history at its join, then every message while it was a member. */
  function Due<Id>(log: seq<Event<Id>>, j: nat, l: nat): seq<Message>
    requires j <= l <= |log|
  {
    Last(Messages(log[..j]), MAX_RECENT) + Messages(log[j..l])
  }

  lemma DueExtends<Id>(log: seq<Event<Id>>, j: nat, l: nat)
    requires j < l < |log|
    ensures Due(log[..|log| - 1], j, l) == Due(log, j, l)
    ensures Due(log, j, l + 1) == Due(log, j, l) + match log[l] case Deliver(m) => [m] case _ => []
  {
    assert log[..|log| - 1][j..l] == log[j..l] && log[..|log| - 1][..j] == log[..j];
    assert log[j..l + 1][..l - j] == log[j..l] && log[j..l + 1][l - j] == log[l];
  }

  /** One step's effect on what a session has been or will be sent. */
  lemma StepSends<Id>(room: Room<Id>, e: Event<Id>, delivered: seq<Message>, id: Id)
    requires RoomInv(room, delivered) && Enabled(room, e) && id in room.outboxes
    ensures var o, o' := room.outboxes[id], Apply(room, e).outboxes[id];
      o'.sent + o'.queue == o.sent + o.queue + if id in room.members && e.Deliver? then [e.m] else []
    ensures id in Apply(room, e).members <==> id in room.members && !Departs(e, id)
  {
  }

  lemma JustJoined<Id>(log: seq<Event<Id>>, id: Id)
    requires Legal(log) && log != [] && log[|log| - 1] == Join(id)
    requires var before := log[..|log| - 1]; RoomInv(After(before), Messages(before))
    ensures id in After(log).outboxes && id in After(log).members
    ensures var o := After(log).outboxes[id]; o.sent + o.queue == Due(log, |log| - 1, |log|)
  {
    var n := |log| - 1;
    PushedAllEffect(EMPTY_OUTBOX, After(log[..n]).recent);
    assert log[n..] == [Join(id)] && [Join(id)][..0] == [];
    assert Messages([Join(id)]) == [];
    var o := After(log).outboxes[id];
    assert o.sent + o.queue == After(log[..n]).recent;
  }

  /** In every run, what a session has been sent followed by what it still queues is the last hundred
      messages before its join followed by all messages while it was a member, in order. */
  lemma {:induction false} EveryMemberGetsItsDue<Id>(log: seq<Event<Id>>, id: Id, j: nat, l: nat)
    requires Legal(log) && MemberDuring(log, id, j, l)
    ensures id in After(log).outboxes
    ensures var o := After(log).outboxes[id]; o.sent + o.queue == Due(log, j, l)
    ensures id in After(log).members <==> l == |log|
    decreases |log|
  {
    var n := |log| - 1;
    var before, e := log[..n], log[n];
    RunKeepsRoom(before);
    if j == n {
      JustJoined(log, id);
    } else {
      var l' := if l == |log| then n else l;
      EveryMemberGetsItsDue(before, id, j, l');
      StepSends(After(before), e, Messages(before), id);
      if l == |log| {
        DueExtends(log, j, n);
      } else if l < n {
        DueExtends(log, j, l);
      } else {
        DueExtends(log, j, n);
      }
    }
  }

  // ---- failed writes ----

  /** In every run a session is broken exactly if one of its writes has failed; so a write is in flight
      exactly if none has failed and the queue is nonempty. */
  lemma {:induction false} BrokenIffWriteFailed<Id>(log: seq<Event<Id>>, id: Id)
    requires Legal(log)
    ensures WriteErr(id) in log ==> id in After(log).outboxes
    ensures id in After(log).outboxes ==>
      var o := After(log).outboxes[id];
      && (o.broken <==> WriteErr(id) in log)
      && o.inflight == if WriteErr(id) in log || o.queue == [] then None else Some(o.queue[0])
    decreases |log|
  {
    RunKeepsRoom(log);
    if log != [] {
      var before, e := log[..|log| - 1], log[|log| - 1];
      assert log == before + [e];
      BrokenIffWriteFailed(before, id);
      if e == Join(id) { PushedAllEffect(EMPTY_OUTBOX, After(before).recent); }
    }
  }

  /** After a failed write, in terms of the log alone: nothing of the session is in flight, what it has
      been sent and what it queues stay as they were before, and no write of it completes or fails. */
  lemma {:induction false} NothingAfterAFailedWrite<Id>(log: seq<Event<Id>>, i: nat, id: Id)
    requires Legal(log) && i < |log| && log[i] == WriteErr(id)
    ensures Legal(log[..i]) && id in After(log[..i]).outboxes && id in After(log).outboxes
    ensures var o, was := After(log).outboxes[id], After(log[..i]).outboxes[id];
      o.inflight == None && o.sent == was.sent && o.queue == was.queue
    ensures After(log).outboxes[id].broken && id !in After(log).members
    ensures forall k :: i < k < |log| ==> log[k] != WriteOk(id) && log[k] != WriteErr(id)
    decreases |log|
  {
    var n := |log| - 1;
    var before := log[..n];
    PrefixLegal(log, i);
    if i < n {
      assert before[..i] == log[..i];
      NothingAfterAFailedWrite(before, i, id);
      RunKeepsRoom(before);
      BrokenStep(After(before), log[n], Messages(before), id);
      assert forall k :: i < k < n ==> log[k] == before[k];
    } else {
      assert log[..i] == before;
    }
  }

  lemma BrokenStep<Id>(room: Room<Id>, e: Event<Id>, delivered: seq<Message>, id: Id)
    requires RoomInv(room, delivered) && Enabled(room, e) && id in room.outboxes && room.outboxes[id].broken
    ensures e != WriteOk(id) && e != WriteErr(id)
    ensures id in Apply(room, e).outboxes && Apply(room, e).outboxes[id] == room.outboxes[id]
    ensures id !in Apply(room, e).members
  {
  }

  /** So many completions of the session's writes in a row. */
  function Completions<Id>(id: Id, n: nat): seq<Event<Id>> {
    if n == 0 then [] else [WriteOk(id)] + Completions(id, n - 1)
  }

  /** Delivery completes: from any moment of any run in which no write of the session has failed, as
      many completed writes as it has queued messages can follow, and then it has been sent all it is
      due, and nothing else is queued or in flight. */
  lemma CompletionsDeliverAll<Id>(log: seq<Event<Id>>, id: Id, j: nat, l: nat)
    requires Legal(log) && MemberDuring(log, id, j, l) && WriteErr(id) !in log
    ensures id in After(log).outboxes
    ensures var log' := log + Completions(id, |After(log).outboxes[id].queue|);
      Legal(log') && id in After(log').outboxes && After(log').outboxes[id] == Outbox([], None, Due(log, j, l), false)
  {
    EveryMemberGetsItsDue(log, id, j, l);
    BrokenIffWriteFailed(log, id);
    CompletionsDrain(log, id, j, l, |After(log).outboxes[id].queue|);
  }

  lemma {:induction false} CompletionsDrain<Id>(log: seq<Event<Id>>, id: Id, j: nat, l: nat, n: nat)
    requires Legal(log) && MemberDuring(log, id, j, l)
    requires id in After(log).outboxes && !After(log).outboxes[id].broken
    requires n == |After(log).outboxes[id].queue|
    ensures var log' := log + Completions(id, n);
      Legal(log') && id in After(log').outboxes && After(log').outboxes[id] == Outbox([], None, Due(log, j, l), false)
    decreases n
  {
    RunKeepsRoom(log);
    if n == 0 {
      EveryMemberGetsItsDue(log, id, j, l);
      var o := After(log).outboxes[id];
      assert o.sent + o.queue == o.sent;
      assert log + Completions(id, 0) == log;
    } else {
      var next := log + [WriteOk(id)];
      OneCompletion(log, id, j, l);
      CompletionsDrain(next, id, j, if l == |log| then |next| else l, n - 1);
      Associate(log, [WriteOk(id)], Completions(id, n - 1));
      DueUnchanged(log, id, j, l);
    }
  }

  lemma OneCompletion<Id>(log: seq<Event<Id>>, id: Id, j: nat, l: nat)
    requires Legal(log) && MemberDuring(log, id, j, l) && RoomInv(After(log), Messages(log))
    requires id in After(log).outboxes && !After(log).outboxes[id].broken && After(log).outboxes[id].queue != []
    ensures var next := log + [WriteOk(id)];
      && Legal(next) && MemberDuring(next, id, j, if l == |log| then |next| else l)
      && id in After(next).outboxes && !After(next).outboxes[id].broken
      && |After(next).outboxes[id].queue| == |After(log).outboxes[id].queue| - 1
  {
    var next := log + [WriteOk(id)];
    assert next[..|next| - 1] == log;
  }

  lemma DueUnchanged<Id>(log: seq<Event<Id>>, id: Id, j: nat, l: nat)
    requires j < l <= |log|
    ensures var next := log + [WriteOk(id)];
      Due(next, j, if l == |log| then |next| else l) == Due(log, j, l)
  {
    var next := log + [WriteOk(id)];
    assert next[..|next| - 1] == log;
    assert next[j..l] == log[j..l] && next[..j] == log[..j];
    if l == |log| {
      DueExtends(next + [WriteOk(id)], j, l);
      assert (next + [WriteOk(id)])[..j] == log[..j] && (next + [WriteOk(id)])[j..l] == log[j..l];
      assert (next + [WriteOk(id)])[j..l + 1] == next[j..l + 1];
    }
  }

  /** After a failed write a session is never sent anything again and its queue stays as it was. */
  lemma {:induction false} BrokenIsFrozen<Id>(log: seq<Event<Id>>, n: nat, id: Id)
    requires Legal(log) && n <= |log| && Legal(log[..n])
    requires id in After(log[..n]).outboxes && After(log[..n]).outboxes[id].broken
    ensures id in After(log).outboxes && After(log).outboxes[id] == After(log[..n]).outboxes[id]
    decreases |log|
  {
    if n == |log| {
      assert log[..n] == log;
    } else {
      var before := log[..|log| - 1];
      assert before[..n] == log[..n];
      BrokenIsFrozen(before, n, id);
      RunKeepsRoom(before);
    }
  }

  // ---- through the socket to the client ----

  lemma {:induction false} DeliveredAreWellFormed<Id>(log: seq<Event<Id>>)
    requires Legal(log)
    ensures AllWellFormed(Messages(log))
    decreases |log|
  {
    if log != [] {
      DeliveredAreWellFormed(log[..|log| - 1]);
    }
  }

  lemma {:induction false} SliceMessages<Id>(log: seq<Event<Id>>, j: nat, l: nat)
    requires j <= l <= |log|
    ensures Messages(log[..j]) + Messages(log[j..l]) == Messages(log[..l])
    decreases l
  {
    if j == l {
      assert log[j..l] == [];
    } else {
      SliceMessages(log, j, l - 1);
      assert log[j..l][..l - 1 - j] == log[j..l - 1];
      assert log[..l][..l - 1] == log[..l - 1];
    }
  }

  lemma DueIsWellFormed<Id>(log: seq<Event<Id>>, j: nat, l: nat)
    requires Legal(log) && j <= l <= |log|
    ensures AllWellFormed(Due(log, j, l))
  {
    PrefixLegal(log, l);
    DeliveredAreWellFormed(log[..l]);
    SliceMessages(log, j, l);
    PartsWellFormed(Messages(log[..j]), Messages(log[j..l]));
  }

  lemma PartsWellFormed(early: seq<Message>, late: seq<Message>)
    requires AllWellFormed(early + late)
    ensures AllWellFormed(Last(early, MAX_RECENT) + late)
  {
    var due := Last(early, MAX_RECENT) + late;
    var off := |early + late| - |due|;
    forall i | 0 <= i < |due| ensures due[i].WellFormed() {
      assert due[i] == (early + late)[off + i];
    }
  }

  /** From the room to the far end: at every moment of every run, whatever part of the current or failed
      write has gone out, all of it included, the client has read without error exactly the messages
      whose bytes are complete, header bytes included. They are the completed writes, and the current
      one once it is all out; in either case the first of those the session is due, and all of them
      once its queue is empty. */
  lemma ClientReadsItsDue<Id>(log: seq<Event<Id>>, id: Id, j: nat, l: nat, k: nat)
    requires Legal(log) && MemberDuring(log, id, j, l)
    ensures id in After(log).outboxes
    ensures var o := After(log).outboxes[id];
      && (o.inflight.Some? || o.broken <==> o.queue != []) && (o.inflight.Some? ==> o.inflight.value == o.queue[0])
      && ((o.queue != [] ==> k <= |o.queue[0].Wire()|) ==>
            var p := Parse(OnTheWire(o, k));
            && !p.failed && p.messages == Arrived(o, k) && p.messages <= Due(log, j, l)
            && (o.queue == [] ==> p.messages == Due(log, j, l)))
  {
    EveryMemberGetsItsDue(log, id, j, l);
    RunKeepsRoom(log);
    DueIsWellFormed(log, j, l);
    var o := After(log).outboxes[id];
    if o.queue != [] ==> k <= |o.queue[0].Wire()| {
      FarEndReadsWhatArrived(o, k);
      ArrivedIsPrefix(o, k);
    }
  }

  /** Relaying: whatever bytes a session receives, the messages its read loop accepts are read
      unchanged, header bytes included, by the client they are forwarded to. */
  lemma RelayedUnchanged(stream: seq<byte>)
    ensures Parse(WireOf(Parse(stream).messages)) == Parsed(Parse(stream).messages, [], false)
  {
    var ms := Parse(stream).messages;
    ReadingIsLossless(stream);
    ReadingUndoesWriting(ms, []);
    assert WireOf(ms) + [] == WireOf(ms) && ms + [] == ms;
  }
}
