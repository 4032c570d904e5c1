/** The chat room: its members, its bounded history, and each session's queue of writes. */
module ChatRoom {
  import opened Common
  import opened ChatMessage
  import opened ChatReader

  const MAX_RECENT: nat := 100

  /** A session's writing side: the queue, the write handed to the socket, the writes completed, and
      whether a write has failed. */
  datatype Outbox = Outbox(queue: seq<Message>, inflight: Option<Message>, sent: seq<Message>, broken: bool) {
    /** Until a write fails, exactly one write is in flight if the queue is nonempty: its front. */
    ghost predicate OneWrite() {
      inflight == if broken || queue == [] then None else Some(queue[0])
    }
  }

  const EMPTY_OUTBOX: Outbox := Outbox([], None, [], false)

  function Pushed(o: Outbox, m: Message): Outbox {
    var queue := o.queue + [m];
    o.(queue := queue, inflight := if o.queue == [] then Some(queue[0]) else o.inflight)
  }

  function PushedAll(o: Outbox, ms: seq<Message>): Outbox
    decreases |ms|
  {
    if ms == [] then o else PushedAll(Pushed(o, ms[0]), ms[1..])
  }

  function Completed(o: Outbox): Outbox
    requires o.inflight.Some? && o.queue != []
  {
    var queue := o.queue[1..];
    o.(queue := queue, inflight := if queue == [] then None else Some(queue[0]), sent := o.sent + [o.inflight.value])
  }

  function Failed(o: Outbox): Outbox {
    o.(inflight := None, broken := true)
  }

  /** The last n elements, or all of them when there are fewer. */
  function Last<T>(xs: seq<T>, n: nat): seq<T> {
    if |xs| <= n then xs else xs[|xs| - n..]
  }

  datatype Room<Id> = Room(members: set<Id>, recent: seq<Message>, outboxes: map<Id, Outbox>)

  function Joined<Id>(room: Room<Id>, id: Id): Room<Id> {
    Room(room.members + {id}, room.recent, room.outboxes[id := PushedAll(EMPTY_OUTBOX, room.recent)])
  }

  function Left<Id>(room: Room<Id>, id: Id): Room<Id> {
    room.(members := room.members - {id})
  }

  function Delivered<Id>(room: Room<Id>, m: Message): Room<Id> {
    Room(room.members, Last(room.recent + [m], MAX_RECENT),
         map id | id in room.outboxes :: if id in room.members then Pushed(room.outboxes[id], m) else room.outboxes[id])
  }

  function DeliveredAll<Id>(room: Room<Id>, ms: seq<Message>): Room<Id>
    decreases |ms|
  {
    if ms == [] then room else DeliveredAll(Delivered(room, ms[0]), ms[1..])
  }

  lemma {:induction false} PushedAllEffect(o: Outbox, ms: seq<Message>)
    requires o.OneWrite() && !o.broken
    ensures var o' := PushedAll(o, ms);
      o'.queue == o.queue + ms && o'.sent == o.sent && !o'.broken && o'.OneWrite()
    decreases |ms|
  {
    if ms != [] {
      PushedAllEffect(Pushed(o, ms[0]), ms[1..]);
      assert o.queue + [ms[0]] + ms[1..] == o.queue + ms;
    }
  }

  // ---- the objects ----

  class ChatSession {
    var writeMsgs: seq<Message>
    var inflight: Option<Message>
    var sent: seq<Message>
    var broken: bool

    function View(): Outbox
      reads this
    {
      Outbox(writeMsgs, inflight, sent, broken)
    }

    constructor ()
      ensures View() == EMPTY_OUTBOX
    {
      writeMsgs, inflight, sent, broken := [], None, [], false;
    }

    method Deliver(msg: Message)
      modifies this
      ensures View() == Pushed(old(View()), msg)
    {
      var writeInProgress := writeMsgs != [];
      writeMsgs := writeMsgs + [msg];
      if !writeInProgress {
        DoWrite();
      }
    }

    method DoWrite()
      requires writeMsgs != []
      modifies this`inflight
      ensures inflight == Some(writeMsgs[0])
    {
      inflight := Some(writeMsgs[0]);
    }

    /** The session's read loop on all the bytes that arrive: every message read is delivered to the room,
        and a refused header, or the end of the stream, makes the session leave it. */
    method Serve(input: seq<byte>, ended: bool, room: ChatRoom, ghost sessions: set<ChatSession>)
      requires |room.recentMsgs| <= MAX_RECENT && room.participants <= sessions
      modifies room, sessions
      ensures var after := DeliveredAll(old(room.View(sessions)), Parse(input).messages);
        room.View(sessions) == if Parse(input).failed || ended then Left(after, this) else after
    {
      var messages, rest, failed := ReadLoop(input);
      for i := 0 to |messages|
        invariant |room.recentMsgs| <= MAX_RECENT && room.participants == old(room.participants)
        invariant DeliveredAll(room.View(sessions), messages[i..]) ==
                  DeliveredAll(old(room.View(sessions)), Parse(input).messages)
      {
        assert messages[i..][0] == messages[i] && messages[i..][1..] == messages[i + 1..];
        room.Deliver(messages[i], sessions);
      }
      if failed || ended {
        room.Leave(this);
      }
    }

    /** The completion handler of the write in flight. */
    method OnWrite(ok: bool, room: ChatRoom)
      requires inflight.Some? && writeMsgs != []
      modifies this, room
      ensures View() == if ok then Completed(old(View())) else Failed(old(View()))
      ensures room.recentMsgs == old(room.recentMsgs)
      ensures room.participants == if ok then old(room.participants) else old(room.participants) - {this}
    {
      if ok {
        sent := sent + [inflight.value];
        inflight := None;
        writeMsgs := writeMsgs[1..];
        if writeMsgs != [] {
          DoWrite();
        }
      } else {
        inflight := None;
        broken := true;
        room.Leave(this);
      }
    }
  }

  class ChatRoom {
    var participants: set<ChatSession>
    var recentMsgs: seq<Message>

    constructor ()
      ensures participants == {} && recentMsgs == []
    {
      participants, recentMsgs := {}, [];
    }

    /** The room together with any set of sessions, as a value. */
    ghost function View(sessions: set<ChatSession>): Room<ChatSession>
      reads this, sessions
    {
      Room(participants, recentMsgs, map s | s in sessions :: s.View())
    }

    method Join(participant: ChatSession, ghost others: set<ChatSession>)
      requires participant.View() == EMPTY_OUTBOX && participant !in others
      modifies this`participants, participant
      ensures View(others + {participant}) == Joined(old(View(others)), participant)
    {
      participants := participants + {participant};
      for i := 0 to |recentMsgs|
        modifies participant
        invariant PushedAll(participant.View(), recentMsgs[i..]) == PushedAll(EMPTY_OUTBOX, recentMsgs)
      {
        assert recentMsgs[i..] == [recentMsgs[i]] + recentMsgs[i + 1..];
        participant.Deliver(recentMsgs[i]);
      }
      assert View(others + {participant}).outboxes == Joined(old(View(others)), participant).outboxes;
    }

    method Leave(participant: ChatSession)
      modifies this`participants
      ensures participants == old(participants) - {participant}
    {
      participants := participants - {participant};
    }

    method Deliver(msg: Message, ghost sessions: set<ChatSession>)
      requires |recentMsgs| <= MAX_RECENT && participants <= sessions
      modifies this`recentMsgs, participants
      ensures View(sessions) == Delivered(old(View(sessions)), msg)
      ensures |recentMsgs| <= MAX_RECENT
    {
      Remember(msg);
      var todo := participants;
      while todo != {}
        modifies participants
        invariant todo <= participants == old(participants)
        invariant forall s :: s in participants - todo ==> s.View() == Pushed(old(s.View()), msg)
        invariant forall s :: s in sessions && (s in todo || s !in participants) ==> s.View() == old(s.View())
        decreases todo
      {
        var participant :| participant in todo;
        participant.Deliver(msg);
        todo := todo - {participant};
      }
      assert View(sessions).outboxes == Delivered(old(View(sessions)), msg).outboxes;
    }

    /** The history part of Deliver. */
    method Remember(msg: Message)
      requires |recentMsgs| <= MAX_RECENT
      modifies this`recentMsgs
      ensures recentMsgs == Last(old(recentMsgs) + [msg], MAX_RECENT) && |recentMsgs| <= MAX_RECENT
    {
      recentMsgs := recentMsgs + [msg];
      while |recentMsgs| > MAX_RECENT
        invariant recentMsgs == Last(old(recentMsgs) + [msg], |recentMsgs|)
        invariant |recentMsgs| == |old(recentMsgs)| + 1 || |recentMsgs| == MAX_RECENT
      {
        recentMsgs := recentMsgs[1..];
      }
    }
  }
}
