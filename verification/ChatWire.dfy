/** What a queue of writes puts on the wire, and what the far end makes of it. */
module ChatWire {
  import opened Common
  import opened ChatMessage
  import opened ChatReader
  import opened ChatRoom

  /** The bytes a socket has carried: every completed write, and the first k bytes of the
      queue's front, which is the message in flight or the one whose write failed. */
  function OnTheWire(o: Outbox, k: nat): seq<byte>
    requires o.queue != [] ==> k <= |o.queue[0].Wire()|
  {
    WireOf(o.sent) + if o.queue != [] then o.queue[0].Wire()[..k] else []
  }

  /** The messages of which the far end has all bytes. */
  function Arrived(o: Outbox, k: nat): seq<Message> {
    if o.queue != [] && k == |o.queue[0].Wire()| then o.sent + [o.queue[0]] else o.sent
  }

  lemma FarEndReadsWhatArrived(o: Outbox, k: nat)
    requires AllWellFormed(o.sent + o.queue) && (o.queue != [] ==> k <= |o.queue[0].Wire()|)
    ensures Parse(OnTheWire(o, k)).messages == Arrived(o, k) && !Parse(OnTheWire(o, k)).failed
  {
    assert forall i :: 0 <= i < |o.sent| ==> o.sent[i] == (o.sent + o.queue)[i];
    if o.queue == [] {
      ReadingUndoesWriting(o.sent, []);
      assert o.sent + [] == o.sent;
    } else {
      var m := o.queue[0];
      assert m == (o.sent + o.queue)[|o.sent|];
      ReadingUndoesWriting(o.sent, m.Wire()[..k]);
      if k < |m.Wire()| {
        PartialFrame(m, k);
        assert o.sent + [] == o.sent;
      } else {
        assert m.Wire()[..k] == m.Wire() + [];
        FrontFrame(m, []);
      }
    }
  }

  lemma ArrivedIsPrefix(o: Outbox, k: nat)
    ensures Arrived(o, k) <= o.sent + o.queue && (o.queue == [] ==> Arrived(o, k) == o.sent + o.queue)
  {
    if o.queue != [] {
      assert o.sent + o.queue == o.sent + [o.queue[0]] + o.queue[1..];
    } else {
      assert o.sent + o.queue == o.sent;
    }
  }
}
