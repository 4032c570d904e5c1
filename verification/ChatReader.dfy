/** The header-then-body read loop that the chat server and client both run on a byte stream. */
module ChatReader {
  import opened Common
  import opened ChatMessage
  import opened SeqFilter

  /** The messages read, the bytes not yet consumed, and whether a header was refused. */
  datatype Parsed = Parsed(messages: seq<Message>, rest: seq<byte>, failed: bool)

  function Parse(stream: seq<byte>): Parsed
    decreases |stream|
  {
    if |stream| < HEADER_LENGTH then Parsed([], stream, false)
    else
      match Decode(stream[..HEADER_LENGTH])
      case None => Parsed([], stream, true)
      case Some(n) =>
        if |stream| < HEADER_LENGTH + n then Parsed([], stream, false)
        else
          var tail := Parse(stream[HEADER_LENGTH + n..]);
          var first := Message(stream[..HEADER_LENGTH], stream[HEADER_LENGTH..HEADER_LENGTH + n]);
          tail.(messages := [first] + tail.messages)
  }

  /** What writing the messages one after another puts on the stream. */
  function WireOf(messages: seq<Message>): seq<byte> {
    if messages == [] then [] else messages[0].Wire() + WireOf(messages[1..])
  }

  ghost predicate AllWellFormed(messages: seq<Message>) {
    forall i :: 0 <= i < |messages| ==> messages[i].WellFormed()
  }

  lemma WireOfFront(m: Message, rest: seq<Message>)
    ensures WireOf([m] + rest) == m.Wire() + WireOf(rest)
    ensures m.WellFormed() && AllWellFormed(rest) ==> AllWellFormed([m] + rest)
  {
    assert ([m] + rest)[1..] == rest;
  }

  lemma FrameSplit(stream: seq<byte>, n: nat)
    requires HEADER_LENGTH + n <= |stream|
    ensures stream == stream[..HEADER_LENGTH] + stream[HEADER_LENGTH..HEADER_LENGTH + n] + stream[HEADER_LENGTH + n..]
  {
  }

  /** Nothing is lost, altered or invented: the messages read, header bytes as received, and the
      unconsumed bytes are the stream; and every message read is fit to be read again. */
  lemma {:induction false} ReadingIsLossless(stream: seq<byte>)
    ensures var p := Parse(stream);
      WireOf(p.messages) + p.rest == stream && AllWellFormed(p.messages)
    decreases |stream|
  {
    if |stream| >= HEADER_LENGTH && Decode(stream[..HEADER_LENGTH]).Some? {
      var n := Decode(stream[..HEADER_LENGTH]).value;
      if |stream| >= HEADER_LENGTH + n {
        var tail := stream[HEADER_LENGTH + n..];
        var m := Message(stream[..HEADER_LENGTH], stream[HEADER_LENGTH..HEADER_LENGTH + n]);
        ReadingIsLossless(tail);
        WireOfFront(m, Parse(tail).messages);
        Associate(m.Wire(), WireOf(Parse(tail).messages), Parse(tail).rest);
        FrameSplit(stream, n);
      }
    }
  }

  lemma FrontFrame(m: Message, rest: seq<byte>)
    requires m.WellFormed()
    ensures Parse(m.Wire() + rest) == Parse(rest).(messages := [m] + Parse(rest).messages)
  {
    var stream := m.Wire() + rest;
    assert stream[..HEADER_LENGTH] == m.header;
    assert stream[HEADER_LENGTH..HEADER_LENGTH + |m.body|] == m.body;
    assert stream[HEADER_LENGTH + |m.body|..] == rest;
  }

  /** Well-formed messages written back to back are read back exactly, whatever follows them. */
  lemma {:induction false} ReadingUndoesWriting(messages: seq<Message>, tail: seq<byte>)
    requires AllWellFormed(messages)
    ensures Parse(WireOf(messages) + tail) == Parse(tail).(messages := messages + Parse(tail).messages)
  {
    if messages == [] {
      assert WireOf(messages) + tail == tail;
    } else {
      var m, rest := messages[0], WireOf(messages[1..]) + tail;
      assert WireOf(messages) + tail == m.Wire() + rest by {
        Associate(m.Wire(), WireOf(messages[1..]), tail);
      }
      FrontFrame(m, rest);
      ReadingUndoesWriting(messages[1..], tail);
      Associate([m], messages[1..], Parse(tail).messages);
      assert messages == [m] + messages[1..];
    }
  }

  lemma NothingMore(stream: seq<byte>)
    ensures var p := Parse(stream);
      Parse(p.rest) == Parsed([], p.rest, p.failed)
  {
  }

  /** Reads may end anywhere: reading a prefix, then the rest of the stream behind the bytes left
      over, reads what reading the whole stream at once does. A refused header is final. */
  lemma ReadingInPieces(a: seq<byte>, b: seq<byte>)
    ensures !Parse(a).failed ==>
      Parse(a + b) == Parse(Parse(a).rest + b).(messages := Parse(a).messages + Parse(Parse(a).rest + b).messages)
    ensures Parse(a).failed ==> Parse(a + b) == Parsed(Parse(a).messages, Parse(a).rest + b, true)
  {
    var p := Parse(a);
    ReadingIsLossless(a);
    assert a + b == WireOf(p.messages) + (p.rest + b);
    ReadingUndoesWriting(p.messages, p.rest + b);
    if p.failed {
      NothingMore(a);
      assert |p.rest| >= HEADER_LENGTH;
      assert (p.rest + b)[..HEADER_LENGTH] == p.rest[..HEADER_LENGTH];
      assert p.messages + [] == p.messages;
    }
  }

  // ---- when reading stops ----

  /** The next four bytes are a header the decoder refuses. */
  ghost predicate Refused(rest: seq<byte>) {
    |rest| >= HEADER_LENGTH && Decode(rest[..HEADER_LENGTH]).None?
  }

  /** The next header, or the body it announces, is not all there. */
  ghost predicate Incomplete(rest: seq<byte>) {
    |rest| < HEADER_LENGTH ||
    (Decode(rest[..HEADER_LENGTH]).Some? && |rest| < HEADER_LENGTH + Decode(rest[..HEADER_LENGTH]).value)
  }

  /** Reading fails if and only if the bytes left over begin with a refused header, and otherwise stops
      only for want of bytes. */
  lemma {:induction false} FailsIffRefused(stream: seq<byte>)
    ensures Parse(stream).failed <==> Refused(Parse(stream).rest)
    ensures !Parse(stream).failed <==> Incomplete(Parse(stream).rest)
    decreases |stream|
  {
    if |stream| >= HEADER_LENGTH && Decode(stream[..HEADER_LENGTH]).Some? {
      var n := Decode(stream[..HEADER_LENGTH]).value;
      if |stream| >= HEADER_LENGTH + n {
        FailsIffRefused(stream[HEADER_LENGTH + n..]);
      }
    }
  }

  /** Whatever frames come before and whatever bytes behind, a refused header ends the reading there. */
  lemma RefusedHeaderFails(messages: seq<Message>, header: seq<byte>, tail: seq<byte>)
    requires AllWellFormed(messages) && |header| == HEADER_LENGTH && Decode(header) == None
    ensures Parse(WireOf(messages) + header + tail) == Parsed(messages, header + tail, true)
  {
    var rest := header + tail;
    assert rest[..HEADER_LENGTH] == header;
    ReadingUndoesWriting(messages, rest);
    Associate(WireOf(messages), header, tail);
    assert messages + [] == messages;
  }

  /** "9999" and "  -1" are refused. */
  lemma TwoRefusedStreams(tail: seq<byte>)
    ensures Parse([57, 57, 57, 57] + tail) == Parsed([], [57, 57, 57, 57] + tail, true)
    ensures Parse([32, 32, 45, 49] + tail) == Parsed([], [32, 32, 45, 49] + tail, true)
  {
    var nines, minus := [57, 57, 57, 57], [32, 32, 45, 49];
    NinesAreRefused();
    MinusIsRefused();
    RefusedHeaderFails([], nines, tail);
    RefusedHeaderFails([], minus, tail);
    assert WireOf([]) + nines == nines && WireOf([]) + minus == minus;
  }

  lemma NinesAreRefused()
    ensures Decode([57, 57, 57, 57]) == None
  {
    var nines := [57, 57, 57, 57];
    NoNul(nines);
    AtoiReadsTheNumber(Parts([], [], nines, []));
    assert Parts([], [], nines, []).Whole() == nines;
    assert nines[..3] == [57, 57, 57] && [57, 57, 57][..2] == [57, 57] && [57, 57][..1] == [57] && [57][..0] == [];
    assert Value([57]) == 9 && Value([57, 57]) == 99 && Value([57, 57, 57]) == 999 && Value(nines) == 9999;
  }

  lemma MinusIsRefused()
    ensures Decode([32, 32, 45, 49]) == None
  {
    var minus := [32, 32, 45, 49];
    NoNul(minus);
    AtoiReadsTheNumber(Parts([32, 32], [45], [49], []));
    assert Parts([32, 32], [45], [49], []).Whole() == minus;
    assert [49][..0] == [] && Value([49]) == 1;
  }

  /** A frame cut short yields nothing yet, and no error. */
  lemma PartialFrame(m: Message, k: nat)
    requires m.WellFormed() && k < |m.Wire()|
    ensures Parse(m.Wire()[..k]) == Parsed([], m.Wire()[..k], false)
  {
    if k >= HEADER_LENGTH {
      assert m.Wire()[..k][..HEADER_LENGTH] == m.header;
    }
  }

  /** do_read_header and do_read_body, run on all the bytes that arrive: each header is put into the
      front of the message buffer and decoded, each body behind it, and the buffer is handed on. */
  method ReadLoop(input: seq<byte>) returns (messages: seq<Message>, rest: seq<byte>, failed: bool)
    ensures Parsed(messages, rest, failed) == Parse(input)
  {
    var readMsg := new ChatMessageBuffer();
    messages, rest, failed := [], input, false;
    while |rest| >= HEADER_LENGTH
      invariant readMsg.Valid() && fresh(readMsg) && fresh(readMsg.data)
      invariant !failed
      invariant Parse(input) == Parse(rest).(messages := messages + Parse(rest).messages)
      decreases |rest|
    {
      var header := rest[..HEADER_LENGTH];
      readMsg.Receive(0, header);
      assert readMsg.data[..HEADER_LENGTH] == header;
      var ok := readMsg.DecodeHeader();
      if !ok {
        failed := true;
        return;
      }
      if |rest| < HEADER_LENGTH + readMsg.bodyLength {
        return;
      }
      var body := rest[HEADER_LENGTH..HEADER_LENGTH + readMsg.bodyLength];
      readMsg.Receive(HEADER_LENGTH, body);
      ghost var after := Parse(rest[HEADER_LENGTH + readMsg.bodyLength..]).messages;
      assert readMsg.View() == Message(header, body);
      assert messages + ([readMsg.View()] + after) == messages + [readMsg.View()] + after;
      messages := messages + [readMsg.View()];
      rest := rest[HEADER_LENGTH + readMsg.bodyLength..];
    }
  }
}
