/** The chat client: what it composes from its input, how it queues its writes, and what closing its
    socket does to them. */
module ChatClient {
  import opened Common
  import opened ChatMessage
  import opened ChatReader
  import opened ChatRoom
  import opened ChatWire
  import opened SeqFilter

  /** The queue of writes, whether the socket is open, and whether the write in flight was begun on a
      closed socket, so that it can only fail. */
  datatype Client = Client(box: Outbox, open: bool, dead: bool)

  const FRESH_CLIENT: Client := Client(EMPTY_OUTBOX, true, false)

  function Posted(c: Client, m: Message): Client {
    Client(Pushed(c.box, m), c.open, if c.box.queue == [] then !c.open else c.dead)
  }

  function Wrote(c: Client): Client
    requires c.box.inflight.Some? && c.box.queue != []
  {
    Client(Completed(c.box), c.open, !c.open)
  }

  /** A failed write closes the socket. */
  function Broke(c: Client): Client {
    Client(Failed(c.box), false, c.dead)
  }

  function Closed(c: Client): Client {
    c.(open := false)
  }

  /** Every line is written, in flight or queued, in order, and one write is in flight at most. */
  ghost predicate Keeps(c: Client, lines: seq<seq<byte>>) {
    && c.box.OneWrite() && (c.box.broken ==> c.box.queue != [])
    && c.box.sent + c.box.queue == ComposeAll(lines)
  }

  class ChatClient {
    var writeMsgs: seq<Message>
    var inflight: Option<Message>
    var sent: seq<Message>
    var writeFailed: bool
    var open: bool
    ghost var dead: bool
    ghost var lines: seq<seq<byte>>  // the strings passed to Write so far

    ghost function View(): Client
      reads this
    {
      Client(Outbox(writeMsgs, inflight, sent, writeFailed), open, dead)
    }

    ghost predicate Valid()
      reads this
    {
      Keeps(View(), lines)
    }

    constructor ()
      ensures Valid() && lines == [] && View() == FRESH_CLIENT
    {
      writeMsgs, inflight, sent, writeFailed, open, dead, lines := [], None, [], false, true, false, [];
    }

    /** The main loop's body for one string read into its buffer, and the handler write posts for it. */
    method Write(line: seq<byte>)
      requires Valid()
      modifies this
      ensures Valid() && lines == old(lines) + [line]
      ensures View() == Posted(old(View()), Compose(line))
    {
      PostKeeps(View(), lines, line);
      var msg := new ChatMessageBuffer();
      msg.ComposeLine(line);
      var writeInProgress := writeMsgs != [];
      writeMsgs := writeMsgs + [msg.View()];
      if !writeInProgress {
        DoWrite();
      }
      lines := lines + [line];
    }

    /** The main loop: getline fails on a line longer than its buffer, which ends the loop. */
    method WriteInput(input: seq<seq<byte>>)
      requires Valid()
      modifies this
      ensures Valid() && lines == old(lines) + Submitted(input)
    {
      var i := 0;
      while i < |input| && |input[i]| <= MAX_BODY_LENGTH
        invariant i <= |input| && Valid()
        invariant lines + Submitted(input[i..]) == old(lines) + Submitted(input)
      {
        assert input[i..][1..] == input[i + 1..];
        ghost var rest := Submitted(input[i + 1..]);
        assert lines + ([CString(input[i])] + rest) == lines + [CString(input[i])] + rest;
        Write(CString(input[i]));
        i := i + 1;
      }
      assert Submitted(input[i..]) == [];
      assert lines + [] == lines;
    }

    method DoWrite()
      requires writeMsgs != []
      modifies this`inflight, this`dead
      ensures inflight == Some(writeMsgs[0]) && dead == !open
    {
      inflight := Some(writeMsgs[0]);
      dead := !open;
    }

    method OnWrite(ok: bool)
      requires Valid() && inflight.Some? && (ok ==> !dead)
      modifies this
      ensures Valid() && lines == old(lines)
      ensures View() == if ok then Wrote(old(View())) else Broke(old(View()))
    {
      WriteKeeps(View(), lines);
      if ok {
        sent := sent + [inflight.value];
        inflight := None;
        writeMsgs := writeMsgs[1..];
        dead := !open;
        if writeMsgs != [] {
          DoWrite();
        }
      } else {
        inflight := None;
        writeFailed := true;
        Close();
      }
    }

    method Close()
      modifies this`open
      ensures View() == Closed(old(View()))
    {
      open := false;
    }
  }

  function ComposeAll(lines: seq<seq<byte>>): seq<Message> {
    seq(|lines|, i requires 0 <= i < |lines| => Compose(lines[i]))
  }

  lemma PostKeeps(c: Client, lines: seq<seq<byte>>, line: seq<byte>)
    requires Keeps(c, lines)
    ensures Keeps(Posted(c, Compose(line)), lines + [line])
  {
    var m := Compose(line);
    assert ComposeAll(lines + [line]) == ComposeAll(lines) + [m];
    assert c.box.sent + (c.box.queue + [m]) == c.box.sent + c.box.queue + [m];
  }

  lemma WriteKeeps(c: Client, lines: seq<seq<byte>>)
    requires Keeps(c, lines) && c.box.inflight.Some?
    ensures c.box.queue != [] && Keeps(Wrote(c), lines) && Keeps(Broke(c), lines)
  {
    assert c.box.queue == [c.box.queue[0]] + c.box.queue[1..];
    assert c.box.sent + [c.box.queue[0]] + c.box.queue[1..] == c.box.sent + c.box.queue;
  }

  // ---- the input ----

  /** The strings main passes to write: the input lines up to the first that is longer than 512 bytes,
      each up to its first NUL, where strlen ends it. */
  function Submitted(input: seq<seq<byte>>): seq<seq<byte>> {
    if input == [] || |input[0]| > MAX_BODY_LENGTH then [] else [CString(input[0])] + Submitted(input[1..])
  }

  lemma {:induction false} CStringShortens(s: seq<byte>)
    ensures CString(s) <= s && 0 !in CString(s)
    ensures CString(s) == s <==> 0 !in s
  {
    if s != [] {
      CStringShortens(s[1..]);
      assert s == [s[0]] + s[1..];
    }
  }

  lemma {:induction false} SubmittedFit(input: seq<seq<byte>>)
    ensures |Submitted(input)| <= |input|
    ensures forall i :: 0 <= i < |Submitted(input)| ==>
      |input[i]| <= MAX_BODY_LENGTH && Submitted(input)[i] == CString(input[i])
      && |Submitted(input)[i]| <= MAX_BODY_LENGTH
    ensures |Submitted(input)| < |input| ==> |input[|Submitted(input)|]| > MAX_BODY_LENGTH
  {
    if input != [] && |input[0]| <= MAX_BODY_LENGTH {
      SubmittedFit(input[1..]);
      CStringShortens(input[0]);
      assert forall i :: 1 <= i < |Submitted(input)| ==> Submitted(input)[i] == Submitted(input[1..])[i - 1];
    }
  }

  /** The messages composed from any input carry, unaltered, the lines before the first too long one, up
      to their first NUL; and written back to back they are read back as they are. */
  lemma ComposedInputReadsBack(input: seq<seq<byte>>)
    ensures var ms := ComposeAll(Submitted(input));
      && Parse(WireOf(ms)) == Parsed(ms, [], false) && |ms| <= |input|
      && (forall i :: 0 <= i < |ms| ==> ms[i].body == CString(input[i]))
      && (|ms| < |input| ==> |input[|ms|]| > MAX_BODY_LENGTH)
  {
    var lines := Submitted(input);
    var ms := ComposeAll(lines);
    SubmittedFit(input);
    forall i | 0 <= i < |ms| ensures ms[i].body == lines[i] {
      ComposedIsWellFormed(lines[i]);
    }
    ComposedAreWellFormed(lines);
    ReadingUndoesWriting(ms, []);
    assert WireOf(ms) + [] == WireOf(ms) && ms + [] == ms;
  }

  lemma ComposedAreWellFormed(lines: seq<seq<byte>>)
    ensures AllWellFormed(ComposeAll(lines))
  {
    forall i | 0 <= i < |lines| ensures ComposeAll(lines)[i].WellFormed() {
      ComposedIsWellFormed(lines[i]);
    }
  }

  // ---- runs ----

  /** Close is main's after its loop, or the read side's on an error. */
  datatype Event = Line(line: seq<byte>) | WriteOk | WriteErr | Close

  /** A write begun before the socket is closed may still complete either way. */
  predicate Enabled(c: Client, e: Event) {
    match e
    case Line(_) => true
    case WriteOk => c.box.inflight.Some? && c.box.queue != [] && !c.dead
    case WriteErr => c.box.inflight.Some?
    case Close => true
  }

  function Apply(c: Client, e: Event): Client
    requires Enabled(c, e)
  {
    match e
    case Line(line) => Posted(c, Compose(line))
    case WriteOk => Wrote(c)
    case WriteErr => Broke(c)
    case Close => Closed(c)
  }

  predicate Legal(c: Client, es: seq<Event>)
    decreases |es|
  {
    es == [] || (Enabled(c, es[0]) && Legal(Apply(c, es[0]), es[1..]))
  }

  function Run(c: Client, es: seq<Event>): Client
    requires Legal(c, es)
    decreases |es|
  {
    if es == [] then c else Run(Apply(c, es[0]), es[1..])
  }

  function Lines(es: seq<Event>): seq<seq<byte>> {
    if es == [] then [] else LineOf(es[0]) + Lines(es[1..])
  }

  function LineOf(e: Event): seq<seq<byte>> {
    if e.Line? then [e.line] else []
  }

  lemma StepKeeps(c: Client, e: Event, lines: seq<seq<byte>>)
    requires Enabled(c, e) && Keeps(c, lines)
    ensures Keeps(Apply(c, e), lines + LineOf(e))
  {
    assert lines + [] == lines;
    match e
    case Line(line) => PostKeeps(c, lines, line);
    case Close =>
    case _ => WriteKeeps(c, lines);
  }

  lemma {:induction false} RunKeeps(c: Client, es: seq<Event>, lines: seq<seq<byte>>)
    requires Legal(c, es) && Keeps(c, lines)
    ensures Keeps(Run(c, es), lines + Lines(es))
    decreases |es|
  {
    if es == [] {
      assert lines + [] == lines;
    } else {
      StepKeeps(c, es[0], lines);
      RunKeeps(Apply(c, es[0]), es[1..], lines + LineOf(es[0]));
      Associate(lines, LineOf(es[0]), Lines(es[1..]));
    }
  }

  /** The first k bytes of the current or failed write are out; none of one begun on a closed socket. */
  predicate Out(c: Client, k: nat) {
    c.box.queue != [] ==> k <= |c.box.queue[0].Wire()| && (c.dead ==> k == 0)
  }

  lemma FarEndReadsAFirstPart(c: Client, lines: seq<seq<byte>>, k: nat)
    requires Keeps(c, lines) && Out(c, k)
    ensures var p, ms := Parse(OnTheWire(c.box, k)), ComposeAll(lines);
      && !p.failed && p.messages == Arrived(c.box, k) && p.messages <= ms
      && (p.messages == ms <==> c.box.queue == [] || (|c.box.queue| == 1 && k == |c.box.queue[0].Wire()|))
  {
    ComposedAreWellFormed(lines);
    FarEndReadsWhatArrived(c.box, k);
    ArrivedIsPrefix(c.box, k);
    if |c.box.queue| == 1 && k == |c.box.queue[0].Wire()| {
      assert c.box.queue == [c.box.queue[0]];
    }
  }

  /** At every moment of every run of the client, closing included, and whatever part of the current or
      failed write is out, the server has read without error a first part of the lines given, as the
      composed messages, in order; and all of them if and only if the queue is empty or its one message
      is all out. */
  lemma ServerReadsAFirstPart(es: seq<Event>, k: nat)
    requires Legal(FRESH_CLIENT, es) && Out(Run(FRESH_CLIENT, es), k)
    ensures var box, ms := Run(FRESH_CLIENT, es).box, ComposeAll(Lines(es));
      var p := Parse(OnTheWire(box, k));
      && !p.failed && p.messages == Arrived(box, k) && p.messages <= ms
      && (p.messages == ms <==> box.queue == [] || (|box.queue| == 1 && k == |box.queue[0].Wire()|))
  {
    KeepsFromTheStart(es);
    FarEndReadsAFirstPart(Run(FRESH_CLIENT, es), Lines(es), k);
  }

  lemma KeepsFromTheStart(es: seq<Event>)
    requires Legal(FRESH_CLIENT, es)
    ensures Keeps(Run(FRESH_CLIENT, es), Lines(es))
  {
    assert Keeps(FRESH_CLIENT, []);
    RunKeeps(FRESH_CLIENT, es, []);
    assert [] + Lines(es) == Lines(es);
  }

  // ---- what closing costs ----

  /** How many messages can still have reached the server once the socket is closed: those written, and
      the one whose write was begun before. */
  function Reach(c: Client): nat {
    |c.box.sent| + if c.box.queue != [] && !c.dead then 1 else 0
  }

  lemma {:induction false} ReachIsFinal(c: Client, es: seq<Event>)
    requires Legal(c, es) && !c.open
    ensures Reach(Run(c, es)) <= Reach(c)
    decreases |es|
  {
    if es != [] {
      ReachIsFinal(Apply(c, es[0]), es[1..]);
    }
  }

  /** The socket is open exactly while nothing has closed it: no Close, and no failed write. Until then no
      write is broken or bound to fail. */
  lemma {:induction false} OpenUntilClosed(c: Client, es: seq<Event>)
    requires Legal(c, es) && c.open && !c.dead && !c.box.broken
    ensures Run(c, es).open <==> Close !in es && WriteErr !in es
    ensures Run(c, es).open ==> !Run(c, es).dead && !Run(c, es).box.broken
    decreases |es|
  {
    if es != [] {
      assert es == [es[0]] + es[1..];
      if Apply(c, es[0]).open {
        OpenUntilClosed(Apply(c, es[0]), es[1..]);
      } else {
        StaysClosed(Apply(c, es[0]), es[1..]);
      }
    }
  }

  lemma {:induction false} StaysClosed(c: Client, es: seq<Event>)
    requires Legal(c, es) && !c.open
    ensures !Run(c, es).open
    decreases |es|
  {
    if es != [] {
      StaysClosed(Apply(c, es[0]), es[1..]);
    }
  }

  /** After a failed write the socket is closed, nothing is in flight, nothing more is written, and no write
      completes or fails; lines given later only queue. */
  lemma NothingAfterAFailedWrite(before: seq<Event>, after: seq<Event>)
    requires Legal(FRESH_CLIENT, before) && Legal(Run(FRESH_CLIENT, before), [WriteErr] + after)
    ensures var was, end := Run(FRESH_CLIENT, before), Run(Run(FRESH_CLIENT, before), [WriteErr] + after);
      && !end.open && end.box.inflight == None && end.box.sent == was.box.sent && was.box.queue <= end.box.queue
    ensures WriteOk !in after && WriteErr !in after
  {
    KeepsFromTheStart(before);
    var was := Run(FRESH_CLIENT, before);
    WriteKeeps(was, Lines(before));
    assert ([WriteErr] + after)[1..] == after;
    BrokenStays(Broke(was), after);
  }

  lemma {:induction false} BrokenStays(c: Client, es: seq<Event>)
    requires Legal(c, es) && !c.open && c.box.inflight == None && c.box.queue != []
    ensures var end := Run(c, es);
      && !end.open && end.box.inflight == None && end.box.sent == c.box.sent && c.box.queue <= end.box.queue
    ensures WriteOk !in es && WriteErr !in es
    decreases |es|
  {
    if es != [] {
      assert es == [es[0]] + es[1..];
      BrokenStays(Apply(c, es[0]), es[1..]);
    }
  }

  /** So many completed writes. */
  function Successes(n: nat): seq<Event> {
    if n == 0 then [] else [WriteOk] + Successes(n - 1)
  }

  /** While the socket has not been closed, as many completed writes as messages queued can follow, and then
      every line given is written. */
  lemma SuccessesWriteAll(before: seq<Event>)
    requires Legal(FRESH_CLIENT, before) && Close !in before && WriteErr !in before
    ensures var c := Run(FRESH_CLIENT, before);
      && Legal(c, Successes(|c.box.queue|))
      && Run(c, Successes(|c.box.queue|)).box == Outbox([], None, ComposeAll(Lines(before)), false)
  {
    KeepsFromTheStart(before);
    OpenUntilClosed(FRESH_CLIENT, before);
    SuccessesDrain(Run(FRESH_CLIENT, before), Lines(before));
  }

  lemma {:induction false} SuccessesDrain(c: Client, lines: seq<seq<byte>>)
    requires Keeps(c, lines) && c.open && !c.dead && !c.box.broken
    ensures Legal(c, Successes(|c.box.queue|))
    ensures Run(c, Successes(|c.box.queue|)).box == Outbox([], None, ComposeAll(lines), false)
    decreases |c.box.queue|
  {
    if c.box.queue == [] {
      assert c.box.sent + [] == c.box.sent;
    } else {
      WriteKeeps(c, lines);
      SuccessesDrain(Wrote(c), lines);
      assert Successes(|c.box.queue|)[1..] == Successes(|c.box.queue| - 1);
    }
  }

  /** In some continuation without further lines the server reads everything given so far. */
  ghost predicate CanAllArrive(c: Client, lines: seq<seq<byte>>) {
    exists es, k :: Legal(c, es) && Lines(es) == [] && Out(Run(c, es), k) &&
      Parse(OnTheWire(Run(c, es).box, k)).messages == ComposeAll(lines)
  }

  /** The close main posts right behind its lines, or any first close: what was given before can still all
      reach the server if and only if at that moment at most one message is queued. Of two lines given at
      once the second is lost. */
  lemma CloseLosesLinesIff(es: seq<Event>)
    requires Legal(FRESH_CLIENT, es) && Run(FRESH_CLIENT, es).open
    ensures CanAllArrive(Closed(Run(FRESH_CLIENT, es)), Lines(es)) <==> |Run(FRESH_CLIENT, es).box.queue| <= 1
  {
    var lines, c := Lines(es), Closed(Run(FRESH_CLIENT, es));
    KeepsFromTheStart(es);
    OpenUntilClosed(FRESH_CLIENT, es);
    if |c.box.queue| <= 1 {
      OneCanStillArrive(c, lines);
    }
    if CanAllArrive(c, lines) {
      var more, k :| Legal(c, more) && Lines(more) == [] && Out(Run(c, more), k) &&
        Parse(OnTheWire(Run(c, more).box, k)).messages == ComposeAll(lines);
      RunKeeps(c, more, lines);
      assert lines + [] == lines;
      ReachIsFinal(c, more);
      FarEndReadsAFirstPart(Run(c, more), lines, k);
      ArrivedWithinReach(Run(c, more), lines, k);
      assert |c.box.sent + c.box.queue| == |c.box.sent| + |c.box.queue|;
    }
  }

  lemma OneCanStillArrive(c: Client, lines: seq<seq<byte>>)
    requires Keeps(c, lines) && !c.dead && |c.box.queue| <= 1
    ensures CanAllArrive(c, lines)
  {
    var k := if c.box.queue == [] then 0 else |c.box.queue[0].Wire()|;
    FarEndReadsAFirstPart(c, lines, k);
    assert Legal(c, []) && Run(c, []) == c;
    assert Parse(OnTheWire(Run(c, []).box, k)).messages == ComposeAll(lines);
  }

  lemma ArrivedWithinReach(c: Client, lines: seq<seq<byte>>, k: nat)
    requires Keeps(c, lines) && Out(c, k)
    ensures |Arrived(c.box, k)| <= Reach(c)
  {
    ComposedAreWellFormed(lines);
    if c.box.queue != [] {
      assert c.box.queue[0] == (c.box.sent + c.box.queue)[|c.box.sent|];
      assert c.box.queue[0].WellFormed();
    }
  }
}
