/** The message dispatcher: a priority queue served by one loop that acts on the queue's front slot as
    the pop has left it. */
module Dispatcher {
  import opened Common
  import opened SeqFilter
  import Scene

  /** Smaller priority numbers go first. Time and delay are in seconds. */
  datatype MsgItem = MsgItem(messageId: int, priority: int, sender: Id, receiver: Id, time: int, delay: int)

  datatype Fate = Handed | NoReceiver | NotDue

  /** What the loop does with the message it looks at. */
  function FateOf(m: MsgItem, now: int, online: set<Id>): Fate {
    if m.delay > 0 && now < m.time + m.delay then NotDue
    else if m.receiver in online then Handed
    else NoReceiver
  }

  // ---- the heap ----

  /** What is known of the heap's vector: a message of smallest number is in slot 0. Ties, and the order
      of the other slots, are the heap's affair. */
  ghost predicate Arranged(queue: seq<MsgItem>) {
    forall j :: 0 <= j < |queue| ==> queue[0].priority <= queue[j].priority
  }

  ghost predicate Rearranges(after: seq<MsgItem>, items: seq<MsgItem>) {
    Arranged(after) && multiset(after) == multiset(items)
  }

  lemma RearrangedSize(after: seq<MsgItem>, items: seq<MsgItem>)
    requires Rearranges(after, items)
    ensures |after| == |items| && (after == [] <==> items == [])
  {
    assert |multiset(after)| == |after| && |multiset(items)| == |items|;
  }

  /** What GetNext's reference names once the pop is done: slot 0, if there still is one. */
  function Seen(after: seq<MsgItem>, stale: MsgItem): MsgItem {
    if after == [] then stale else after[0]
  }

  // ---- one operation each, as a function of the state ----

  /** The queue, the messages popped from it, and what was done with the messages looked at. */
  datatype State = State(queue: seq<MsgItem>, popped: seq<MsgItem>,
                         handed: seq<MsgItem>, noReceiver: seq<MsgItem>, notDue: seq<MsgItem>)

  const EMPTY_STATE: State := State([], [], [], [], [])

  function ActedOn(st: State, m: MsgItem, now: int, online: set<Id>): State {
    match FateOf(m, now, online)
    case Handed => st.(handed := st.handed + [m])
    case NoReceiver => st.(noReceiver := st.noReceiver + [m])
    case NotDue => st.(notDue := st.notDue + [m])
  }

  /** One pass of the loop: the front is popped, the rest rearranged, and the message then seen in the
      front slot is acted on. Stale stands for whatever the popped last slot reads as. */
  function Passed(st: State, after: seq<MsgItem>, now: int, online: set<Id>, stale: MsgItem): State
    requires st.queue != []
  {
    ActedOn(st.(queue := after, popped := st.popped + [st.queue[0]]), Seen(after, stale), now, online)
  }

  // ---- the objects ----

  /** The standard library's push_heap or pop_heap, of which only the front is specified. */
  method Heapify(items: seq<MsgItem>) returns (queue: seq<MsgItem>)
    ensures Rearranges(queue, items)
  {
    if items == [] { return []; }
    var least := 0;
    for i := 1 to |items|
      invariant 0 <= least < i
      invariant forall j :: 0 <= j < i ==> items[least].priority <= items[j].priority
    {
      if items[i].priority < items[least].priority { least := i; }
    }
    queue := [items[least]] + (items[..least] + items[least + 1..]);
    CutMultiset(items, least);
    forall j | 0 <= j < |queue| ensures queue[0].priority <= queue[j].priority {
      assert queue[j] in multiset(items);
    }
  }

  class PriorityQueue {
    var items: seq<MsgItem>

    constructor ()
      ensures items == []
    {
      items := [];
    }

    method Emplace(item: MsgItem)
      modifies this
      ensures Rearranges(items, old(items) + [item])
    {
      items := Heapify(items + [item]);
    }

    method Empty() returns (empty: bool)
      ensures empty <==> items == []
    {
      empty := items == [];
    }

    /** As written: the reference to the front is taken, the front is popped, and the reference is
        read afterwards. */
    method GetNext(stale: MsgItem) returns (item: MsgItem)
      requires items != []
      modifies this
      ensures Rearranges(items, old(items)[1..])
      ensures item == Seen(items, stale)
    {
      items := Heapify(items[1..]);
      item := if items == [] then stale else items[0];
    }
  }

  class MessageDispatcher {
    const messages: PriorityQueue
    var handed: seq<MsgItem>
    var noReceiver: seq<MsgItem>
    var notDue: seq<MsgItem>
    ghost var popped: seq<MsgItem>

    constructor ()
      ensures View() == EMPTY_STATE && fresh(messages)
    {
      messages := new PriorityQueue();
      handed, noReceiver, notDue, popped := [], [], [], [];
    }

    ghost function View(): State
      reads this, messages
    {
      State(messages.items, popped, handed, noReceiver, notDue)
    }

    /** The queue's copy is taken before the send time is put into the message, so it keeps whatever
        time the sender supplied. */
    method SendMessage(msg: MsgItem, clock: int)
      modifies messages
      ensures Rearranges(messages.items, old(messages.items) + [msg])
      ensures View() == old(View()).(queue := messages.items)
    {
      var item := msg;
      var stamped := msg.(time := clock);
      messages.Emplace(item);
    }

    /** One pass of Dispatcher's loop. */
    method Dispatch(now: int, manager: Scene.EntityManager, stale: MsgItem) returns (idle: bool)
      modifies this, messages
      ensures idle <==> old(messages.items) == []
      ensures idle ==> View() == old(View())
      ensures !idle ==> Rearranges(messages.items, old(messages.items)[1..])
      ensures !idle ==> View() == Passed(old(View()), messages.items, now, manager.entities.Keys, stale)
    {
      idle := messages.Empty();
      if idle { return; }
      popped := popped + [messages.items[0]];
      var message := messages.GetNext(stale);
      if message.delay != 0 {
        if message.delay > 0 && now < message.time + message.delay {
          notDue := notDue + [message];
          return;
        }
      }
      var delivered := Discharge(message.receiver, message, manager);
    }

    method Discharge(receiver: Id, message: MsgItem, manager: Scene.EntityManager) returns (delivered: bool)
      modifies this`handed, this`noReceiver
      ensures delivered <==> receiver in manager.entities
      ensures handed == old(handed) + if delivered then [message] else []
      ensures noReceiver == old(noReceiver) + if delivered then [] else [message]
    {
      var entity := manager.GetEntity(receiver);
      if entity == null {
        noReceiver := noReceiver + [message];
        return false;
      }
      handed := handed + [message];
      return true;
    }
  }

  // ---- runs ----

  /** After is how the heap lies once the event is over. */
  datatype Event =
    | Send(m: MsgItem, after: seq<MsgItem>)
    | Pass(after: seq<MsgItem>, now: int, online: set<Id>, stale: MsgItem)

  ghost predicate Enabled(st: State, e: Event) {
    match e
    case Send(m, after) => Rearranges(after, st.queue + [m])
    case Pass(after, _, _, _) => st.queue != [] && Rearranges(after, st.queue[1..])
  }

  ghost function Apply(st: State, e: Event): State
    requires Enabled(st, e)
  {
    match e
    case Send(m, after) => st.(queue := after)
    case Pass(after, now, online, stale) => Passed(st, after, now, online, stale)
  }

  ghost predicate Legal(st: State, es: seq<Event>)
    decreases |es|
  {
    es == [] || (Enabled(st, es[0]) && Legal(Apply(st, es[0]), es[1..]))
  }

  ghost function Run(st: State, es: seq<Event>): State
    requires Legal(st, es)
    decreases |es|
  {
    if es == [] then st else Run(Apply(st, es[0]), es[1..])
  }

  function AllSent(es: seq<Event>): seq<MsgItem> {
    if es == [] then [] else (if es[0].Send? then [es[0].m] else []) + AllSent(es[1..])
  }

  /** The messages popped, in order. */
  ghost function AllPopped(st: State, es: seq<Event>): seq<MsgItem>
    requires Legal(st, es)
    decreases |es|
  {
    if es == [] then []
    else (if es[0].Pass? then [st.queue[0]] else []) + AllPopped(Apply(st, es[0]), es[1..])
  }

  /** The messages acted on, in order. */
  function AllSeen(es: seq<Event>): seq<MsgItem> {
    if es == [] then [] else (if es[0].Pass? then [Seen(es[0].after, es[0].stale)] else []) + AllSeen(es[1..])
  }

  ghost predicate OnlyPasses(es: seq<Event>) {
    forall i :: 0 <= i < |es| ==> es[i].Pass?
  }

  // ---- what becomes of the message looked at ----

  /** The delay has run out, counted from the time the message carries. */
  predicate Due(m: MsgItem, now: int) {
    m.delay <= 0 || now >= m.time + m.delay
  }

  /** With m the message in the front slot once the pop is done: if it is due, it is handed over exactly
      if its receiver is registered, and otherwise recorded as without receiver; if it is not due, it is
      recorded as that. Nothing else is recorded, and what is popped is the old front. */
  lemma WhatAPassDoes(st: State, e: Event)
    requires Enabled(st, e) && e.Pass?
    ensures var st' := Apply(st, e);
      var m := if |e.after| > 0 then e.after[0] else e.stale;
      && st'.queue == e.after && st'.popped == st.popped + [st.queue[0]]
      && st'.handed == st.handed + (if Due(m, e.now) && m.receiver in e.online then [m] else [])
      && st'.noReceiver == st.noReceiver + (if Due(m, e.now) && m.receiver !in e.online then [m] else [])
      && st'.notDue == st.notDue + (if Due(m, e.now) then [] else [m])
  {
  }

  /** What the passes look at, when, and who is registered then. */
  datatype Look = Look(m: MsgItem, now: int, online: set<Id>)

  function LooksOf(e: Event): seq<Look> {
    match e
    case Send(_, _) => []
    case Pass(after, now, online, stale) => [Look(if |after| > 0 then after[0] else stale, now, online)]
  }

  function Looks(es: seq<Event>): seq<Look> {
    if es == [] then [] else LooksOf(es[0]) + Looks(es[1..])
  }

  /** Those due when looked at, with their receiver registered then or not. */
  function DueOnes(looks: seq<Look>, registered: bool): seq<MsgItem> {
    if looks == [] then []
    else
      var l := looks[0];
      (if Due(l.m, l.now) && (l.m.receiver in l.online) == registered then [l.m] else [])
      + DueOnes(looks[1..], registered)
  }

  function EarlyOnes(looks: seq<Look>): seq<MsgItem> {
    if looks == [] then [] else (if Due(looks[0].m, looks[0].now) then [] else [looks[0].m]) + EarlyOnes(looks[1..])
  }

  lemma StepRecords(st: State, e: Event)
    requires Enabled(st, e)
    ensures var st' := Apply(st, e);
      && st'.handed == st.handed + DueOnes(LooksOf(e), true)
      && st'.noReceiver == st.noReceiver + DueOnes(LooksOf(e), false)
      && st'.notDue == st.notDue + EarlyOnes(LooksOf(e))
  {
    if e.Pass? {
      WhatAPassDoes(st, e);
      assert LooksOf(e)[1..] == [];
    }
  }

  lemma {:induction false} DueOnesConcat(a: seq<Look>, b: seq<Look>, registered: bool)
    ensures DueOnes(a + b, registered) == DueOnes(a, registered) + DueOnes(b, registered)
  {
    if a == [] {
      assert a + b == b;
    } else {
      assert (a + b)[1..] == a[1..] + b;
      DueOnesConcat(a[1..], b, registered);
    }
  }

  lemma {:induction false} EarlyOnesConcat(a: seq<Look>, b: seq<Look>)
    ensures EarlyOnes(a + b) == EarlyOnes(a) + EarlyOnes(b)
  {
    if a == [] {
      assert a + b == b;
    } else {
      assert (a + b)[1..] == a[1..] + b;
      EarlyOnesConcat(a[1..], b);
    }
  }

  /** In every run the messages handed over are exactly those looked at when due and with their receiver
      registered at that moment, in order; and likewise those without receiver and those not due. */
  lemma {:induction false} WhatARunHandsOver(st: State, es: seq<Event>)
    requires Legal(st, es)
    ensures Run(st, es).handed == st.handed + DueOnes(Looks(es), true)
    ensures Run(st, es).noReceiver == st.noReceiver + DueOnes(Looks(es), false)
    ensures Run(st, es).notDue == st.notDue + EarlyOnes(Looks(es))
    decreases |es|
  {
    if es != [] {
      var now, later := LooksOf(es[0]), Looks(es[1..]);
      StepRecords(st, es[0]);
      WhatARunHandsOver(Apply(st, es[0]), es[1..]);
      DueOnesConcat(now, later, true);
      DueOnesConcat(now, later, false);
      EarlyOnesConcat(now, later);
      Associate(st.handed, DueOnes(now, true), DueOnes(later, true));
      Associate(st.noReceiver, DueOnes(now, false), DueOnes(later, false));
      Associate(st.notDue, EarlyOnes(now), EarlyOnes(later));
    }
  }

  // ---- the queue itself ----

  lemma FrontApart(queue: seq<MsgItem>)
    requires queue != []
    ensures multiset(queue) == multiset(queue[1..]) + multiset{queue[0]}
  {
    assert queue == [queue[0]] + queue[1..];
  }

  lemma Regroup<T>(a: multiset<T>, b: multiset<T>, c: multiset<T>)
    ensures (a + b) + c == a + (b + c)
  {
  }

  lemma AddToBoth<T>(r: multiset<T>, p: multiset<T>, q: multiset<T>, s: multiset<T>, x: multiset<T>)
    requires r + p == q + s
    ensures r + (x + p) == (q + x) + s
  {
    assert r + (x + p) == (r + p) + x;
    assert (q + x) + s == (q + s) + x;
  }

  /** In every run the messages sent are, as a multiset, exactly those still queued and those popped:
      the queue itself loses and repeats nothing. */
  lemma {:induction false} EverySentIsQueuedOrPopped(st: State, es: seq<Event>)
    requires Legal(st, es)
    ensures multiset(Run(st, es).queue) + multiset(AllPopped(st, es)) == multiset(st.queue) + multiset(AllSent(es))
    decreases |es|
  {
    if es != [] {
      var next := Apply(st, es[0]);
      EverySentIsQueuedOrPopped(next, es[1..]);
      match es[0] {
        case Send(m, after) =>
          assert multiset(next.queue) == multiset(st.queue) + multiset{m};
          assert multiset(AllSent(es)) == multiset{m} + multiset(AllSent(es[1..]));
          assert AllPopped(st, es) == AllPopped(next, es[1..]);
          Regroup(multiset(st.queue), multiset{m}, multiset(AllSent(es[1..])));
        case Pass(after, _, _, _) =>
          FrontApart(st.queue);
          assert multiset(AllPopped(st, es)) == multiset{st.queue[0]} + multiset(AllPopped(next, es[1..]));
          assert AllSent(es) == AllSent(es[1..]);
          AddToBoth(multiset(Run(st, es).queue), multiset(AllPopped(next, es[1..])), multiset(after),
                    multiset(AllSent(es)), multiset{st.queue[0]});
      }
    }
  }

  // ---- which message a pass acts on ----

  ghost function Outcomes(st: State): multiset<MsgItem> {
    multiset(st.handed) + multiset(st.noReceiver) + multiset(st.notDue)
  }

  ghost function Everything(st: State): multiset<MsgItem> {
    multiset(st.queue) + Outcomes(st)
  }

  lemma ActingRecords(st: State, m: MsgItem, now: int, online: set<Id>)
    ensures Outcomes(ActedOn(st, m, now, online)) == Outcomes(st) + multiset{m}
    ensures ActedOn(st, m, now, online).queue == st.queue
  {
    match FateOf(m, now, online)
    case Handed => assert multiset(st.handed + [m]) == multiset(st.handed) + multiset{m};
    case NoReceiver => assert multiset(st.noReceiver + [m]) == multiset(st.noReceiver) + multiset{m};
    case NotDue => assert multiset(st.notDue + [m]) == multiset(st.notDue) + multiset{m};
  }

  /** In every run exactly one outcome is recorded for each message looked at. */
  lemma {:induction false} OutcomesAreOfTheSeen(st: State, es: seq<Event>)
    requires Legal(st, es)
    ensures Outcomes(Run(st, es)) == Outcomes(st) + multiset(AllSeen(es))
    decreases |es|
  {
    if es != [] {
      OutcomesAreOfTheSeen(Apply(st, es[0]), es[1..]);
      if es[0].Pass? {
        var seen := Seen(es[0].after, es[0].stale);
        ActingRecords(st.(queue := es[0].after, popped := st.popped + [st.queue[0]]), seen, es[0].now, es[0].online);
        assert multiset(AllSeen(es)) == multiset{seen} + multiset(AllSeen(es[1..]));
      }
    }
  }

  /** A run conserves messages, queued and with an outcome, if and only if the messages it looked at are
      the messages it popped. One pass does exactly if it looks at the message it pops. */
  lemma ConservesIffSeenArePopped(st: State, es: seq<Event>)
    requires Legal(st, es)
    ensures Everything(Run(st, es)) == Everything(st) + multiset(AllSent(es))
       <==> multiset(AllSeen(es)) == multiset(AllPopped(st, es))
    ensures |es| == 1 && es[0].Pass? ==>
      (Everything(Run(st, es)) == Everything(st) <==> Seen(es[0].after, es[0].stale) == st.queue[0])
  {
    var end := Run(st, es);
    var seen, popped := multiset(AllSeen(es)), multiset(AllPopped(st, es));
    EverySentIsQueuedOrPopped(st, es);
    OutcomesAreOfTheSeen(st, es);
    AddUp(multiset(end.queue), popped, multiset(st.queue), multiset(AllSent(es)), Outcomes(st), seen);
    SameSums(Everything(end), popped, Everything(st) + multiset(AllSent(es)), seen);
    if |es| == 1 && es[0].Pass? {
      assert es[1..] == [];
      assert AllSeen(es) == [Seen(es[0].after, es[0].stale)] && AllPopped(st, es) == [st.queue[0]];
      SameSingletons(Seen(es[0].after, es[0].stale), st.queue[0]);
      assert multiset(AllSent(es)) == multiset{};
    }
  }

  lemma AddUp<T>(
    q': multiset<T>, popped: multiset<T>, q: multiset<T>, sent: multiset<T>, o: multiset<T>, seen: multiset<T>)
    requires q' + popped == q + sent
    ensures (q' + (o + seen)) + popped == ((q + o) + sent) + seen
  {
    assert (q' + (o + seen)) + popped == (q' + popped) + (o + seen);
    assert ((q + o) + sent) + seen == (q + sent) + (o + seen);
  }

  lemma SameSums<T>(a: multiset<T>, x: multiset<T>, b: multiset<T>, y: multiset<T>)
    requires a + x == b + y
    ensures a == b <==> y == x
  {
    forall e: T | a == b ensures x[e] == y[e] { assert (a + x)[e] == (b + y)[e]; }
    forall e: T | x == y ensures a[e] == b[e] { assert (a + x)[e] == (b + y)[e]; }
  }

  lemma SameSingletons<T>(a: T, b: T)
    ensures multiset([a]) == multiset([b]) <==> a == b
  {
    if multiset([a]) == multiset([b]) { assert a in multiset([b]); }
  }

  lemma ActingKeepsQueue(st: State, e: Event)
    requires Enabled(st, e)
    ensures Apply(st, e).queue == e.after
  {
  }

  lemma PassUnfolds(st: State, es: seq<Event>)
    requires Legal(st, es) && es != [] && es[0].Pass?
    ensures Apply(st, es[0]).queue == es[0].after
    ensures AllSeen(es) == [Seen(es[0].after, es[0].stale)] + AllSeen(es[1..])
    ensures AllPopped(st, es) == [st.queue[0]] + AllPopped(Apply(st, es[0]), es[1..])
    ensures Run(st, es) == Run(Apply(st, es[0]), es[1..])
  {
    ActingKeepsQueue(st, es[0]);
  }

  // ---- what a caller can watch to know that nothing is lost ----

  ghost predicate NoRepeats(ms: multiset<MsgItem>) {
    forall m <- ms :: ms[m] == 1
  }

  ghost function Known(st: State, es: seq<Event>): multiset<MsgItem> {
    multiset(st.queue) + multiset(AllSent(es))
  }

  /** What the slot destroyed by the last pop reads as is that message, still, or none of the run's. */
  ghost predicate StaleIsNoOther(st: State, es: seq<Event>, known: set<MsgItem>)
    requires Legal(st, es)
    decreases |es|
  {
    es == [] || (
      && (es[0].Pass? && |st.queue| == 1 ==> es[0].stale == st.queue[0] || es[0].stale !in known)
      && StaleIsNoOther(Apply(st, es[0]), es[1..], known))
  }

  /** Every pass of the run is made while one message only is queued, and reads it out of its slot. */
  ghost predicate OneAtATime(st: State, es: seq<Event>)
    requires Legal(st, es)
    decreases |es|
  {
    es == [] || (
      && (es[0].Pass? ==> |st.queue| == 1 && es[0].stale == st.queue[0])
      && OneAtATime(Apply(st, es[0]), es[1..]))
  }

  lemma KnownAfterSend(st: State, es: seq<Event>)
    requires es != [] && es[0].Send? && Legal(st, es)
    ensures Known(Apply(st, es[0]), es[1..]) == Known(st, es)
  {
    var m, rest := es[0].m, es[1..];
    assert multiset(AllSent(es)) == multiset{m} + multiset(AllSent(rest));
    assert multiset(es[0].after) == multiset(st.queue) + multiset{m};
  }

  lemma KnownAfterPass(st: State, es: seq<Event>)
    requires es != [] && es[0].Pass? && Legal(st, es)
    ensures Known(st, es) == Known(Apply(st, es[0]), es[1..]) + multiset{st.queue[0]}
  {
    ActingKeepsQueue(st, es[0]);
    FrontApart(st.queue);
    assert AllSent(es) == AllSent(es[1..]);
  }

  lemma FewerStillNoRepeats(ms: multiset<MsgItem>, m: MsgItem)
    requires NoRepeats(ms + multiset{m})
    ensures NoRepeats(ms) && m !in ms
  {
    assert m in ms + multiset{m};
    forall x | x in ms ensures ms[x] == 1 {
      assert x in ms + multiset{m};
    }
  }

  /** A message neither queued nor to be sent is never looked at. */
  lemma {:induction false} TheGoneAreNotSeen(st: State, es: seq<Event>, known: set<MsgItem>, m: MsgItem)
    requires Legal(st, es) && StaleIsNoOther(st, es, known) && m in known && m !in Known(st, es)
    ensures m !in AllSeen(es)
    decreases |es|
  {
    if es != [] {
      var next := Apply(st, es[0]);
      if es[0].Send? {
        KnownAfterSend(st, es);
      } else {
        KnownAfterPass(st, es);
        ActingKeepsQueue(st, es[0]);
        RearrangedSize(es[0].after, st.queue[1..]);
        NotSeenNow(st, es, known, m);
      }
      TheGoneAreNotSeen(next, es[1..], known, m);
    }
  }

  lemma NotSeenNow(st: State, es: seq<Event>, known: set<MsgItem>, m: MsgItem)
    requires Legal(st, es) && es != [] && es[0].Pass? && StaleIsNoOther(st, es, known) && m in known
    requires m !in Known(Apply(st, es[0]), es[1..]) && (|st.queue| == 1 ==> es[0].stale != m)
    ensures Seen(es[0].after, es[0].stale) != m
  {
    ActingKeepsQueue(st, es[0]);
    RearrangedSize(es[0].after, st.queue[1..]);
    if es[0].after != [] {
      assert es[0].after[0] in multiset(es[0].after);
    }
  }

  /** The messages looked at are those popped if and only if the passes are made one message at a time:
      a message popped from a longer queue is gone, so it is never looked at. */
  lemma {:induction false} SeenArePoppedIffOneAtATime(st: State, es: seq<Event>, known: set<MsgItem>)
    requires Legal(st, es) && NoRepeats(Known(st, es)) && StaleIsNoOther(st, es, known)
    requires forall m <- Known(st, es) :: m in known
    ensures multiset(AllSeen(es)) == multiset(AllPopped(st, es)) <==> OneAtATime(st, es)
    decreases |es|
  {
    if es != [] {
      var next, rest := Apply(st, es[0]), es[1..];
      if es[0].Send? {
        KnownAfterSend(st, es);
        SeenArePoppedIffOneAtATime(next, rest, known);
        assert AllSeen(es) == AllSeen(rest) && AllPopped(st, es) == AllPopped(next, rest);
      } else {
        var m, seen := st.queue[0], Seen(es[0].after, es[0].stale);
        KnownAfterPass(st, es);
        FewerStillNoRepeats(Known(next, rest), m);
        assert m in Known(st, es) && forall x <- Known(next, rest) :: x in Known(st, es);
        SeenArePoppedIffOneAtATime(next, rest, known);
        TheGoneAreNotSeen(next, rest, known, m);
        PassUnfolds(st, es);
        var alone := |st.queue| == 1 && es[0].stale == m;
        if alone {
          RearrangedSize(es[0].after, st.queue[1..]);
        } else {
          NotSeenNow(st, es, known, m);
        }
        FrontDecides(AllSeen(rest), AllPopped(next, rest), seen, m, alone, OneAtATime(next, rest));
      }
    }
  }

  lemma FrontDecides<T>(seenRest: seq<T>, poppedRest: seq<T>, seen: T, m: T, alone: bool, restAlone: bool)
    requires m !in seenRest && (alone <==> seen == m)
    requires multiset(seenRest) == multiset(poppedRest) <==> restAlone
    ensures multiset([seen] + seenRest) == multiset([m] + poppedRest) <==> alone && restAlone
  {
    if alone {
      assert multiset([seen] + seenRest) == multiset(seenRest) + multiset{m};
      assert multiset([m] + poppedRest) == multiset(poppedRest) + multiset{m};
      SameTail(multiset(seenRest), multiset(poppedRest), m);
    } else {
      assert m in multiset([m] + poppedRest) && m !in multiset([seen] + seenRest);
    }
  }

  lemma SameTail<T>(a: multiset<T>, b: multiset<T>, x: T)
    ensures a + multiset{x} == b + multiset{x} <==> a == b
  {
    if a + multiset{x} == b + multiset{x} {
      assert a == (a + multiset{x}) - multiset{x} && b == (b + multiset{x}) - multiset{x};
    }
  }

  /** In every run over messages that differ from each other, sends included, messages are conserved if
      and only if every pass is made while exactly one message is queued (and that one is still read out
      of its slot). A queue of two or more at any pass loses one for good. */
  lemma ConservesIffOneAtATime(st: State, es: seq<Event>)
    requires Legal(st, es) && NoRepeats(Known(st, es))
    requires StaleIsNoOther(st, es, set m | m in Known(st, es))
    ensures Everything(Run(st, es)) == Everything(st) + multiset(AllSent(es)) <==> OneAtATime(st, es)
  {
    ConservesIffSeenArePopped(st, es);
    SeenArePoppedIffOneAtATime(st, es, set m | m in Known(st, es));
  }

  // ---- bursts ----

  /** Between sends, each pass acts on the message the next pass pops, one pass early. The first message
      popped is not acted on, and the last pass acts on what the front slot is left as. */
  lemma {:induction false} EachIsSeenOnePassEarly(st: State, es: seq<Event>)
    requires Legal(st, es) && OnlyPasses(es) && es != []
    ensures AllPopped(st, es) != [] && AllPopped(st, es)[0] == st.queue[0]
    ensures AllSeen(es) == AllPopped(st, es)[1..] + [Seen(Run(st, es).queue, es[|es| - 1].stale)]
    decreases |es|
  {
    var next, rest := Apply(st, es[0]), es[1..];
    var seen := Seen(es[0].after, es[0].stale);
    PassUnfolds(st, es);
    if rest == [] {
      assert AllSeen(es) == [seen] && AllPopped(st, es) == [st.queue[0]];
    } else {
      EachIsSeenOnePassEarly(next, rest);
      assert rest[|rest| - 1] == es[|es| - 1];
      SeenShifts(AllSeen(rest), AllPopped(next, rest), seen, Seen(Run(st, es).queue, es[|es| - 1].stale));
      assert AllPopped(st, es)[1..] == AllPopped(next, rest);
      SeenIsNextPopped(st, es);
    }
  }

  lemma SeenIsNextPopped(st: State, es: seq<Event>)
    requires Legal(st, es) && OnlyPasses(es) && |es| >= 2
    ensures Apply(st, es[0]).queue != [] && Seen(es[0].after, es[0].stale) == Apply(st, es[0]).queue[0]
  {
    ActingKeepsQueue(st, es[0]);
    assert Enabled(Apply(st, es[0]), es[1..][0]);
  }

  lemma SeenShifts<T>(seenRest: seq<T>, poppedRest: seq<T>, seen: T, last: T)
    requires poppedRest != [] && seenRest == poppedRest[1..] + [last]
    ensures seen == poppedRest[0] ==> [seen] + seenRest == poppedRest + [last]
  {
    assert poppedRest == [poppedRest[0]] + poppedRest[1..];
  }

  /** Draining a queue of n messages with n passes conserves them if and only if the destroyed last slot
      happens to read as the message popped first; the first is otherwise lost. */
  lemma DrainConservesIff(st: State, es: seq<Event>)
    requires Legal(st, es) && OnlyPasses(es) && st.queue != [] && |es| == |st.queue|
    ensures Run(st, es).queue == []
    ensures Everything(Run(st, es)) == Everything(st) <==> es[|es| - 1].stale == st.queue[0]
  {
    PassesShorten(st, es);
    EachIsSeenOnePassEarly(st, es);
    ConservesIffSeenArePopped(st, es);
    NoSends(es);
    var stale, popped := es[|es| - 1].stale, AllPopped(st, es);
    FrontApart(popped);
    assert multiset(AllSeen(es)) == multiset(popped[1..]) + multiset{stale};
    SameAddend(multiset(popped[1..]), stale, popped[0]);
  }

  lemma SameAddend<T>(rest: multiset<T>, a: T, b: T)
    ensures rest + multiset{a} == rest + multiset{b} <==> a == b
  {
    if a != b { assert (rest + multiset{a})[a] == rest[a] + 1 && (rest + multiset{b})[a] == rest[a]; }
  }

  lemma {:induction false} PassesShorten(st: State, es: seq<Event>)
    requires Legal(st, es) && OnlyPasses(es)
    ensures |Run(st, es).queue| == |st.queue| - |es|
    decreases |es|
  {
    if es != [] {
      RearrangedSize(es[0].after, st.queue[1..]);
      ActingKeepsQueue(st, es[0]);
      PassesShorten(Apply(st, es[0]), es[1..]);
    }
  }

  lemma {:induction false} NoSends(es: seq<Event>)
    requires OnlyPasses(es)
    ensures AllSent(es) == []
  {
    if es != [] {
      NoSends(es[1..]);
    }
  }

  /** Two due messages for registered receivers: the first pass pops the one that goes first and hands
      over the other, which is still queued; the second pops that one. The first is never handed over,
      unless the destroyed slot reads as it. */
  lemma TheFirstOfTwoIsLost(a: MsgItem, b: MsgItem, now: int, online: set<Id>, stale: MsgItem)
    requires a.priority < b.priority && a.receiver in online && b.receiver in online
    requires Due(a, now) && Due(b, now) && stale != a
    ensures var st, first := EMPTY_STATE.(queue := [a, b]), Pass([b], now, online, stale);
      && Legal(st, [first]) && Run(st, [first]) == State([b], [a], [b], [], [])
    ensures var st := EMPTY_STATE.(queue := [a, b]);
      var first, second := Pass([b], now, online, stale), Pass([], now, online, stale);
      && Legal(st, [first, second])
      && var end := Run(st, [first, second]);
         end.queue == [] && end.popped == [a, b] && a !in end.handed + end.noReceiver + end.notDue
  {
    var st := EMPTY_STATE.(queue := [a, b]);
    var first, second := Pass([b], now, online, stale), Pass([], now, online, stale);
    assert [a, b][1..] == [b] && [b][1..] == [];
    WhatAPassDoes(st, first);
    var mid := Apply(st, first);
    assert mid == State([b], [a], [b], [], []);
    WhatAPassDoes(mid, second);
    TwoSteps(st, first, second);
    assert a !in [b] && a !in [stale];
  }

  lemma TwoSteps(st: State, first: Event, second: Event)
    requires Enabled(st, first) && Enabled(Apply(st, first), second)
    ensures Legal(st, [first]) && Run(st, [first]) == Apply(st, first)
    ensures Legal(st, [first, second]) && Run(st, [first, second]) == Apply(Apply(st, first), second)
  {
    var mid := Apply(st, first);
    assert [first][1..] == [] && [first, second][1..] == [second] && [second][1..] == [];
    assert Legal(mid, []) && Legal(Apply(mid, second), []);
    assert Legal(mid, [second]) && Run(mid, [second]) == Apply(mid, second);
  }

  // ---- the order in which messages are popped ----

  ghost predicate NoneBelow(queue: seq<MsgItem>, p: int) {
    forall i :: 0 <= i < |queue| ==> queue[i].priority >= p
  }

  lemma NoneBelowRearranged(after: seq<MsgItem>, items: seq<MsgItem>, p: int)
    requires Rearranges(after, items) && NoneBelow(items, p)
    ensures NoneBelow(after, p)
  {
    forall i | 0 <= i < |after| ensures after[i].priority >= p {
      assert after[i] in multiset(items);
    }
  }

  lemma NoneBelowTail(es: seq<Event>, p: int)
    requires es != [] && NoneBelow(AllSent(es), p)
    ensures NoneBelow(AllSent(es[1..]), p)
    ensures es[0].Send? ==> es[0].m.priority >= p
  {
    var pre := if es[0].Send? then [es[0].m] else [];
    assert AllSent(es) == pre + AllSent(es[1..]);
    NoneBelowParts(pre, AllSent(es[1..]), p);
  }

  lemma NoneBelowParts(a: seq<MsgItem>, b: seq<MsgItem>, p: int)
    requires NoneBelow(a + b, p)
    ensures NoneBelow(a, p) && NoneBelow(b, p)
  {
    assert forall i :: 0 <= i < |a| ==> a[i] == (a + b)[i];
    assert forall i :: 0 <= i < |b| ==> b[i] == (a + b)[|a| + i];
  }

  /** While nothing numbered below p is queued or sent, nothing numbered below p is popped. */
  lemma {:induction false} NothingBelowIsPopped(st: State, es: seq<Event>, p: int)
    requires Legal(st, es) && NoneBelow(st.queue, p) && NoneBelow(AllSent(es), p)
    ensures NoneBelow(AllPopped(st, es), p)
    decreases |es|
  {
    if es != [] {
      NoneBelowTail(es, p);
      ActingKeepsQueue(st, es[0]);
      match es[0] {
        case Send(m, after) => NoneBelowRearranged(after, st.queue + [m], p);
        case Pass(after, _, _, _) => NoneBelowRearranged(after, st.queue[1..], p);
      }
      NothingBelowIsPopped(Apply(st, es[0]), es[1..], p);
    }
  }

  /** Between sends the queue is popped in order of its numbers. */
  lemma {:induction false} PoppedInOrder(st: State, es: seq<Event>)
    requires Legal(st, es) && OnlyPasses(es) && Arranged(st.queue)
    ensures forall i, j :: 0 <= i < j < |AllPopped(st, es)| ==>
      AllPopped(st, es)[i].priority <= AllPopped(st, es)[j].priority
    decreases |es|
  {
    if es != [] {
      var next := Apply(st, es[0]);
      ActingKeepsQueue(st, es[0]);
      PoppedInOrder(next, es[1..]);
      NoSends(es[1..]);
      NoneBelowRearranged(es[0].after, st.queue[1..], st.queue[0].priority);
      NothingBelowIsPopped(next, es[1..], st.queue[0].priority);
    }
  }

  // ---- how long a message waits in the queue ----

  /** How many messages have number p or smaller. */
  function AtMost(queue: seq<MsgItem>, p: int): nat {
    if queue == [] then 0 else (if queue[0].priority <= p then 1 else 0) + AtMost(queue[1..], p)
  }

  lemma {:induction false} AtMostConcat(a: seq<MsgItem>, b: seq<MsgItem>, p: int)
    ensures AtMost(a + b, p) == AtMost(a, p) + AtMost(b, p)
  {
    if a == [] {
      assert a + b == b;
    } else {
      assert (a + b)[1..] == a[1..] + b;
      AtMostConcat(a[1..], b, p);
    }
  }

  lemma {:induction false} AtMostZero(queue: seq<MsgItem>, p: int)
    ensures AtMost(queue, p) == 0 <==> forall i :: 0 <= i < |queue| ==> queue[i].priority > p
  {
    if queue != [] {
      AtMostZero(queue[1..], p);
      assert queue == [queue[0]] + queue[1..];
    }
  }

  lemma AtMostCut(queue: seq<MsgItem>, k: nat, p: int)
    requires k < |queue|
    ensures AtMost(queue, p) == AtMost(queue[..k] + queue[k + 1..], p) + if queue[k].priority <= p then 1 else 0
  {
    assert queue == queue[..k] + ([queue[k]] + queue[k + 1..]);
    AtMostConcat(queue[..k], [queue[k]] + queue[k + 1..], p);
    AtMostConcat(queue[..k], queue[k + 1..], p);
    assert ([queue[k]] + queue[k + 1..])[1..] == queue[k + 1..];
  }

  /** The count does not depend on how the heap lies. */
  lemma {:induction false} AtMostRearranged(a: seq<MsgItem>, b: seq<MsgItem>, p: int)
    requires multiset(a) == multiset(b)
    ensures AtMost(a, p) == AtMost(b, p)
    decreases |a|
  {
    assert |multiset(a)| == |a| && |multiset(b)| == |b|;
    if a != [] {
      assert a[0] in multiset(b);
      var k :| 0 <= k < |b| && b[k] == a[0];
      FrontApart(a);
      CutMultiset(b, k);
      assert multiset(a[1..]) == multiset(a) - multiset{a[0]};
      assert multiset(b[..k] + b[k + 1..]) == multiset(b) - multiset{b[k]};
      AtMostCut(b, k, p);
      AtMostRearranged(a[1..], b[..k] + b[k + 1..], p);
    }
  }

  function Passes(es: seq<Event>): nat {
    if es == [] then 0 else (if es[0].Pass? then 1 else 0) + Passes(es[1..])
  }

  ghost predicate OnlyLargerSent(es: seq<Event>, p: int) {
    forall i :: 0 <= i < |es| && es[i].Send? ==> es[i].m.priority > p
  }

  lemma StepCount(st: State, e: Event, p: int)
    requires Enabled(st, e) && Arranged(st.queue) && (e.Send? ==> e.m.priority > p)
    ensures Arranged(Apply(st, e).queue)
    ensures AtMost(Apply(st, e).queue, p) == if e.Pass? && AtMost(st.queue, p) > 0 then AtMost(st.queue, p) - 1
                                             else AtMost(st.queue, p)
  {
    ActingKeepsQueue(st, e);
    match e
    case Send(m, after) =>
      AtMostRearranged(after, st.queue + [m], p);
      AtMostConcat(st.queue, [m], p);
    case Pass(after, _, _, _) =>
      AtMostRearranged(after, st.queue[1..], p);
      AtMostZero(st.queue, p);
  }

  lemma {:induction false} WaitingCount(st: State, es: seq<Event>, p: int)
    requires Legal(st, es) && Arranged(st.queue) && OnlyLargerSent(es, p)
    ensures AtMost(Run(st, es).queue, p)
      == if AtMost(st.queue, p) > Passes(es) then AtMost(st.queue, p) - Passes(es) else 0
    decreases |es|
  {
    if es != [] {
      StepCount(st, es[0], p);
      WaitingCount(Apply(st, es[0]), es[1..], p);
    }
  }

  /** A queued message followed only by larger numbers is popped within as many passes as there were
      messages of its number or smaller, itself included; with fewer passes one of those is still queued. */
  lemma WaitIsBounded(st: State, es: seq<Event>, m: MsgItem)
    requires Legal(st, es) && Arranged(st.queue) && m in st.queue && OnlyLargerSent(es, m.priority)
    ensures Passes(es) >= AtMost(st.queue, m.priority) ==> m !in Run(st, es).queue
    ensures Passes(es) < AtMost(st.queue, m.priority) ==>
      exists i :: 0 <= i < |Run(st, es).queue| && Run(st, es).queue[i].priority <= m.priority
  {
    WaitingCount(st, es, m.priority);
    AtMostZero(Run(st, es).queue, m.priority);
  }

  // ---- the lost send time ----

  /** A delayed message that was stamped as intended, at clock, would be dropped before clock + delay.
      The one queued agrees with that at every moment exactly if the sender had set the time itself. */
  lemma DelayCountsFromSendersTime(m: MsgItem, clock: int, online: set<Id>)
    requires m.delay > 0
    ensures (forall now: int :: FateOf(m, now, online) == FateOf(m.(time := clock), now, online)) <==> m.time == clock
    ensures FateOf(m, m.time + m.delay - 1, online) == NotDue && FateOf(m, m.time + m.delay, online) != NotDue
  {
    var early := if m.time < clock then m.time + m.delay else clock + m.delay;
    if forall now: int :: FateOf(m, now, online) == FateOf(m.(time := clock), now, online) {
      assert FateOf(m, early, online) == FateOf(m.(time := clock), early, online);
    }
  }
}
