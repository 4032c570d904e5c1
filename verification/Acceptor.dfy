/** The acceptor's cycle over whole runs, and what becomes of sockets that close while they wait. */
module Acceptor {
  import opened Common
  import opened SeqFilter
  import opened NetThread
  import opened Distribution
  import opened RoundRobin

  // ---- re-arming ----

  /** The acceptor stops only once it has been closed; failed accepts do not stop it. */
  lemma {:induction false} StopsOnlyWhenClosed<T>(net: Net<T>, events: seq<Event<T>>)
    requires Legal(net, events) && !net.acceptorClosed && !net.phase.Stopped?
    ensures Run(net, events).acceptorClosed <==> CloseAcceptor in events
    ensures Run(net, events).phase.Stopped? ==> CloseAcceptor in events
    decreases |events|
  {
    if events != [] {
      assert events == [events[0]] + events[1..];
      var next := Apply(net, events[0]);
      if next.acceptorClosed {
        StaysClosed(next, events[1..]);
      } else {
        StopsOnlyWhenClosed(next, events[1..]);
      }
    }
  }

  lemma {:induction false} StaysClosed<T>(net: Net<T>, events: seq<Event<T>>)
    requires Legal(net, events) && net.acceptorClosed
    ensures Run(net, events).acceptorClosed
    decreases |events|
  {
    if events != [] {
      StaysClosed(Apply(net, events[0]), events[1..]);
    }
  }

  /** The cycle's positions are within the threads. */
  ghost predicate InRange<T>(net: Net<T>) {
    var n := |net.threads|;
    && n > 0 && |net.added| == n
    && match net.phase
       case Scanning(i, m) => m < i <= n
       case ReadCandidate(i, m, _) => m < i < n
       case ReadBest(i, m, _) => m < i < n
       case Armed(m) => m < n
       case Stopped => true
  }

  lemma {:induction false} StaysInRange<T>(net: Net<T>, events: seq<Event<T>>)
    requires Legal(net, events) && InRange(net)
    ensures InRange(Run(net, events)) && |Run(net, events).threads| == |net.threads|
    decreases |events|
  {
    if events != [] {
      StaysInRange(Apply(net, events[0]), events[1..]);
    }
  }

  ghost predicate NewTo<T>(s: T, net: Net<T>) {
    forall t :: 0 <= t < |net.added| ==> s !in net.added[t]
  }

  /** How many events the cycle is away from the accept. */
  function Distance<T>(net: Net<T>): nat
    requires net.phase.Scanning? || net.phase.ReadCandidate? || net.phase.ReadBest? ==> net.phase.i <= |net.threads|
  {
    match net.phase
    case Scanning(i, _) => 2 * (|net.threads| - i) + 1
    case ReadCandidate(i, _, _) => 2 * (|net.threads| - i)
    case ReadBest(i, _, _) => 2 * (|net.threads| - i)
    case _ => 0
  }

  lemma {:induction false} CycleReachesAccept<T>(net: Net<T>, s: T) returns (events: seq<Event<T>>)
    requires InRange(net) && !net.phase.Stopped? && NewTo(s, net)
    ensures Legal(net, events) && AcceptOk(s) in events
    decreases Distance(net)
  {
    var e := if net.phase.Armed? then AcceptOk(s)
             else if net.phase.ReadCandidate? then ReadBestCount
             else if net.phase.ReadBest? || net.phase.i < |net.threads| then ReadCandidateCount
             else Arm;
    assert Enabled(net, e);
    if net.phase.Armed? {
      events := [e];
      assert events[1..] == [] && Legal(Apply(net, e), []);
    } else {
      var rest := CycleReachesAccept(Apply(net, e), s);
      events := [e] + rest;
      assert events[1..] == rest;
    }
  }

  /** From every state of every run in which the acceptor has not been closed, after whatever number of
      failed accepts, the cycle goes on to accept another connection. */
  lemma AcceptingGoesOn<T>(n: nat, events: seq<Event<T>>, s: T) returns (more: seq<Event<T>>)
    requires n > 0 && Legal(Start(n), events) && CloseAcceptor !in events && NewTo(s, Run(Start(n), events))
    ensures Legal(Run(Start(n), events), more) && AcceptOk(s) in more
  {
    var start: Net<T> := Start(n);
    StopsOnlyWhenClosed(start, events);
    StaysInRange(start, events);
    more := CycleReachesAccept(Run(start, events), s);
  }

  /** With the acceptor closed it is not re-armed: at most the accept already under way succeeds. */
  lemma {:induction false} ClosedAcceptsOnce<T>(net: Net<T>, events: seq<Event<T>>)
    requires net.acceptorClosed && Legal(net, events)
    ensures Accepts(events) <= if net.phase.Stopped? then 0 else 1
    decreases |events|
  {
    if events != [] {
      ClosedAcceptsOnce(Apply(net, events[0]), events[1..]);
    }
  }

  /** From the close on, at most the accept already under way succeeds. */
  lemma ClosingEndsAccepting<T>(net: Net<T>, events: seq<Event<T>>)
    requires Legal(net, [CloseAcceptor] + events)
    ensures Accepts(events) <= if net.phase.Stopped? then 0 else 1
  {
    assert ([CloseAcceptor] + events)[1..] == events;
    ClosedAcceptsOnce(Apply(net, CloseAcceptor), events);
  }

  // ---- sockets that close ----

  /** In every run a socket reported removed is no longer open. */
  lemma {:induction false} RemovedAreShut<T>(net: Net<T>, events: seq<Event<T>>)
    requires Legal(net, events) && RemovedShut(net)
    ensures RemovedShut(Run(net, events))
    decreases |events|
  {
    if events != [] {
      StepRemovesShut(net, events[0]);
      RemovedAreShut(Apply(net, events[0]), events[1..]);
    }
  }

  ghost predicate RemovedShut<T>(net: Net<T>) {
    forall t, s :: 0 <= t < |net.threads| && s in net.threads[t].removed ==> !net.IsOpen(s)
  }

  lemma StepRemovesShut<T>(net: Net<T>, e: Event<T>)
    requires Enabled(net, e) && RemovedShut(net)
    ensures RemovedShut(Apply(net, e))
  {
    var net' := Apply(net, e);
    forall t, s | 0 <= t < |net'.threads| && s in net'.threads[t].removed ensures !net'.IsOpen(s) {
      if s in net.threads[t].removed {
        assert !net.IsOpen(s);
      }
    }
  }

  /** No socket is given to two threads. */
  ghost predicate Apart<T>(net: Net<T>) {
    forall t, u, s :: 0 <= t < u < |net.added| && s in net.added[t] ==> s !in net.added[u]
  }

  /** Closed are those something closed: an event of the run, or a prune, which removed them. */
  ghost predicate ClosedForAReason<T>(net: Net<T>, events: seq<Event<T>>) {
    && (forall s <- net.closing :: DelayCloseSocket(s) in events)
    && (forall i :: 0 <= i < |events| && events[i].DelayCloseSocket? ==> events[i].socket in net.closing)
    && (forall i :: 0 <= i < |events| && events[i].CloseSocket? ==> events[i].socket in net.closed)
    && (forall s <- net.closed :: CloseSocket(s) in events || WasRemoved(net, s))
  }

  ghost predicate WasRemoved<T>(net: Net<T>, s: T) {
    exists t :: 0 <= t < |net.threads| && s in net.threads[t].removed
  }

  lemma RemovedStays<T>(net: Net<T>, e: Event<T>, s: T)
    requires Enabled(net, e)
    ensures WasRemoved(net, s) ==> WasRemoved(Apply(net, e), s)
  {
    if WasRemoved(net, s) {
      var t :| 0 <= t < |net.threads| && s in net.threads[t].removed;
      assert s in Apply(net, e).threads[t].removed;
    }
  }

  lemma StepClosesForAReason<T>(net: Net<T>, past: seq<Event<T>>, e: Event<T>)
    requires Enabled(net, e) && ClosedForAReason(net, past)
    ensures ClosedForAReason(Apply(net, e), past + [e])
  {
    var net' := Apply(net, e);
    forall s | s in net'.closed ensures CloseSocket(s) in past + [e] || WasRemoved(net', s) {
      if s in net.closed {
        RemovedStays(net, e, s);
      } else if e.PruneAt? {
        assert s in net'.threads[e.thread].removed;
      }
    }
  }

  lemma StepKeepsApart<T>(net: Net<T>, e: Event<T>)
    requires Enabled(net, e) && Apart(net)
    ensures Apart(Apply(net, e))
  {
    var net' := Apply(net, e);
    forall t, u, s | 0 <= t < u < |net'.added| && s in net'.added[t] ensures s !in net'.added[u] {
      if s in net.added[t] {
        assert s !in net.added[u];
      }
    }
  }

  lemma {:induction false} RunKeepsApart<T>(net: Net<T>, events: seq<Event<T>>)
    requires Legal(net, events) && Apart(net)
    ensures Apart(Run(net, events))
    decreases |events|
  {
    if events != [] {
      StepKeepsApart(net, events[0]);
      RunKeepsApart(Apply(net, events[0]), events[1..]);
    }
  }

  lemma {:induction false} RunClosesForAReason<T>(net: Net<T>, past: seq<Event<T>>, events: seq<Event<T>>)
    requires Legal(net, events) && ClosedForAReason(net, past)
    ensures ClosedForAReason(Run(net, events), past + events)
    decreases |events|
  {
    if events == [] {
      assert past + [] == past;
    } else {
      StepClosesForAReason(net, past, events[0]);
      RunClosesForAReason(Apply(net, events[0]), past + [events[0]], events[1..]);
      assert past + [events[0]] + events[1..] == past + events;
    }
  }

  lemma WasAdded<T>(st: ThreadState<T>, added: seq<T>, s: T)
    requires Accounts(st, added) && (s in st.Held() || s in st.removed)
    ensures s in added
  {
    assert s in multiset(st.Held()) + multiset(st.removed);
    assert s in multiset(added);
  }

  lemma NotHeldAndRemoved<T>(st: ThreadState<T>, added: seq<T>, s: T)
    requires Accounts(st, added) && s in st.Held()
    ensures s !in st.removed
  {
    WithoutMember(added, Elements(st.removed), s);
  }

  lemma WaitingWasNotRemoved<T>(net: Net<T>, t: nat, s: T)
    requires AllAccount(net) && Apart(net) && t < |net.threads| && s in net.threads[t].Held()
    ensures !WasRemoved(net, s)
  {
    NotHeldAndRemoved(net.threads[t], net.added[t], s);
    WasAdded(net.threads[t], net.added[t], s);
    if WasRemoved(net, s) {
      var u :| 0 <= u < |net.threads| && s in net.threads[u].removed;
      WasAdded(net.threads[u], net.added[u], s);
    }
  }

  /** A waiting socket is closed only if an event closed it. */
  lemma WaitingIsOpenIff<T>(net: Net<T>, events: seq<Event<T>>, t: nat)
    requires AllAccount(net) && Apart(net) && ClosedForAReason(net, events)
    requires t < |net.threads| && net.threads[t].arrivals != []
    ensures var s := net.threads[t].arrivals[0];
      net.IsOpen(s) <==> CloseSocket(s) !in events && DelayCloseSocket(s) !in events
  {
    var s := net.threads[t].arrivals[0];
    assert s == net.threads[t].Held()[|net.threads[t].live|];
    WaitingWasNotRemoved(net, t, s);
  }

  lemma AbsorbingTheFirst<T>(net: Net<T>, t: nat)
    requires t < |net.threads| && net.threads[t].arrivals != []
    ensures var st, st' := net.threads[t], Apply(net, AbsorbFirst(t)).threads[t];
      var s := st.arrivals[0];
      && st'.arrivals == st.arrivals[1..]
      && if net.IsOpen(s)
         then st'.live == st.live + [s] && st'.removed == st.removed && st'.connections == st.connections
         else st'.live == st.live && st'.removed == st.removed + [s] && st'.connections == st.connections - 1
  {
  }

  /** In every run from empty, the first waiting socket goes live when absorbed, and stays counted, if
      neither a close nor a delayed close of it has happened; otherwise it is removed and uncounted. */
  lemma AbsorbedLiveIffNeverClosed<T>(n: nat, events: seq<Event<T>>, t: nat)
    requires Legal(Start(n), events) && t < |Run(Start(n), events).threads|
    requires Run(Start(n), events).threads[t].arrivals != []
    ensures var net := Run(Start(n), events);
      var st, st' := net.threads[t], Apply(net, AbsorbFirst(t)).threads[t];
      var s := st.arrivals[0];
      && st'.arrivals == st.arrivals[1..]
      && if CloseSocket(s) !in events && DelayCloseSocket(s) !in events
         then st'.live == st.live + [s] && st'.removed == st.removed && st'.connections == st.connections
         else st'.live == st.live && st'.removed == st.removed + [s] && st'.connections == st.connections - 1
  {
    var start: Net<T> := Start(n);
    RunKeepsAccounts(start, events);
    RunKeepsApart(start, events);
    RunClosesForAReason(start, [], events);
    assert [] + events == events;
    WaitingIsOpenIff(Run(start, events), events, t);
    AbsorbingTheFirst(Run(start, events), t);
  }
}
