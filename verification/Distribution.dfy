/** How accepted connections spread over the network threads while those threads prune at any moment. */
module Distribution {
  import opened Common
  import opened NetThread
  import opened SeqFilter

  // ---- the select loop run on its own ----

  /** The first position of a smallest count. */
  ghost predicate IsFirstMin(counts: seq<int>, min: nat) {
    && min < |counts|
    && (forall j :: 0 <= j < |counts| ==> counts[min] <= counts[j])
    && (forall j :: 0 <= j < min ==> counts[min] < counts[j])
  }

  class SocketManager {
    const threads: seq<NetworkThread>

    constructor (threads: seq<NetworkThread>)
      ensures this.threads == threads
    {
      this.threads := threads;
    }

    ghost function Counts(): seq<int>
      reads threads
    {
      seq(|threads|, i requires 0 <= i < |threads| reads threads => threads[i].connections)
    }

    method SelectThreadWithMinConnections() returns (min: nat)
      requires threads != []
      ensures IsFirstMin(Counts(), min)
    {
      min := 0;
      for i := 1 to |threads|
        invariant min < i
        invariant forall j :: 0 <= j < i ==> threads[min].connections <= threads[j].connections
        invariant forall j :: 0 <= j < min ==> threads[min].connections < threads[j].connections
      {
        var candidate := threads[i].GetConnectionCount();
        var best := threads[min].GetConnectionCount();
        if candidate < best { min := i; }
      }
    }

    /** The accept callback: the socket is handed to the thread chosen when the accept was armed. */
    method OnSocketOpen(socket: Socket, index: nat)
      requires Distinct(threads) && index < |threads|
      requires threads[index].Valid() && socket !in threads[index].added
      modifies threads[index]
      ensures threads[index].Valid()
      ensures threads[index].View() == Added(old(threads[index].View()), socket)
      ensures forall t :: 0 <= t < |threads| && t != index ==> threads[t].View() == old(threads[t].View())
    {
      threads[index].AddSocket(socket);
    }
  }

  // ---- all threads and the acceptor, interleaved ----

  /** Where the acceptor is: about to read for position i with min best so far, having read the
      candidate's count, having read the best's count (the two operands of the comparison are read
      in either order), waiting for an accept bound for a thread, or not re-armed after closing. */
  datatype Phase =
    | Scanning(i: nat, min: nat)
    | ReadCandidate(i: nat, min: nat, candidate: int)
    | ReadBest(i: nat, min: nat, best: int)
    | Armed(target: nat)
    | Stopped

  datatype Net<!T> = Net(
    threads: seq<ThreadState<T>>,
    added: seq<seq<T>>,
    phase: Phase,
    acceptorClosed: bool,
    closed: set<T>,
    closing: set<T>)
  {
    predicate IsOpen(socket: T) { socket !in closed && socket !in closing }
  }

  /** PruneAt is the removal of a live socket whose Update fails. For the base class that is a closed
      one; the program's session classes never fail. */
  datatype Event<T> =
    | ReadCandidateCount
    | ReadBestCount
    | Arm
    | AcceptOk(socket: T)
    | AcceptError
    | CloseAcceptor
    | CloseSocket(socket: T)
    | DelayCloseSocket(socket: T)
    | AbsorbFirst(thread: nat)
    | PruneAt(thread: nat, k: nat)

  function Start<T>(n: nat): Net<T> {
    Net(seq(n, _ => ThreadState([], [], [], 0)), seq(n, _ => []), Scanning(1, 0), false, {}, {})
  }

  ghost predicate Enabled<T>(net: Net<T>, e: Event<T>) {
    match e
    case ReadCandidateCount => (net.phase.Scanning? || net.phase.ReadBest?) && net.phase.i < |net.threads|
    case ReadBestCount => (net.phase.Scanning? || net.phase.ReadCandidate?) && net.phase.i < |net.threads|
                          && net.phase.min < |net.threads|
    case Arm => net.phase.Scanning? && net.phase.i >= |net.threads|
    case AcceptOk(s) => net.phase.Armed? && net.phase.target < |net.threads| == |net.added|
                        && (forall t :: 0 <= t < |net.added| ==> s !in net.added[t])
    case AcceptError => net.phase.Armed?
    case CloseAcceptor => true
    case CloseSocket(s) => true
    case DelayCloseSocket(s) => true
    case AbsorbFirst(t) => t < |net.threads| && net.threads[t].arrivals != []
    case PruneAt(t, k) => t < |net.threads| && k < |net.threads[t].live|
  }

  function Rearmed<T>(net: Net<T>): Phase {
    if net.acceptorClosed then Stopped else Scanning(1, 0)
  }

  function Compared(i: nat, min: nat, candidate: int, best: int): Phase {
    Scanning(i + 1, if candidate < best then i else min)
  }

  ghost function Apply<T>(net: Net<T>, e: Event<T>): Net<T>
    requires Enabled(net, e)
  {
    match e
    case ReadCandidateCount =>
      var count := net.threads[net.phase.i].connections;
      net.(phase := if net.phase.Scanning? then ReadCandidate(net.phase.i, net.phase.min, count)
                    else Compared(net.phase.i, net.phase.min, count, net.phase.best))
    case ReadBestCount =>
      var count := net.threads[net.phase.min].connections;
      net.(phase := if net.phase.Scanning? then ReadBest(net.phase.i, net.phase.min, count)
                    else Compared(net.phase.i, net.phase.min, net.phase.candidate, count))
    case Arm => net.(phase := Armed(net.phase.min))
    case AcceptOk(s) =>
      var t := net.phase.target;
      net.(threads := net.threads[t := Added(net.threads[t], s)],
           added := net.added[t := net.added[t] + [s]],
           phase := Rearmed(net))
    case AcceptError => net.(phase := Rearmed(net))
    case CloseAcceptor => net.(acceptorClosed := true)
    case CloseSocket(s) => net.(closed := net.closed + {s})
    case DelayCloseSocket(s) => net.(closing := net.closing + {s})
    case AbsorbFirst(t) =>
      net.(threads := net.threads[t := AbsorbedOne(net.threads[t], net.IsOpen(net.threads[t].arrivals[0]))])
    case PruneAt(t, k) =>
      var s := net.threads[t].live[k];
      net.(threads := net.threads[t := PrunedOne(net.threads[t], k)],
           closed := if net.IsOpen(s) then net.closed + {s} else net.closed)
  }

  ghost predicate Legal<T>(net: Net<T>, events: seq<Event<T>>)
    decreases |events|
  {
    events == [] || (Enabled(net, events[0]) && Legal(Apply(net, events[0]), events[1..]))
  }

  ghost function Run<T>(net: Net<T>, events: seq<Event<T>>): Net<T>
    requires Legal(net, events)
    decreases |events|
  {
    if events == [] then net else Run(Apply(net, events[0]), events[1..])
  }

  // ---- every run keeps every thread's accounts ----

  ghost predicate AllAccount<T>(net: Net<T>) {
    && |net.added| == |net.threads|
    && (forall t :: 0 <= t < |net.threads| ==> Accounts(net.threads[t], net.added[t]))
  }

  lemma StepKeepsAccounts<T>(net: Net<T>, e: Event<T>)
    requires AllAccount(net) && Enabled(net, e)
    ensures AllAccount(Apply(net, e))
    ensures |Apply(net, e).threads| == |net.threads|
  {
    var net' := Apply(net, e);
    forall t | 0 <= t < |net.threads| ensures Accounts(net'.threads[t], net'.added[t]) {
      assert Accounts(net.threads[t], net.added[t]);
      match e
      case AcceptOk(s) => if t == net.phase.target { AddAccounts(net.threads[t], net.added[t], s); }
      case AbsorbFirst(u) =>
        if t == u { AbsorbOneAccounts(net.threads[t], net.added[t], net.IsOpen(net.threads[t].arrivals[0])); }
      case PruneAt(u, k) => if t == u { PruneOneAccounts(net.threads[t], net.added[t], k); }
      case _ =>
    }
  }

  /** In every interleaving, every thread's counter is the number of sockets it holds, every socket
      added to it is in exactly one of its lists, and the held ones keep their order of arrival. */
  lemma {:induction false} RunKeepsAccounts<T>(net: Net<T>, events: seq<Event<T>>)
    requires AllAccount(net) && Legal(net, events)
    ensures AllAccount(Run(net, events))
    ensures |Run(net, events).threads| == |net.threads|
    decreases |events|
  {
    if events != [] {
      StepKeepsAccounts(net, events[0]);
      RunKeepsAccounts(Apply(net, events[0]), events[1..]);
    }
  }

  // ---- which sockets leave ----

  /** Every prune of the run is of a socket that is closed by then, as with the base class. */
  ghost predicate PrunesOnlyClosed<T>(net: Net<T>, events: seq<Event<T>>)
    requires Legal(net, events)
    decreases |events|
  {
    events == [] || (
      && (events[0].PruneAt? ==> net.threads[events[0].thread].live[events[0].k] in net.closed)
      && PrunesOnlyClosed(Apply(net, events[0]), events[1..]))
  }

  lemma {:induction false} ClosedStayClosed<T>(net: Net<T>, events: seq<Event<T>>)
    requires Legal(net, events)
    ensures net.closed <= Run(net, events).closed
    decreases |events|
  {
    if events != [] {
      ClosedStayClosed(Apply(net, events[0]), events[1..]);
    }
  }

  lemma StepKeepsLive<T>(net: Net<T>, e: Event<T>, t: nat, s: T)
    requires Enabled(net, e) && t < |net.threads| && s in net.threads[t].live
    requires e.PruneAt? ==> net.threads[e.thread].live[e.k] != s
    ensures |Apply(net, e).threads| == |net.threads| && s in Apply(net, e).threads[t].live
  {
    if e.PruneAt? && e.thread == t {
      var live := net.threads[t].live;
      var i :| 0 <= i < |live| && live[i] == s;
      if i < e.k { assert live[..e.k][i] == s; } else { assert live[e.k + 1..][i - e.k - 1] == s; }
    }
  }

  /** With the base class a live socket that is not closed by the end of a run, be it closing, is still
      live then. */
  lemma {:induction false} LiveUntilClosed<T>(net: Net<T>, events: seq<Event<T>>, t: nat, s: T)
    requires Legal(net, events) && PrunesOnlyClosed(net, events)
    requires t < |net.threads| && s in net.threads[t].live && s !in Run(net, events).closed
    ensures |Run(net, events).threads| == |net.threads| && s in Run(net, events).threads[t].live
    decreases |events|
  {
    if events != [] {
      ClosedStayClosed(net, events);
      StepKeepsLive(net, events[0], t, s);
      LiveUntilClosed(Apply(net, events[0]), events[1..], t, s);
    }
  }

  ghost predicate NeverPrunes<T>(events: seq<Event<T>>) {
    forall i :: 0 <= i < |events| ==> !events[i].PruneAt?
  }

  lemma {:induction false} LiveListGrows<T>(net: Net<T>, events: seq<Event<T>>, t: nat)
    requires Legal(net, events) && NeverPrunes(events) && t < |net.threads|
    ensures |Run(net, events).threads| == |net.threads|
    ensures net.threads[t].live <= Run(net, events).threads[t].live
    decreases |events|
  {
    if events != [] {
      var next := Apply(net, events[0]);
      assert net.threads[t].live <= next.threads[t].live;
      LiveListGrows(next, events[1..], t);
    }
  }

  /** With the program's session classes, whose Update never fails, no socket that became live ever
      leaves, closed or not: the live list only grows, and the counter never falls below it again. */
  lemma SessionsAreNeverPruned<T>(net: Net<T>, events: seq<Event<T>>, t: nat)
    requires AllAccount(net) && Legal(net, events) && NeverPrunes(events) && t < |net.threads|
    ensures |Run(net, events).threads| == |net.threads|
    ensures net.threads[t].live <= Run(net, events).threads[t].live
    ensures Run(net, events).threads[t].connections >= |net.threads[t].live|
  {
    LiveListGrows(net, events, t);
    RunKeepsAccounts(net, events);
    assert Accounts(Run(net, events).threads[t], Run(net, events).added[t]);
  }

  // ---- the bound on any thread's load ----

  function Loads<T>(net: Net<T>): seq<int> {
    seq(|net.threads|, t requires 0 <= t < |net.threads| => net.threads[t].connections)
  }

  /** The largest total over the states the run goes through, its first and last included. */
  ghost function Peak<T>(net: Net<T>, events: seq<Event<T>>): int
    requires Legal(net, events)
    decreases |events|
  {
    if events == [] then Sum(Loads(net))
    else
      var rest := Peak(Apply(net, events[0]), events[1..]);
      if Sum(Loads(net)) < rest then rest else Sum(Loads(net))
  }

  lemma {:induction false} SumAtLeast(xs: seq<int>, low: int)
    requires forall i :: 0 <= i < |xs| ==> low <= xs[i]
    ensures |xs| * low <= Sum(xs)
  {
    if xs != [] {
      SumAtLeast(xs[1..], low);
    }
  }

  /** Base is the load of every thread when the select in progress began: since then loads only fell. */
  ghost predicate SelectedBelow<T>(net: Net<T>, base: seq<int>, peak: int) {
    var n, loads := |net.threads|, Loads(net);
    && |base| == n && Sum(base) <= peak
    && (forall t :: 0 <= t < n ==> loads[t] <= base[t])
    && match net.phase
       case Scanning(i, m) => m < i <= n && forall j :: 0 <= j < i ==> loads[m] <= base[j]
       case ReadCandidate(i, m, a) => m < i < n && loads[i] <= a <= base[i]
                                      && forall j :: 0 <= j < i ==> loads[m] <= base[j]
       case ReadBest(i, m, b) => m < i < n && loads[m] <= b && forall j :: 0 <= j < i ==> b <= base[j]
       case Armed(m) => m < n && forall j :: 0 <= j < n ==> loads[m] <= base[j]
       case Stopped => true
  }

  ghost predicate Capped(n: nat, load: int, peak: int) {
    n * (load - 1) <= peak
  }

  ghost predicate LoadBounded<T>(net: Net<T>, peak: int) {
    && |net.threads| > 0
    && (forall t :: 0 <= t < |net.threads| ==> Capped(|net.threads|, Loads(net)[t], peak))
  }

  lemma FewerStayCapped(n: nat, load: int, more: int, peak: int)
    requires load <= more && Capped(n, more, peak)
    ensures Capped(n, load, peak)
  {
    TimesMonotone(n, load - 1, more - 1);
  }

  /** Outside an accept the loads only fall, and the loop's reads stay on the safe side. */
  lemma QuietStepKeepsSelection<T>(net: Net<T>, e: Event<T>, base: seq<int>, peak: int)
    requires Enabled(net, e) && !e.AcceptOk? && !e.AcceptError?
    requires SelectedBelow(net, base, peak)
    ensures SelectedBelow(Apply(net, e), base, peak)
    ensures |Apply(net, e).threads| == |net.threads|
    ensures forall t :: 0 <= t < |net.threads| ==> Loads(Apply(net, e))[t] <= Loads(net)[t]
  {
    var loads, loads' := Loads(net), Loads(Apply(net, e));
    assert forall t :: 0 <= t < |net.threads| ==> loads'[t] <= loads[t];
  }

  /** An accept goes to a thread no fuller than the average of an earlier moment. */
  lemma AcceptKeepsBound<T>(net: Net<T>, socket: T, base: seq<int>, peak: int)
    requires Enabled(net, AcceptOk(socket))
    requires LoadBounded(net, peak) && SelectedBelow(net, base, peak)
    ensures LoadBounded(Apply(net, AcceptOk(socket)), peak)
  {
    var m := net.phase.target;
    SumAtLeast(base, Loads(net)[m]);
    var net' := Apply(net, AcceptOk(socket));
    forall t | 0 <= t < |net.threads| ensures Capped(|net.threads|, Loads(net')[t], peak) {
      if t != m { assert Loads(net')[t] == Loads(net)[t]; }
    }
  }

  lemma StepKeepsSelection<T>(net: Net<T>, e: Event<T>, base: seq<int>, peak: int) returns (base': seq<int>)
    requires Enabled(net, e) && Sum(Loads(Apply(net, e))) <= peak
    requires LoadBounded(net, peak) && SelectedBelow(net, base, peak)
    ensures LoadBounded(Apply(net, e), peak) && SelectedBelow(Apply(net, e), base', peak)
  {
    var net' := Apply(net, e);
    if e.AcceptOk? || e.AcceptError? {
      base' := Loads(net');
      if e.AcceptOk? {
        AcceptKeepsBound(net, e.socket, base, peak);
      } else {
        assert Loads(net') == Loads(net);
      }
    } else {
      base' := base;
      QuietStepKeepsSelection(net, e, base, peak);
      forall t | 0 <= t < |net.threads| ensures Capped(|net.threads|, Loads(net')[t], peak) {
        FewerStayCapped(|net.threads|, Loads(net')[t], Loads(net)[t], peak);
      }
    }
  }

  lemma {:induction false} RunKeepsSelection<T>(net: Net<T>, events: seq<Event<T>>, base: seq<int>, peak: int)
    requires Legal(net, events) && Peak(net, events) <= peak
    requires LoadBounded(net, peak) && SelectedBelow(net, base, peak)
    ensures LoadBounded(Run(net, events), peak)
    ensures |Run(net, events).threads| == |net.threads|
    decreases |events|
  {
    if events != [] {
      var net' := Apply(net, events[0]);
      assert Sum(Loads(net')) <= Peak(net', events[1..]);
      var base' := StepKeepsSelection(net, events[0], base, peak);
      RunKeepsSelection(net', events[1..], base', peak);
    }
  }

  lemma {:induction false} SumOfZeros(xs: seq<int>)
    requires forall i :: 0 <= i < |xs| ==> xs[i] == 0
    ensures Sum(xs) == 0
  {
    if xs != [] {
      SumOfZeros(xs[1..]);
    }
  }

  /** In every run of n threads from empty, with sockets closing and threads pruning between any two
      reads of the select loop, no thread holds more than floor(peak / n) + 1 sockets. */
  lemma LoadBound<T>(n: nat, events: seq<Event<T>>, t: nat)
    requires Legal(Start(n), events) && t < n
    ensures Peak(Start(n), events) >= 0
    ensures |Run(Start(n), events).threads| == n
    ensures |Run(Start(n), events).threads[t].Held()| <= Peak(Start(n), events) / n + 1
  {
    var net: Net<T> := Start(n);
    var peak := Peak(net, events);
    SumOfZeros(Loads(net));
    assert peak >= Sum(Loads(net));
    RunKeepsSelection(net, events, Loads(net), peak);
    RunKeepsAccounts(net, events);
    var final := Run(net, events);
    assert Accounts(final.threads[t], final.added[t]);
    assert Capped(n, Loads(final)[t], peak);
    FloorBound(n, Loads(final)[t], peak);
  }

  lemma FloorBound(n: nat, load: int, peak: int)
    requires n > 0 && peak >= 0 && Capped(n, load, peak)
    ensures load <= peak / n + 1
  {
    if load - 1 >= peak / n + 1 {
      TimesMonotone(n, peak / n + 1, load - 1);
    }
  }
}
