/** What the selection does when nothing interferes: one scan, and runs in which no socket leaves. */
module RoundRobin {
  import opened Common
  import opened NetThread
  import opened Distribution

  /** The select loop's events from position i, with nothing in between. */
  function ScanLoop<T>(i: nat, n: nat): seq<Event<T>>
    decreases n - i
  {
    if i >= n then [Arm] else [ReadCandidateCount, ReadBestCount] + ScanLoop(i + 1, n)
  }

  /** Undisturbed, the interleaved scan arms the accept for the thread the sequential loop returns. */
  lemma {:induction false} UndisturbedScan<T>(net: Net<T>, i: nat, m: nat)
    requires net.phase == Scanning(i, m) && m < i <= |net.threads|
    requires IsFirstMin(Loads(net)[..i], m)
    ensures Legal(net, ScanLoop(i, |net.threads|))
    ensures var final := Run(net, ScanLoop(i, |net.threads|));
      && final.phase.Armed? && IsFirstMin(Loads(net), final.phase.target)
      && final == net.(phase := final.phase)
    decreases |net.threads| - i
  {
    var n, loads := |net.threads|, Loads(net);
    if i == n {
      assert loads[..i] == loads;
      assert ScanLoop<T>(i, n)[1..] == [];
      assert Legal(Apply(net, Arm), []);
    } else {
      var rest := ScanLoop<T>(i + 1, n);
      var mid := Apply(net, ReadCandidateCount);
      var next := Apply(mid, ReadBestCount);
      assert Loads(next) == loads;
      assert loads[..i + 1] == loads[..i] + [loads[i]];
      UndisturbedScan(next, i + 1, next.phase.min);
      assert ScanLoop<T>(i, n)[1..] == [ReadBestCount] + rest;
      assert ([ReadBestCount] + rest)[1..] == rest;
      assert Legal(mid, [ReadBestCount] + rest);
    }
  }

  lemma {:induction false} ScanIsQuiet<T>(net: Net<T>, i: nat, m: nat)
    requires net.phase == Scanning(i, m) && m < i <= |net.threads|
    requires Legal(net, ScanLoop(i, |net.threads|))
    ensures Peak(net, ScanLoop(i, |net.threads|)) == Sum(Loads(net))
    ensures NoneLeaves(ScanLoop<T>(i, |net.threads|)) && Accepts(ScanLoop<T>(i, |net.threads|)) == 0
    decreases |net.threads| - i
  {
    var n := |net.threads|;
    var es := ScanLoop<T>(i, n);
    if i == n {
      assert es[1..] == [];
      assert Loads(Apply(net, Arm)) == Loads(net);
    } else {
      var mid := Apply(net, ReadCandidateCount);
      var next := Apply(mid, ReadBestCount);
      assert es[1..] == [ReadBestCount] + ScanLoop(i + 1, n) && es[1..][1..] == ScanLoop(i + 1, n);
      assert Loads(mid) == Loads(net) && Loads(next) == Loads(net);
      ScanIsQuiet(next, i + 1, next.phase.min);
    }
  }

  // ---- runs in which no socket leaves ----

  ghost predicate NoneLeaves<T>(events: seq<Event<T>>) {
    forall i :: 0 <= i < |events| ==> !Leaving(events[i])
  }

  predicate Leaving<T>(e: Event<T>) {
    e.CloseSocket? || e.DelayCloseSocket? || e.PruneAt?
  }

  function Accepts<T>(events: seq<Event<T>>): nat {
    if events == [] then 0 else (if events[0].AcceptOk? then 1 else 0) + Accepts(events[1..])
  }

  /** The load of thread t after k connections dealt in turn to n threads. */
  function Dealt(k: nat, n: nat, t: nat): nat
    requires n > 0
  {
    k / n + if t < k % n then 1 else 0
  }

  /** The scan has seen positions below i: its best is the next to be dealt once that has been seen. */
  function BestSeen(k: nat, n: nat, i: nat): nat
    requires n > 0
  {
    if k % n < i then k % n else 0
  }

  ghost predicate InTurn<T>(net: Net<T>, k: nat) {
    var n := |net.threads|;
    && n > 0 && net.closed == {} && net.closing == {}
    && (forall t :: 0 <= t < n ==> net.threads[t].connections == Dealt(k, n, t))
    && match net.phase
       case Scanning(i, m) => 1 <= i <= n && m == BestSeen(k, n, i)
       case ReadCandidate(i, m, a) => 1 <= i < n && m == BestSeen(k, n, i) && a == Dealt(k, n, i)
       case ReadBest(i, m, b) => 1 <= i < n && m == BestSeen(k, n, i) && b == Dealt(k, n, m)
       case Armed(m) => m == k % n
       case Stopped => true
  }

  lemma DealNext(k: nat, n: nat)
    requires n > 0
    ensures forall t: nat :: t < n ==> Dealt(k + 1, n, t) == Dealt(k, n, t) + if t == k % n then 1 else 0
  {
    var q, r := k / n, k % n;
    assert k == n * q + r;
    if r + 1 < n {
      DivModUnique(k + 1, n, q, r + 1);
    } else {
      assert k + 1 == n * (q + 1);
      DivModUnique(k + 1, n, q + 1, 0);
    }
  }

  lemma StepInTurn<T>(net: Net<T>, e: Event<T>, k: nat)
    requires InTurn(net, k) && Enabled(net, e)
    requires !Leaving(e)
    ensures InTurn(Apply(net, e), if e.AcceptOk? then k + 1 else k)
    ensures |Apply(net, e).threads| == |net.threads|
  {
    if e.AcceptOk? {
      DealNext(k, |net.threads|);
    }
  }

  lemma {:induction false} RunInTurn<T>(net: Net<T>, events: seq<Event<T>>, k: nat)
    requires InTurn(net, k) && Legal(net, events) && NoneLeaves(events)
    ensures InTurn(Run(net, events), k + Accepts(events))
    ensures |Run(net, events).threads| == |net.threads|
    decreases |events|
  {
    if events != [] {
      StepInTurn(net, events[0], k);
      RunInTurn(Apply(net, events[0]), events[1..], if events[0].AcceptOk? then k + 1 else k);
    }
  }

  /** While no socket closes or is pruned, failed accepts included, the connections are dealt strictly in turn:
      the loads are known exactly, and no two differ by more than one. */
  lemma AcceptsAreDealtInTurn<T>(n: nat, events: seq<Event<T>>)
    requires n > 0 && Legal(Start(n), events) && NoneLeaves(events)
    ensures var final := Run(Start(n), events);
      && |final.threads| == n
      && (forall t :: 0 <= t < n ==> final.threads[t].connections == Dealt(Accepts(events), n, t))
      && (forall t, u :: 0 <= t < n && 0 <= u < n ==>
            final.threads[t].connections <= final.threads[u].connections + 1)
  {
    assert Dealt(0, n, 0) == 0;
    RunInTurn(Start(n), events, 0);
  }
}
