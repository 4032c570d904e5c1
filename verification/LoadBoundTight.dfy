/** The load bound cannot be lowered: for two or more threads and every peak it is attained. */
module LoadBoundTight {
  import opened Common
  import opened NetThread
  import opened Distribution
  import opened RoundRobin

  function Larger(a: int, b: int): int { if a < b then b else a }

  lemma {:induction false} RunConcat<T>(net: Net<T>, a: seq<Event<T>>, b: seq<Event<T>>)
    requires Legal(net, a) && Legal(Run(net, a), b)
    ensures Legal(net, a + b) && Run(net, a + b) == Run(Run(net, a), b)
    ensures Peak(net, a + b) == Larger(Peak(net, a), Peak(Run(net, a), b))
    decreases |a|
  {
    if a == [] {
      assert a + b == b;
      PeakAtLeastEnds(net, b);
    } else {
      assert (a + b)[1..] == a[1..] + b;
      RunConcat(Apply(net, a[0]), a[1..], b);
    }
  }

  lemma {:induction false} PeakAtLeastEnds<T>(net: Net<T>, es: seq<Event<T>>)
    requires Legal(net, es)
    ensures Sum(Loads(net)) <= Peak(net, es) && Sum(Loads(Run(net, es))) <= Peak(net, es)
    decreases |es|
  {
    if es != [] {
      PeakAtLeastEnds(Apply(net, es[0]), es[1..]);
    }
  }

  lemma OneEvent<T>(net: Net<T>, e: Event<T>)
    requires Enabled(net, e)
    ensures Legal(net, [e]) && Run(net, [e]) == Apply(net, e)
    ensures Peak(net, [e]) == Larger(Sum(Loads(net)), Sum(Loads(Apply(net, e))))
  {
    assert [e][1..] == [];
    assert Legal(Apply(net, e), []);
  }

  lemma {:induction false} SumUpdate(xs: seq<int>, i: nat, v: int)
    requires i < |xs|
    ensures Sum(xs[i := v]) == Sum(xs) - xs[i] + v
  {
    if i == 0 {
      assert xs[0 := v][1..] == xs[1..];
    } else {
      assert xs[i := v][1..] == xs[1..][i - 1 := v];
      SumUpdate(xs[1..], i - 1, v);
    }
  }

  /** At the start of a select, k sockets have been dealt in turn to n threads and none has been absorbed
      yet; the sockets are numbered below k. */
  ghost predicate JustDealt(net: Net<int>, n: nat, k: nat) {
    && InTurn(net, k) && |net.threads| == |net.added| == n
    && net.phase == Scanning(1, 0) && !net.acceptorClosed && Sum(Loads(net)) == k
    && (forall t :: 0 <= t < n ==> net.threads[t].live == [])
    && (forall t, s :: 0 <= t < n && s in net.added[t] ==> s < k)
  }

  /** From there the scan arms the accept for thread k mod n. */
  lemma ScanArms(net: Net<int>, n: nat, k: nat) returns (es: seq<Event<int>>)
    requires JustDealt(net, n, k)
    ensures Legal(net, es) && Run(net, es) == net.(phase := Armed(k % n)) && Peak(net, es) == k
    ensures NeverPrunes(es)
  {
    es := ScanLoop(1, n);
    UndisturbedScan(net, 1, 0);
    ScanIsQuiet(net, 1, 0);
    RunInTurn(net, es, k);
  }

  lemma AcceptAdds(net: Net<int>, n: nat, s: int)
    requires Enabled(net, AcceptOk(s)) && |net.threads| == n
    ensures Sum(Loads(Apply(net, AcceptOk(s)))) == Sum(Loads(net)) + 1
    ensures Loads(Apply(net, AcceptOk(s)))[net.phase.target] == Loads(net)[net.phase.target] + 1
  {
    var t := net.phase.target;
    assert Loads(Apply(net, AcceptOk(s))) == Loads(net)[t := Loads(net)[t] + 1];
    SumUpdate(Loads(net), t, Loads(net)[t] + 1);
  }

  /** One round: the scan and an accept. */
  lemma DealOne(net: Net<int>, n: nat, k: nat) returns (es: seq<Event<int>>)
    requires JustDealt(net, n, k)
    ensures Legal(net, es) && JustDealt(Run(net, es), n, k + 1) && Peak(net, es) == k + 1 && NeverPrunes(es)
  {
    var scan := ScanArms(net, n, k);
    var armed := net.(phase := Armed(k % n));
    assert Loads(armed) == Loads(net);
    OneEvent(armed, AcceptOk(k));
    AcceptAdds(armed, n, k);
    StepInTurn(armed, AcceptOk(k), k);
    RunConcat(net, scan, [AcceptOk(k)]);
    es := scan + [AcceptOk(k)];
  }

  lemma {:induction false} Deal(n: nat, k: nat) returns (es: seq<Event<int>>)
    requires n > 0
    ensures Legal(Start(n), es) && JustDealt(Run(Start(n), es), n, k) && Peak(Start(n), es) == k && NeverPrunes(es)
  {
    var start: Net<int> := Start(n);
    if k == 0 {
      es := [];
      SumOfZeros(Loads(start));
    } else {
      var before := Deal(n, k - 1);
      var net := Run(start, before);
      var round := DealOne(net, n, k - 1);
      RunConcat(start, before, round);
      es := before + round;
    }
  }

  /** When the load is even, the accept is armed for the first thread, the second loses a socket that
      closes before it is absorbed, and the accept still goes to the first. */
  lemma UnevenRound(net: Net<int>, n: nat, k: nat) returns (es: seq<Event<int>>)
    requires JustDealt(net, n, k) && n >= 2 && k > 0 && k % n == 0 && net.threads[1].arrivals != []
    ensures Legal(net, es) && Peak(net, es) == k && NeverPrunes(es)
    ensures |Run(net, es).threads| == n && Run(net, es).threads[0].connections == k / n + 1
  {
    var scan := ScanArms(net, n, k);
    var armed := net.(phase := Armed(0));
    var s := armed.threads[1].arrivals[0];
    var e1, e2, e3 := CloseSocket(s), AbsorbFirst(1), AcceptOk(k);
    var net1 := Apply(armed, e1);
    var net2 := Apply(net1, e2);
    assert Loads(armed) == Loads(net) && Loads(net1) == Loads(net);
    assert Loads(net2) == Loads(net)[1 := Loads(net)[1] - 1];
    SumUpdate(Loads(net), 1, Loads(net)[1] - 1);
    AcceptAdds(net2, n, k);
    OneEvent(armed, e1);
    OneEvent(net1, e2);
    OneEvent(net2, e3);
    RunConcat(net1, [e2], [e3]);
    RunConcat(armed, [e1], [e2] + [e3]);
    RunConcat(net, scan, [e1] + ([e2] + [e3]));
    es := scan + ([e1] + ([e2] + [e3]));
  }

  /** For every number of threads from two and every peak there is a run from empty, with no live socket
      pruned, in which a thread comes to hold floor(peak / n) + 1. */
  lemma TheBoundIsAttained(n: nat, peak: nat) returns (es: seq<Event<int>>)
    requires n >= 2 && peak >= 1
    ensures Legal(Start(n), es) && Peak(Start(n), es) == peak && NeverPrunes(es)
    ensures |Run(Start(n), es).threads| == n
    ensures |Run(Start(n), es).threads[0].Held()| == peak / n + 1
  {
    var start: Net<int> := Start(n);
    es := Deal(n, peak);
    var net := Run(start, es);
    RunKeepsAccounts(start, es);
    assert Accounts(net.threads[0], net.added[0]) && Accounts(net.threads[1], net.added[1]);
    if peak % n == 0 {
      assert net.threads[1].connections == Dealt(peak, n, 1) == peak / n;
      assert peak / n >= 1;
      var round := UnevenRound(net, n, peak);
      RunConcat(start, es, round);
      es := es + round;
      RunKeepsAccounts(start, es);
      var final := Run(start, es);
      assert Accounts(final.threads[0], final.added[0]);
    } else {
      assert net.threads[0].connections == Dealt(peak, n, 0);
    }
  }

  /** A single thread never attains it: it never holds more than the peak. */
  lemma OneThreadHoldsThePeak<T>(events: seq<Event<T>>)
    requires Legal(Start(1), events)
    ensures |Run(Start(1), events).threads| == 1
    ensures |Run(Start(1), events).threads[0].Held()| <= Peak(Start(1), events)
  {
    var start: Net<T> := Start(1);
    RunKeepsAccounts(start, events);
    PeakAtLeastEnds(start, events);
    var final := Run(start, events);
    assert Accounts(final.threads[0], final.added[0]);
    assert Loads(final) == [final.threads[0].connections];
    assert Sum(Loads(final)) == final.threads[0].connections + Sum(Loads(final)[1..]);
  }
}
