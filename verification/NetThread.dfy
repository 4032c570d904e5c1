/** A network thread: its two socket lists, its connection counter, and the passes that maintain them. */
module NetThread {
  import opened SeqFilter

  /** What a network thread holds; removed logs the sockets reported to SocketRemoved. */
  datatype ThreadState<T> = ThreadState(arrivals: seq<T>, live: seq<T>, removed: seq<T>, connections: int) {
    function Held(): seq<T> { live + arrivals }
  }

  // ---- one operation each, as a function of the thread's state ----

  function Added<T>(st: ThreadState<T>, socket: T): ThreadState<T> {
    st.(arrivals := st.arrivals + [socket], connections := st.connections + 1)
  }

  /** AddSockets, when exactly the sockets in shut are not open. */
  function Absorbed<T(==)>(st: ThreadState<T>, shut: set<T>): ThreadState<T> {
    var gone := Within(st.arrivals, shut);
    ThreadState([], st.live + Without(st.arrivals, shut), st.removed + gone, st.connections - |gone|)
  }

  /** The erase of Update, when exactly the sockets in failing fail their Update. */
  function Pruned<T(==)>(st: ThreadState<T>, failing: set<T>): ThreadState<T> {
    var gone := Within(st.live, failing);
    ThreadState(st.arrivals, Without(st.live, failing), st.removed + gone, st.connections - |gone|)
  }

  /** AddSockets' treatment of the first fresh socket. */
  function AbsorbedOne<T>(st: ThreadState<T>, open: bool): ThreadState<T>
    requires st.arrivals != []
  {
    if open then st.(arrivals := st.arrivals[1..], live := st.live + [st.arrivals[0]])
    else ThreadState(st.arrivals[1..], st.live, st.removed + [st.arrivals[0]], st.connections - 1)
  }

  /** The removal of the k-th live socket. */
  function PrunedOne<T>(st: ThreadState<T>, k: nat): ThreadState<T>
    requires k < |st.live|
  {
    ThreadState(st.arrivals, st.live[..k] + st.live[k + 1..], st.removed + [st.live[k]], st.connections - 1)
  }

  // ---- the accounting invariant ----

  /** Added is the sequence of sockets ever handed to AddSocket. */
  ghost predicate Accounts<T>(st: ThreadState<T>, added: seq<T>) {
    && Distinct(added) && Distinct(st.removed)
    && st.connections == |st.arrivals| + |st.live|
    && multiset(added) == multiset(st.Held()) + multiset(st.removed)
    && st.Held() == Without(added, Elements(st.removed))
  }

  /** Every added socket is in exactly one of the three lists, once; so none is removed twice. */
  lemma ExactlyOnePlace<T>(st: ThreadState<T>, added: seq<T>, k: nat)
    requires Accounts(st, added) && k < |added|
    ensures Distinct(st.removed) && Distinct(st.Held())
    ensures (if added[k] in st.arrivals then 1 else 0) + (if added[k] in st.live then 1 else 0)
         + (if added[k] in st.removed then 1 else 0) == 1
  {
    DistinctOnce(added, added[k]);
    assert multiset(st.Held()) == multiset(st.live) + multiset(st.arrivals);
    WithoutDistinct(added, Elements(st.removed));
    assert added[k] in multiset(added);
  }

  lemma AddAccounts<T>(st: ThreadState<T>, added: seq<T>, socket: T)
    requires Accounts(st, added) && socket !in added
    ensures Accounts(Added(st, socket), added + [socket])
  {
    var gone := Elements(st.removed);
    forall x | x in gone ensures x != socket {
      assert x in multiset(added);
    }
    WithoutConcat(added, [socket], gone);
    WithoutNothing([socket], gone);
    assert Added(st, socket).Held() == st.Held() + [socket];
  }

  /** Cutting the k-th held socket out of the lists and logging it as removed keeps the accounts. */
  lemma CutAccounts<T>(st: ThreadState<T>, st': ThreadState<T>, added: seq<T>, k: nat)
    requires Accounts(st, added) && k < |st.Held()|
    requires st'.removed == st.removed + [st.Held()[k]]
    requires st'.Held() == st.Held()[..k] + st.Held()[k + 1..]
    requires st'.connections == st.connections - 1
    ensures Accounts(st', added)
  {
    var h, x := st.Held(), st.Held()[k];
    WithoutMember(added, Elements(st.removed), x);
    WithoutDistinct(added, Elements(st.removed));
    CutMultiset(h, k);
    assert multiset(st'.removed) == multiset(st.removed) + multiset{x};
    assert Elements(st'.removed) == Elements(st.removed) + {x};
    assert st'.Held() == Without(added, Elements(st'.removed)) by {
      WithoutOne(h, k);
      WithoutTwice(added, Elements(st.removed), {x});
    }
  }

  lemma AbsorbOneAccounts<T>(st: ThreadState<T>, added: seq<T>, open: bool)
    requires Accounts(st, added) && st.arrivals != []
    ensures Accounts(AbsorbedOne(st, open), added)
  {
    var st' := AbsorbedOne(st, open);
    assert st.arrivals == [st.arrivals[0]] + st.arrivals[1..];
    if open {
      assert st'.Held() == st.Held();
    } else {
      var k := |st.live|;
      assert st.Held()[k] == st.arrivals[0];
      assert st'.Held() == st.Held()[..k] + st.Held()[k + 1..];
      CutAccounts(st, st', added, k);
    }
  }

  lemma PruneOneAccounts<T>(st: ThreadState<T>, added: seq<T>, k: nat)
    requires Accounts(st, added) && k < |st.live|
    ensures Accounts(PrunedOne(st, k), added)
  {
    var st' := PrunedOne(st, k);
    assert st.Held()[k] == st.live[k];
    assert st'.Held() == st.Held()[..k] + st.Held()[k + 1..];
    CutAccounts(st, st', added, k);
  }

  // ---- a whole pass is a run of single-socket steps ----

  /** AddSockets as written, one fresh socket after another. */
  function AbsorbEach<T(==)>(st: ThreadState<T>, shut: set<T>): ThreadState<T>
    decreases |st.arrivals|
  {
    if st.arrivals == [] then st else AbsorbEach(AbsorbedOne(st, st.arrivals[0] !in shut), shut)
  }

  lemma {:induction false} AbsorbIsStepwise<T>(st: ThreadState<T>, shut: set<T>)
    ensures AbsorbEach(st, shut) == Absorbed(st, shut)
    decreases |st.arrivals|
  {
    if st.arrivals != [] {
      var next := AbsorbedOne(st, st.arrivals[0] !in shut);
      AbsorbIsStepwise(next, shut);
      var s := st.arrivals[0];
      if s in shut {
        assert st.removed + [s] + Within(st.arrivals[1..], shut) == st.removed + Within(st.arrivals, shut);
      } else {
        assert st.live + [s] + Without(st.arrivals[1..], shut) == st.live + Without(st.arrivals, shut);
      }
    }
  }

  /** The erase of Update from position k on, one live socket after another. */
  function PruneEach<T(==)>(st: ThreadState<T>, failing: set<T>, k: nat): ThreadState<T>
    requires k <= |st.live|
    decreases |st.live| - k
  {
    if k == |st.live| then st
    else if st.live[k] in failing then PruneEach(PrunedOne(st, k), failing, k)
    else PruneEach(st, failing, k + 1)
  }

  lemma {:induction false} PruneEachFrom<T>(st: ThreadState<T>, failing: set<T>, k: nat)
    requires k <= |st.live|
    ensures var gone := Within(st.live[k..], failing);
      PruneEach(st, failing, k) == ThreadState(st.arrivals, st.live[..k] + Without(st.live[k..], failing),
                                              st.removed + gone, st.connections - |gone|)
    decreases |st.live| - k
  {
    if k < |st.live| {
      FilterRest(st.live, k, failing);
      if st.live[k] in failing {
        var next := PrunedOne(st, k);
        PruneEachFrom(next, failing, k);
        assert next.live[..k] == st.live[..k] && next.live[k..] == st.live[k + 1..];
        Associate(st.removed, [st.live[k]], Within(st.live[k + 1..], failing));
      } else {
        PruneEachFrom(st, failing, k + 1);
        assert st.live[..k + 1] == st.live[..k] + [st.live[k]];
        Associate(st.live[..k], [st.live[k]], Without(st.live[k + 1..], failing));
      }
    } else {
      assert st.live[..k] + Without(st.live[k..], failing) == st.live;
    }
  }

  lemma PruneIsStepwise<T>(st: ThreadState<T>, failing: set<T>)
    ensures PruneEach(st, failing, 0) == Pruned(st, failing)
  {
    PruneEachFrom(st, failing, 0);
    assert st.live[0..] == st.live;
  }

  /** Hence a pass of AddSockets keeps the accounts, whichever sockets are shut. */
  lemma {:induction false} AbsorbAccounts<T>(st: ThreadState<T>, added: seq<T>, shut: set<T>)
    requires Accounts(st, added)
    ensures Accounts(Absorbed(st, shut), added)
    decreases |st.arrivals|
  {
    AbsorbIsStepwise(st, shut);
    if st.arrivals != [] {
      var next := AbsorbedOne(st, st.arrivals[0] !in shut);
      AbsorbOneAccounts(st, added, st.arrivals[0] !in shut);
      AbsorbIsStepwise(next, shut);
      AbsorbAccounts(next, added, shut);
    }
  }

  lemma {:induction false} PruneAccounts<T>(st: ThreadState<T>, added: seq<T>, failing: set<T>, k: nat)
    requires Accounts(st, added) && k <= |st.live|
    ensures Accounts(PruneEach(st, failing, k), added)
    decreases |st.live| - k
  {
    if k < |st.live| {
      if st.live[k] in failing {
        PruneOneAccounts(st, added, k);
        PruneAccounts(PrunedOne(st, k), added, failing, k);
      } else {
        PruneAccounts(st, added, failing, k + 1);
      }
    }
  }

  lemma EraseAccounts<T>(st: ThreadState<T>, added: seq<T>, failing: set<T>)
    requires Accounts(st, added)
    ensures Accounts(Pruned(st, failing), added)
  {
    PruneIsStepwise(st, failing);
    PruneAccounts(st, added, failing, 0);
  }

  /** A whole tick keeps the accounts. What is left is, in order, what was live and then what was waiting
      and open, less those that fail their Update; nothing else makes a live socket leave. */
  lemma TickAccounts<T>(st: ThreadState<T>, added: seq<T>, shut: set<T>, failing: set<T>)
    requires Accounts(st, added)
    ensures var st' := Pruned(Absorbed(st, shut), failing);
      && Accounts(st', added)
      && st'.arrivals == []
      && st'.live == Without(st.live, failing) + Without(Without(st.arrivals, shut), failing)
  {
    AbsorbAccounts(st, added, shut);
    EraseAccounts(Absorbed(st, shut), added, failing);
    WithoutConcat(st.live, Without(st.arrivals, shut), failing);
  }

  // ---- the objects ----

  class Socket {
    var closed: bool
    var closing: bool

    constructor ()
      ensures !closed && !closing && IsOpen()
    {
      closed, closing := false, false;
    }

    predicate IsOpen()
      reads this
    {
      !closed && !closing
    }

    /** The base class's own; the program's session classes override it with one that never fails. */
    method Update() returns (alive: bool)
      ensures alive == !closed
    {
      alive := !closed;
    }

    method Close()
      modifies this`closed
      ensures closed && !IsOpen()
    {
      closed := true;
    }

    method DelayedClose()
      modifies this`closing
      ensures closing && !IsOpen()
    {
      closing := true;
    }
  }

  ghost function Shut(sockets: seq<Socket>): set<Socket>
    reads sockets
  {
    set s | s in sockets && !s.IsOpen()
  }

  class NetworkThread {
    var freshList: seq<Socket>
    var socketList: seq<Socket>
    var removedLog: seq<Socket>
    var connections: int
    var stopped: bool
    ghost var added: seq<Socket>  // every socket ever handed to AddSocket

    function View(): ThreadState<Socket>
      reads this
    {
      ThreadState(freshList, socketList, removedLog, connections)
    }

    ghost predicate Valid()
      reads this
    {
      Accounts(View(), added)
    }

    constructor ()
      ensures Valid() && added == []
      ensures View() == ThreadState([], [], [], 0) && !stopped
    {
      freshList, socketList, removedLog, connections, stopped, added := [], [], [], 0, false, [];
    }

    method GetConnectionCount() returns (count: int)
      ensures count == connections
    {
      count := connections;
    }

    method AddSocket(socket: Socket)
      requires Valid() && socket !in added
      modifies this
      ensures Valid() && added == old(added) + [socket]
      ensures View() == Added(old(View()), socket) && stopped == old(stopped)
    {
      AddAccounts(View(), added, socket);
      connections := connections + 1;
      freshList := freshList + [socket];
      added := added + [socket];
      assert View() == Added(old(View()), socket);
    }

    method AddSockets()
      requires Valid()
      modifies this
      ensures Valid() && added == old(added) && stopped == old(stopped)
      ensures View() == Absorbed(old(View()), Shut(old(freshList)))
    {
      AbsorbAccounts(View(), added, Shut(freshList));
      AbsorbFresh();
    }

    /** The body of AddSockets. */
    method AbsorbFresh()
      modifies this`freshList, this`socketList, this`removedLog, this`connections
      ensures View() == Absorbed(old(View()), Shut(old(freshList)))
    {
      if freshList == [] {
        assert Without(freshList, Shut(freshList)) == [];
        return;
      }
      ghost var shut := Shut(freshList);
      for i := 0 to |freshList|
        invariant freshList == old(freshList) && shut == Shut(freshList)
        invariant socketList == old(socketList) + Without(freshList[..i], shut)
        invariant removedLog == old(removedLog) + Within(freshList[..i], shut)
        invariant connections == old(connections) - |Within(freshList[..i], shut)|
      {
        var socket := freshList[i];
        FilterNext(freshList, i, shut);
        if socket.IsOpen() {
          socketList := socketList + [socket];
        } else {
          connections := connections - 1;
          removedLog := removedLog + [socket];
        }
      }
      assert freshList[..|freshList|] == freshList;
      freshList := [];
    }

    /** One timer tick: the waiting sockets are absorbed, then the live ones whose Update fails erased.
        Which ones fail is up to the socket class: the closed ones for the base class, none for the
        session classes of this program. */
    method Update(failing: set<Socket>)
      requires Valid()
      modifies this, failing
      ensures Valid() && added == old(added) && stopped == old(stopped)
      ensures old(stopped) ==> View() == old(View())
      ensures !old(stopped) ==>
        var absorbed := Absorbed(old(View()), old(Shut(freshList)));
        && View() == Pruned(absorbed, failing)
        && forall s :: s in absorbed.live && s in failing ==> !s.IsOpen()
    {
      if stopped { return; }
      AddSockets();
      EraseFailing(failing);
    }

    method EraseFailing(failing: set<Socket>)
      requires Valid()
      modifies this, failing
      ensures Valid() && added == old(added) && stopped == old(stopped)
      ensures View() == Pruned(old(View()), failing)
      ensures forall s :: s in old(socketList) && s in failing ==> !s.IsOpen()
    {
      EraseAccounts(View(), added, failing);
      RemoveFailing(failing);
    }

    /** The remove_if of Update: a socket that fails is closed if it still counts as open. */
    method RemoveFailing(failing: set<Socket>)
      modifies this`socketList, this`removedLog, this`connections, failing
      ensures View() == Pruned(old(View()), failing)
      ensures forall s :: s in old(socketList) && s in failing ==> !s.IsOpen()
      ensures forall s <- failing :: s.closing == old(s.closing) && (old(s.closed) ==> s.closed)
    {
      var kept := [];
      for i := 0 to |socketList|
        invariant socketList == old(socketList)
        invariant kept == Without(socketList[..i], failing)
        invariant removedLog == old(removedLog) + Within(socketList[..i], failing)
        invariant connections == old(connections) - |Within(socketList[..i], failing)|
        invariant forall k :: 0 <= k < i && socketList[k] in failing ==> !socketList[k].IsOpen()
        invariant forall s <- failing :: s.closing == old(s.closing) && (old(s.closed) ==> s.closed)
      {
        var socket := socketList[i];
        FilterNext(socketList, i, failing);
        if socket in failing {
          if socket.IsOpen() {
            socket.Close();
          }
          removedLog := removedLog + [socket];
          connections := connections - 1;
        } else {
          kept := kept + [socket];
        }
      }
      assert socketList[..|socketList|] == socketList;
      socketList := kept;
    }
  }
}
