/** The fork-per-client accept loop (http_server.cc, https_server.cc) as a state machine: one parent,
    any number of children, each with its own descriptor table, their steps interleaved freely. */
module AcceptLoop {
  import opened Descriptors

  // Where the parent stands: in accept, holding a fresh client, or past fork with the client still in scope.
  datatype ParentPc = Accepting | Holding(fd: Fd, sock: Sock) | Leaving(fd: Fd, sock: Sock)

  datatype ChildPc = Forked | ListenerClosed | Serving | Finished

  // client is the descriptor field of the object inherited from the parent, conn that of the connection.
  datatype Child = Child(proc: Proc, pc: ChildPc, client: Fd, conn: Fd, sock: Sock)

  datatype State = State(parent: Proc, pc: ParentPc, children: map<nat, Child>, nextSock: Sock)

  datatype Event =
    | AcceptOk(fd: Fd)
    | AcceptFail
    | HandshakeFail
    | ForkOk(pid: nat)
    | ForkFail
    | LeaveScope
    | ChildClosesListener(pid: nat)
    | ChildConstructs(pid: nat)
    | ChildDestroys(pid: nat)
    | ChildExits(pid: nat)
    | ChildKilled(pid: nat)

  predicate Enabled(s: State, e: Event) {
    match e
    case AcceptOk(fd) => s.pc.Accepting? && fd >= 0 && fd !in s.parent.table
    case AcceptFail => s.pc.Accepting?
    case HandshakeFail => s.pc.Holding?
    case ForkOk(pid) => s.pc.Holding? && pid !in s.children
    case ForkFail => s.pc.Holding?
    case LeaveScope => s.pc.Leaving?
    case ChildClosesListener(pid) => pid in s.children && s.children[pid].pc == Forked
    case ChildConstructs(pid) => pid in s.children && s.children[pid].pc == ListenerClosed
    case ChildDestroys(pid) => pid in s.children && s.children[pid].pc == Serving
    case ChildExits(pid) => pid in s.children && s.children[pid].pc == Finished
    case ChildKilled(pid) => pid in s.children
  }

  function Step(s: State, e: Event, listener: Fd): State
    requires Enabled(s, e)
  {
    match e
    case AcceptOk(fd) =>
      s.(parent := s.parent.(table := s.parent.table[fd := s.nextSock]),
         pc := Holding(fd, s.nextSock), nextSock := s.nextSock + 1)
    case AcceptFail => s.(parent := Destroyed(s.parent, INVALID_SOCKET))
    case HandshakeFail => s.(parent := Destroyed(s.parent, s.pc.fd), pc := Accepting)
    case ForkOk(pid) =>
      s.(children := s.children[pid := Child(s.parent, Forked, s.pc.fd, INVALID_SOCKET, s.pc.sock)],
         pc := Leaving(s.pc.fd, s.pc.sock))
    case ForkFail => s.(pc := Leaving(s.pc.fd, s.pc.sock))
    case LeaveScope => s.(parent := Destroyed(s.parent, s.pc.fd), pc := Accepting)
    case ChildClosesListener(pid) =>
      var c := s.children[pid];
      s.(children := s.children[pid := c.(proc := Close(c.proc, listener), pc := ListenerClosed)])
    case ChildConstructs(pid) =>
      var c := s.children[pid];
      s.(children := s.children[pid := c.(conn := c.client, pc := Serving)])
    case ChildDestroys(pid) =>
      var c := s.children[pid];
      s.(children := s.children[pid := c.(proc := ConnectionDestroyed(c.proc, c.conn), pc := Finished)])
    case ChildExits(pid) => s.(children := s.children - {pid})
    case ChildKilled(pid) => s.(children := s.children - {pid})
  }

  ghost predicate Runs(s: State, events: seq<Event>, t: State, listener: Fd)
    decreases |events|
  {
    if events == [] then s == t
    else Enabled(s, events[0]) && Runs(Step(s, events[0], listener), events[1..], t, listener)
  }

  // The server as clientIntakeCycle is entered, with the descriptors it already has.
  function Start(base: map<Fd, Sock>, nextSock: Sock): State {
    State(Proc(base, 0), Accepting, map[], nextSock)
  }

  ghost predicate Fresh(base: map<Fd, Sock>, listener: Fd, nextSock: Sock) {
    listener in base && forall fd :: fd in base ==> base[fd] < nextSock
  }

  // ----- the invariant -----

  // The number at which a client can be left behind: the destructor takes descriptor 0 for an empty slot.
  function Spare(base: map<Fd, Sock>): set<Fd> {
    if 0 in base then {} else {0}
  }

  // Leaving the spare number aside, a table that holds the given client and otherwise what there was before.
  ghost predicate HasClient(table: map<Fd, Sock>, rest: map<Fd, Sock>, spare: set<Fd>, fd: Fd, sock: Sock) {
    fd in table && table[fd] == sock && table - spare - {fd} == rest
  }

  ghost predicate ParentOk(s: State, base: map<Fd, Sock>, first: Sock) {
    s.parent.badCloses == 0 && first <= s.nextSock &&
    match s.pc
    case Accepting => s.parent.table - Spare(base) == base
    case Holding(fd, sock) => HoldsOk(s, base, first, fd, sock)
    case Leaving(fd, sock) => HoldsOk(s, base, first, fd, sock)
  }

  ghost predicate HoldsOk(s: State, base: map<Fd, Sock>, first: Sock, fd: Fd, sock: Sock) {
    fd >= 0 && fd !in base && HasClient(s.parent.table, base, Spare(base), fd, sock) && first <= sock < s.nextSock
  }

  ghost predicate ChildOk(c: Child, base: map<Fd, Sock>, listener: Fd, first: Sock, next: Sock) {
    c.proc.badCloses == 0 && first <= c.sock < next && c.client >= 0 && c.client !in base &&
    match c.pc
    case Forked => HasClient(c.proc.table, base, Spare(base), c.client, c.sock)
    case ListenerClosed => HasClient(c.proc.table, base - {listener}, Spare(base), c.client, c.sock)
    case Serving => HasClient(c.proc.table, base - {listener}, Spare(base), c.client, c.sock) && c.conn == c.client
    case Finished => c.proc.table - Spare(base) == base - {listener} && (c.client > 0 ==> c.client !in c.proc.table)
  }

  // Nobody but its own child, and the parent while it holds it, has a client's socket for a client.
  ghost predicate SocksApart(s: State) {
    && (forall p, q :: p in s.children && q in s.children && p != q ==> s.children[p].sock != s.children[q].sock)
    && (s.pc.Holding? ==> forall p :: p in s.children ==> s.children[p].sock != s.pc.sock)
  }

  ghost predicate Inv(s: State, base: map<Fd, Sock>, listener: Fd, first: Sock) {
    && ParentOk(s, base, first)
    && (forall pid :: pid in s.children ==> ChildOk(s.children[pid], base, listener, first, s.nextSock))
    && SocksApart(s)
  }

  lemma InvStep(s: State, e: Event, base: map<Fd, Sock>, listener: Fd, first: Sock)
    requires Fresh(base, listener, first) && Inv(s, base, listener, first) && Enabled(s, e)
    ensures Inv(Step(s, e, listener), base, listener, first)
  {
    match e {
      case AcceptOk(fd) => TakesClient(s.parent.table, base, Spare(base), fd, s.nextSock);
      case AcceptFail =>
      case HandshakeFail => GivesBack(s.parent, base, base, s.pc.fd, s.pc.sock);
      case LeaveScope => GivesBack(s.parent, base, base, s.pc.fd, s.pc.sock);
      case ForkOk(pid) =>
      case ForkFail =>
      case ChildClosesListener(pid) =>
        var c := s.children[pid];
        WithoutListener(c.proc.table, base, Spare(base), listener, c.client, c.sock);
      case ChildConstructs(pid) =>
      case ChildDestroys(pid) =>
        var c := s.children[pid];
        ConnectionClosesOnce(c.proc, c.conn);
        GivesBack(c.proc, base, base - {listener}, c.client, c.sock);
      case ChildExits(pid) =>
      case ChildKilled(pid) =>
    }
  }

  lemma TakesClient(table: map<Fd, Sock>, base: map<Fd, Sock>, spare: set<Fd>, fd: Fd, sock: Sock)
    requires fd !in table && table - spare == base
    ensures HasClient(table[fd := sock], base, spare, fd, sock) && fd !in base
  {
    assert table[fd := sock] - spare - {fd} == table - spare;
  }

  lemma WithoutListener(table: map<Fd, Sock>, base: map<Fd, Sock>, spare: set<Fd>, listener: Fd, fd: Fd, sock: Sock)
    requires HasClient(table, base, spare, fd, sock) && listener in base && fd !in base
    ensures listener in table && HasClient(table - {listener}, base - {listener}, spare, fd, sock)
  {
    assert listener in table - spare - {fd};
    assert table - {listener} - spare - {fd} == table - spare - {fd} - {listener};
  }

  // The destructor closes the client, or leaves it behind on the spare number.
  lemma GivesBack(p: Proc, base: map<Fd, Sock>, rest: map<Fd, Sock>, fd: Fd, sock: Sock)
    requires fd >= 0 && fd !in base && HasClient(p.table, rest, Spare(base), fd, sock)
    ensures var q := Destroyed(p, fd);
            q.badCloses == p.badCloses && q.table - Spare(base) == rest && (fd > 0 ==> fd !in q.table)
  {
    if fd > 0 {
      assert p.table - {fd} - Spare(base) == p.table - Spare(base) - {fd};
    } else {
      assert p.table - Spare(base) - {fd} == p.table - Spare(base);
    }
  }

  /** The invariant holds in every state of every run, for every table that the server starts with. */
  lemma {:induction false} InvRuns(s: State, events: seq<Event>, t: State,
                                    base: map<Fd, Sock>, listener: Fd, first: Sock)
    requires Fresh(base, listener, first) && Inv(s, base, listener, first) && Runs(s, events, t, listener)
    ensures Inv(t, base, listener, first)
    decreases |events|
  {
    if events != [] {
      InvStep(s, events[0], base, listener, first);
      InvRuns(Step(s, events[0], listener), events[1..], t, base, listener, first);
    }
  }

  lemma StartOk(base: map<Fd, Sock>, listener: Fd, first: Sock)
    requires Fresh(base, listener, first)
    ensures Inv(Start(base, first), base, listener, first)
  {
    assert base - Spare(base) == base;
  }

  // ----- what it means -----

  // A process has a client's socket open, at a number other than the spare one.
  ghost predicate OpenElsewhere(p: Proc, base: map<Fd, Sock>, sock: Sock) {
    exists fd :: fd in p.table && p.table[fd] == sock && fd !in Spare(base)
  }

  ghost predicate Open(p: Proc, sock: Sock) {
    exists fd :: fd in p.table && p.table[fd] == sock
  }

  ghost predicate OpenSomewhere(s: State, sock: Sock) {
    Open(s.parent, sock) || exists pid :: pid in s.children && Open(s.children[pid].proc, sock)
  }

  // The parent iteration of a client is over, and so is the work of its child.
  ghost predicate ClientDone(s: State, sock: Sock) {
    && (s.pc.Accepting? || s.pc.sock != sock)
    && (forall pid :: pid in s.children && s.children[pid].sock == sock ==> s.children[pid].pc == Finished)
  }

  /** Descriptor safety over all interleavings, whatever the server starts with: no process ever closes what it
      does not have; and all that can be left behind, in the parent between iterations, in a child of another
      client or anywhere once a client is done, is one socket on descriptor 0, if that was free at the start. */
  lemma DescriptorSafety(base: map<Fd, Sock>, listener: Fd, first: Sock, events: seq<Event>, t: State)
    requires Fresh(base, listener, first) && Runs(Start(base, first), events, t, listener)
    ensures t.parent.badCloses == 0 && forall pid :: pid in t.children ==> t.children[pid].proc.badCloses == 0
    ensures t.pc.Accepting? ==> t.parent.table - Spare(base) == base
    ensures forall pid, sock :: pid in t.children && sock >= first && OpenElsewhere(t.children[pid].proc, base, sock)
              ==> sock == t.children[pid].sock
    ensures forall sock :: sock >= first && ClientDone(t, sock) ==>
              !OpenElsewhere(t.parent, base, sock) &&
              forall pid :: pid in t.children ==> !OpenElsewhere(t.children[pid].proc, base, sock)
  {
    StartOk(base, listener, first);
    InvRuns(Start(base, first), events, t, base, listener, first);
    forall pid, sock | pid in t.children && sock >= first && OpenElsewhere(t.children[pid].proc, base, sock)
      ensures sock == t.children[pid].sock && t.children[pid].pc != Finished
    {
      var c := t.children[pid];
      ChildHasOnlyItsOwn(c, base, listener, first, t.nextSock, sock);
    }
    forall sock | sock >= first && OpenElsewhere(t.parent, base, sock)
      ensures !t.pc.Accepting? && t.pc.sock == sock
    {
      ParentHasOnlyItsClient(t, base, listener, first, sock);
    }
  }

  lemma ChildHasOnlyItsOwn(c: Child, base: map<Fd, Sock>, listener: Fd, first: Sock, next: Sock, sock: Sock)
    requires ChildOk(c, base, listener, first, next) && Fresh(base, listener, first)
    requires sock >= first && OpenElsewhere(c.proc, base, sock)
    ensures sock == c.sock && c.pc != Finished
  {
    var fd :| fd in c.proc.table && c.proc.table[fd] == sock && fd !in Spare(base);
    if c.pc == Finished {
      RestIsOld(c.proc.table, Spare(base), base - {listener}, first, fd);
    } else if fd != c.client {
      MinusBoth(c.proc.table, Spare(base), c.client);
      RestIsOld(c.proc.table, Spare(base) + {c.client}, if c.pc == Forked then base else base - {listener}, first, fd);
    }
  }

  lemma ParentHasOnlyItsClient(s: State, base: map<Fd, Sock>, listener: Fd, first: Sock, sock: Sock)
    requires ParentOk(s, base, first) && Fresh(base, listener, first)
    requires sock >= first && OpenElsewhere(s.parent, base, sock)
    ensures !s.pc.Accepting? && s.pc.sock == sock
  {
    var fd :| fd in s.parent.table && s.parent.table[fd] == sock && fd !in Spare(base);
    if s.pc.Accepting? {
      RestIsOld(s.parent.table, Spare(base), base, first, fd);
    } else if fd != s.pc.fd {
      MinusBoth(s.parent.table, Spare(base), s.pc.fd);
      RestIsOld(s.parent.table, Spare(base) + {s.pc.fd}, base, first, fd);
    }
  }

  // What is left of a table without its client numbers was there at the start.
  lemma RestIsOld(table: map<Fd, Sock>, gone: set<Fd>, rest: map<Fd, Sock>, first: Sock, fd: Fd)
    requires table - gone == rest && forall n :: n in rest ==> rest[n] < first
    requires fd in table && fd !in gone
    ensures table[fd] < first
  {
    assert rest[fd] == table[fd];
  }

  lemma MinusBoth(table: map<Fd, Sock>, gone: set<Fd>, fd: Fd)
    ensures table - gone - {fd} == table - (gone + {fd})
  {
  }

  /** A child must leave by _exit: the object that its connection was moved from still names the closed
      descriptor, so destroying it as well would close that number a second time, unless it is 0. */
  lemma UnwindingWouldCloseTwice(base: map<Fd, Sock>, listener: Fd, first: Sock, events: seq<Event>, t: State, pid: nat)
    requires Fresh(base, listener, first) && Runs(Start(base, first), events, t, listener)
    requires pid in t.children && t.children[pid].pc == Finished
    ensures Destroyed(t.children[pid].proc, t.children[pid].client).badCloses ==
            if t.children[pid].client > 0 then 1 else 0
  {
    StartOk(base, listener, first);
    InvRuns(Start(base, first), events, t, base, listener, first);
  }

  /** Back in accept, the parent has exactly what it began with if and only if no client of the run was
      accepted on descriptor 0. */
  lemma LeaksIff(base: map<Fd, Sock>, listener: Fd, first: Sock, events: seq<Event>, t: State)
    requires Fresh(base, listener, first) && Runs(Start(base, first), events, t, listener) && t.pc.Accepting?
    ensures t.parent.table == base <==> AcceptOk(0) !in events
  {
    DescriptorSafety(base, listener, first, events, t);
    ZeroStays(Start(base, first), events, t, base, listener, first);
    if 0 in base {
      assert t.parent.table - Spare(base) == t.parent.table;
    } else if 0 !in t.parent.table {
      assert t.parent.table - {0} == t.parent.table;
    }
  }

  // Nothing closes descriptor 0 in the parent.
  lemma {:induction false} ZeroStays(s: State, events: seq<Event>, t: State,
                                      base: map<Fd, Sock>, listener: Fd, first: Sock)
    requires Fresh(base, listener, first) && Inv(s, base, listener, first) && Runs(s, events, t, listener)
    ensures 0 in t.parent.table <==> 0 in s.parent.table || AcceptOk(0) in events
    ensures 0 in base ==> AcceptOk(0) !in events
    decreases |events|
  {
    if events != [] {
      var u := Step(s, events[0], listener);
      InvStep(s, events[0], base, listener, first);
      ZeroStays(u, events[1..], t, base, listener, first);
      assert AcceptOk(0) in events <==> events[0] == AcceptOk(0) || AcceptOk(0) in events[1..];
    }
  }

  /** What every child has open, apart from the spare number: its own client until its connection is destroyed, the
      listener until it closes it, and everything else the server started with. */
  lemma ChildTable(base: map<Fd, Sock>, listener: Fd, first: Sock, events: seq<Event>, t: State, pid: nat, fd: Fd)
    requires Fresh(base, listener, first) && Runs(Start(base, first), events, t, listener)
    requires pid in t.children && fd !in Spare(base)
    ensures var c := t.children[pid];
            fd in c.proc.table <==>
            if fd == c.client then c.pc != Finished
            else if fd == listener then c.pc == Forked
            else fd in base
    ensures var c := t.children[pid];
            fd in c.proc.table ==> c.proc.table[fd] == if fd == c.client then c.sock else base[fd]
  {
    StartOk(base, listener, first);
    InvRuns(Start(base, first), events, t, base, listener, first);
    var c := t.children[pid];
    if c.pc == Finished {
      assert fd in c.proc.table <==> fd in c.proc.table - Spare(base);
    } else {
      assert fd != c.client ==> (fd in c.proc.table <==> fd in c.proc.table - Spare(base) - {c.client});
    }
  }

  // The child whose own step an event is.
  function Whose(e: Event): (pid: nat)
    requires OfChild(e)
  {
    match e
    case ChildClosesListener(pid) => pid
    case ChildConstructs(pid) => pid
    case ChildDestroys(pid) => pid
    case ChildExits(pid) => pid
    case ChildKilled(pid) => pid
  }

  predicate OfChild(e: Event) {
    e.ChildClosesListener? || e.ChildConstructs? || e.ChildDestroys? || e.ChildExits? || e.ChildKilled?
  }

  /** Processes do not touch each other: a child's step changes neither the parent nor any other child, a step of the
      parent changes no child, and children come and go only by fork, exit and kill. */
  lemma StepsApart(s: State, e: Event, listener: Fd, q: nat)
    requires Enabled(s, e)
    ensures var t := Step(s, e, listener);
            (OfChild(e) ==> t.parent == s.parent && t.pc == s.pc && t.nextSock == s.nextSock) &&
            (q in s.children && !(OfChild(e) && Whose(e) == q) ==> q in t.children && t.children[q] == s.children[q]) &&
            (q in t.children <==>
               e == ForkOk(q) || (q in s.children && e != ChildExits(q) && e != ChildKilled(q))) &&
            (e == ForkOk(q) ==>
               t.children[q] == Child(s.parent, Forked, s.pc.fd, -1, s.pc.sock) && t.parent == s.parent)
  {
  }

  /** The iteration of the parent: an accepted client is held under its own number; a failed handshake, or the end of
      the scope after fork, gives it back and returns to accept; and nothing else touches the table. */
  lemma ParentSteps(s: State, e: Event, listener: Fd)
    requires Enabled(s, e) && (!s.pc.Accepting? ==> s.pc.fd in s.parent.table)
    ensures var t := Step(s, e, listener);
            (e.AcceptOk? ==>
               t.pc == Holding(e.fd, s.nextSock) && t.parent.table == s.parent.table[e.fd := s.nextSock]) &&
            (e.AcceptFail? ==> t.pc == Accepting && t.parent.table == s.parent.table) &&
            (e.ForkOk? || e.ForkFail? ==> t.pc == Leaving(s.pc.fd, s.pc.sock) && t.parent.table == s.parent.table) &&
            (e.HandshakeFail? || e.LeaveScope? ==>
               t.pc == Accepting &&
               t.parent.table == if s.pc.fd > 0 then s.parent.table - {s.pc.fd} else s.parent.table)
    ensures Step(s, e, listener).parent.badCloses == s.parent.badCloses
  {
  }

  // ----- what holds in every run, exactly when descriptor 0 is in use from the start -----

  ghost predicate NeverLeaks(base: map<Fd, Sock>, listener: Fd, first: Sock) {
    forall events: seq<Event>, t: State {:trigger Runs(Start(base, first), events, t, listener)} ::
      Runs(Start(base, first), events, t, listener) && t.pc.Accepting? ==> t.parent.table == base
  }

  ghost predicate NoForeignClient(base: map<Fd, Sock>, listener: Fd, first: Sock) {
    forall events: seq<Event>, t: State {:trigger Runs(Start(base, first), events, t, listener)} ::
      Runs(Start(base, first), events, t, listener) ==>
        forall pid, sock :: pid in t.children && sock >= first && Open(t.children[pid].proc, sock)
          ==> sock == t.children[pid].sock
  }

  ghost predicate DoneMeansClosed(base: map<Fd, Sock>, listener: Fd, first: Sock) {
    forall events: seq<Event>, t: State {:trigger Runs(Start(base, first), events, t, listener)} ::
      Runs(Start(base, first), events, t, listener) ==>
        forall sock :: sock >= first && ClientDone(t, sock) ==> !OpenSomewhere(t, sock)
  }

  /** The parent gives every client descriptor back in every run exactly when descriptor 0 is in use from
      the start. */
  lemma NeverLeaksIff(base: map<Fd, Sock>, listener: Fd, first: Sock)
    requires Fresh(base, listener, first)
    ensures NeverLeaks(base, listener, first) <==> 0 in base
  {
    if 0 in base {
      forall events: seq<Event>, t: State {:trigger Runs(Start(base, first), events, t, listener)} |
        Runs(Start(base, first), events, t, listener) && t.pc.Accepting?
        ensures t.parent.table == base
      {
        DescriptorSafety(base, listener, first, events, t);
        assert t.parent.table - Spare(base) == t.parent.table;
      }
    } else {
      var t := LeavesBehind(base, listener, first);
    }
  }

  /** No child ever has another client's socket, in any run, exactly under the same condition. */
  lemma NoForeignClientIff(base: map<Fd, Sock>, listener: Fd, first: Sock)
    requires Fresh(base, listener, first)
    ensures NoForeignClient(base, listener, first) <==> 0 in base
  {
    if 0 in base {
      forall events: seq<Event>, t: State {:trigger Runs(Start(base, first), events, t, listener)} |
        Runs(Start(base, first), events, t, listener)
        ensures forall pid, sock :: pid in t.children && sock >= first && Open(t.children[pid].proc, sock)
                  ==> sock == t.children[pid].sock
      {
        DescriptorSafety(base, listener, first, events, t);
        forall pid, sock | pid in t.children && Open(t.children[pid].proc, sock)
          ensures OpenElsewhere(t.children[pid].proc, base, sock) {
        }
      }
    } else {
      ForeignRun(base, listener, first);
    }
  }

  /** A client that is done is open nowhere, in any run, exactly under the same condition. */
  lemma DoneMeansClosedIff(base: map<Fd, Sock>, listener: Fd, first: Sock)
    requires Fresh(base, listener, first)
    ensures DoneMeansClosed(base, listener, first) <==> 0 in base
  {
    if 0 in base {
      forall events: seq<Event>, t: State {:trigger Runs(Start(base, first), events, t, listener)} |
        Runs(Start(base, first), events, t, listener)
        ensures forall sock :: sock >= first && ClientDone(t, sock) ==> !OpenSomewhere(t, sock)
      {
        DescriptorSafety(base, listener, first, events, t);
        forall p: Proc, sock | Open(p, sock) ensures OpenElsewhere(p, base, sock) {
        }
      }
    } else {
      var t := LeavesBehind(base, listener, first);
      assert t.parent.table[0] == first && Open(t.parent, first) && ClientDone(t, first);
    }
  }

  lemma {:induction false} RunsSnoc(s: State, events: seq<Event>, t: State, e: Event, listener: Fd)
    requires Runs(s, events, t, listener) && Enabled(t, e)
    ensures Runs(s, events + [e], Step(t, e, listener), listener)
    decreases |events|
  {
    assert (events + [e])[0] == if events == [] then e else events[0];
    if events == [] {
      assert (events + [e])[1..] == [];
    } else {
      RunsSnoc(Step(s, events[0], listener), events[1..], t, e, listener);
      assert (events + [e])[1..] == events[1..] + [e];
    }
  }

  const LEAK: seq<Event> := [] + [AcceptOk(0)] + [ForkFail] + [LeaveScope]

  // The leaking run: a client on descriptor 0 and the end of its iteration.
  lemma LeavesBehind(base: map<Fd, Sock>, listener: Fd, first: Sock) returns (t: State)
    requires 0 !in base
    ensures Runs(Start(base, first), LEAK, t, listener)
    ensures t == State(Proc(base[0 := first], 0), Accepting, map[], first + 1)
  {
    var s := Start(base, first);
    RunsSnoc(s, [], s, AcceptOk(0), listener);
    var a := Step(s, AcceptOk(0), listener);
    RunsSnoc(s, [] + [AcceptOk(0)], a, ForkFail, listener);
    var b := Step(a, ForkFail, listener);
    RunsSnoc(s, [] + [AcceptOk(0)] + [ForkFail], b, LeaveScope, listener);
    t := Step(b, LeaveScope, listener);
  }

  // The child forked for the next client inherits the one left behind.
  lemma ForeignRun(base: map<Fd, Sock>, listener: Fd, first: Sock)
    requires 0 !in base
    ensures !NoForeignClient(base, listener, first)
  {
    var s := Start(base, first);
    var t := LeavesBehind(base, listener, first);
    var fd := FreeNumber(t.parent.table.Keys);
    RunsSnoc(s, LEAK, t, AcceptOk(fd), listener);
    var a := Step(t, AcceptOk(fd), listener);
    RunsSnoc(s, LEAK + [AcceptOk(fd)], a, ForkOk(1), listener);
    var u := Step(a, ForkOk(1), listener);
    assert u.children[1].proc.table[0] == first && Open(u.children[1].proc, first);
    assert u.children[1].sock == first + 1;
  }

  lemma {:induction false} FreeNumber(used: set<Fd>) returns (fd: Fd)
    ensures fd > 0 && forall n :: n in used ==> n < fd
    decreases used
  {
    fd := 1;
    if n :| n in used {
      fd := FreeNumber(used - {n});
      assert forall m :: m in used ==> m == n || m in used - {n};
      fd := if n < fd then fd else n + 1;
    }
  }
}
