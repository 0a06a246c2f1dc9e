/** The UDP proxy's session table. A packet from a new remote opens an upstream socket
    between two locked regions, so two packets may race; idle cleanup and Close run at
    any time. Every socket ever opened is accounted for. */
module Sessions {
  import opened Common

  type Remote = int
  type Socket = int
  type CallerId = int

  datatype Session = Session(socket: Socket, lastSeen: int)

  /** A sessionFor call outside its locked regions. */
  datatype Caller =
    | Arriving(remote: Remote)                              // packet read, nothing looked up yet
    | Missed(remote: Remote)                                // no session found, no socket yet
    | Opened(remote: Remote, socket: Socket, openedAt: int) // about to take the lock again
    | Losing(socket: Socket)                                // somebody else was first

  /** listening: the shared socket is open, so packets still arrive. */
  datatype Table = Table(sessions: map<Remote, Session>, open: set<Socket>, closed: set<Socket>, listening: bool)

  datatype System = System(table: Table, callers: map<CallerId, Caller>)

  datatype Event =
    | Arrive(c: CallerId, remote: Remote)
    | Lookup(c: CallerId, now: int)
    | Listen(c: CallerId, socket: Socket, now: int)
    | ListenFails(c: CallerId)
    | Insert(c: CallerId)
    | CloseLoser(c: CallerId)
    | Seen(remote: Remote, socket: Socket, now: int)   // a reply passed through
    | Cleanup(cutoff: int)
    | DropAll         // the locked half of Close
    | StopListening   // the other half: the shared socket is closed

  // ------------------------------------------------------------ table operations

  function Idle(sessions: map<Remote, Session>, cutoff: int): set<Remote> {
    set r | r in sessions && sessions[r].lastSeen < cutoff
  }

  function SocketsOf(sessions: map<Remote, Session>, rs: set<Remote>): set<Socket> {
    set r | r in rs && r in sessions :: sessions[r].socket
  }

  function Closed(t: Table, sockets: set<Socket>): Table {
    t.(open := t.open - sockets, closed := t.closed + sockets)
  }

  /** Closes and forgets the sessions of the given remotes. */
  function Dropped(t: Table, rs: set<Remote>): Table {
    Closed(t, SocketsOf(t.sessions, rs)).(sessions := t.sessions - rs)
  }

  function Touched(t: Table, remote: Remote, now: int): Table
    requires remote in t.sessions
  {
    t.(sessions := t.sessions[remote := t.sessions[remote].(lastSeen := now)])
  }

  function Step(y: System, e: Event): System {
    match e
    case Arrive(c, remote) =>
      if c in y.callers || !y.table.listening then y else y.(callers := y.callers[c := Arriving(remote)])
    case Lookup(c, now) =>
      if c in y.callers && y.callers[c].Arriving? then
        var remote := y.callers[c].remote;
        if remote in y.table.sessions then System(Touched(y.table, remote, now), y.callers - {c})
        else y.(callers := y.callers[c := Missed(remote)])
      else y
    case Listen(c, socket, now) =>
      if c in y.callers && y.callers[c].Missed? && socket !in y.table.open + y.table.closed then
        System(y.table.(open := y.table.open + {socket}), y.callers[c := Opened(y.callers[c].remote, socket, now)])
      else y
    case ListenFails(c) =>
      if c in y.callers && y.callers[c].Missed? then y.(callers := y.callers - {c}) else y
    case Insert(c) =>
      if c in y.callers && y.callers[c].Opened? then
        var p := y.callers[c];
        if p.remote in y.table.sessions then y.(callers := y.callers[c := Losing(p.socket)])
        else System(y.table.(sessions := y.table.sessions[p.remote := Session(p.socket, p.openedAt)]), y.callers - {c})
      else y
    case CloseLoser(c) =>
      if c in y.callers && y.callers[c].Losing? then
        System(Closed(y.table, {y.callers[c].socket}), y.callers - {c})
      else y
    case Seen(remote, socket, now) =>
      if remote in y.table.sessions && y.table.sessions[remote].socket == socket then
        y.(table := Touched(y.table, remote, now))
      else y
    case Cleanup(cutoff) => y.(table := Dropped(y.table, Idle(y.table.sessions, cutoff)))
    case DropAll => y.(table := Dropped(y.table, y.table.sessions.Keys))
    case StopListening => y.(table := y.table.(listening := false))
  }

  function Run(y: System, events: seq<Event>): System {
    if events == [] then y else Step(Run(y, events[..|events| - 1]), events[|events| - 1])
  }

  // --------------------------------------------------------------- accounting

  predicate HasSocket(p: Caller) {
    p.Opened? || p.Losing?
  }

  function InTable(sessions: map<Remote, Session>): set<Socket> {
    set r | r in sessions :: sessions[r].socket
  }

  function InFlight(callers: map<CallerId, Caller>): set<Socket> {
    set c | c in callers && HasSocket(callers[c]) :: callers[c].socket
  }

  ghost predicate OneSessionEach(sessions: map<Remote, Session>) {
    forall r, r' :: r in sessions && r' in sessions && sessions[r].socket == sessions[r'].socket ==> r == r'
  }

  predicate Carries(callers: map<CallerId, Caller>, c: CallerId) {
    c in callers && HasSocket(callers[c])
  }

  ghost predicate OneCallerEach(callers: map<CallerId, Caller>) {
    forall c, c' ::
      Carries(callers, c) && Carries(callers, c') && callers[c].socket == callers[c'].socket ==> c == c'
  }

  /** The open sockets are exactly those in the table plus one per caller that is between
      its two locked regions with a socket; no socket is in two places, and nothing open
      has been closed. */
  ghost predicate Accounted(y: System) {
    && y.table.open == InTable(y.table.sessions) + InFlight(y.callers)
    && InTable(y.table.sessions) !! InFlight(y.callers)
    && OneSessionEach(y.table.sessions) && OneCallerEach(y.callers)
    && y.table.open !! y.table.closed
  }

  lemma TouchedSockets(t: Table, remote: Remote, now: int)
    requires remote in t.sessions
    ensures InTable(Touched(t, remote, now).sessions) == InTable(t.sessions)
    ensures OneSessionEach(t.sessions) ==> OneSessionEach(Touched(t, remote, now).sessions)
  {
    var sessions' := Touched(t, remote, now).sessions;
    assert forall r :: r in t.sessions ==> r in sessions' && sessions'[r].socket == t.sessions[r].socket;
  }

  lemma DroppedSockets(t: Table, rs: set<Remote>)
    requires OneSessionEach(t.sessions)
    ensures InTable(Dropped(t, rs).sessions) == InTable(t.sessions) - SocketsOf(t.sessions, rs)
    ensures SocketsOf(t.sessions, rs) <= InTable(t.sessions)
  {
    var rest := t.sessions - rs;
    forall s | s in InTable(t.sessions) - SocketsOf(t.sessions, rs)
      ensures s in InTable(rest)
    {
      var r :| r in t.sessions && t.sessions[r].socket == s;
      assert r in rest;
    }
  }

  lemma AddedSession(sessions: map<Remote, Session>, r: Remote, v: Session)
    requires r !in sessions
    ensures InTable(sessions[r := v]) == InTable(sessions) + {v.socket}
  {
    var sessions' := sessions[r := v];
    assert sessions'[r] == v;
    assert forall q :: q in sessions ==> q in sessions' && sessions'[q] == sessions[q];
  }

  lemma CallerAt(callers: map<CallerId, Caller>, c: CallerId, p: Caller)
    requires OneCallerEach(callers)
    ensures InFlight(callers[c := p]) ==
            InFlight(callers - {c}) + if HasSocket(p) then {p.socket} else {}
    ensures InFlight(callers - {c}) ==
            InFlight(callers) - if c in callers && HasSocket(callers[c]) then {callers[c].socket} else {}
  {
    var with, without := callers[c := p], callers - {c};
    assert with[c] == p;
    assert forall o :: o in without <==> o in callers && o != c;
    assert forall o :: o in without ==> without[o] == callers[o] && o in with && with[o] == callers[o];
    forall s | s in InFlight(without)
      ensures s in InFlight(callers) && (c in callers && HasSocket(callers[c]) ==> s != callers[c].socket)
    {
      var o :| o in without && HasSocket(without[o]) && without[o].socket == s;
    }
  }

  lemma StepAccounted(y: System, e: Event)
    requires Accounted(y)
    ensures Accounted(Step(y, e))
  {
    match e
    case Arrive(c, remote) => CallerAt(y.callers, c, Arriving(remote));
    case Lookup(c, now) =>
      if c in y.callers && y.callers[c].Arriving? {
        var remote := y.callers[c].remote;
        if remote in y.table.sessions {
          TouchedSockets(y.table, remote, now);
        }
        CallerAt(y.callers, c, Missed(remote));
      }
    case Listen(c, socket, now) =>
      if c in y.callers && y.callers[c].Missed? {
        CallerAt(y.callers, c, Opened(y.callers[c].remote, socket, now));
      }
    case ListenFails(c) => CallerAt(y.callers, c, Missed(0));
    case Insert(c) =>
      if c in y.callers && y.callers[c].Opened? {
        var p := y.callers[c];
        CallerAt(y.callers, c, Losing(p.socket));
        if p.remote !in y.table.sessions {
          AddedSession(y.table.sessions, p.remote, Session(p.socket, p.openedAt));
        }
      }
    case CloseLoser(c) => CallerAt(y.callers, c, Missed(0));
    case Seen(remote, _, now) =>
      if remote in y.table.sessions {
        TouchedSockets(y.table, remote, now);
      }
    case Cleanup(cutoff) => DroppedSockets(y.table, Idle(y.table.sessions, cutoff));
    case DropAll => DroppedSockets(y.table, y.table.sessions.Keys);
    case StopListening =>
  }

  /** No socket leak: in every interleaving of any number of callers with replies, idle
      cleanup and Close, the accounting holds. */
  lemma {:induction false} RunAccounted(y: System, events: seq<Event>)
    requires Accounted(y)
    ensures Accounted(Run(y, events))
  {
    if events != [] {
      RunAccounted(y, events[..|events| - 1]);
      StepAccounted(Run(y, events[..|events| - 1]), events[|events| - 1]);
    }
  }

  /** What the locked half of Close leaves open: exactly the sockets of callers still between their locked
      regions, so nothing exactly when there is no such caller. */
  lemma CloseLeavesInFlight(y: System)
    requires Accounted(y)
    ensures var y' := Step(y, DropAll);
            y'.table.open == InFlight(y.callers) && y'.table.sessions == map[]
    ensures Step(y, DropAll).table.open == {} <==> forall c :: c in y.callers ==> !HasSocket(y.callers[c])
  {
    DroppedSockets(y.table, y.table.sessions.Keys);
    var y' := Step(y, DropAll);
    assert SocketsOf(y.table.sessions, y.table.sessions.Keys) == InTable(y.table.sessions);
    if c :| c in y.callers && HasSocket(y.callers[c]) {
      assert y.callers[c].socket in InFlight(y.callers);
    }
  }

  /** Such a caller then puts its open socket into the closed service's table. */
  lemma LateInsertSurvivesClose(y: System, c: CallerId)
    requires Accounted(y) && c in y.callers && y.callers[c].Opened?
    ensures var y' := Step(Step(y, DropAll), Insert(c));
            var p := y.callers[c];
            p.remote in y'.table.sessions && y'.table.sessions[p.remote].socket == p.socket && p.socket in y'.table.open
  {
    CloseLeavesInFlight(y);
    assert y.callers[c].socket in InFlight(y.callers);
  }

  // -------------------------------------------------------------- after Close

  /** A caller that may still store a session. */
  predicate MayInsert(p: Caller) {
    p.Arriving? || p.Missed? || p.Opened?
  }

  ghost predicate NoneMayInsert(y: System) {
    forall c :: c in y.callers ==> !MayInsert(y.callers[c])
  }

  /** Nothing arrives any more, nothing is stored, and nobody is about to store. */
  ghost predicate Shut(y: System) {
    !y.table.listening && y.table.sessions == map[] && NoneMayInsert(y)
  }

  lemma {:induction false} ShutStaysShut(y: System, events: seq<Event>)
    requires Shut(y)
    ensures Shut(Run(y, events))
  {
    if events != [] {
      ShutStaysShut(y, events[..|events| - 1]);
    }
  }

  lemma RunSnoc(y: System, events: seq<Event>, e: Event)
    ensures Run(y, events + [e]) == Step(Run(y, events), e)
  {
    assert (events + [e])[..|events|] == events;
  }

  /** The service once the shared socket is closed. */
  ghost function Stopped(y: System): System {
    Step(y, StopListening)
  }

  ghost predicate Stores(y: System, r: Remote) {
    r in y.table.sessions && y.table.sessions[r].socket in y.table.open
  }

  /** A caller without a socket survives Close: it opens one afterwards and stores it in
      the closed service's table, although Close may have left nothing open. */
  lemma LateListenSurvivesClose(y: System, c: CallerId, now: int) returns (events: seq<Event>)
    requires c in y.callers && y.callers[c].Missed? && y.table.sessions == map[]
    ensures Stores(Run(Stopped(y), events), y.callers[c].remote)
  {
    var socket := NewNumber(y.table.open + y.table.closed);
    events := [] + [Listen(c, socket, now)] + [Insert(c)];
    RunSnoc(Stopped(y), [], Listen(c, socket, now));
    RunSnoc(Stopped(y), [] + [Listen(c, socket, now)], Insert(c));
  }

  /** So does a packet that the read loop has in hand. */
  lemma PacketInHandSurvivesClose(y: System, c: CallerId, now: int) returns (events: seq<Event>)
    requires c in y.callers && y.callers[c].Arriving? && y.table.sessions == map[]
    ensures Stores(Run(Stopped(y), events), y.callers[c].remote)
  {
    var socket := NewNumber(y.table.open + y.table.closed);
    var first := [] + [Lookup(c, now)];
    events := first + [Listen(c, socket, now)] + [Insert(c)];
    RunSnoc(Stopped(y), [], Lookup(c, now));
    RunSnoc(Stopped(y), first, Listen(c, socket, now));
    RunSnoc(Stopped(y), first + [Listen(c, socket, now)], Insert(c));
  }

  /** And so does a packet that arrives between the two halves of Close, even if nobody
      was about when Close began. */
  lemma ArrivalDuringClose(y: System, c: CallerId, remote: Remote, now: int) returns (events: seq<Event>)
    requires y.table.listening && c !in y.callers
    ensures Stores(Run(Stopped(Run(Step(y, DropAll), [] + [Arrive(c, remote)])), events), remote)
  {
    var dropped := Step(y, DropAll);
    RunSnoc(dropped, [], Arrive(c, remote));
    events := PacketInHandSurvivesClose(Run(dropped, [] + [Arrive(c, remote)]), c, now);
  }

  /** Whoever may still store a session does so in some continuation. */
  lemma SomeoneStores(y: System, c: CallerId) returns (events: seq<Event>)
    requires c in y.callers && MayInsert(y.callers[c]) && y.table.sessions == map[]
    ensures y.callers[c].remote in Run(Stopped(y), events).table.sessions
  {
    match y.callers[c]
    case Arriving(_) => events := PacketInHandSurvivesClose(y, c, 0);
    case Missed(_) => events := LateListenSurvivesClose(y, c, 0);
    case Opened(_, _, _) =>
      events := [] + [Insert(c)];
      RunSnoc(Stopped(y), [], Insert(c));
  }

  /** Close is final exactly if, when the shared socket is closed, the table is still empty,
      no packet is in hand and no caller between its two locked regions: only then does
      the table stay empty along every continuation. */
  lemma CloseIsFinalIff(y: System)
    ensures (forall events :: Run(Stopped(y), events).table.sessions == map[]) <==>
            y.table.sessions == map[] && NoneMayInsert(y)
  {
    if y.table.sessions != map[] {
      assert Run(Stopped(y), []).table.sessions == y.table.sessions;
    } else if NoneMayInsert(y) {
      forall events
        ensures Run(Stopped(y), events).table.sessions == map[]
      {
        ShutStaysShut(Stopped(y), events);
      }
    } else {
      var c :| c in y.callers && MayInsert(y.callers[c]);
      var events := SomeoneStores(y, c);
      assert Run(Stopped(y), events).table.sessions != map[];
    }
  }

  // ------------------------------------------------------------ the code itself

  /** The table under its mutex; each method is one locked region. `y` is the system the
      region runs in: this table and whatever callers there are. */
  class Service {
    var sessions: map<Remote, Session>
    var open: set<Socket>
    var closed: set<Socket>
    var listening: bool

    ghost function Abs(): Table
      reads this
    {
      Table(sessions, open, closed, listening)
    }

    method CloseSocket(s: Socket)
      modifies this`open, this`closed
      ensures Abs() == Closed(old(Abs()), {s})
    {
      open, closed := open - {s}, closed + {s};
    }

    /** First region of sessionFor. */
    method LookupSession(c: CallerId, remote: Remote, now: int, ghost y: System) returns (found: Option<Socket>)
      requires y.table == Abs() && c in y.callers && y.callers[c] == Arriving(remote)
      modifies this`sessions
      ensures Abs() == Step(y, Lookup(c, now)).table
      ensures found.Some? <==> remote in y.table.sessions
      ensures found.Some? ==> found.value == y.table.sessions[remote].socket
    {
      if remote in sessions {
        sessions := sessions[remote := sessions[remote].(lastSeen := now)];
        return Some(sessions[remote].socket);
      }
      return None;
    }

    /** Second region and what follows it: the session that now serves the remote, the
        caller's own, or another's with the caller's socket closed. */
    method InsertSession(c: CallerId, remote: Remote, socket: Socket, openedAt: int, ghost y: System)
      returns (serving: Socket)
      requires y.table == Abs() && c in y.callers && y.callers[c] == Opened(remote, socket, openedAt)
      modifies this
      ensures var y1 := Step(y, Insert(c));
              Abs() == (if c in y1.callers then Step(y1, CloseLoser(c)) else y1).table
      ensures remote in sessions && serving == sessions[remote].socket
    {
      if remote in sessions {
        CloseSocket(socket);
        return sessions[remote].socket;
      }
      sessions := sessions[remote := Session(socket, openedAt)];
      return socket;
    }

    /** Closes and deletes while ranging over the table, in any order. */
    method DropSessions(rs: set<Remote>)
      requires rs <= sessions.Keys
      modifies this`sessions, this`open, this`closed
      ensures Abs() == Dropped(old(Abs()), rs)
    {
      ghost var before := Abs();
      var todo := rs;
      while todo != {}
        invariant todo <= rs
        invariant Abs() == Dropped(before, rs - todo)
        decreases todo
      {
        var r := PickAny(todo);
        DroppedNext(before, rs - todo, r);
        CloseSocket(sessions[r].socket);
        sessions := sessions - {r};
        assert rs - (todo - {r}) == rs - todo + {r};
        todo := todo - {r};
      }
      assert rs - todo == rs;
    }

    method CleanupIdleSessions(cutoff: int, ghost y: System)
      requires y.table == Abs()
      modifies this`sessions, this`open, this`closed
      ensures Abs() == Step(y, Cleanup(cutoff)).table
    {
      DropSessions(Idle(sessions, cutoff));
    }

    /** The table first, then the shared socket. */
    method Close(ghost y: System)
      requires y.table == Abs()
      modifies this
      ensures Abs() == Step(Step(y, DropAll), StopListening).table && sessions == map[]
    {
      DropSessions(sessions.Keys);
      listening := false;
    }
  }

  lemma DroppedNext(t: Table, done: set<Remote>, r: Remote)
    requires r in t.sessions && r !in done
    ensures r in Dropped(t, done).sessions
    ensures Dropped(t, done + {r}) ==
            Closed(Dropped(t, done), {t.sessions[r].socket}).(sessions := Dropped(t, done).sessions - {r})
  {
    assert SocketsOf(t.sessions, done + {r}) == SocketsOf(t.sessions, done) + {t.sessions[r].socket};
  }
}
