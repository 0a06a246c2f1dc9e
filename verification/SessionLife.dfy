/** How long a session lives: which ones a cleanup closes, what keeps a session alive, and
    what becomes of one that falls silent. */
module SessionLife {
  import opened Common
  import opened Sessions

  /** A cleanup closes exactly the sessions last seen before the cutoff, and leaves the
      others, their sockets and everybody in between as they are. */
  lemma CleanupExactly(y: System, cutoff: int)
    requires Accounted(y)
    ensures var t, t' := y.table, Step(y, Cleanup(cutoff)).table;
            && (forall r :: r in t'.sessions <==> r in t.sessions && t.sessions[r].lastSeen >= cutoff)
            && (forall r :: r in t'.sessions ==> t'.sessions[r] == t.sessions[r] && t.sessions[r].socket in t'.open)
            && (forall r :: r in t.sessions && t.sessions[r].lastSeen < cutoff ==>
                  t.sessions[r].socket !in t'.open && t.sessions[r].socket in t'.closed)
            && (forall s :: s in t.open && s !in t'.open ==>
                  exists r :: r in t.sessions && t.sessions[r].lastSeen < cutoff && t.sessions[r].socket == s)
            && t'.listening == t.listening && Step(y, Cleanup(cutoff)).callers == y.callers
  {
    var t, t' := y.table, Step(y, Cleanup(cutoff)).table;
    forall r | r in t'.sessions
      ensures t.sessions[r].socket in t'.open
    {
      assert t.sessions[r].socket in InTable(t.sessions);
    }
  }

  /** A caller whose socket cannot be opened is gone, and nothing else has changed. */
  lemma FailedListenEnds(y: System, c: CallerId)
    requires c in y.callers && y.callers[c].Missed?
    ensures Step(y, ListenFails(c)) == System(y.table, y.callers - {c})
  {
  }

  /** A packet from a remote finds its session, a reply passes through it, or it is stored:
      the moments at which it is seen, with their times. */
  ghost predicate SeenAt(y: System, e: Event, r: Remote, at: int) {
    match e
    case Lookup(c, now) => c in y.callers && y.callers[c] == Arriving(r) && r in y.table.sessions && now == at
    case Seen(remote, socket, now) =>
      remote == r && r in y.table.sessions && y.table.sessions[r].socket == socket && now == at
    case Insert(c) =>
      c in y.callers && y.callers[c].Opened? && y.callers[c].remote == r && r !in y.table.sessions
      && y.callers[c].openedAt == at
    case _ => false
  }

  ghost predicate Unseen(y: System, e: Event, r: Remote) {
    forall t :: !SeenAt(y, e, r, t)
  }

  /** Each of them sets the time the session was last seen, and nothing else does. */
  lemma SeenSetsTime(y: System, e: Event, r: Remote, at: int)
    ensures SeenAt(y, e, r, at) ==>
              r in Step(y, e).table.sessions && Step(y, e).table.sessions[r].lastSeen == at
    ensures r in Step(y, e).table.sessions && Unseen(y, e, r) ==>
              r in y.table.sessions && Step(y, e).table.sessions[r] == y.table.sessions[r]
  {
    match e
    case Lookup(c, now) =>
      assert SeenAt(y, e, r, now) || !(c in y.callers && y.callers[c] == Arriving(r) && r in y.table.sessions);
    case Seen(remote, socket, now) =>
      assert SeenAt(y, e, r, now) || !(remote == r && r in y.table.sessions && y.table.sessions[r].socket == socket);
    case Insert(c) =>
      if c in y.callers && y.callers[c].Opened? && y.callers[c].remote == r && r !in y.table.sessions {
        assert SeenAt(y, e, r, y.callers[c].openedAt);
      }
    case _ =>
  }

  /** From time t on: clocks do not go back before it, cleanups cut off no later than it,
      and the table is not dropped. */
  predicate From(events: seq<Event>, t: int) {
    forall i :: 0 <= i < |events| ==>
      match events[i]
      case Lookup(_, now) => now >= t
      case Seen(_, _, now) => now >= t
      case Cleanup(cutoff) => cutoff <= t
      case DropAll => false
      case _ => true
  }

  /** A session seen at or after t outlives everything From t, on the same open socket. */
  lemma {:induction false} SeenStays(y: System, events: seq<Event>, r: Remote, t: int)
    requires Accounted(y) && From(events, t)
    requires r in y.table.sessions && y.table.sessions[r].lastSeen >= t
    ensures var y' := Run(y, events);
            && r in y'.table.sessions && y'.table.sessions[r].lastSeen >= t
            && y'.table.sessions[r].socket == y.table.sessions[r].socket && y'.table.sessions[r].socket in y'.table.open
  {
    RunAccounted(y, events);
    if events != [] {
      var n := |events| - 1;
      SeenStays(y, events[..n], r, t);
      StaysOnce(Run(y, events[..n]), events[n], r, t);
    }
    assert Run(y, events).table.sessions[r].socket in InTable(Run(y, events).table.sessions);
  }

  lemma StaysOnce(y: System, e: Event, r: Remote, t: int)
    requires From([e], t) && r in y.table.sessions && y.table.sessions[r].lastSeen >= t
    ensures var y' := Step(y, e);
            && r in y'.table.sessions && y'.table.sessions[r].lastSeen >= t
            && y'.table.sessions[r].socket == y.table.sessions[r].socket
  {
    assert [e][0] == e;
  }

  lemma {:induction false} RunMore(y: System, a: seq<Event>, b: seq<Event>)
    ensures Run(y, a + b) == Run(Run(y, a), b)
  {
    if b == [] {
      assert a + b == a;
    } else {
      var n := |b| - 1;
      assert (a + b)[..|a| + n] == a + b[..n];
      RunMore(y, a, b[..n]);
    }
  }

  /** A remote whose packet or reply came at or after a cutoff keeps its session: in every
      run, if it was seen at time t, it is still in the table, on an open socket, after
      whatever follows with cleanups that cut off no later than t. */
  lemma HeardSurvives(y: System, before: seq<Event>, e: Event, after: seq<Event>, r: Remote, t: int)
    requires Accounted(y) && SeenAt(Run(y, before), e, r, t) && From(after, t)
    ensures var y' := Run(y, before + [e] + after);
            r in y'.table.sessions && y'.table.sessions[r].lastSeen >= t && y'.table.sessions[r].socket in y'.table.open
  {
    var mid := Run(y, before + [e]);
    RunMore(y, before + [e], after);
    RunSnoc(y, before, e);
    RunAccounted(y, before + [e]);
    SeenSetsTime(Run(y, before), e, r, t);
    SeenStays(mid, after, r, t);
  }

  ghost predicate NeverSeen(y: System, events: seq<Event>, r: Remote) {
    events == [] ||
    (NeverSeen(y, events[..|events| - 1], r)
     && Unseen(Run(y, events[..|events| - 1]), events[|events| - 1], r))
  }

  lemma {:induction false} UnseenUnchanged(y: System, events: seq<Event>, r: Remote)
    requires NeverSeen(y, events, r)
    ensures r in Run(y, events).table.sessions ==>
              r in y.table.sessions && Run(y, events).table.sessions[r] == y.table.sessions[r]
  {
    if events != [] {
      var n := |events| - 1;
      UnseenUnchanged(y, events[..n], r);
      SeenSetsTime(Run(y, events[..n]), events[n], r, 0);
    }
  }

  lemma {:induction false} ClosedStaysClosed(y: System, events: seq<Event>, s: Socket)
    requires s in y.table.closed
    ensures s in Run(y, events).table.closed
  {
    if events != [] {
      ClosedStaysClosed(y, events[..|events| - 1], s);
    }
  }

  lemma GoneIsClosed(y: System, e: Event, r: Remote)
    requires r in y.table.sessions && r !in Step(y, e).table.sessions
    ensures y.table.sessions[r].socket in Step(y, e).table.closed
  {
  }

  lemma {:induction false} SilentGone(y: System, events: seq<Event>, r: Remote)
    requires r in y.table.sessions && NeverSeen(y, events, r) && r !in Run(y, events).table.sessions
    ensures y.table.sessions[r].socket in Run(y, events).table.closed
  {
    if events != [] {
      var n := |events| - 1;
      var mid := Run(y, events[..n]);
      if r in mid.table.sessions {
        UnseenUnchanged(y, events[..n], r);
        GoneIsClosed(mid, events[n], r);
      } else {
        SilentGone(y, events[..n], r);
        RunMore(y, events[..n], [events[n]]);
        assert events[..n] + [events[n]] == events;
        ClosedStaysClosed(mid, [events[n]], y.table.sessions[r].socket);
      }
    }
  }

  /** And a session that falls silent is closed by the first cleanup that cuts off after it
      was last seen, if nothing closed it before. */
  lemma SilentIsClosed(y: System, events: seq<Event>, r: Remote, cutoff: int)
    requires Accounted(y) && r in y.table.sessions && y.table.sessions[r].lastSeen < cutoff && NeverSeen(y, events, r)
    ensures var y' := Step(Run(y, events), Cleanup(cutoff));
            r !in y'.table.sessions && y.table.sessions[r].socket in y'.table.closed
            && y.table.sessions[r].socket !in y'.table.open
  {
    var mid := Run(y, events);
    RunAccounted(y, events);
    StepAccounted(mid, Cleanup(cutoff));
    CleanupExactly(mid, cutoff);
    if r in mid.table.sessions {
      UnseenUnchanged(y, events, r);
    } else {
      SilentGone(y, events, r);
    }
  }
}
