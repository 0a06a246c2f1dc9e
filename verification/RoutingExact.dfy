/** Two results that need whole interleavings in which routing is kept: when a Reconcile
    that succeeds has put every active row on the device, and exactly which calls in
    flight for one key put routing at risk. */
module RoutingExact {
  import opened Common
  import opened Wire
  import opened PeerModel
  import opened PeerSafety
  import opened ReconcileDiff
  import opened AddInterleaving
  import opened StaleDiffs
  import opened RoutingInterleaving
  import Ipam

  // ------------------------------------------------------ a sweep left in peace

  /** Steps during a sweep that write no row and take no key off the device: AddPeer calls
      may begin, take addresses and configure, other sweeps may read. */
  predicate Quiet(a: Action, r: SweepId) {
    match a
    case Persist(_, ok) => !ok
    case Undo(_, _) => false
    case Send(q, ok) => q != r && !ok
    case Rebuild(q, _, ok) => q != r && !ok
    case Abandon(q) => q != r
    case Whole(_) => false
    case _ => true
  }

  /** The listing is still the table, and a diff made from it puts every row in place. */
  ghost predicate Fresh(y: System, r: SweepId) {
    r in y.sweeps ==>
      && y.sweeps[r].rows == y.st.rows
      && (y.sweeps[r].Compared? ==> PutsAll(y.st, Entries(y.sweeps[r].changes)))
  }

  ghost predicate PutsAll(s: State, changes: set<PeerConfig>) {
    forall id :: IsActive(s.rows, id) ==> Puts(s.dev, changes, s.rows[id].key, s.rows[id].ip)
  }

  lemma DiffPuts(s: State, changes: seq<PeerConfig>)
    requires Safe(s) && IsDiff(s.rows, s.dev, changes)
    ensures PutsAll(s, Entries(changes))
  {
    forall id | IsActive(s.rows, id)
      ensures Puts(s.dev, Entries(changes), s.rows[id].key, s.rows[id].ip)
    {
      var row := s.rows[id];
      WantedMeans(s.rows, s.dev, row.key, row.ip);
      forall other
        ensures Add(other, row.ip) in Entries(changes) ==> other == row.key
      {
        WantedMeans(s.rows, s.dev, other, row.ip);
      }
    }
  }

  lemma QuietKeepsFresh(y: System, a: Action, r: SweepId)
    requires RoutedSafe(y) && Fresh(y, r) && Quiet(a, r)
    ensures Fresh(Act(y, a), r)
  {
    var y' := Act(y, a);
    assert y'.st.rows == y.st.rows && y.st.dev.peers <= y'.st.dev.peers;
    if a.Compare? && a.sweep == r && y' != y && r in y'.sweeps {
      DiffPuts(y.st, a.changes);
    }
  }

  lemma {:induction false} QuietRun(y: System, actions: seq<Action>, r: SweepId)
    requires RoutedSafe(y) && CarefulActs(y, actions) && Fresh(y, r)
    requires forall a :: a in actions ==> Quiet(a, r)
    ensures Fresh(Interleave(y, actions), r) && RoutedSafe(Interleave(y, actions))
    decreases |actions|
  {
    if actions != [] {
      QuietKeepsFresh(y, actions[0], r);
      ActRouted(y, actions[0]);
      QuietRun(Act(y, actions[0]), actions[1..], r);
    }
  }

  /** If from its listing to its end nothing but quiet steps happens beside it, a Reconcile
      that succeeds leaves every active row on the device with its address, whether it
      sends a diff or finds none. */
  lemma SweepRoutesAll(y: System, r: SweepId, actions: seq<Action>)
    requires RoutedSafe(y) && r !in y.sweeps && CarefulActs(Act(y, List(r)), actions)
    requires forall a :: a in actions ==> Quiet(a, r)
    ensures var z := Interleave(Act(y, List(r)), actions);
            && (r in z.sweeps && z.sweeps[r].Compared? ==> FullyRouted(Act(z, Send(r, true)).st))
            && (r in z.sweeps && z.sweeps[r].Listing? && IsDiff(z.sweeps[r].rows, z.st.dev, []) ==> FullyRouted(z.st))
  {
    ActRouted(y, List(r));
    QuietRun(Act(y, List(r)), actions, r);
    var z := Interleave(Act(y, List(r)), actions);
    if r in z.sweeps && z.sweeps[r].Compared? {
      SendRoutesAllIff(z, r);
    }
    if r in z.sweeps && z.sweeps[r].Listing? && IsDiff(z.sweeps[r].rows, z.st.dev, []) {
      DiffKeys(z.st.rows, z.st.dev, []);
      assert KeysOf([]) == {};
    }
  }

  // -------------------------------------------------------- calls for one key

  /** Steps of calls, and enableWG, with nothing failing: careful in every state. */
  predicate Plain(a: Action) {
    a.Allocate? || (a.Configure? && a.ok) || (a.Persist? && a.ok) || a == ENABLE
  }

  lemma {:induction false} PlainCareful(y: System, actions: seq<Action>)
    requires y.st.net.Valid() && forall a :: a in actions ==> Plain(a)
    ensures CarefulActs(y, actions)
    decreases |actions|
  {
    if actions != [] {
      assert Plain(actions[0]);
      PlainCareful(Act(y, actions[0]), actions[1..]);
    }
  }

  /** Taking a live call to where it is configured. */
  ghost predicate Driven(y: System, c: CallId, y': System)
    requires c in y.calls
  {
    && y'.st.rows == y.st.rows && y'.st.net == y.st.net && y'.sweeps == y.sweeps && AddressesSafe(y')
    && c in y'.calls && y'.calls[c].stage.Configured?
    && y'.calls == y.calls[c := y.calls[c].(stage := y'.calls[c].stage)]
    && (y.calls[c].stage.Configured? ==> y' == y)
    && (!y.calls[c].stage.Configured? ==>
          y'.st.dev == ApplyEntry(y.st.dev, Add(y.calls[c].key, y'.calls[c].stage.ip)))
    && (y.calls[c].stage.Admitted? ==> Ipam.FirstFree(y.st.net, y.st.used) == Some(y'.calls[c].stage.ip))
    && y'.st.used == (if y.calls[c].stage.Admitted? then y.st.used + {y'.calls[c].stage.ip} else y.st.used)
  }

  lemma DriveAllocated(y: System, c: CallId)
    requires AddressesSafe(y) && c in y.calls && y.calls[c].stage.Allocated?
    ensures Driven(y, c, Act(y, Configure(c, true)))
  {
    ActSafe(y, Configure(c, true));
  }

  lemma DriveAdmitted(y: System, c: CallId)
    requires AddressesSafe(y) && c in y.calls && y.calls[c].stage.Admitted?
    requires Ipam.FirstFree(y.st.net, y.st.used).Some?
    ensures Driven(y, c, Act(Act(y, Allocate(c)), Configure(c, true)))
  {
    ActSafe(y, Allocate(c));
    var y1 := Act(y, Allocate(c));
    DriveAllocated(y1, c);
    var y2 := Act(y1, Configure(c, true));
    assert y2.calls == y.calls[c := y.calls[c].(stage := y2.calls[c].stage)];
  }

  lemma Drive(y: System, c: CallId) returns (actions: seq<Action>)
    requires AddressesSafe(y) && Live(y, c)
    requires y.calls[c].stage.Admitted? ==> Ipam.FirstFree(y.st.net, y.st.used).Some?
    ensures Driven(y, c, Interleave(y, actions)) && forall a :: a in actions ==> Plain(a)
  {
    if y.calls[c].stage.Configured? {
      actions := [];
    } else if y.calls[c].stage.Allocated? {
      actions := [Configure(c, true)];
      OneAct(y, Configure(c, true));
      DriveAllocated(y, c);
    } else {
      actions := [Allocate(c)] + [Configure(c, true)];
      FirstAct(y, Allocate(c), [Configure(c, true)]);
      OneAct(Act(y, Allocate(c)), Configure(c, true));
      DriveAdmitted(y, c);
    }
  }

  const ENABLE := Whole(Event(OpEnable, {}))

  /** Addresses for the calls that still need one. */
  ghost predicate Room(y: System)
    requires y.st.net.Valid()
  {
    (exists c :: Live(y, c) && y.calls[c].stage.Admitted?) ==>
      var free := Ipam.FirstFree(y.st.net, y.st.used);
      free.Some? && Ipam.FirstFree(y.st.net, y.st.used + {free.value}).Some?
  }

  /** The row of a configured call written while another has put the key on the device. */
  lemma WrittenMisrouted(y: System, c: CallId, d: CallId, before: Device)
    requires AddressesSafe(y) && c != d && Holds(y, c) && Holds(y, d)
    requires y.calls[c].stage.Configured? && InsertAllowed(y.st.rows, y.calls[c])
    requires y.calls[c].existing.Some? ==>
               y.calls[c].existing.value in y.st.rows
               && y.st.rows[y.calls[c].existing.value].key == y.calls[c].key
    requires y.st.dev == ApplyEntry(before, Add(y.calls[c].key, y.calls[d].stage.ip))
    requires before.route.Keys == ActiveAddrs(y.st.rows)
    ensures !Routed(Act(y, Action.Persist(c, true)).st)
  {
    var p, y' := y.calls[c], Act(y, Action.Persist(c, true));
    var id := if p.existing.Some? then p.existing.value else p.newId;
    assert IsActive(y'.st.rows, id) && y'.st.rows[id].key == p.key && y'.st.rows[id].ip == p.stage.ip;
    assert p.stage.ip !in y.st.dev.route;
  }

  /** A run with an enableWG between two parts and one step at its end. */
  lemma TwoParts(y: System, first: seq<Action>, second: seq<Action>, last: Action) returns (actions: seq<Action>)
    requires y.st.net.Valid() && Plain(last)
    requires (forall a :: a in first ==> Plain(a)) && (forall a :: a in second ==> Plain(a))
    ensures CarefulActs(y, actions) && forall a :: a in actions ==> Plain(a)
    ensures Interleave(y, actions) == Act(Interleave(Act(Interleave(y, first), ENABLE), second), last)
  {
    var y1 := Interleave(y, first);
    var y2 := Act(y1, ENABLE);
    actions := first + ([ENABLE] + (second + [last]));
    InterleaveMore(y, first, [ENABLE] + (second + [last]));
    FirstAct(y1, ENABLE, second + [last]);
    InterleaveMore(y2, second, [last]);
    OneAct(Interleave(y2, second), last);
    PlainCareful(y, actions);
  }

  /** One call that could write, another yet to configure the key: the first is configured,
      enableWG takes the key off, the second puts it back, the first writes its row. */
  lemma WriterClash(y: System, c: CallId, d: CallId) returns (actions: seq<Action>)
    requires Base(y) && Room(y) && Live(y, c) && Live(y, d) && c != d && y.calls[c].key == y.calls[d].key
    requires InsertAllowed(y.st.rows, y.calls[c]) && !y.calls[d].stage.Configured?
    ensures CarefulActs(y, actions) && (forall a :: a in actions ==> Plain(a)) && !Routed(Interleave(y, actions).st)
  {
    assert Grounded(y.st, y.calls[c]);
    var first := Drive(y, c);
    var y1 := Interleave(y, first);
    var y2 := Act(y1, ENABLE);
    Enabled(y1);
    assert y2.calls[d] == y.calls[d];
    var second := Drive(y2, d);
    var y3 := Interleave(y2, second);
    WrittenMisrouted(y3, c, d, y2.st.dev);
    actions := TwoParts(y, first, second, Action.Persist(c, true));
  }

  lemma Enabled(y: System)
    requires AddressesSafe(y)
    ensures var y' := Act(y, ENABLE);
            && AddressesSafe(y') && y'.st == y.st.(dev := y'.st.dev) && y'.calls == y.calls && y'.sweeps == y.sweeps
            && y'.st.dev.peers == ActiveKeys(y.st.rows) && y'.st.dev.route.Keys == ActiveAddrs(y.st.rows)
  {
    ActSafe(y, ENABLE);
  }

  /** Two configured calls that are both to activate the row: the first writes it,
      enableWG leaves the key with that address only, the second writes its own. */
  lemma ActivatorClash(y: System, c: CallId, d: CallId) returns (actions: seq<Action>)
    requires Base(y) && Live(y, c) && Live(y, d) && c != d && y.calls[c].key == y.calls[d].key
    requires y.calls[c].stage.Configured? && y.calls[d].stage.Configured?
    requires y.calls[c].existing.Some? && y.calls[d].existing.Some?
    ensures CarefulActs(y, actions) && (forall a :: a in actions ==> Plain(a)) && !Routed(Interleave(y, actions).st)
  {
    assert Grounded(y.st, y.calls[c]) && Grounded(y.st, y.calls[d]);
    var id := y.calls[c].existing.value;
    assert y.calls[d].existing.value == id;
    var write, write' := Action.Persist(c, true), Action.Persist(d, true);
    ActSafe(y, write);
    var y1 := Act(y, write);
    Enabled(y1);
    var y2 := Act(y1, ENABLE);
    assert IsActive(y1.st.rows, id) && y2.calls[d] == y.calls[d] && Holds(y2, d);
    assert y1.st.rows[id].key in y2.st.dev.peers && y.calls[d].stage.ip !in y2.st.dev.route;
    var y3 := Act(y2, write');
    assert IsActive(y3.st.rows, id) && y3.st.rows[id].ip == y.calls[d].stage.ip;
    actions := [write] + ([ENABLE] + [write']);
    FirstAct(y, write, [ENABLE] + [write']);
    FirstAct(y1, ENABLE, [write']);
    OneAct(y2, write');
    PlainCareful(y, actions);
  }

  /** Exactly when calls for one key endanger routing: every careful continuation keeps
      each active row whose key is on the device routed, if and only if no live call could
      write its row now while another for the same key is yet to be configured, and no two
      are to activate the same row. */
  lemma RoutingKeptIff(y: System)
    requires Base(y) && Room(y)
    ensures (forall actions :: CarefulActs(y, actions) ==> Routed(Interleave(y, actions).st)) <==> NoClash(y)
  {
    if NoClash(y) {
      forall actions | CarefulActs(y, actions)
        ensures Routed(Interleave(y, actions).st)
      {
        InterleavingRouted(y, actions);
      }
    } else {
      var c, d :| Live(y, c) && Live(y, d) && c != d && y.calls[c].key == y.calls[d].key
                  && Clash(y.st, y.calls[c], y.calls[d]);
      if InsertAllowed(y.st.rows, y.calls[c]) && !y.calls[d].stage.Configured? {
        var actions := WriterClash(y, c, d);
      } else if !y.calls[c].stage.Configured? {
        var actions := WriterClash(y, d, c);
      } else {
        var actions := ActivatorClash(y, c, d);
      }
    }
  }

  /** A state with such a clash is reached from every safe state in which a key is new: two
      calls begin with it. */
  lemma TwoBegin(s: State, c: CallId, d: CallId, uid: UserId, key: Key, n: PeerId, m: PeerId)
    requires Safe(s) && c != d && n !in s.rows && CheckAdd(s, uid, key, {}) == Admit(None)
    ensures var y := Act(Act(System(s, map[], map[]), Begin(c, uid, key, None, n)), Begin(d, uid, key, None, m));
            Base(y) && !NoClash(y)
  {
    var y0 := System(s, map[], map[]);
    var y1 := Act(y0, Begin(c, uid, key, None, n));
    var y := Act(y1, Begin(d, uid, key, None, m));
    ActSafe(y0, Begin(c, uid, key, None, n));
    ActSafe(y1, Begin(d, uid, key, None, m));
    AdmitMeans(s, uid, key, {});
    assert Live(y, c) && Live(y, d);
    assert Clash(y.st, y.calls[c], y.calls[d]);
  }

  /** With two addresses free they then misroute, with no call failing. */
  lemma MisroutingHappens(s: State, c: CallId, d: CallId, uid: UserId, key: Key, n: PeerId, m: PeerId)
    returns (actions: seq<Action>)
    requires Safe(s) && c != d && n !in s.rows && CheckAdd(s, uid, key, {}) == Admit(None)
    requires Ipam.FirstFree(s.net, s.used).Some?
    requires Ipam.FirstFree(s.net, s.used + {Ipam.FirstFree(s.net, s.used).value}).Some?
    ensures var y := Act(Act(System(s, map[], map[]), Begin(c, uid, key, None, n)), Begin(d, uid, key, None, m));
            (forall a :: a in actions ==> Plain(a)) && !Routed(Interleave(y, actions).st)
  {
    TwoBegin(s, c, d, uid, key, n, m);
    var y := Act(Act(System(s, map[], map[]), Begin(c, uid, key, None, n)), Begin(d, uid, key, None, m));
    assert Live(y, c) && Live(y, d);
    actions := WriterClash(y, c, d);
  }
}
