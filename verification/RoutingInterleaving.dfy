/** Routing safety when AddPeer and Reconcile calls interleave, at every external call,
    with each other and with the other operations as single steps: what it takes of the
    calls in flight for one key, exactly, and of the operations that overtake a sweep. */
module RoutingInterleaving {
  import opened Common
  import opened Wire
  import opened PeerModel
  import opened PeerSafety
  import opened PeerHistory
  import opened ReconcileDiff
  import opened AddInterleaving
  import opened StaleDiffs
  import Ipam

  /** A call that may still write its row. */
  predicate Live(y: System, c: CallId) {
    c in y.calls && (y.calls[c].stage.Admitted? || y.calls[c].stage.Allocated? || y.calls[c].stage.Configured?)
  }

  predicate LiveFor(y: System, c: CallId, key: Key) {
    Live(y, c) && y.calls[c].key == key
  }

  ghost predicate KeyInFlight(y: System, key: Key) {
    exists c :: LiveFor(y, c, key)
  }

  /** A live call's row still has its key and is not active; a key that is active by now
      has no call that has yet to configure it. */
  ghost predicate Grounded(s: State, p: Pending) {
    && (p.existing.Some? ==>
          && p.existing.value in s.rows && s.rows[p.existing.value].key == p.key
          && p.key !in ActiveKeys(s.rows))
    && (p.key in ActiveKeys(s.rows) ==> p.stage.Configured?)
  }

  /** Two live calls for one key that endanger routing: one could write its row now while
      the other has yet to configure the key, or both are to activate the row. */
  ghost predicate Clash(s: State, p: Pending, q: Pending) {
    (InsertAllowed(s.rows, p) && !q.stage.Configured?) || (p.existing.Some? && q.existing.Some?)
  }

  ghost predicate NoClash(y: System) {
    forall c, d :: Live(y, c) && Live(y, d) && c != d && y.calls[c].key == y.calls[d].key ==>
      !Clash(y.st, y.calls[c], y.calls[d])
  }

  /** A configured call that could write its row now has its route, if its key is on. */
  ghost predicate WritableLed(y: System) {
    forall c :: c in y.calls && y.calls[c].stage.Configured? && InsertAllowed(y.st.rows, y.calls[c]) ==>
      Led(y.st.dev, y.calls[c].key, y.calls[c].stage.ip)
  }

  /** Every row a sweep listed as active is still active with its key and address. */
  ghost predicate Current(rows: map<PeerId, Row>, sw: Sweep) {
    forall id :: IsActive(sw.rows, id) ==>
      IsActive(rows, id) && rows[id].key == sw.rows[id].key && rows[id].ip == sw.rows[id].ip
  }

  /** The changes come from the rows listed: they add listed rows only. */
  ghost predicate Drawn(sw: Sweep) {
    && UniqueKeys(sw.rows) && DistinctActive(sw.rows) && Shaped(sw)
    && (sw.Compared? ==> forall key, a: Addr :: Add(key, a) in Entries(sw.changes) ==>
          exists id :: IsActive(sw.rows, id) && sw.rows[id].key == key && sw.rows[id].ip == a)
  }

  ghost predicate SweepsCurrent(y: System) {
    forall r :: r in y.sweeps ==> Drawn(y.sweeps[r]) && Current(y.st.rows, y.sweeps[r])
  }

  /** All that routing rests on, but for clashes between calls for one key. */
  ghost predicate Base(y: System) {
    && Safe(y.st) && AddressesSafe(y) && SweepsCurrent(y) && WritableLed(y)
    && (forall c :: Live(y, c) ==> Grounded(y.st, y.calls[c]))
  }

  ghost predicate RoutedSafe(y: System) {
    Base(y) && NoClash(y)
  }

  /** The active row a whole operation is aimed at. */
  ghost predicate AimsAt(s: State, e: Event, id: PeerId) {
    match e.op
    case OpRemove(uid, key) => ActiveHolder(s.rows, uid, key) == Some(id)
    case OpReplace(uid, oldKey, _) => ActiveHolder(s.rows, uid, oldKey) == Some(id)
    case OpDisconnect(i) => i == id
    case OpRevoke(i) => i == id
    case _ => false
  }

  /** Checkable before each step: a call begins with the row its checks found and a key
      no other call is adding; a whole operation meets the conditions of sequential runs,
      brings no key that is in flight, and aims at no row that a sweep under way has
      listed. */
  ghost predicate CarefulAct(y: System, a: Action) {
    match a
    case Begin(_, uid, key, existing, _) => CheckAdd(y.st, uid, key, {}) == Admit(existing) && !KeyInFlight(y, key)
    case Whole(e) =>
      && Careful(y.st, e)
      && (e.op.OpAdd? ==> !KeyInFlight(y, e.op.key))
      && (e.op.OpReplace? ==> !KeyInFlight(y, e.op.newKey))
      && (forall r, id :: r in y.sweeps && AimsAt(y.st, e, id) ==> !IsActive(y.sweeps[r].rows, id))
    case _ => true
  }

  // ------------------------------------------------------- steps of one call

  lemma BeginRouted(y: System, a: Action)
    requires RoutedSafe(y) && a.Begin? && CarefulAct(y, a)
    ensures RoutedSafe(Act(y, a))
  {
    ActSafe(y, a);
    AdmitMeans(y.st, a.uid, a.key, {});
    var y' := Act(y, a);
    if a.call !in y.calls {
      forall c | Live(y', c) && c != a.call
        ensures Live(y, c) && y'.calls[c] == y.calls[c] && y.calls[c].key != a.key
      {
        assert LiveFor(y, c, y.calls[c].key);
      }
    }
  }

  lemma ConfigureRouted(y: System, a: Action)
    requires RoutedSafe(y) && a.Configure?
    ensures RoutedSafe(Act(y, a))
  {
    ActSafe(y, a);
    var y' := Act(y, a);
    if a.call in y.calls && y.calls[a.call].stage.Allocated? {
      var p := y.calls[a.call];
      assert Live(y, a.call) && Holds(y, a.call);
      ConfigureUnclaimedSafe(y.st, p.key, p.stage.ip);
      forall c | c in y'.calls && y'.calls[c].stage.Configured? && InsertAllowed(y'.st.rows, y'.calls[c])
        ensures Led(y'.st.dev, y'.calls[c].key, y'.calls[c].stage.ip)
      {
        if c != a.call {
          assert Live(y, c) && Holds(y, c);
        }
      }
      ConfigureNoClash(y, a);
    }
  }

  lemma ConfigureNoClash(y: System, a: Action)
    requires Base(y) && NoClash(y) && a.Configure?
    ensures NoClash(Act(y, a))
    ensures forall c :: Live(Act(y, a), c) ==> Grounded(Act(y, a).st, Act(y, a).calls[c])
  {
    var y' := Act(y, a);
    assert forall c :: Live(y', c) ==> Live(y, c) && y'.calls[c].key == y.calls[c].key
                                       && y'.calls[c].existing == y.calls[c].existing
                                       && y'.calls[c].newId == y.calls[c].newId;
  }

  /** The table write of a configured call keeps routing if and only if its key is off the
      device or leads to its address. */
  lemma PersistRoutedIff(s: State, p: Pending)
    requires Safe(s) && p.stage.Configured? && Grounded(s, p) && InsertAllowed(s.rows, p)
    requires InFlightSafe(s, p.stage.ip)
    ensures var s' := s.(rows := Persisted(s.rows, p.existing, p.newId, p.uid, p.key, p.stage.ip));
            Sound(s') && (Routed(s') <==> Led(s.dev, p.key, p.stage.ip))
  {
    PersistedAddresses(s, p.existing, p.newId, p.uid, p.key, p.stage.ip);
    var rows' := Persisted(s.rows, p.existing, p.newId, p.uid, p.key, p.stage.ip);
    var id := if p.existing.Some? then p.existing.value else p.newId;
    assert forall j :: j in rows' && j != id ==> j in s.rows && rows'[j] == s.rows[j];
    assert IsActive(rows', id) && rows'[id].key == p.key && rows'[id].ip == p.stage.ip;
  }

  lemma NobodyHolds(rows: map<PeerId, Row>, p: Pending, id: PeerId)
    requires p.existing.None? && InsertAllowed(rows, p) && id in rows
    ensures rows[id].key != p.key
  {
  }

  /** What the new active row means to the other live calls: one that shares the key has
      configured it and cannot write any more. */
  lemma PersistedOthers(y: System, c: CallId, o: CallId)
    requires RoutedSafe(y) && Live(y, c) && y.calls[c].stage.Configured? && InsertAllowed(y.st.rows, y.calls[c])
    requires Live(y, o) && o != c
    ensures var p := y.calls[c];
            var s' := y.st.(rows := Persisted(y.st.rows, p.existing, p.newId, p.uid, p.key, p.stage.ip));
            Grounded(s', y.calls[o]) && (InsertAllowed(s'.rows, y.calls[o]) ==> InsertAllowed(y.st.rows, y.calls[o]))
  {
    var p := y.calls[c];
    var rows' := Persisted(y.st.rows, p.existing, p.newId, p.uid, p.key, p.stage.ip);
    assert ActiveKeys(rows') <= ActiveKeys(y.st.rows) + {p.key};
    assert forall j :: j in y.st.rows ==> j in rows' && rows'[j].key == y.st.rows[j].key;
    var q := y.calls[o];
    assert Grounded(y.st, q);
    if q.key == p.key {
      assert !Clash(y.st, p, q);
      if q.existing.Some? {
        NobodyHolds(y.st.rows, p, q.existing.value);
      }
    } else {
      assert q.key in ActiveKeys(rows') ==> q.key in ActiveKeys(y.st.rows);
    }
  }

  lemma PersistRouted(y: System, a: Action)
    requires RoutedSafe(y) && a.Persist?
    ensures RoutedSafe(Act(y, a))
  {
    ActSafe(y, a);
    if a.call in y.calls && y.calls[a.call].stage.Configured? {
      var p := y.calls[a.call];
      var y' := Act(y, a);
      assert Live(y, a.call) && Holds(y, a.call);
      assert forall c :: Live(y', c) ==> Live(y, c) && c != a.call && y'.calls[c] == y.calls[c];
      if a.ok && InsertAllowed(y.st.rows, p) {
        PersistRoutedIff(y.st, p);
        forall c | Live(y', c)
          ensures Grounded(y'.st, y.calls[c])
          ensures InsertAllowed(y'.st.rows, y.calls[c]) ==> InsertAllowed(y.st.rows, y.calls[c])
        {
          PersistedOthers(y, a.call, c);
        }
        PersistKeepsCurrent(y, a.call);
      }
    }
  }

  lemma PersistKeepsCurrent(y: System, c: CallId)
    requires Base(y) && Live(y, c) && y.calls[c].stage.Configured? && InsertAllowed(y.st.rows, y.calls[c])
    ensures var p := y.calls[c];
            var rows' := Persisted(y.st.rows, p.existing, p.newId, p.uid, p.key, p.stage.ip);
            forall r :: r in y.sweeps ==> Current(rows', y.sweeps[r])
  {
    var p := y.calls[c];
    var rows' := Persisted(y.st.rows, p.existing, p.newId, p.uid, p.key, p.stage.ip);
    forall id | IsActive(y.st.rows, id)
      ensures IsActive(rows', id) && rows'[id] == y.st.rows[id]
    {
    }
  }

  lemma UndoRouted(y: System, a: Action)
    requires RoutedSafe(y) && a.Undo?
    ensures RoutedSafe(Act(y, a))
  {
    ActSafe(y, a);
    if a.call in y.calls && y.calls[a.call].stage.Undoing? {
      RemoveKeySafe(y.st, y.calls[a.call].key);
      assert forall c :: Live(Act(y, a), c) ==> Live(y, c) && Act(y, a).calls[c] == y.calls[c];
    }
  }

  lemma AddressRouted(y: System, a: Action)
    requires RoutedSafe(y) && (a.Allocate? || a.Release?)
    ensures RoutedSafe(Act(y, a))
  {
    ActSafe(y, a);
    var y' := Act(y, a);
    assert forall c :: Live(y', c) ==> Live(y, c) && y'.calls[c].key == y.calls[c].key
                                       && y'.calls[c].existing == y.calls[c].existing
                                       && y'.calls[c].newId == y.calls[c].newId;
    assert Sound(y'.st);
  }

  // ----------------------------------------------------------- steps of a sweep

  lemma ListRouted(y: System, a: Action)
    requires RoutedSafe(y) && (a.List? || a.Reserve? || a.Abandon?)
    ensures RoutedSafe(Act(y, a))
  {
    ActSafe(y, a);
    assert Sound(Act(y, a).st);
  }

  lemma CompareRouted(y: System, a: Action)
    requires RoutedSafe(y) && a.Compare?
    ensures RoutedSafe(Act(y, a))
  {
    ActSafe(y, a);
    if Act(y, a) != y {
      var sw := y.sweeps[a.sweep];
      DiffShaped(sw.rows, y.st.dev, a.changes);
      forall key, ip: Addr | Add(key, ip) in Entries(a.changes)
        ensures exists id :: IsActive(sw.rows, id) && sw.rows[id].key == key && sw.rows[id].ip == ip
      {
        WantedMeans(sw.rows, y.st.dev, key, ip);
      }
    }
  }

  /** Changes drawn from current rows spare every active row. */
  lemma CurrentSparesRow(s: State, sw: Sweep, id: PeerId)
    requires Safe(s) && sw.Compared? && Drawn(sw) && Current(s.rows, sw) && IsActive(s.rows, id)
    ensures Spares(s.dev, Entries(sw.changes), s.rows[id].key, s.rows[id].ip)
  {
    var changes, row := Entries(sw.changes), s.rows[id];
    if a: Addr :| Add(row.key, a) in changes {
      var j :| IsActive(sw.rows, j) && sw.rows[j].key == row.key && sw.rows[j].ip == a;
      assert j == id;
    }
    if other :| Add(other, row.ip) in changes {
      var j :| IsActive(sw.rows, j) && sw.rows[j].key == other && sw.rows[j].ip == row.ip;
      assert j == id;
    }
  }

  /** And every key in flight that could still be written. */
  lemma CurrentSparesCall(s: State, sw: Sweep, key: Key, ip: Addr)
    requires Safe(s) && sw.Compared? && Drawn(sw) && Current(s.rows, sw)
    requires key !in ActiveKeys(s.rows) && ip !in ActiveAddrs(s.rows)
    ensures Spares(s.dev, Entries(sw.changes), key, ip)
  {
    var changes := Entries(sw.changes);
    forall k, a: Addr | Add(k, a) in changes
      ensures k != key && a != ip
    {
      var j :| IsActive(sw.rows, j) && sw.rows[j].key == k && sw.rows[j].ip == a;
      assert IsActive(s.rows, j);
    }
  }

  /** A configured call that could write its row now has a key no active row has. */
  lemma WritableInactive(y: System, c: CallId)
    requires Base(y) && Live(y, c) && InsertAllowed(y.st.rows, y.calls[c])
    ensures y.calls[c].key !in ActiveKeys(y.st.rows)
  {
    var p := y.calls[c];
    assert Grounded(y.st, p);
    if id :| IsActive(y.st.rows, id) && y.st.rows[id].key == p.key && p.existing.None? {
      NobodyHolds(y.st.rows, p, id);
    }
  }

  lemma SendRouted(y: System, a: Action)
    requires RoutedSafe(y) && a.Send?
    ensures RoutedSafe(Act(y, a))
  {
    ActSafe(y, a);
    var y' := Act(y, a);
    if a.sweep in y.sweeps && y.sweeps[a.sweep].Compared? && a.ok {
      var sw := y.sweeps[a.sweep];
      SentDevice(y, a.sweep);
      forall id | IsActive(y.st.rows, id)
        ensures Spares(y.st.dev, Entries(sw.changes), y.st.rows[id].key, y.st.rows[id].ip)
      {
        CurrentSparesRow(y.st, sw, id);
      }
      SendRoutedIff(y, a.sweep);
      forall c | c in y.calls && y.calls[c].stage.Configured? && InsertAllowed(y.st.rows, y.calls[c])
        ensures Led(y'.st.dev, y.calls[c].key, y.calls[c].stage.ip)
      {
        assert Live(y, c) && Holds(y, c);
        WritableInactive(y, c);
        CurrentSparesCall(y.st, sw, y.calls[c].key, y.calls[c].stage.ip);
        SparesIff(y.st.dev, Entries(sw.changes), y'.st.dev, y.calls[c].key, y.calls[c].stage.ip);
      }
    }
  }

  /** A rebuild from current rows leaves listed rows with their addresses and no others. */
  lemma RebuildListed(s: State, sw: Sweep, key: Key)
    requires Safe(s) && Drawn(sw) && Current(s.rows, sw)
    ensures Safe(s.(dev := Rebuilt(sw.rows, key), serverKey := key))
    ensures Rebuilt(sw.rows, key).peers <= ActiveKeys(s.rows)
  {
    var d := Rebuilt(sw.rows, key);
    forall k | k in d.peers
      ensures k in ActiveKeys(s.rows)
    {
      var j :| IsActive(sw.rows, j) && sw.rows[j].key == k;
      assert IsActive(s.rows, j) && s.rows[j].key == k;
    }
    forall id | IsActive(s.rows, id) && s.rows[id].key in d.peers
      ensures s.rows[id].ip in d.route && d.route[s.rows[id].ip] == s.rows[id].key
    {
      var j :| IsActive(sw.rows, j) && sw.rows[j].key == s.rows[id].key;
      assert j == id;
      assert sw.rows[j].ip in ActiveAddrs(sw.rows);
    }
    forall a | a in d.route
      ensures d.route[a] in d.peers
    {
    }
  }

  lemma RebuildRouted(y: System, a: Action)
    requires RoutedSafe(y) && a.Rebuild?
    ensures RoutedSafe(Act(y, a))
  {
    ActSafe(y, a);
    if a.sweep in y.sweeps && y.sweeps[a.sweep].Listing? && a.ok {
      RebuildListed(y.st, y.sweeps[a.sweep], Act(y, a).st.serverKey);
      forall c | c in y.calls && y.calls[c].stage.Configured? && InsertAllowed(y.st.rows, y.calls[c])
        ensures y.calls[c].key !in ActiveKeys(y.st.rows)
      {
        WritableInactive(y, c);
      }
    }
  }

  // -------------------------------------------------------- whole operations

  /** The keys an operation can make active: those active before and the one it brings. */
  lemma NewKeys(s: State, e: Event)
    requires s.net.Valid() && UniqueKeys(s.rows) && FreshId(s, e)
    ensures ActiveKeys(Step(s, e).0.rows) <=
            ActiveKeys(s.rows) + match e.op { case OpAdd(_, k, _) => {k} case OpReplace(_, _, k) => {k} case _ => {} }
  {
  }

  /** Only active rows change their key. */
  lemma InactiveKeepsKey(s: State, e: Event, id: PeerId)
    requires s.net.Valid() && UniqueKeys(s.rows) && FreshId(s, e)
    requires id in s.rows && s.rows[id].key !in ActiveKeys(s.rows)
    ensures var rows' := Step(s, e).0.rows; id in rows' && rows'[id].key == s.rows[id].key
  {
    var changed := StepChangesOneRow(s, e);
  }

  /** A whole operation that brings no key in flight leaves calls grounded. */
  lemma WholeGrounded(y: System, e: Event, c: CallId)
    requires RoutedSafe(y) && CarefulAct(y, Whole(e)) && Live(y, c)
    ensures Grounded(Step(y.st, e).0, y.calls[c])
  {
    var p := y.calls[c];
    assert LiveFor(y, c, p.key);
    NewKeys(y.st, e);
    if p.existing.Some? {
      InactiveKeepsKey(y.st, e, p.existing.value);
    }
  }

  /** Where a key no active row has goes when an operation does not bring it. */
  ghost predicate Untouched(s: State, key: Key, ip: Addr) {
    Safe(s) && key !in ActiveKeys(s.rows) && InFlightSafe(s, ip) && Led(s.dev, key, ip)
  }

  lemma AddLeads(s: State, e: Event, key: Key, ip: Addr)
    requires Untouched(s, key, ip) && e.op.OpAdd? && e.op.key != key
    ensures Led(Step(s, e).0.dev, key, ip)
  {
  }

  lemma ReplaceLeads(s: State, e: Event, key: Key, ip: Addr)
    requires Untouched(s, key, ip) && e.op.OpReplace? && e.op.newKey != key
    ensures Led(Step(s, e).0.dev, key, ip)
  {
  }

  lemma OtherLeads(s: State, e: Event, key: Key, ip: Addr)
    requires Untouched(s, key, ip) && !e.op.OpAdd? && !e.op.OpReplace?
    ensures Led(Step(s, e).0.dev, key, ip)
  {
  }

  /** A row that gives its key up was active, and its key is off the device then. */
  lemma KeyGivenUp(s: State, e: Event, id: PeerId)
    requires s.net.Valid() && UniqueKeys(s.rows) && FreshId(s, e) && id in s.rows
    requires id !in Step(s, e).0.rows || Step(s, e).0.rows[id].key != s.rows[id].key
    ensures s.rows[id].key in ActiveKeys(s.rows) && e.op.OpReplace? && s.rows[id].key !in Step(s, e).0.dev.peers
  {
    var changed := StepChangesOneRow(s, e);
    if s.rows[id].key !in ActiveKeys(s.rows) {
      InactiveKeepsKey(s, e, id);
    }
  }

  /** An insert that becomes possible does so because a row gave the key up. */
  lemma NewlyWritable(s: State, e: Event, p: Pending)
    requires s.net.Valid() && UniqueKeys(s.rows) && FreshId(s, e)
    requires !InsertAllowed(s.rows, p) && InsertAllowed(Step(s, e).0.rows, p)
    ensures p.key in ActiveKeys(s.rows) && p.key !in Step(s, e).0.dev.peers
  {
    var rows' := Step(s, e).0.rows;
    RowsStay(s, e);
    var id :| id in s.rows && s.rows[id].key == p.key;
    if id in rows' && rows'[id].key == p.key {
      NobodyHolds(rows', p, id);
    }
    KeyGivenUp(s, e, id);
  }

  lemma RowsStay(s: State, e: Event)
    requires s.net.Valid() && UniqueKeys(s.rows) && FreshId(s, e)
    ensures forall id :: id in s.rows ==> id in Step(s, e).0.rows
  {
    var changed := StepChangesOneRow(s, e);
  }

  lemma WholeLed(y: System, e: Event, c: CallId)
    requires RoutedSafe(y) && CarefulAct(y, Whole(e)) && c in y.calls && y.calls[c].stage.Configured?
    requires InsertAllowed(Step(y.st, e).0.rows, y.calls[c])
    ensures Led(Step(y.st, e).0.dev, y.calls[c].key, y.calls[c].stage.ip)
  {
    var key, ip := y.calls[c].key, y.calls[c].stage.ip;
    assert LiveFor(y, c, key) && Holds(y, c);
    if !InsertAllowed(y.st.rows, y.calls[c]) {
      NewlyWritable(y.st, e, y.calls[c]);
    } else {
      WritableInactive(y, c);
      if e.op.OpAdd? {
        AddLeads(y.st, e, key, ip);
      } else if e.op.OpReplace? {
        ReplaceLeads(y.st, e, key, ip);
      } else {
        OtherLeads(y.st, e, key, ip);
      }
    }
  }

  /** No clash comes from an operation: a call that has yet to configure has a key that is
      not active, so no row gives that key up. */
  lemma WholeNoClash(y: System, e: Event)
    requires RoutedSafe(y) && CarefulAct(y, Whole(e))
    ensures NoClash(y.(st := Step(y.st, e).0))
  {
    var y' := y.(st := Step(y.st, e).0);
    forall c, d | Live(y', c) && Live(y', d) && c != d && y'.calls[c].key == y'.calls[d].key
      ensures !Clash(y'.st, y'.calls[c], y'.calls[d])
    {
      assert Live(y, c) && Live(y, d) && !Clash(y.st, y.calls[c], y.calls[d]);
      if InsertAllowed(y'.st.rows, y.calls[c]) && !InsertAllowed(y.st.rows, y.calls[c]) {
        NewlyWritable(y.st, e, y.calls[c]);
        assert Grounded(y.st, y.calls[d]);
      }
    }
  }

  /** An active row an operation does not aim at stays as it is. */
  lemma NotAimedAt(s: State, e: Event, id: PeerId)
    requires s.net.Valid() && UniqueKeys(s.rows) && FreshId(s, e) && IsActive(s.rows, id) && !AimsAt(s, e, id)
    ensures var rows' := Step(s, e).0.rows; id in rows' && rows'[id] == s.rows[id]
  {
    match e.op
    case OpAdd(_, _, _) => var changed := AddChanges(s, e);
    case OpRemove(_, _) =>
    case OpReplace(_, _, _) =>
    case OpDisconnect(i) => AdminRows(s, i, Disconnected, e.fails);
    case OpRevoke(i) => AdminRows(s, i, Revoked, e.fails);
    case _ =>
  }

  lemma WholeCurrent(y: System, e: Event, r: SweepId)
    requires RoutedSafe(y) && CarefulAct(y, Whole(e)) && r in y.sweeps
    ensures Current(Step(y.st, e).0.rows, y.sweeps[r])
  {
    forall id | IsActive(y.sweeps[r].rows, id)
      ensures IsActive(Step(y.st, e).0.rows, id) && Step(y.st, e).0.rows[id] == y.st.rows[id]
    {
      NotAimedAt(y.st, e, id);
    }
  }

  lemma WholeRouted(y: System, a: Action)
    requires RoutedSafe(y) && a.Whole? && CarefulAct(y, a)
    ensures RoutedSafe(Act(y, a))
  {
    ActSafe(y, a);
    StepSafe(y.st, a.event);
    WholeNoClash(y, a.event);
    forall c | Live(y, c)
      ensures Grounded(Act(y, a).st, y.calls[c])
    {
      WholeGrounded(y, a.event, c);
    }
    forall c | c in y.calls && y.calls[c].stage.Configured? && InsertAllowed(Act(y, a).st.rows, y.calls[c])
      ensures Led(Act(y, a).st.dev, y.calls[c].key, y.calls[c].stage.ip)
    {
      WholeLed(y, a.event, c);
    }
    forall r | r in y.sweeps
      ensures Current(Act(y, a).st.rows, y.sweeps[r])
    {
      WholeCurrent(y, a.event, r);
    }
  }

  // -------------------------------------------------------------------- runs

  lemma ActRouted(y: System, a: Action)
    requires RoutedSafe(y) && CarefulAct(y, a)
    ensures RoutedSafe(Act(y, a))
  {
    match a
    case Begin(_, _, _, _, _) => BeginRouted(y, a);
    case Configure(_, _) => ConfigureRouted(y, a);
    case Persist(_, _) => PersistRouted(y, a);
    case Undo(_, _) => UndoRouted(y, a);
    case Allocate(_) => AddressRouted(y, a);
    case Release(_) => AddressRouted(y, a);
    case Compare(_, _) => CompareRouted(y, a);
    case Send(_, _) => SendRouted(y, a);
    case Rebuild(_, _, _) => RebuildRouted(y, a);
    case Whole(_) => WholeRouted(y, a);
    case _ => ListRouted(y, a);
  }

  ghost predicate CarefulActs(y: System, actions: seq<Action>)
    requires y.st.net.Valid()
    decreases |actions|
  {
    actions == [] || (CarefulAct(y, actions[0]) && CarefulActs(Act(y, actions[0]), actions[1..]))
  }

  /** Routing safety, interleaved: whatever calls fail, in every careful interleaving each
      active row whose key is on the device has its address routed to it. */
  lemma {:induction false} InterleavingRouted(y: System, actions: seq<Action>)
    requires RoutedSafe(y) && CarefulActs(y, actions)
    ensures RoutedSafe(Interleave(y, actions))
    decreases |actions|
  {
    if actions != [] {
      ActRouted(y, actions[0]);
      InterleavingRouted(Act(y, actions[0]), actions[1..]);
    }
  }
}
