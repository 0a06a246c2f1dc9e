/** Without failures the replicas are redundant: the whole state is a function of the
    tables and the server key, and every operation is a small table update. */
module PeerRefinement {
  import opened Common
  import opened Wire
  import opened PeerModel
  import opened PeerSafety
  import Ipam

  /** The one truth. */
  datatype Table = Table(net: Ipam.Subnet, server: Addr, users: map<UserId, User>,
                         rows: map<PeerId, Row>, serverKey: Key)

  /** The state in which device and allocator hold exactly what the table says: the
      device has the active rows and their addresses under the server's key, and the
      server address and the active addresses are held back. */
  ghost function Expand(t: Table): State {
    State(t.net, t.server, t.users, t.rows, Rebuilt(t.rows, t.serverKey),
          {t.server} + ActiveAddrs(t.rows), t.serverKey)
  }

  ghost predicate GoodTable(t: Table) {
    && t.net.Valid() && UniqueKeys(t.rows) && DistinctActive(t.rows) && ActiveInside(t.net, t.rows)
    && t.server !in ActiveAddrs(t.rows)
  }

  lemma ExpandSafe(t: Table)
    requires GoodTable(t)
    ensures Safe(Expand(t)) && FullyRouted(Expand(t))
  {
    var s := Expand(t);
    assert Sound(s.(dev := Device(t.serverKey, {}, map[])));
    RebuildSafe(s.(dev := Device(t.serverKey, {}, map[])), t.serverKey);
  }

  /** The key is new, or its row is the caller's own and disconnected. */
  ghost predicate MayClaim(rows: map<PeerId, Row>, uid: UserId, key: Key) {
    forall id :: id in rows && rows[id].key == key ==> rows[id].owner == uid && rows[id].status == Disconnected
  }

  /** ReplaceKey aimed at a key that another row of the table holds. */
  ghost predicate Clashes(rows: map<PeerId, Row>, op: Op)
    requires op.OpReplace?
  {
    var target := ActiveHolder(rows, op.uid, op.oldKey);
    target.Some? && HeldByOther(rows, target.value, op.newKey)
  }

  /** The abstract operations: no device, no allocator. */
  ghost function TableStep(t: Table, op: Op): Table
    requires t.net.Valid()
  {
    match op
    case OpAdd(uid, key, newId) =>
      var free := Ipam.FirstFree(t.net, {t.server} + ActiveAddrs(t.rows));
      if uid in t.users && t.users[uid].active && |ActiveOf(t.rows, uid)| < t.users[uid].maxPeers
         && MayClaim(t.rows, uid, key) && free.Some? then
        var id := match Holder(t.rows, key) case Some(id) => id case None => newId;
        t.(rows := t.rows[id := Row(uid, key, free.value, Active)])
      else t
    case OpRemove(uid, key) =>
      (match ActiveHolder(t.rows, uid, key)
       case Some(id) => t.(rows := t.rows[id := t.rows[id].(status := Disconnected)])
       case None => t)
    case OpReplace(uid, oldKey, newKey) =>
      (match ActiveHolder(t.rows, uid, oldKey)
       case Some(id) => if Clashes(t.rows, op) then t else t.(rows := t.rows[id := t.rows[id].(key := newKey)])
       case None => t)
    case OpDisconnect(id) => t.(rows := WithStatus(t.rows, id, Disconnected))
    case OpRevoke(id) => t.(rows := WithStatus(t.rows, id, Revoked))
    case OpReconcile(_) => t
    case OpRotate(newKey) => t.(serverKey := newKey)
    case OpEnable => t
    case OpDisable => t
    case OpSetUser(uid, user) => t.(users := t.users[uid := user])
  }

  // ------------------------------------------------ how the rebuilt device moves

  lemma KeyAtRow(rows: map<PeerId, Row>, id: PeerId)
    requires DistinctActive(rows) && IsActive(rows, id)
    ensures rows[id].ip in ActiveAddrs(rows) && KeyAt(rows, rows[id].ip) == rows[id].key
  {
  }

  /** A rebuilt device is known by its active rows. */
  lemma RebuiltIs(rows: map<PeerId, Row>, d: Device)
    requires DistinctActive(rows)
    requires d.peers == ActiveKeys(rows) && d.route.Keys == ActiveAddrs(rows)
    requires forall id :: IsActive(rows, id) ==> rows[id].ip in d.route && d.route[rows[id].ip] == rows[id].key
    ensures d == Rebuilt(rows, d.privateKey)
  {
    forall a | a in ActiveAddrs(rows)
      ensures d.route[a] == KeyAt(rows, a)
    {
      var id :| id in rows && rows[id].status == Active && rows[id].ip == a && KeyAt(rows, a) == rows[id].key;
      assert IsActive(rows, id);
    }
    assert d.route == Rebuilt(rows, d.privateKey).route;
  }

  lemma RebuiltRoutes(rows: map<PeerId, Row>, privateKey: Key)
    requires DistinctActive(rows)
    ensures var d := Rebuilt(rows, privateKey);
            d.route.Keys == ActiveAddrs(rows) &&
            forall id :: IsActive(rows, id) ==> rows[id].ip in d.route && d.route[rows[id].ip] == rows[id].key
  {
    forall id | IsActive(rows, id)
      ensures rows[id].ip in ActiveAddrs(rows) && KeyAt(rows, rows[id].ip) == rows[id].key
    {
      KeyAtRow(rows, id);
    }
  }

  /** A new active row on the rebuilt device is one Add entry. */
  lemma AddRow(rows: map<PeerId, Row>, privateKey: Key, id: PeerId, row: Row)
    requires DistinctActive(rows) && row.status == Active && row.ip !in ActiveAddrs(rows) && !IsActive(rows, id)
    ensures DistinctActive(rows[id := row])
    ensures ApplyEntry(Rebuilt(rows, privateKey), Add(row.key, row.ip)) == Rebuilt(rows[id := row], privateKey)
  {
    var rows' := rows[id := row];
    AddedRows(rows, id, row);
    RebuiltRoutes(rows, privateKey);
    var d := ApplyEntry(Rebuilt(rows, privateKey), Add(row.key, row.ip));
    forall j | IsActive(rows', j)
      ensures rows'[j].ip in d.route && d.route[rows'[j].ip] == rows'[j].key
    {
      assert j != id ==> rows'[j] == rows[j];
    }
    RebuiltIs(rows', d);
  }

  lemma AddedRows(rows: map<PeerId, Row>, id: PeerId, row: Row)
    requires row.status == Active && !IsActive(rows, id)
    ensures var rows' := rows[id := row];
            && (forall j :: IsActive(rows', j) <==> IsActive(rows, j) || j == id)
            && ActiveAddrs(rows') == ActiveAddrs(rows) + {row.ip}
            && ActiveKeys(rows') == ActiveKeys(rows) + {row.key}
  {
    var rows' := rows[id := row];
    forall j | IsActive(rows, j)
      ensures rows[j].ip in ActiveAddrs(rows') && rows[j].key in ActiveKeys(rows')
    {
      assert IsActive(rows', j) && rows'[j] == rows[j];
    }
    assert IsActive(rows', id) && rows'[id] == row;
  }

  lemma DeactivatedRows(rows: map<PeerId, Row>, id: PeerId, status: Status)
    requires UniqueKeys(rows) && DistinctActive(rows) && IsActive(rows, id) && status != Active
    ensures var rows' := WithStatus(rows, id, status);
            && (forall j :: IsActive(rows', j) <==> IsActive(rows, j) && j != id)
            && ActiveAddrs(rows') == ActiveAddrs(rows) - {rows[id].ip}
            && ActiveKeys(rows') == ActiveKeys(rows) - {rows[id].key}
  {
    var rows' := WithStatus(rows, id, status);
    forall j | IsActive(rows, j) && j != id
      ensures rows[j].ip in ActiveAddrs(rows') && rows[j].key in ActiveKeys(rows')
      ensures rows[j].ip != rows[id].ip && rows[j].key != rows[id].key
    {
      assert IsActive(rows', j) && rows'[j] == rows[j];
    }
    assert forall j :: IsActive(rows', j) ==> IsActive(rows, j) && j != id && rows'[j] == rows[j];
  }

  lemma StillRouted(rows: map<PeerId, Row>, privateKey: Key, id: PeerId, status: Status, j: PeerId)
    requires UniqueKeys(rows) && DistinctActive(rows) && IsActive(rows, id) && status != Active
    requires IsActive(WithStatus(rows, id, status), j)
    ensures var d := ApplyEntry(Rebuilt(rows, privateKey), Remove(rows[id].key));
            rows[j].ip in d.route && d.route[rows[j].ip] == rows[j].key && WithStatus(rows, id, status)[j] == rows[j]
  {
    DeactivatedRows(rows, id, status);
    RebuiltRoutes(rows, privateKey);
    assert IsActive(rows, j) && j != id;
  }

  lemma RoutesLeft(rows: map<PeerId, Row>, privateKey: Key, id: PeerId, status: Status, a: Addr)
    requires UniqueKeys(rows) && DistinctActive(rows) && IsActive(rows, id) && status != Active
    requires a in ApplyEntry(Rebuilt(rows, privateKey), Remove(rows[id].key)).route
    ensures a in ActiveAddrs(WithStatus(rows, id, status))
  {
    DeactivatedRows(rows, id, status);
    RebuiltRoutes(rows, privateKey);
    assert rows[id].ip in ActiveAddrs(rows);
  }

  /** An active row leaving the rebuilt device is one Remove entry. */
  lemma DropRow(rows: map<PeerId, Row>, privateKey: Key, id: PeerId, status: Status)
    requires UniqueKeys(rows) && DistinctActive(rows) && IsActive(rows, id) && status != Active
    ensures ApplyEntry(Rebuilt(rows, privateKey), Remove(rows[id].key))
            == Rebuilt(WithStatus(rows, id, status), privateKey)
  {
    var rows' := WithStatus(rows, id, status);
    DeactivatedRows(rows, id, status);
    var d := ApplyEntry(Rebuilt(rows, privateKey), Remove(rows[id].key));
    forall j | IsActive(rows', j)
      ensures rows'[j].ip in d.route && d.route[rows'[j].ip] == rows'[j].key
    {
      StillRouted(rows, privateKey, id, status, j);
    }
    forall a | a in d.route
      ensures a in ActiveAddrs(rows')
    {
      RoutesLeft(rows, privateKey, id, status, a);
    }
    RebuiltIs(rows', d);
  }

  // ------------------------------------------------------- operation by operation

  const NO_FAULTS: set<Call> := {}

  lemma AddRefines(t: Table, uid: UserId, key: Key, newId: PeerId)
    requires GoodTable(t) && newId !in t.rows
    ensures var t' := TableStep(t, OpAdd(uid, key, newId));
            AddPeer(Expand(t), uid, key, newId, NO_FAULTS).0 == Expand(t') && GoodTable(t')
  {
    var s := Expand(t);
    var admission := CheckAdd(s, uid, key, NO_FAULTS);
    var free := Ipam.FirstFree(t.net, s.used);
    AdmissionMatches(s, uid, key);
    if admission.Admit? && free.Some? {
      AdmitMeans(s, uid, key, NO_FAULTS);
      var id := if admission.existing.Some? then admission.existing.value else newId;
      var row := Row(uid, key, free.value, Active);
      assert Persisted(t.rows, admission.existing, newId, uid, key, free.value) == t.rows[id := row];
      AddRow(t.rows, t.serverKey, id, row);
      AddedRows(t.rows, id, row);
    }
  }

  lemma AdmissionMatches(s: State, uid: UserId, key: Key)
    requires UniqueKeys(s.rows)
    ensures CheckAdd(s, uid, key, NO_FAULTS).Admit? <==>
            uid in s.users && s.users[uid].active && |ActiveOf(s.rows, uid)| < s.users[uid].maxPeers
            && MayClaim(s.rows, uid, key)
    ensures CheckAdd(s, uid, key, NO_FAULTS).Admit? ==>
            CheckAdd(s, uid, key, NO_FAULTS).existing == Holder(s.rows, key)
  {
  }

  lemma RemoveRefines(t: Table, uid: UserId, key: Key)
    requires GoodTable(t)
    ensures var t' := TableStep(t, OpRemove(uid, key));
            RemovePeer(Expand(t), uid, key, NO_FAULTS).0 == Expand(t') && GoodTable(t')
  {
    var target := ActiveHolder(t.rows, uid, key);
    if target.Some? {
      DropRow(t.rows, t.serverKey, target.value, Disconnected);
      DeactivatedRows(t.rows, target.value, Disconnected);
    }
  }

  lemma AdminRefines(t: Table, id: PeerId, status: Status)
    requires GoodTable(t) && status != Active
    ensures var t' := t.(rows := WithStatus(t.rows, id, status));
            AdminSetStatus(Expand(t), id, status, NO_FAULTS).0 == Expand(t') && GoodTable(t')
  {
    if IsActive(t.rows, id) {
      var row := t.rows[id];
      assert ActiveHolder(t.rows, row.owner, row.key) == Some(id);
      RemoveRefines(t, row.owner, row.key);
      DropRow(t.rows, t.serverKey, id, status);
      DropRow(t.rows, t.serverKey, id, Disconnected);
      DeactivatedRows(t.rows, id, status);
    } else {
      SameActive(t.rows, WithStatus(t.rows, id, status), t.serverKey);
    }
  }

  /** Device and allocator contents depend only on the active rows. */
  lemma SameActive(rows: map<PeerId, Row>, rows': map<PeerId, Row>, privateKey: Key)
    requires DistinctActive(rows)
    requires forall id :: IsActive(rows, id) <==> IsActive(rows', id)
    requires forall id :: IsActive(rows, id) ==> id in rows' && rows[id] == rows'[id]
    ensures ActiveAddrs(rows) == ActiveAddrs(rows') && DistinctActive(rows')
    ensures Rebuilt(rows, privateKey) == Rebuilt(rows', privateKey)
  {
    assert forall id :: id in ActiveIds(rows) ==> IsActive(rows', id) && rows'[id] == rows[id];
    assert forall id :: id in ActiveIds(rows') ==> IsActive(rows, id) && rows'[id] == rows[id];
    RebuiltRoutes(rows, privateKey);
    RebuiltIs(rows', Rebuilt(rows, privateKey));
  }

  lemma RekeyedRows(rows: map<PeerId, Row>, id: PeerId, newKey: Key)
    requires UniqueKeys(rows) && DistinctActive(rows) && IsActive(rows, id) && !HeldByOther(rows, id, newKey)
    ensures var rows' := rows[id := rows[id].(key := newKey)];
            && UniqueKeys(rows') && DistinctActive(rows')
            && ActiveAddrs(rows') == ActiveAddrs(rows)
            && ActiveKeys(rows') == ActiveKeys(rows) - {rows[id].key} + {newKey}
  {
    var gone := WithStatus(rows, id, Disconnected);
    DeactivatedRows(rows, id, Disconnected);
    AddedRows(gone, id, rows[id].(key := newKey));
    assert gone[id := rows[id].(key := newKey)] == rows[id := rows[id].(key := newKey)];
  }

  /** One key change is one table update exactly when it does not clash with another
      row; when it does, the replicas no longer agree with any table at all. */
  lemma ReplaceRefines(t: Table, uid: UserId, oldKey: Key, newKey: Key)
    requires GoodTable(t)
    ensures var op := OpReplace(uid, oldKey, newKey);
            var s', t' := ReplaceKey(Expand(t), uid, oldKey, newKey, NO_FAULTS).0, TableStep(t, op);
            && GoodTable(t')
            && (s' == Expand(t') <==> !Clashes(t.rows, op))
            && (Clashes(t.rows, op) ==> forall other :: s' != Expand(other))
  {
    var target := ActiveHolder(t.rows, uid, oldKey);
    if target.Some? {
      var id := target.value;
      var row' := t.rows[id].(key := newKey);
      if HeldByOther(t.rows, id, newKey) {
        var s' := ReplaceKey(Expand(t), uid, oldKey, newKey, NO_FAULTS).0;
        assert newKey != oldKey;
        assert oldKey !in s'.dev.peers && oldKey in ActiveKeys(t.rows);
      } else {
        DropRow(t.rows, t.serverKey, id, Disconnected);
        var gone := WithStatus(t.rows, id, Disconnected);
        DeactivatedRows(t.rows, id, Disconnected);
        AddRow(gone, t.serverKey, id, row');
        assert gone[id := row'] == t.rows[id := row'];
        RekeyedRows(t.rows, id, newKey);
      }
    }
  }

  // -------------------------------------------------------------------- runs

  /** What the refinement asks of one event: nothing fails, the interface is not
      disabled, row ids are new, and ReplaceKey does not aim at a key some row holds. */
  ghost predicate Smooth(t: Table, op: Op) {
    && !op.OpDisable?
    && (op.OpAdd? ==> op.newId !in t.rows)
    && (op.OpReplace? ==> !Clashes(t.rows, op))
  }

  /** One failure-free operation on the replicas is one update of the table. */
  lemma StepRefines(t: Table, op: Op)
    requires GoodTable(t) && Smooth(t, op)
    ensures Step(Expand(t), Event(op, NO_FAULTS)).0 == Expand(TableStep(t, op))
    ensures GoodTable(TableStep(t, op))
  {
    match op
    case OpAdd(uid, key, newId) => AddRefines(t, uid, key, newId);
    case OpRemove(uid, key) => RemoveRefines(t, uid, key);
    case OpReplace(uid, oldKey, newKey) => ReplaceRefines(t, uid, oldKey, newKey);
    case OpDisconnect(id) => AdminRefines(t, id, Disconnected);
    case OpRevoke(id) => AdminRefines(t, id, Revoked);
    case _ =>
  }

  ghost predicate SmoothRun(t: Table, ops: seq<Op>)
    requires t.net.Valid()
    decreases |ops|
  {
    ops == [] || (Smooth(t, ops[0]) && SmoothRun(TableStep(t, ops[0]), ops[1..]))
  }

  ghost function TableRun(t: Table, ops: seq<Op>): Table
    requires t.net.Valid()
    decreases |ops|
  {
    if ops == [] then t else TableRun(TableStep(t, ops[0]), ops[1..])
  }

  ghost function Faultless(ops: seq<Op>): seq<Event> {
    seq(|ops|, i requires 0 <= i < |ops| => Event(ops[i], NO_FAULTS))
  }

  /** Failure-free refinement: after any smooth run the device peers are exactly the
      active rows with their addresses under the current server key, and the reserved
      addresses are exactly the server's and the active ones; nothing leaks and nothing
      is freed early. */
  lemma {:induction false} RunRefines(t: Table, ops: seq<Op>)
    requires GoodTable(t) && SmoothRun(t, ops)
    ensures Run(Expand(t), Faultless(ops)) == Expand(TableRun(t, ops))
    ensures GoodTable(TableRun(t, ops))
    decreases |ops|
  {
    if ops != [] {
      StepRefines(t, ops[0]);
      RunRefines(TableStep(t, ops[0]), ops[1..]);
      assert Faultless(ops)[1..] == Faultless(ops[1..]);
    }
  }

  /** Start-up: with only the server address reserved and whatever was on the interface,
      an Enable and a Reconcile that both report success leave the replicas redundant. */
  lemma BootRefines(s: State, t: Table, fails: set<Call>, seen: set<Key>, fails': set<Call>)
    requires GoodTable(t)
    requires t == Table(s.net, s.server, s.users, s.rows, s.serverKey) && s.used == {s.server}
    requires Enable(s, fails).1 == Done && Reconcile(Enable(s, fails).0, seen, fails').1 == Done
    ensures Reconcile(Enable(s, fails).0, seen, fails').0 == Expand(t)
  {
  }

  // ------------------------------------------------------- a run that strands

  /** Stranding is reachable from every good table with two active rows: the owner of j
      removes it while the table write fails, then the owner of i changes its key to j's.
      The row of j is then active, its key on the device and its address not, and no
      sequence of Reconciles repairs it. */
  lemma StrandingHappens(t: Table, i: PeerId, j: PeerId, attempts: seq<Attempt>)
    requires GoodTable(t) && IsActive(t.rows, i) && IsActive(t.rows, j) && i != j
    ensures var ri, rj := t.rows[i], t.rows[j];
            var s1 := RemovePeer(Expand(t), rj.owner, rj.key, {Persist}).0;
            var s2 := ReplaceKey(s1, ri.owner, ri.key, rj.key, {}).0;
            && Safe(s1) && StrandsOther(s1, ri.owner, ri.key, rj.key)
            && IsActive(s2.rows, j) && s2.rows[j] == rj && rj.key in s2.dev.peers
            && !Routed(s2) && !Routed(Reconciles(s2, attempts))
  {
    var ri, rj := t.rows[i], t.rows[j];
    ExpandSafe(t);
    RemovePeerSafe(Expand(t), rj.owner, rj.key, {Persist});
    var s1 := RemovePeer(Expand(t), rj.owner, rj.key, {Persist}).0;
    assert ActiveHolder(t.rows, rj.owner, rj.key) == Some(j);
    assert s1.rows == t.rows && rj.key !in s1.dev.peers;
    assert ActiveHolder(s1.rows, ri.owner, ri.key) == Some(i);
    ReplaceKeySafeIff(s1, ri.owner, ri.key, rj.key, {});
    StrandedSurvivesReconcile(s1, ri.owner, ri.key, rj.key, {}, attempts);
    SwapSafeIff(s1, i, rj.key);
    assert HeldByOther(s1.rows, i, rj.key);
  }
}
