/** What a run of whole peer operations never does to the rows: revocation is permanent
    short of an admin disconnect of that very row, and quotas hold. Both are about runs
    in which any call may fail. Revocation with calls in flight is in Revocation. */
module PeerHistory {
  import opened Common
  import opened Wire
  import opened PeerModel
  import opened PeerSafety

  /** How one event may change the one row it touches. */
  ghost predicate RowChange(s: State, e: Event, id: PeerId, rows': map<PeerId, Row>) {
    id in rows' &&
    var row' := rows'[id];
    if id !in s.rows then
      e.op.OpAdd? && row'.owner == e.op.uid && (forall j :: j in s.rows ==> s.rows[j].key != row'.key)
    else
      var row := s.rows[id];
      || row' == row
      || (e.op.OpAdd? && row.owner == e.op.uid && row.status == Disconnected
          && row' == row.(ip := row'.ip, status := Active))
      || (row.status == Active && row' == row.(status := Disconnected))
      || ((e.op == OpDisconnect(id) || e.op == OpRevoke(id)) && row' == row.(status := row'.status)
          && row'.status == (if e.op.OpRevoke? then Revoked else Disconnected))
      || (row.status == Active && row' == row.(key := row'.key) && !HeldByOther(s.rows, id, row'.key))
  }

  ghost predicate SameElsewhere(rows: map<PeerId, Row>, id: PeerId, rows': map<PeerId, Row>) {
    rows'.Keys <= rows.Keys + {id} && rows.Keys <= rows'.Keys &&
    forall j :: j in rows && j != id ==> rows'[j] == rows[j]
  }

  ghost predicate ChangesAtMost(s: State, e: Event, id: PeerId, rows': map<PeerId, Row>) {
    rows' == s.rows || (SameElsewhere(s.rows, id, rows') && RowChange(s, e, id, rows'))
  }

  lemma AddChanges(s: State, e: Event) returns (id: PeerId)
    requires s.net.Valid() && UniqueKeys(s.rows) && FreshId(s, e) && e.op.OpAdd?
    ensures var rows' := Step(s, e).0.rows;
            ChangesAtMost(s, e, id, rows') &&
            (rows' != s.rows ==>
              e.op.uid in s.users && |ActiveOf(s.rows, e.op.uid)| < s.users[e.op.uid].maxPeers
              && rows'[id].owner == e.op.uid)
  {
    id := 0;
    var admission := CheckAdd(s, e.op.uid, e.op.key, e.fails);
    if admission.Admit? {
      AdmitMeans(s, e.op.uid, e.op.key, e.fails);
      id := if admission.existing.Some? then admission.existing.value else e.op.newId;
    }
  }

  /** The table after an admin call: untouched, disconnected by the inner removal, or
      carrying the requested status. */
  lemma AdminRows(s: State, id: PeerId, status: Status, fails: set<Call>)
    requires UniqueKeys(s.rows)
    ensures var rows' := AdminSetStatus(s, id, status, fails).0.rows;
            || rows' == s.rows
            || (IsActive(s.rows, id) && rows' == WithStatus(s.rows, id, Disconnected))
            || (id in s.rows && rows' == WithStatus(s.rows, id, status))
  {
    if IsActive(s.rows, id) {
      assert ActiveHolder(s.rows, s.rows[id].owner, s.rows[id].key) == Some(id);
    }
  }

  lemma AdminChanges(s: State, e: Event, id: PeerId)
    requires s.net.Valid() && UniqueKeys(s.rows)
    requires e.op == OpDisconnect(id) || e.op == OpRevoke(id)
    ensures ChangesAtMost(s, e, id, Step(s, e).0.rows)
  {
    AdminRows(s, id, if e.op.OpRevoke? then Revoked else Disconnected, e.fails);
  }

  lemma KeyChanges(s: State, e: Event, id: PeerId)
    requires s.net.Valid()
    requires match e.op
             case OpRemove(uid, key) => ActiveHolder(s.rows, uid, key) == Some(id)
             case OpReplace(uid, oldKey, _) => ActiveHolder(s.rows, uid, oldKey) == Some(id)
             case _ => false
    ensures ChangesAtMost(s, e, id, Step(s, e).0.rows)
  {
  }

  /** Every event leaves the table alone or changes one row in one of the ways above. */
  lemma StepChangesOneRow(s: State, e: Event) returns (id: PeerId)
    requires s.net.Valid() && UniqueKeys(s.rows) && FreshId(s, e)
    ensures ChangesAtMost(s, e, id, Step(s, e).0.rows)
  {
    id := 0;
    match e.op
    case OpAdd(_, _, _) => id := AddChanges(s, e);
    case OpRemove(uid, key) =>
      if ActiveHolder(s.rows, uid, key).Some? {
        id := ActiveHolder(s.rows, uid, key).value;
        KeyChanges(s, e, id);
      }
    case OpReplace(uid, oldKey, _) =>
      if ActiveHolder(s.rows, uid, oldKey).Some? {
        id := ActiveHolder(s.rows, uid, oldKey).value;
        KeyChanges(s, e, id);
      }
    case OpDisconnect(i) => id := i; AdminChanges(s, e, i);
    case OpRevoke(i) => id := i; AdminChanges(s, e, i);
    case _ =>
  }

  lemma StepKeepsKeysUnique(s: State, e: Event)
    requires s.net.Valid() && UniqueKeys(s.rows) && FreshId(s, e)
    ensures UniqueKeys(Step(s, e).0.rows)
  {
    var id := StepChangesOneRow(s, e);
  }

  // -------------------------------------------------------------- revocation

  ghost predicate FreshRun(s: State, events: seq<Event>)
    requires s.net.Valid()
    decreases |events|
  {
    events == [] || (FreshId(s, events[0]) && FreshRun(Step(s, events[0]).0, events[1..]))
  }

  lemma StepKeepsRevoked(s: State, e: Event, id: PeerId)
    requires s.net.Valid() && UniqueKeys(s.rows) && FreshId(s, e)
    requires id in s.rows && s.rows[id].status == Revoked
    requires e.op != OpDisconnect(id)
    ensures var rows' := Step(s, e).0.rows; id in rows' && rows'[id] == s.rows[id]
  {
    var changed := StepChangesOneRow(s, e);
  }

  /** Along every run of whole operations without an admin disconnect of it, a revoked row
      keeps its status, key, owner and address; and whenever a Reconcile then succeeds,
      its key is off the device, even if ReplaceKey was aimed at it. */
  lemma {:induction false} RevokedForever(s: State, events: seq<Event>, id: PeerId)
    requires s.net.Valid() && UniqueKeys(s.rows) && FreshRun(s, events)
    requires id in s.rows && s.rows[id].status == Revoked
    requires forall i :: 0 <= i < |events| ==> events[i].op != OpDisconnect(id)
    ensures var s' := Run(s, events);
            && UniqueKeys(s'.rows)
            && id in s'.rows && s'.rows[id] == s.rows[id]
            && forall seen, fails :: Reconcile(s', seen, fails).1 == Done ==>
                 s.rows[id].key !in Reconcile(s', seen, fails).0.dev.peers
    decreases |events|
  {
    if events != [] {
      StepKeepsKeysUnique(s, events[0]);
      StepKeepsRevoked(s, events[0], id);
      RevokedForever(Step(s, events[0]).0, events[1..], id);
    }
  }

  // ------------------------------------------------------------------- quota

  /** No user has more active rows than their quota, and rows name known users
      (peers.user_id references users). */
  ghost predicate WithinQuota(s: State) {
    && (forall id :: id in s.rows ==> s.rows[id].owner in s.users)
    && (forall uid :: uid in s.users ==> |ActiveOf(s.rows, uid)| <= s.users[uid].maxPeers)
  }

  ghost predicate QuotaNotLowered(s: State, e: Event) {
    e.op.OpSetUser? ==>
      (if e.op.uid in s.users then s.users[e.op.uid].maxPeers else 0) <= e.op.user.maxPeers
  }

  /** Changing one row adds at most that row to a user's active rows. */
  lemma OneRowCount(rows: map<PeerId, Row>, id: PeerId, rows': map<PeerId, Row>, uid: UserId)
    requires SameElsewhere(rows, id, rows')
    ensures |ActiveOf(rows', uid)| <= |ActiveOf(rows, uid)| + 1
    ensures id !in ActiveOf(rows', uid) || id in ActiveOf(rows, uid) ==>
              |ActiveOf(rows', uid)| <= |ActiveOf(rows, uid)|
  {
    var before, after := ActiveOf(rows, uid), ActiveOf(rows', uid);
    forall j | j in after && j != id
      ensures j in before
    {
    }
    if id !in after || id in before {
      SubsetSize(after, before);
    } else {
      SubsetSize(after, before + {id});
    }
  }

  lemma UsersUnlessSet(s: State, e: Event)
    requires s.net.Valid() && !e.op.OpSetUser?
    ensures Step(s, e).0.users == s.users
  {
  }

  lemma AddWithinQuota(s: State, e: Event)
    requires QuotaInv(s) && FreshId(s, e) && e.op.OpAdd?
    ensures WithinQuota(Step(s, e).0)
  {
    var s' := Step(s, e).0;
    UsersUnlessSet(s, e);
    var id := AddChanges(s, e);
    forall uid | uid in s'.users
      ensures |ActiveOf(s'.rows, uid)| <= s'.users[uid].maxPeers
    {
      if s'.rows != s.rows {
        OneRowCount(s.rows, id, s'.rows, uid);
      }
    }
  }

  lemma OtherWithinQuota(s: State, e: Event)
    requires QuotaInv(s) && FreshId(s, e) && !e.op.OpAdd? && !e.op.OpSetUser?
    ensures WithinQuota(Step(s, e).0)
  {
    var s' := Step(s, e).0;
    UsersUnlessSet(s, e);
    var id := StepChangesOneRow(s, e);
    forall uid | uid in s'.users
      ensures |ActiveOf(s'.rows, uid)| <= s'.users[uid].maxPeers
    {
      if s'.rows != s.rows {
        OneRowCount(s.rows, id, s'.rows, uid);
      }
    }
  }

  ghost predicate QuotaInv(s: State) {
    s.net.Valid() && UniqueKeys(s.rows) && WithinQuota(s)
  }

  lemma StepWithinQuota(s: State, e: Event)
    requires QuotaInv(s) && FreshId(s, e) && QuotaNotLowered(s, e)
    ensures QuotaInv(Step(s, e).0)
  {
    StepKeepsKeysUnique(s, e);
    match e.op
    case OpAdd(_, _, _) => AddWithinQuota(s, e);
    case OpSetUser(uid, _) =>
      if uid !in s.users {
        assert forall id :: id in s.rows ==> s.rows[id].owner != uid;
        assert ActiveOf(s.rows, uid) == {};
      }
    case _ => OtherWithinQuota(s, e);
  }

  ghost predicate QuotaRun(s: State, events: seq<Event>)
    requires s.net.Valid()
    decreases |events|
  {
    events == [] ||
    (FreshId(s, events[0]) && QuotaNotLowered(s, events[0]) &&
     QuotaRun(Step(s, events[0]).0, events[1..]))
  }

  /** Quota over sequential runs: fresh registrations, reactivations, key changes,
      removals and failed adds never push a user above max_peers. */
  lemma {:induction false} RunWithinQuota(s: State, events: seq<Event>)
    requires QuotaInv(s) && QuotaRun(s, events)
    ensures QuotaInv(Run(s, events))
    decreases |events|
  {
    if events != [] {
      StepWithinQuota(s, events[0]);
      RunWithinQuota(Step(s, events[0]).0, events[1..]);
    }
  }
}
