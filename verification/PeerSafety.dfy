/** Safety over whole runs in which any store or device call may fail, the hand-written
    compensations included. */
module PeerSafety {
  import opened Common
  import opened Wire
  import opened PeerModel
  import Ipam

  /** What AddPeer's admission checks amount to: no active row has the key, and an
      existing row belongs to the caller and is disconnected. */
  lemma AdmitMeans(s: State, uid: UserId, key: Key, fails: set<Call>)
    requires UniqueKeys(s.rows) && CheckAdd(s, uid, key, fails).Admit?
    ensures key !in ActiveKeys(s.rows)
    ensures uid in s.users && |ActiveOf(s.rows, uid)| < s.users[uid].maxPeers
    ensures match CheckAdd(s, uid, key, fails).existing
            case None => forall id :: id in s.rows ==> s.rows[id].key != key
            case Some(id) => id in s.rows && s.rows[id].key == key && s.rows[id].owner == uid
                             && s.rows[id].status == Disconnected
  {
  }

  ghost predicate Safe(s: State) {
    Sound(s) && Routed(s)
  }

  // One lemma for each elementary effect.

  /** Giving an address no active row uses to a key no active row has disturbs nobody. */
  lemma ConfigureUnclaimedSafe(s: State, key: Key, ip: Addr)
    requires Safe(s) && key !in ActiveKeys(s.rows) && ip !in ActiveAddrs(s.rows)
    ensures Safe(s.(dev := ApplyEntry(s.dev, Add(key, ip))))
  {
  }

  lemma RemoveKeySafe(s: State, key: Key)
    requires Safe(s)
    ensures Safe(s.(dev := ApplyEntry(s.dev, Remove(key))))
  {
  }

  lemma DeactivateSafe(s: State, id: PeerId, status: Status)
    requires Safe(s) && status != Active
    ensures Safe(s.(rows := WithStatus(s.rows, id, status)))
  {
  }

  lemma PersistSafe(s: State, existing: Option<PeerId>, newId: PeerId, uid: UserId, key: Key, ip: Addr)
    requires Safe(s) && s.net.Contains(ip) && ip !in s.used
    requires ip in s.dev.route && s.dev.route[ip] == key
    requires match existing
             case None => newId !in s.rows && forall id :: id in s.rows ==> s.rows[id].key != key
             case Some(id) => id in s.rows && s.rows[id].key == key && s.rows[id].status != Active
    ensures Safe(s.(used := s.used + {ip}, rows := Persisted(s.rows, existing, newId, uid, key, ip)))
  {
    var id := if existing.Some? then existing.value else newId;
    var rows' := Persisted(s.rows, existing, newId, uid, key, ip);
    assert forall j :: IsActive(rows', j) && j != id ==> IsActive(s.rows, j) && rows'[j] == s.rows[j];
    assert ActiveAddrs(rows') <= ActiveAddrs(s.rows) + {ip};
  }

  // One lemma for each operation.

  lemma AddPeerSafe(s: State, uid: UserId, key: Key, newId: PeerId, fails: set<Call>)
    requires Safe(s) && newId !in s.rows
    ensures Safe(AddPeer(s, uid, key, newId, fails).0)
  {
    var admission, free := CheckAdd(s, uid, key, fails), Ipam.FirstFree(s.net, s.used);
    if admission.Admit? && free.Some? && ConfigureDevice !in fails {
      AdmitMeans(s, uid, key, fails);
      ConfigureUnclaimedSafe(s, key, free.value);
      var s1 := s.(dev := ApplyEntry(s.dev, Add(key, free.value)));
      if Persist in fails {
        RemoveKeySafe(s1, key);
      } else {
        PersistSafe(s1, admission.existing, newId, uid, key, free.value);
      }
    }
  }

  lemma RemovePeerSafe(s: State, uid: UserId, key: Key, fails: set<Call>)
    requires Safe(s)
    ensures Safe(RemovePeer(s, uid, key, fails).0)
  {
  }

  lemma AdminSetStatusSafe(s: State, id: PeerId, status: Status, fails: set<Call>)
    requires Safe(s) && status != Active
    ensures Safe(AdminSetStatus(s, id, status, fails).0)
  {
    if LoadPeer !in fails && id in s.rows {
      RemovePeerSafe(s, s.rows[id].owner, s.rows[id].key, fails);
      var s1 := if s.rows[id].status == Active then RemovePeer(s, s.rows[id].owner, s.rows[id].key, fails).0 else s;
      DeactivateSafe(s1, id, status);
    }
  }

  /** ReplaceKey would configure a key that another active row already holds while that
      row is off the device: the device then carries the key without the row's address. */
  ghost predicate StrandsOther(s: State, uid: UserId, oldKey: Key, newKey: Key) {
    var target := ActiveHolder(s.rows, uid, oldKey);
    target.Some? &&
    exists j :: IsActive(s.rows, j) && j != target.value && s.rows[j].key == newKey
                && (newKey !in s.dev.peers)
  }

  /** The device after the two entries of ReplaceKey, rows unchanged. */
  lemma SwapSafeIff(s: State, id: PeerId, newKey: Key)
    requires Safe(s) && IsActive(s.rows, id)
    ensures var d := ApplyEntry(ApplyEntry(s.dev, Remove(s.rows[id].key)), Add(newKey, s.rows[id].ip));
            && d.Valid()
            && newKey in d.peers && s.rows[id].ip in d.route && d.route[s.rows[id].ip] == newKey
            && (Routed(s.(dev := d)) <==>
                newKey in s.dev.peers || !exists j :: IsActive(s.rows, j) && j != id && s.rows[j].key == newKey)
  {
    var row := s.rows[id];
    var d1 := ApplyEntry(s.dev, Remove(row.key));
    RemoveKeySafe(s, row.key);
    var d := ApplyEntry(d1, Add(newKey, row.ip));
    assert forall a :: a in d1.route && a != row.ip ==> a in d.route && d.route[a] == d1.route[a];
    if j :| IsActive(s.rows, j) && j != id && s.rows[j].key == newKey {
      assert s.rows[j].ip != row.ip;
      if newKey !in s.dev.peers {
        assert s.rows[j].ip !in d.route || d.route[s.rows[j].ip] != newKey;
      }
    }
  }

  lemma RekeySafe(s: State, id: PeerId, newKey: Key)
    requires Sound(s) && IsActive(s.rows, id) && !HeldByOther(s.rows, id, newKey)
    requires newKey in s.dev.peers && s.rows[id].ip in s.dev.route && s.dev.route[s.rows[id].ip] == newKey
    ensures var s' := s.(rows := s.rows[id := s.rows[id].(key := newKey)]);
            Sound(s') && (Routed(s) ==> Routed(s'))
  {
    var rows' := s.rows[id := s.rows[id].(key := newKey)];
    assert forall j :: IsActive(rows', j) && j != id ==> IsActive(s.rows, j) && rows'[j] == s.rows[j];
    assert ActiveAddrs(rows') <= ActiveAddrs(s.rows);
  }

  /** ReplaceKey keeps routing safe exactly when its device call does not happen or it
      strands nobody. */
  lemma ReplaceKeySafeIff(s: State, uid: UserId, oldKey: Key, newKey: Key, fails: set<Call>)
    requires Safe(s)
    ensures var s' := ReplaceKey(s, uid, oldKey, newKey, fails).0;
            Sound(s') &&
            (Routed(s') <==> FindActive in fails || ConfigureDevice in fails || !StrandsOther(s, uid, oldKey, newKey))
  {
    var target := ActiveHolder(s.rows, uid, oldKey);
    if FindActive !in fails && ConfigureDevice !in fails && target.Some? {
      var id := target.value;
      SwapSafeIff(s, id, newKey);
      var s1 := s.(dev := ApplyEntry(ApplyEntry(s.dev, Remove(oldKey)), Add(newKey, s.rows[id].ip)));
      assert Sound(s1);
      if Persist !in fails && !HeldByOther(s.rows, id, newKey) {
        RekeySafe(s1, id, newKey);
      }
    }
  }

  lemma ReconcileSafe(s: State, seen: set<Key>, fails: set<Call>)
    requires Safe(s)
    ensures var (s', o) := Reconcile(s, seen, fails);
            Safe(s') && (o == Done ==> FullyRouted(s') && s'.dev.peers == ActiveKeys(s'.rows))
  {
  }

  lemma RebuildSafe(s: State, privateKey: Key)
    requires Sound(s)
    ensures var s' := s.(dev := Rebuilt(s.rows, privateKey)); Safe(s') && FullyRouted(s')
  {
  }

  datatype Attempt = Attempt(seen: set<Key>, fails: set<Call>)

  /** Reconcile after Reconcile, each with its own failures. */
  ghost function Reconciles(s: State, attempts: seq<Attempt>): State
    decreases |attempts|
  {
    if attempts == [] then s
    else Reconciles(Reconcile(s, attempts[0].seen, attempts[0].fails).0, attempts[1..])
  }

  lemma ReconcileKeepsUnrouted(s: State, seen: set<Key>, fails: set<Call>)
    requires Sound(s) && !Routed(s)
    ensures var s' := Reconcile(s, seen, fails).0; Sound(s') && !Routed(s')
  {
    var id :| IsActive(s.rows, id) && s.rows[id].key in s.dev.peers
              && !(s.rows[id].ip in s.dev.route && s.dev.route[s.rows[id].ip] == s.rows[id].key);
    assert s.rows[id].ip !in MissingAddrs(s.rows, s.dev);
  }

  /** Reconcile only compares key sets: a row whose key is on the device without its
      address keeps missing it through any sequence of Reconciles. */
  lemma {:induction false} UnroutedForever(s: State, attempts: seq<Attempt>)
    requires Sound(s) && !Routed(s)
    ensures !Routed(Reconciles(s, attempts))
    decreases |attempts|
  {
    if attempts != [] {
      ReconcileKeepsUnrouted(s, attempts[0].seen, attempts[0].fails);
      UnroutedForever(Reconcile(s, attempts[0].seen, attempts[0].fails).0, attempts[1..]);
    }
  }

  /** In particular a row that ReplaceKey has stranded is never repaired. */
  lemma StrandedSurvivesReconcile(s: State, uid: UserId, oldKey: Key, newKey: Key, fails: set<Call>,
                                  attempts: seq<Attempt>)
    requires Safe(s) && StrandsOther(s, uid, oldKey, newKey)
    requires FindActive !in fails && ConfigureDevice !in fails
    ensures !Routed(Reconciles(ReplaceKey(s, uid, oldKey, newKey, fails).0, attempts))
  {
    ReplaceKeySafeIff(s, uid, oldKey, newKey, fails);
    UnroutedForever(ReplaceKey(s, uid, oldKey, newKey, fails).0, attempts);
  }

  // -------------------------------------------------------------------- runs

  /** The caller-checkable condition on one event: row ids are new, and ReplaceKey does
      not aim at another active row's key while that key is off the device. */
  ghost predicate Careful(s: State, e: Event) {
    FreshId(s, e) && (e.op.OpReplace? ==> !StrandsOther(s, e.op.uid, e.op.oldKey, e.op.newKey))
  }

  ghost predicate CarefulRun(s: State, events: seq<Event>)
    requires s.net.Valid()
    decreases |events|
  {
    events == [] || (Careful(s, events[0]) && CarefulRun(Step(s, events[0]).0, events[1..]))
  }

  lemma StepSafe(s: State, e: Event)
    requires Safe(s) && Careful(s, e)
    ensures Safe(Step(s, e).0)
  {
    match e.op
    case OpAdd(uid, key, newId) => AddPeerSafe(s, uid, key, newId, e.fails);
    case OpRemove(uid, key) => RemovePeerSafe(s, uid, key, e.fails);
    case OpReplace(uid, oldKey, newKey) => ReplaceKeySafeIff(s, uid, oldKey, newKey, e.fails);
    case OpDisconnect(id) => AdminSetStatusSafe(s, id, Disconnected, e.fails);
    case OpRevoke(id) => AdminSetStatusSafe(s, id, Revoked, e.fails);
    case OpReconcile(seen) => ReconcileSafe(s, seen, e.fails);
    case OpRotate(newKey) => RebuildSafe(s, newKey);
    case OpEnable => RebuildSafe(s, s.serverKey);
    case OpDisable =>
    case OpSetUser(_, _) =>
  }

  /** Routing safety: whatever calls fail, along every careful run each active row whose
      key is on the device has its own address routed to it, and a Reconcile that ends
      in success leaves every active row on the device and routed. */
  lemma {:induction false} RunSafe(s: State, events: seq<Event>)
    requires Safe(s) && CarefulRun(s, events)
    ensures Safe(Run(s, events))
    ensures forall seen, fails :: Reconcile(Run(s, events), seen, fails).1 == Done ==>
              FullyRouted(Reconcile(Run(s, events), seen, fails).0)
    decreases |events|
  {
    if events == [] {
      forall seen, fails {
        ReconcileSafe(s, seen, fails);
      }
    } else {
      StepSafe(s, events[0]);
      RunSafe(Step(s, events[0]).0, events[1..]);
    }
  }
}
