/** What each peer operation answers and leaves behind, for every set of failing calls,
    said in terms of rows, keys, addresses and the calls that fail. */
module Outcomes {
  import opened Common
  import opened Wire
  import opened PeerModel
  import Ipam

  /** The calls all succeed. */
  predicate Succeed(calls: set<Call>, fails: set<Call>) {
    calls !! fails
  }

  /** The device without a key: neither the peer nor any address that led to it. */
  ghost predicate TakenOff(d: Device, key: Key, d': Device) {
    && d'.privateKey == d.privateKey && d'.peers == d.peers - {key}
    && (forall a :: a in d'.route <==> (a in d.route && d.route[a] != key))
    && (forall a :: a in d'.route ==> a in d.route && d'.route[a] == d.route[a])
  }

  /** The device with a key added under an address, which any other peer loses. */
  ghost predicate PutOn(d: Device, key: Key, ip: Addr, d': Device) {
    && d'.privateKey == d.privateKey && d'.peers == d.peers + {key}
    && d'.route == d.route[ip := key]
  }

  /** What one entry of a device configuration does: a removal takes the key off; otherwise
      the key is on, leads from the addresses listed, loses its others exactly if they are
      to be replaced, and no other key loses more than the addresses listed. */
  lemma EntryMeans(d: Device, e: PeerConfig)
    ensures var d' := ApplyEntry(d, e);
            && d'.privateKey == d.privateKey
            && (e.remove ==> TakenOff(d, e.key, d'))
            && (!e.remove ==>
                  && d'.peers == d.peers + {e.key}
                  && (forall a :: a in e.allowed ==> a in d'.route && d'.route[a] == e.key)
                  && (forall a :: a !in e.allowed ==>
                        (a in d'.route <==> (a in d.route && (d.route[a] != e.key || !e.replaceAllowedIPs)))
                        && (a in d'.route ==> d'.route[a] == d.route[a])))
  {
  }

  lemma RemoveTakesOff(d: Device, key: Key)
    ensures TakenOff(d, key, ApplyEntry(d, Remove(key)))
  {
  }

  lemma AddPutsOn(d: Device, key: Key, ip: Addr)
    ensures PutOn(d, key, ip, ApplyEntry(d, Add(key, ip)))
  {
  }

  // -------------------------------------------------------------- removal

  ghost predicate OwnsActive(s: State, uid: UserId, key: Key) {
    exists id :: IsActive(s.rows, id) && s.rows[id].owner == uid && s.rows[id].key == key
  }

  lemma OwnActive(s: State, uid: UserId, key: Key, id: PeerId)
    requires UniqueKeys(s.rows) && IsActive(s.rows, id) && s.rows[id].owner == uid && s.rows[id].key == key
    ensures ActiveHolder(s.rows, uid, key) == Some(id)
  {
  }

  lemma NoneActive(s: State, uid: UserId, key: Key)
    requires !OwnsActive(s, uid, key)
    ensures ActiveHolder(s.rows, uid, key) == None
  {
  }

  /** RemovePeer of a peer the user has: the device loses the key exactly if the lookup and
      the device call succeed; the row is disconnected and the address freed exactly if
      the table write succeeds as well, and only then is it reported done. */
  lemma RemoveOutcome(s: State, uid: UserId, key: Key, fails: set<Call>, id: PeerId)
    requires UniqueKeys(s.rows) && IsActive(s.rows, id) && s.rows[id].owner == uid && s.rows[id].key == key
    ensures var (s', o) := RemovePeer(s, uid, key, fails);
            var off := Succeed({FindActive, ConfigureDevice}, fails);
            var written := off && Persist !in fails;
            && o == (if written then Done else CallFailed)
            && (if off then TakenOff(s.dev, key, s'.dev) else s'.dev == s.dev)
            && s'.rows == (if written then s.rows[id := s.rows[id].(status := Disconnected)] else s.rows)
            && s'.used == (if written then s.used - {s.rows[id].ip} else s.used)
            && s' == s.(dev := s'.dev, rows := s'.rows, used := s'.used)
  {
    OwnActive(s, uid, key, id);
    RemoveTakesOff(s.dev, key);
  }

  /** Of one the user does not have: nothing happens, and that is said if the lookup
      succeeds. */
  lemma RemoveNothing(s: State, uid: UserId, key: Key, fails: set<Call>)
    requires !OwnsActive(s, uid, key)
    ensures RemovePeer(s, uid, key, fails) == (s, if FindActive in fails then CallFailed else NoActivePeer)
  {
    NoneActive(s, uid, key);
  }

  // ----------------------------------------------------------- key change

  /** ReplaceKey of a peer the user has: the device loses the old key and has the row's
      address under the new one exactly if the lookup and the device call succeed; the
      row has the new key exactly if the table write succeeds too and no other row holds
      that key, and only then is it reported done. */
  lemma ReplaceOutcome(s: State, uid: UserId, oldKey: Key, newKey: Key, fails: set<Call>, id: PeerId)
    requires UniqueKeys(s.rows) && IsActive(s.rows, id) && s.rows[id].owner == uid && s.rows[id].key == oldKey
    ensures var (s', o) := ReplaceKey(s, uid, oldKey, newKey, fails);
            var swapped := Succeed({FindActive, ConfigureDevice}, fails);
            var written := swapped && Persist !in fails
                           && forall j :: j in s.rows && j != id ==> s.rows[j].key != newKey;
            && o == (if written then Done else CallFailed)
            && (!swapped ==> s'.dev == s.dev)
            && (swapped ==> s'.dev.peers == s.dev.peers - {oldKey} + {newKey}
                            && s'.dev.privateKey == s.dev.privateKey && s.rows[id].ip in s'.dev.route
                            && s'.dev.route[s.rows[id].ip] == newKey
                            && forall a :: a != s.rows[id].ip ==>
                                 (a in s'.dev.route <==> a in s.dev.route && s.dev.route[a] != oldKey)
                                 && (a in s'.dev.route ==> s'.dev.route[a] == s.dev.route[a]))
            && s'.rows == (if written then s.rows[id := s.rows[id].(key := newKey)] else s.rows)
            && s' == s.(dev := s'.dev, rows := s'.rows)
  {
    OwnActive(s, uid, oldKey, id);
    RemoveTakesOff(s.dev, oldKey);
    AddPutsOn(ApplyEntry(s.dev, Remove(oldKey)), newKey, s.rows[id].ip);
  }

  lemma ReplaceNothing(s: State, uid: UserId, oldKey: Key, newKey: Key, fails: set<Call>)
    requires !OwnsActive(s, uid, oldKey)
    ensures ReplaceKey(s, uid, oldKey, newKey, fails) == (s, if FindActive in fails then CallFailed else NoActivePeer)
  {
    NoneActive(s, uid, oldKey);
  }

  // ------------------------------------------------- admin disconnect and revoke

  /** The admin call succeeds and the row has the new status, everything else in the table
      as before, exactly if the row can be loaded, loaded again and written: what becomes
      of the removal before it makes no difference. */
  lemma AdminOutcome(s: State, id: PeerId, status: Status, fails: set<Call>)
    requires UniqueKeys(s.rows) && id in s.rows
    ensures var (s', o) := AdminSetStatus(s, id, status, fails);
            && (o == Done <==> Succeed({LoadPeer, ReloadPeer, SetStatus}, fails))
            && (o == Done || o == CallFailed)
            && (o == Done ==> s'.rows == s.rows[id := s.rows[id].(status := status)])
  {
    AdminRemoval(s, id, status, fails);
  }

  /** What the removal before it does, or fails to do, to device, allocator and row. */
  lemma AdminRemoval(s: State, id: PeerId, status: Status, fails: set<Call>)
    requires UniqueKeys(s.rows) && id in s.rows
    ensures var (s', o) := AdminSetStatus(s, id, status, fails);
            var row := s.rows[id];
            var tried := row.status == Active && LoadPeer !in fails;
            var off := tried && Succeed({FindActive, ConfigureDevice}, fails);
            var removed := off && Persist !in fails;
            && (if off then TakenOff(s.dev, row.key, s'.dev) else s'.dev == s.dev)
            && s'.used == (if removed then s.used - {row.ip} else s.used)
            && s'.rows == (if Succeed({LoadPeer, ReloadPeer, SetStatus}, fails)
                           then s.rows[id := row.(status := status)]
                           else if removed then s.rows[id := row.(status := Disconnected)] else s.rows)
            && s' == s.(dev := s'.dev, rows := s'.rows, used := s'.used)
  {
    var row := s.rows[id];
    if row.status == Active {
      RemoveOutcome(s, row.owner, row.key, fails, id);
    }
  }

  lemma AdminNothing(s: State, id: PeerId, status: Status, fails: set<Call>)
    requires id !in s.rows
    ensures AdminSetStatus(s, id, status, fails) == (s, if LoadPeer in fails then CallFailed else PeerNotFound)
  {
  }

  // ------------------------------------------------------------------ addition

  ghost predicate ActiveUser(s: State, uid: UserId) {
    uid in s.users && s.users[uid].active
  }

  ghost predicate HasRoom(s: State, uid: UserId) {
    uid in s.users && |ActiveOf(s.rows, uid)| < s.users[uid].maxPeers
  }

  /** Somebody else has the key, whatever the status of the row. */
  ghost predicate OthersKey(s: State, uid: UserId, key: Key) {
    exists id :: id in s.rows && s.rows[id].key == key && s.rows[id].owner != uid
  }

  ghost predicate OwnKey(s: State, uid: UserId, key: Key, status: Status) {
    exists id :: id in s.rows && s.rows[id].key == key && s.rows[id].owner == uid && s.rows[id].status == status
  }

  /** Which refusal an AddPeer gets before anything is touched: the first of these that
      applies. */
  ghost function Refusal(s: State, uid: UserId, key: Key, fails: set<Call>): Option<Outcome> {
    if FindUser in fails then Some(CallFailed)
    else if !ActiveUser(s, uid) then Some(AccountInactive)
    else if CountActive in fails then Some(CallFailed)
    else if !HasRoom(s, uid) then Some(TooManyPeers)
    else if FindActive in fails then Some(CallFailed)
    else if OwnKey(s, uid, key, Active) then Some(PeerExists)
    else if FindByKey in fails then Some(CallFailed)
    else if OthersKey(s, uid, key) then Some(PeerExists)
    else if OwnKey(s, uid, key, Revoked) then Some(PeerRevoked)
    else None
  }

  lemma RefusalIsReject(s: State, uid: UserId, key: Key, fails: set<Call>)
    requires UniqueKeys(s.rows)
    ensures match Refusal(s, uid, key, fails)
            case Some(o) => CheckAdd(s, uid, key, fails) == Reject(o)
            case None => CheckAdd(s, uid, key, fails).Admit?
  {
    match Holder(s.rows, key)
    case None =>
    case Some(id) =>
      assert OwnKey(s, uid, key, s.rows[id].status) || s.rows[id].owner != uid;
      forall j | j in s.rows && s.rows[j].key == key
        ensures j == id
      {
      }
  }

  /** A refused AddPeer changes nothing. */
  lemma RefusedAdd(s: State, uid: UserId, key: Key, newId: PeerId, fails: set<Call>)
    requires s.net.Valid() && UniqueKeys(s.rows) && Refusal(s, uid, key, fails).Some?
    ensures AddPeer(s, uid, key, newId, fails) == (s, Refusal(s, uid, key, fails).value)
  {
    RefusalIsReject(s, uid, key, fails);
  }

  /** A host address of the subnet that the allocator does not hold back. */
  ghost predicate FreeHost(s: State, ip: Addr) {
    s.net.ones <= 32 && s.net.network < ip < s.net.network + Pow2(32 - s.net.ones) - 1 && ip !in s.used
  }

  ghost predicate LeastFreeHost(s: State, ip: Addr) {
    FreeHost(s, ip) && forall low: Addr :: low < ip ==> !FreeHost(s, low)
  }

  lemma FirstFreeIsFreeHost(s: State)
    requires s.net.Valid()
    ensures match Ipam.FirstFree(s.net, s.used)
            case None => forall ip: Addr :: !FreeHost(s, ip)
            case Some(ip) => LeastFreeHost(s, ip)
  {
    Ipam.FirstFreeIsLeast(s.net, s.used);
    forall ip: Addr
      ensures s.net.IsHost(ip) && ip !in s.used <==> FreeHost(s, ip)
    {
    }
  }

  /** The row an addition leaves: the user's disconnected row with the key brought back
      under the new address, or a new one. */
  ghost predicate AddedAs(s: State, uid: UserId, key: Key, newId: PeerId, ip: Addr, rows': map<PeerId, Row>,
                          id: PeerId) {
    && rows' == s.rows[id := Row(uid, key, ip, Active)]
    && if OwnKey(s, uid, key, Disconnected) then id in s.rows && s.rows[id].key == key else id == newId
  }

  ghost predicate Added(s: State, uid: UserId, key: Key, newId: PeerId, ip: Addr, rows': map<PeerId, Row>) {
    exists id :: AddedAs(s, uid, key, newId, ip, rows', id)
  }

  lemma AdmittedRow(s: State, uid: UserId, key: Key, newId: PeerId, ip: Addr, fails: set<Call>)
    requires UniqueKeys(s.rows) && CheckAdd(s, uid, key, fails).Admit?
    ensures Added(s, uid, key, newId, ip,
                  Persisted(s.rows, CheckAdd(s, uid, key, fails).existing, newId, uid, key, ip))
  {
    var rows' := Persisted(s.rows, CheckAdd(s, uid, key, fails).existing, newId, uid, key, ip);
    match Holder(s.rows, key)
    case None => assert AddedAs(s, uid, key, newId, ip, rows', newId);
    case Some(id) =>
      assert s.rows[id].(ip := ip, status := Active) == Row(uid, key, ip, Active);
      assert OwnKey(s, uid, key, Disconnected);
      assert AddedAs(s, uid, key, newId, ip, rows', id);
  }

  /** What an addition that has its address leaves. */
  ghost predicate AddLeaves(s: State, uid: UserId, key: Key, newId: PeerId, ip: Addr, fails: set<Call>, s': State) {
    if ConfigureDevice in fails then s' == s
    else if Persist in fails then
      && s' == s.(dev := s'.dev)
      && if UndoDevice in fails then PutOn(s.dev, key, ip, s'.dev)
         else exists d :: PutOn(s.dev, key, ip, d) && TakenOff(d, key, s'.dev)
    else
      && s' == s.(dev := s'.dev, used := s.used + {ip}, rows := s'.rows)
      && PutOn(s.dev, key, ip, s'.dev) && Added(s, uid, key, newId, ip, s'.rows)
  }

  lemma AdmittedLeaves(s: State, existing: Option<PeerId>, uid: UserId, key: Key, newId: PeerId, ip: Addr,
                       fails: set<Call>)
    requires s.net.Valid() && Ipam.FirstFree(s.net, s.used) == Some(ip)
    requires Added(s, uid, key, newId, ip, Persisted(s.rows, existing, newId, uid, key, ip))
    ensures var (s', o) := AddAdmitted(s, existing, uid, key, newId, fails);
            && o == (if Succeed({ConfigureDevice, Persist}, fails) then Done else CallFailed)
            && AddLeaves(s, uid, key, newId, ip, fails, s')
  {
    AddPutsOn(s.dev, key, ip);
    RemoveTakesOff(ApplyEntry(s.dev, Add(key, ip)), key);
  }

  /** An AddPeer that is not refused takes the least free host address; it reports success,
      with row, device and allocator agreeing, exactly if the device call and the table
      write succeed. If they do not, it leaves table and allocator as they were; the
      device keeps the key under that address exactly if the undo fails too. */
  lemma AddOutcome(s: State, uid: UserId, key: Key, newId: PeerId, fails: set<Call>, ip: Addr)
    requires s.net.Valid() && UniqueKeys(s.rows) && Refusal(s, uid, key, fails) == None && LeastFreeHost(s, ip)
    ensures var (s', o) := AddPeer(s, uid, key, newId, fails);
            && o == (if Succeed({ConfigureDevice, Persist}, fails) then Done else CallFailed)
            && AddLeaves(s, uid, key, newId, ip, fails, s')
  {
    RefusalIsReject(s, uid, key, fails);
    FirstFreeIsFreeHost(s);
    OneLeast(s, ip);
    AdmittedRow(s, uid, key, newId, ip, fails);
    AdmittedLeaves(s, CheckAdd(s, uid, key, fails).existing, uid, key, newId, ip, fails);
  }

  lemma OneLeast(s: State, ip: Addr)
    requires s.net.Valid() && LeastFreeHost(s, ip)
    ensures Ipam.FirstFree(s.net, s.used) == Some(ip)
  {
    FirstFreeIsFreeHost(s);
  }

  /** And with no host address free it says so and changes nothing. */
  lemma AddExhausted(s: State, uid: UserId, key: Key, newId: PeerId, fails: set<Call>)
    requires s.net.Valid() && UniqueKeys(s.rows) && Refusal(s, uid, key, fails) == None
    requires forall ip: Addr :: !FreeHost(s, ip)
    ensures AddPeer(s, uid, key, newId, fails) == (s, NoIPAvailable)
  {
    RefusalIsReject(s, uid, key, fails);
    FirstFreeIsFreeHost(s);
  }

  // ------------------------------------------------- whole-device operations

  /** A last-seen time that Reconcile is to write and cannot. */
  ghost predicate SeenLost(s: State, seen: set<Key>, fails: set<Call>) {
    exists id :: id in s.rows && s.rows[id].status == Active && s.rows[id].key in s.dev.peers * seen
                 && TouchSeen(id) in fails
  }

  /** The device has exactly the active rows' keys. */
  ghost predicate KeysAgree(s: State) {
    && (forall id :: IsActive(s.rows, id) ==> s.rows[id].key in s.dev.peers)
    && (forall key :: key in s.dev.peers ==> exists id :: IsActive(s.rows, id) && s.rows[id].key == key)
  }

  lemma AgreeIff(s: State)
    ensures KeysAgree(s) <==> s.dev.peers == ActiveKeys(s.rows)
  {
    forall key | key in ActiveKeys(s.rows)
      ensures exists id :: IsActive(s.rows, id) && s.rows[id].key == key
    {
      var id :| id in s.rows && s.rows[id].status == Active && s.rows[id].key == key;
      assert IsActive(s.rows, id);
    }
    if KeysAgree(s) {
      forall key
        ensures key in s.dev.peers <==> key in ActiveKeys(s.rows)
      {
        if key in s.dev.peers {
          var id :| IsActive(s.rows, id) && s.rows[id].key == key;
        }
      }
      assert s.dev.peers == ActiveKeys(s.rows);
    }
    if s.dev.peers == ActiveKeys(s.rows) {
      assert forall id :: IsActive(s.rows, id) ==> s.rows[id].key in ActiveKeys(s.rows);
    }
  }

  /** Reconcile succeeds exactly if table and device can be read, every last-seen time of an
      active row on the device can be written, and the device call succeeds or is not
      needed. Every active address is then held back, also if it fails after the listing;
      the device changes only if it succeeds, and has exactly the active keys then. */
  lemma ReconcileOutcome(s: State, seen: set<Key>, fails: set<Call>)
    ensures var (s', o) := Reconcile(s, seen, fails);
            var agree := KeysAgree(s);
            && (o == Done <==> Succeed({ListActive, ReadDevice}, fails) && !SeenLost(s, seen, fails)
                               && (agree || ConfigureDevice !in fails))
            && (o == Done || o == CallFailed)
            && s' == s.(dev := s'.dev, used := s'.used)
            && s'.used == (if ListActive in fails then s.used else s.used + ActiveAddrs(s.rows))
            && (o != Done || agree ==> s'.dev == s.dev)
            && (o == Done ==> s'.dev.peers == ActiveKeys(s.rows) && s'.dev.privateKey == s.dev.privateKey)
  {
    assert TouchFails(s.rows, s.dev, seen, fails) <==> SeenLost(s, seen, fails);
    AgreeIff(s);
  }

  /** Rotating the key, enabling and disabling change the device in one call or not at all. */
  lemma RebuildOutcomes(s: State, newKey: Key, fails: set<Call>)
    requires DistinctActive(s.rows)
    ensures var (s', o) := RotateServerKey(s, newKey, fails);
            if Succeed({ListActive, ConfigureDevice}, fails)
            then o == Done && s' == s.(dev := s'.dev, serverKey := newKey) && HoldsActive(s.rows, newKey, s'.dev)
            else o == CallFailed && s' == s
    ensures var (s', o) := Enable(s, fails);
            if Succeed({ListActive, ConfigureDevice}, fails)
            then o == Done && s' == s.(dev := s'.dev) && HoldsActive(s.rows, s.serverKey, s'.dev)
            else o == CallFailed && s' == s
    ensures var (s', o) := Disable(s, fails);
            if ConfigureDevice !in fails
            then o == Done && s' == s.(dev := Device(0, {}, map[]))
            else o == CallFailed && s' == s
  {
    RebuiltHolds(s.rows, newKey);
    RebuiltHolds(s.rows, s.serverKey);
  }

  /** The active rows' keys, each reached under its address, and nothing else. */
  ghost predicate HoldsActive(rows: map<PeerId, Row>, privateKey: Key, d: Device) {
    && d.privateKey == privateKey
    && (forall key :: key in d.peers <==> exists id :: IsActive(rows, id) && rows[id].key == key)
    && (forall a :: a in d.route <==> exists id :: IsActive(rows, id) && rows[id].ip == a)
    && (forall id :: IsActive(rows, id) ==> rows[id].ip in d.route && d.route[rows[id].ip] == rows[id].key)
  }

  lemma RebuiltHolds(rows: map<PeerId, Row>, privateKey: Key)
    requires DistinctActive(rows)
    ensures HoldsActive(rows, privateKey, Rebuilt(rows, privateKey))
  {
    var d := Rebuilt(rows, privateKey);
    forall id | IsActive(rows, id)
      ensures rows[id].key in d.peers && rows[id].ip in d.route && d.route[rows[id].ip] == rows[id].key
    {
      assert rows[id].ip in ActiveAddrs(rows);
    }
    forall a | a in d.route
      ensures exists id :: IsActive(rows, id) && rows[id].ip == a
    {
      var id :| id in rows && rows[id].status == Active && rows[id].ip == a;
      assert IsActive(rows, id);
    }
    forall key | key in d.peers
      ensures exists id :: IsActive(rows, id) && rows[id].key == key
    {
      var id :| id in rows && rows[id].status == Active && rows[id].key == key;
      assert IsActive(rows, id);
    }
  }
}
