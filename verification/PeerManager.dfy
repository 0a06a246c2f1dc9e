/** PeerManagerImpl: the operations step by step, as the server runs them, each proved to
    make exactly the transition of module PeerModel. The peers table and the device are
    fields; `fails` says which external calls of this invocation return an error. */
module PeerManager {
  import opened Common
  import opened Wire
  import opened PeerModel
  import opened PeerSafety
  import opened ReconcileDiff
  import Refine = PeerRefinement
  import Ipam

  /** The addresses of the listed rows. */
  ghost function AddrsOf(rows: map<PeerId, Row>, ids: seq<PeerId>): set<Addr>
    requires forall i :: 0 <= i < |ids| ==> ids[i] in rows
  {
    set i | 0 <= i < |ids| :: rows[ids[i]].ip
  }

  lemma AddrsPrefix(rows: map<PeerId, Row>, ids: seq<PeerId>, n: nat)
    requires n <= |ids| && forall i :: 0 <= i < |ids| ==> ids[i] in rows
    ensures AddrsOf(rows, ids[..n]) <= AddrsOf(rows, ids)
    ensures n < |ids| ==> AddrsOf(rows, ids[..n + 1]) == AddrsOf(rows, ids[..n]) + {rows[ids[n]].ip}
  {
    var before := ids[..n];
    forall a | a in AddrsOf(rows, before)
      ensures a in AddrsOf(rows, ids)
    {
      var i :| 0 <= i < |before| && rows[before[i]].ip == a;
      assert ids[i] == before[i];
    }
    if n < |ids| {
      var after := ids[..n + 1];
      assert after == before + [ids[n]];
      forall a | a in AddrsOf(rows, before) + {rows[ids[n]].ip}
        ensures a in AddrsOf(rows, after)
      {
        if i :| 0 <= i < |before| && rows[before[i]].ip == a {
          assert after[i] == before[i];
        } else {
          assert after[n] == ids[n];
        }
      }
    }
  }

  lemma ParseOfFormat(a: Addr)
    ensures Ipam.Parse(Ipam.Format(a)) == Some(a)
  {
  }

  /** All active rows, each once. */
  ghost predicate ListsActive(rows: map<PeerId, Row>, ids: seq<PeerId>) {
    ListsSome(rows, ids) && forall id :: IsActive(rows, id) ==> id in ids
  }

  lemma ListedAddrs(rows: map<PeerId, Row>, ids: seq<PeerId>)
    requires ListsActive(rows, ids)
    ensures AddrsOf(rows, ids) == ActiveAddrs(rows)
  {
    forall a | a in ActiveAddrs(rows) ensures a in AddrsOf(rows, ids) {
      var id :| id in rows && rows[id].status == Active && rows[id].ip == a;
      assert IsActive(rows, id);
      var i :| 0 <= i < |ids| && ids[i] == id;
    }
  }

  /** Adds for exactly the missing rows among the first `n` listed. */
  ghost predicate AddsFor(rows: map<PeerId, Row>, d: Device, ids: seq<PeerId>, n: nat, adds: seq<PeerConfig>)
    requires n <= |ids| && forall i :: 0 <= i < |ids| ==> ids[i] in rows
  {
    && KeysDistinct(adds)
    && (forall e :: e in adds ==>
          e.key !in d.peers && exists j :: 0 <= j < n && e == Add(rows[ids[j]].key, rows[ids[j]].ip))
    && (forall j :: 0 <= j < n && rows[ids[j]].key !in d.peers ==> Add(rows[ids[j]].key, rows[ids[j]].ip) in adds)
  }

  lemma AddsForNext(rows: map<PeerId, Row>, d: Device, ids: seq<PeerId>, n: nat, adds: seq<PeerConfig>)
    requires UniqueKeys(rows) && ListsActive(rows, ids) && n < |ids| && AddsFor(rows, d, ids, n, adds)
    ensures var row := rows[ids[n]];
            AddsFor(rows, d, ids, n + 1, if row.key in d.peers then adds else adds + [Add(row.key, row.ip)])
  {
    var row := rows[ids[n]];
    assert forall e :: e in adds ==> e.key != row.key;
  }

  /** Adds for all missing rows plus removals of all stale keys make a diff. */
  lemma DiffFromParts(rows: map<PeerId, Row>, d: Device, ids: seq<PeerId>, adds: seq<PeerConfig>,
                      changes: seq<PeerConfig>)
    requires ListsActive(rows, ids) && AddsFor(rows, d, ids, |ids|, adds)
    requires KeysDistinct(changes)
    requires Entries(changes) == Entries(adds) + set key | key in d.peers && key !in ActiveKeys(rows) :: Remove(key)
    ensures IsDiff(rows, d, changes)
  {
    var missing := set id | id in rows && rows[id].status == Active && rows[id].key !in d.peers ::
                     Add(rows[id].key, rows[id].ip);
    forall e | e in missing ensures e in adds {
      var id :| id in rows && rows[id].status == Active && rows[id].key !in d.peers
                && e == Add(rows[id].key, rows[id].ip);
      assert IsActive(rows, id);
      var j :| 0 <= j < |ids| && ids[j] == id;
    }
    forall e | e in adds ensures e in missing {
      var j :| 0 <= j < |ids| && e == Add(rows[ids[j]].key, rows[ids[j]].ip);
      assert IsActive(rows, ids[j]);
    }
    assert Entries(adds) == missing;
  }

  lemma DiffEmptyIff(rows: map<PeerId, Row>, d: Device, changes: seq<PeerConfig>)
    requires IsDiff(rows, d, changes)
    ensures changes == [] <==> d.peers == ActiveKeys(rows)
  {
    DiffKeys(rows, d, changes);
    DistinctKeysCount(changes);
  }

  /** Reconcile on any table whose active addresses lie inside the subnet, even one in
      which active rows share an address: the diff is applied in whatever order the rows
      and the device peers came. */
  ghost predicate ReconciledSomehow(s: State, s': State, o: Outcome, seen: set<Key>, fails: set<Call>) {
    if ListActive in fails then s' == s && o == CallFailed
    else
      var s1 := s.(used := s.used + ActiveAddrs(s.rows));
      if ReadDevice in fails || TouchFails(s.rows, s.dev, seen, fails) then s' == s1 && o == CallFailed
      else if s.dev.peers == ActiveKeys(s.rows) then s' == s1 && o == Done
      else if ConfigureDevice in fails then s' == s1 && o == CallFailed
      else o == Done && DiffApplied(s.rows, s.dev, s'.dev) && s' == s1.(dev := s'.dev)
  }

  ghost predicate DiffApplied(rows: map<PeerId, Row>, d: Device, d': Device) {
    exists changes :: IsDiff(rows, d, changes) && d' == Configure(d, Peers(changes))
  }

  /** With distinct addresses the order does not show: it is the transition of PeerModel. */
  lemma SomehowIsReconcile(s: State, s': State, o: Outcome, seen: set<Key>, fails: set<Call>)
    requires UniqueKeys(s.rows) && DistinctActive(s.rows) && s.dev.Valid()
    requires ReconciledSomehow(s, s', o, seen, fails)
    ensures (s', o) == PeerModel.Reconcile(s, seen, fails)
  {
    if DiffApplied(s.rows, s.dev, s'.dev) {
      var changes :| IsDiff(s.rows, s.dev, changes) && s'.dev == Configure(s.dev, Peers(changes));
      DiffReconciles(s.rows, s.dev, changes);
    }
  }

  /** On any table at all, applying a diff makes the device key set the active key set. */
  lemma DiffKeySet(rows: map<PeerId, Row>, d: Device, changes: seq<PeerConfig>)
    requires IsDiff(rows, d, changes)
    ensures ApplyEntries(d, changes).peers == ActiveKeys(rows)
  {
    DiffKeys(rows, d, changes);
    forall key
      ensures key in ApplyEntries(d, changes).peers <==> key in ActiveKeys(rows)
    {
      PeersAfter(d, changes, key);
      if key in ActiveKeys(rows) && key !in d.peers {
        var e :| e in changes && e.key == key;
        assert e in Wanted(rows, d);
      }
      if e :| e in changes && e.key == key && !e.remove {
        assert e in Wanted(rows, d);
      }
    }
  }

  /** The entry of a full rebuild; RotateServerKey also sets ReplaceAllowedIPs. */
  function RebuildEntry(row: Row, replaceAllowedIPs: bool): PeerConfig {
    PeerConfig(row.key, false, replaceAllowedIPs, {row.ip})
  }

  function RebuildEntries(rows: map<PeerId, Row>, ids: seq<PeerId>, flag: bool): seq<PeerConfig>
    requires forall i :: 0 <= i < |ids| ==> ids[i] in rows
  {
    seq(|ids|, i requires 0 <= i < |ids| => RebuildEntry(rows[ids[i]], flag))
  }

  /** One ReplacePeers call with every active row, in whatever order they were listed. */
  ghost predicate RebuiltSomehow(rows: map<PeerId, Row>, privateKey: Key, flag: bool, d': Device) {
    exists ids :: ListsActive(rows, ids) &&
                  d' == ApplyEntries(Device(privateKey, {}, map[]), RebuildEntries(rows, ids, flag))
  }

  /** With distinct addresses the order does not show. */
  lemma SomehowIsRebuilt(rows: map<PeerId, Row>, privateKey: Key, flag: bool, d': Device)
    requires UniqueKeys(rows) && DistinctActive(rows) && RebuiltSomehow(rows, privateKey, flag, d')
    ensures d' == Rebuilt(rows, privateKey)
  {
    var ids :| ListsActive(rows, ids) &&
               d' == ApplyEntries(Device(privateKey, {}, map[]), RebuildEntries(rows, ids, flag));
    RebuildFromList(rows, ids, privateKey, flag, RebuildEntries(rows, ids, flag));
    ListedAll(rows, ids, privateKey);
  }

  ghost function Listed(rows: map<PeerId, Row>, ids: seq<PeerId>): map<PeerId, Row> {
    map id | id in ids && id in rows :: rows[id]
  }

  /** The listed rows are active and each listed once. */
  ghost predicate ListsSome(rows: map<PeerId, Row>, ids: seq<PeerId>) {
    && (forall i :: 0 <= i < |ids| ==> IsActive(rows, ids[i]))
    && (forall i, j :: 0 <= i < j < |ids| ==> ids[i] != ids[j])
  }

  lemma ListedSnoc(rows: map<PeerId, Row>, ids: seq<PeerId>)
    requires UniqueKeys(rows) && DistinctActive(rows) && ListsSome(rows, ids) && ids != []
    ensures var n := |ids| - 1;
            var init, row := Listed(rows, ids[..n]), rows[ids[n]];
            && Listed(rows, ids) == init[ids[n] := row]
            && DistinctActive(init) && !IsActive(init, ids[n])
            && row.ip !in ActiveAddrs(init) && row.key !in ActiveKeys(init)
  {
    var n := |ids| - 1;
    var init := Listed(rows, ids[..n]);
    assert ids == ids[..n] + [ids[n]];
    assert forall id :: id in init ==> id in rows && init[id] == rows[id] && id != ids[n] && IsActive(rows, id);
    assert forall id :: IsActive(init, id) ==> IsActive(rows, id) && rows[id] == init[id];
  }

  lemma RebuiltValid(rows: map<PeerId, Row>, privateKey: Key)
    ensures Rebuilt(rows, privateKey).Valid()
  {
  }

  /** A rebuild list in any order, with or without ReplaceAllowedIPs, gives one device. */
  lemma {:induction false} RebuildFromList(rows: map<PeerId, Row>, ids: seq<PeerId>, privateKey: Key,
                                           flag: bool, es: seq<PeerConfig>)
    requires UniqueKeys(rows) && DistinctActive(rows) && ListsSome(rows, ids)
    requires |es| == |ids| && forall i :: 0 <= i < |ids| ==> es[i] == RebuildEntry(rows[ids[i]], flag)
    ensures ApplyEntries(Device(privateKey, {}, map[]), es) == Rebuilt(Listed(rows, ids), privateKey)
  {
    if ids != [] {
      var n := |ids| - 1;
      var init, row := Listed(rows, ids[..n]), rows[ids[n]];
      RebuildFromList(rows, ids[..n], privateKey, flag, es[..n]);
      ListedSnoc(rows, ids);
      Refine.AddRow(init, privateKey, ids[n], row);
      RebuiltValid(init, privateKey);
      AddWithReplace(Rebuilt(init, privateKey), row, flag);
    }
  }

  lemma AddWithReplace(d: Device, row: Row, flag: bool)
    requires d.Valid() && row.key !in d.peers
    ensures ApplyEntry(d, RebuildEntry(row, flag)) == ApplyEntry(d, Add(row.key, row.ip))
  {
    assert Unrouted(d.route, row.key) == d.route;
  }

  lemma ListedAll(rows: map<PeerId, Row>, ids: seq<PeerId>, privateKey: Key)
    requires DistinctActive(rows) && ListsActive(rows, ids)
    ensures Rebuilt(Listed(rows, ids), privateKey) == Rebuilt(rows, privateKey)
  {
    Refine.SameActive(rows, Listed(rows, ids), privateKey);
  }

  // Rebuilds of tables in which active rows may share an address.

  /** Exactly the active keys, and each active address leading to an active row at it. */
  ghost predicate RoutesSome(rows: map<PeerId, Row>, d: Device) {
    && d.peers == ActiveKeys(rows) && d.route.Keys == ActiveAddrs(rows)
    && forall a :: a in d.route ==> exists id :: IsActive(rows, id) && rows[id].ip == a && rows[id].key == d.route[a]
  }

  lemma RoutesSomeAdd(rows: map<PeerId, Row>, id: PeerId, row: Row, d: Device)
    requires RoutesSome(rows, d) && row.status == Active && id !in rows && row.key !in ActiveKeys(rows)
    ensures d.Valid() && RoutesSome(rows[id := row], ApplyEntry(d, Add(row.key, row.ip)))
  {
    var rows', d' := rows[id := row], ApplyEntry(d, Add(row.key, row.ip));
    forall a | a in d.route
      ensures d.route[a] in d.peers
    {
      var j :| IsActive(rows, j) && rows[j].ip == a && rows[j].key == d.route[a];
    }
    Refine.AddedRows(rows, id, row);
    assert d'.route == d.route[row.ip := row.key];
    forall a | a in d'.route
      ensures exists j :: IsActive(rows', j) && rows'[j].ip == a && rows'[j].key == d'.route[a]
    {
      if a == row.ip {
        assert IsActive(rows', id);
      } else {
        var j :| IsActive(rows, j) && rows[j].ip == a && rows[j].key == d.route[a];
        assert IsActive(rows', j) && rows'[j] == rows[j];
      }
    }
  }

  lemma ListedPrefix(rows: map<PeerId, Row>, ids: seq<PeerId>)
    requires UniqueKeys(rows) && ListsSome(rows, ids) && ids != []
    ensures var n := |ids| - 1;
            var init := Listed(rows, ids[..n]);
            && Listed(rows, ids) == init[ids[n] := rows[ids[n]]]
            && ids[n] !in init && rows[ids[n]].key !in ActiveKeys(init)
  {
    var n := |ids| - 1;
    var init := Listed(rows, ids[..n]);
    assert ids == ids[..n] + [ids[n]];
    assert forall id :: id in init ==> id in rows && init[id] == rows[id] && id != ids[n];
  }

  lemma {:induction false} RebuildListRoutes(rows: map<PeerId, Row>, ids: seq<PeerId>, privateKey: Key,
                                             flag: bool, es: seq<PeerConfig>)
    requires UniqueKeys(rows) && ListsSome(rows, ids)
    requires |es| == |ids| && forall i :: 0 <= i < |ids| ==> es[i] == RebuildEntry(rows[ids[i]], flag)
    ensures RoutesSome(Listed(rows, ids), ApplyEntries(Device(privateKey, {}, map[]), es))
  {
    if ids != [] {
      var n := |ids| - 1;
      RebuildListRoutes(rows, ids[..n], privateKey, flag, es[..n]);
      ListedPrefix(rows, ids);
      var d := ApplyEntries(Device(privateKey, {}, map[]), es[..n]);
      RoutesSomeAdd(Listed(rows, ids[..n]), ids[n], rows[ids[n]], d);
      AddWithReplace(d, rows[ids[n]], flag);
    }
  }

  lemma RoutesSomeOf(rows: map<PeerId, Row>, ids: seq<PeerId>, d: Device)
    requires ListsActive(rows, ids) && RoutesSome(Listed(rows, ids), d)
    ensures RoutesSome(rows, d)
  {
    var listed := Listed(rows, ids);
    assert forall id :: IsActive(rows, id) ==> IsActive(listed, id) && listed[id] == rows[id];
    assert forall id :: IsActive(listed, id) ==> IsActive(rows, id) && listed[id] == rows[id];
    assert ActiveKeys(listed) == ActiveKeys(rows) && ActiveAddrs(listed) == ActiveAddrs(rows) by {
      assert forall id :: id in ActiveIds(rows) <==> IsActive(rows, id);
      assert forall id :: id in ActiveIds(listed) <==> IsActive(listed, id);
    }
  }

  /** On any table, even with shared addresses, a rebuild in any order leaves exactly the
      active keys, and each active address leading to an active row at that address. */
  lemma RebuiltRoutesSome(rows: map<PeerId, Row>, privateKey: Key, flag: bool, d': Device)
    requires UniqueKeys(rows) && RebuiltSomehow(rows, privateKey, flag, d')
    ensures RoutesSome(rows, d')
  {
    var ids :| ListsActive(rows, ids) &&
               d' == ApplyEntries(Device(privateKey, {}, map[]), RebuildEntries(rows, ids, flag));
    RebuildListRoutes(rows, ids, privateKey, flag, RebuildEntries(rows, ids, flag));
    RoutesSomeOf(rows, ids, d');
  }

  class Manager {
    const server: Addr
    const ipam: Ipam.Allocator
    var users: map<UserId, User>
    var rows: map<PeerId, Row>
    var dev: Device
    var serverPrivateKey: Key

    ghost function Abs(): State
      reads this, ipam
    {
      State(ipam.subnet, server, users, rows, dev, ipam.Taken(), serverPrivateKey)
    }

    ghost predicate Valid()
      reads this, ipam
    {
      ipam.Valid() && UniqueKeys(rows)
    }

    constructor (ipam: Ipam.Allocator, server: Addr, users: map<UserId, User>, rows: map<PeerId, Row>,
                 dev: Device, serverKey: Key)
      requires ipam.Valid() && UniqueKeys(rows)
      ensures Valid() && this.ipam == ipam
      ensures Abs() == State(ipam.subnet, server, users, rows, dev, ipam.Taken(), serverKey)
    {
      this.server, this.ipam := server, ipam;
      this.users, this.rows, this.dev, this.serverPrivateKey := users, rows, dev, serverKey;
    }

    // ------------------------------------------------------- external calls

    method ConfigureWg(cfg: Config, call: Call, fails: set<Call>) returns (ok: bool)
      modifies this`dev
      ensures ok <==> call !in fails
      ensures dev == if ok then Configure(old(dev), cfg) else old(dev)
    {
      ok := call !in fails;
      if ok {
        dev := Configure(dev, cfg);
      }
    }

    /** SELECT ... WHERE status = 'active', in whatever order the database returns. */
    method ActiveRows() returns (ids: seq<PeerId>)
      ensures ListsActive(rows, ids)
    {
      ids := [];
      var todo := ActiveIds(rows);
      while todo != {}
        invariant forall i :: 0 <= i < |ids| ==> IsActive(rows, ids[i]) && ids[i] !in todo
        invariant forall i, j :: 0 <= i < j < |ids| ==> ids[i] != ids[j]
        invariant forall id :: id in todo ==> IsActive(rows, id)
        invariant forall id :: IsActive(rows, id) ==> id in ids || id in todo
        decreases todo
      {
        var id := PickAny(todo);
        todo := todo - {id};
        ids := ids + [id];
      }
    }

    /** Scan of FindActiveByUserID's result for one key. */
    method FindActiveByKey(uid: UserId, key: Key) returns (target: Option<PeerId>)
      requires UniqueKeys(rows)
      ensures target == ActiveHolder(rows, uid, key)
    {
      var todo := ActiveOf(rows, uid);
      while todo != {}
        invariant todo <= ActiveOf(rows, uid)
        invariant forall id :: id in ActiveOf(rows, uid) && id !in todo ==> rows[id].key != key
        decreases todo
      {
        var id := PickAny(todo);
        if rows[id].key == key {
          return Some(id);
        }
        todo := todo - {id};
      }
      return None;
    }

    /** SELECT ... WHERE public_key = $1. */
    method FindByPublicKey(key: Key) returns (found: Option<PeerId>)
      requires UniqueKeys(rows)
      ensures found == Holder(rows, key)
    {
      var todo := rows.Keys;
      while todo != {}
        invariant todo <= rows.Keys
        invariant forall id :: id in rows && id !in todo ==> rows[id].key != key
        decreases todo
      {
        var id := PickAny(todo);
        if rows[id].key == key {
          return Some(id);
        }
        todo := todo - {id};
      }
      return None;
    }

    // ------------------------------------------------------------ operations

    method CheckAddPeer(uid: UserId, key: Key, fails: set<Call>) returns (admission: Admission)
      requires Valid()
      ensures admission == CheckAdd(Abs(), uid, key, fails)
    {
      if FindUser in fails {
        return Reject(CallFailed);
      }
      if uid !in users || !users[uid].active {
        return Reject(AccountInactive);
      }
      if CountActive in fails {
        return Reject(CallFailed);
      }
      if |ActiveOf(rows, uid)| >= users[uid].maxPeers {
        return Reject(TooManyPeers);
      }
      if FindActive in fails {
        return Reject(CallFailed);
      }
      var own := FindActiveByKey(uid, key);
      if own.Some? {
        return Reject(PeerExists);
      }
      if FindByKey in fails {
        return Reject(CallFailed);
      }
      var existing := FindByPublicKey(key);
      if existing.Some? {
        var row := rows[existing.value];
        if row.owner != uid || row.status == Active {
          return Reject(PeerExists);
        }
        if row.status != Disconnected {
          return Reject(PeerRevoked);
        }
      }
      return Admit(existing);
    }

    /** A device call with one peer entry. */
    method ConfigurePeer(e: PeerConfig, call: Call, fails: set<Call>) returns (ok: bool)
      modifies this`dev
      ensures ok <==> call !in fails
      ensures dev == if ok then ApplyEntry(old(dev), e) else old(dev)
    {
      ConfigureOne(dev, e);
      ok := ConfigureWg(Peers([e]), call, fails);
    }

    /** Release of the text Allocate gave. */
    method ReleaseIP(ip: Addr)
      requires Valid()
      modifies ipam
      ensures Valid() && ipam.Taken() == old(ipam.Taken()) - {ip}
    {
      ParseOfFormat(ip);
      ipam.Release(Ipam.Format(ip));
    }

    /** Activate on a row found, Create otherwise. */
    method StoreRow(existing: Option<PeerId>, newId: PeerId, uid: UserId, key: Key, ip: Addr)
      requires UniqueKeys(rows) && newId !in rows
      requires match existing
               case None => forall id :: id in rows ==> rows[id].key != key
               case Some(id) => id in rows
      modifies this`rows
      ensures UniqueKeys(rows) && rows == Persisted(old(rows), existing, newId, uid, key, ip)
    {
      if existing.Some? {
        rows := rows[existing.value := rows[existing.value].(ip := ip, status := Active)];
      } else {
        rows := rows[newId := Row(uid, key, ip, Active)];
      }
    }

    /** Allocate, with the number its text stands for. */
    method AllocateIP() returns (ip: Option<Addr>)
      requires Valid()
      modifies ipam
      ensures Valid() && ip == Ipam.FirstFree(ipam.subnet, old(ipam.Taken()))
      ensures match ip
              case None => ipam.Taken() == old(ipam.Taken())
              case Some(a) => a !in old(ipam.Taken()) && ipam.Taken() == old(ipam.Taken()) + {a}
    {
      var text := ipam.Allocate();
      if text.None? {
        return None;
      }
      ip := Ipam.Parse(text.value);
    }

    /** The outcome, and the address of the registration it returns on success. */
    method AddPeer(uid: UserId, key: Key, newId: PeerId, fails: set<Call>)
      returns (o: Outcome, given: Option<Addr>)
      requires Valid() && newId !in rows
      modifies this, ipam
      ensures Valid()
      ensures (Abs(), o) == PeerModel.AddPeer(old(Abs()), uid, key, newId, fails)
      ensures given == if o == Done then Ipam.FirstFree(ipam.subnet, old(ipam.Taken())) else None
    {
      var admission := CheckAddPeer(uid, key, fails);
      if admission.Reject? {
        assert admission.outcome != Done;
        return admission.outcome, None;
      }
      AdmitMeans(Abs(), uid, key, fails);
      o, given := AddAdmitted(admission.existing, uid, key, newId, fails);
    }

    /** From the address to the table write, with the compensations on the way. */
    method AddAdmitted(existing: Option<PeerId>, uid: UserId, key: Key, newId: PeerId, fails: set<Call>)
      returns (o: Outcome, given: Option<Addr>)
      requires Valid() && newId !in rows
      requires match existing
               case None => forall id :: id in rows ==> rows[id].key != key
               case Some(id) => id in rows
      modifies this, ipam
      ensures Valid()
      ensures (Abs(), o) == PeerModel.AddAdmitted(old(Abs()), existing, uid, key, newId, fails)
      ensures given == if o == Done then Ipam.FirstFree(ipam.subnet, old(ipam.Taken())) else None
    {
      var offered := AllocateIP();
      if offered.None? {
        return NoIPAvailable, None;
      }
      var ip := offered.value;

      var configured := ConfigurePeer(Add(key, ip), ConfigureDevice, fails);
      if !configured {
        ReleaseIP(ip);
        assert ipam.Taken() == old(ipam.Taken());
        return CallFailed, None;
      }

      if Persist in fails {
        var undone := ConfigurePeer(Remove(key), UndoDevice, fails);
        ReleaseIP(ip);
        assert ipam.Taken() == old(ipam.Taken());
        return CallFailed, None;
      }
      StoreRow(existing, newId, uid, key, ip);
      return Done, offered;
    }

    method RemovePeer(uid: UserId, key: Key, fails: set<Call>) returns (o: Outcome)
      requires Valid()
      modifies this, ipam
      ensures Valid()
      ensures (Abs(), o) == PeerModel.RemovePeer(old(Abs()), uid, key, fails)
    {
      if FindActive in fails {
        return CallFailed;
      }
      var target := FindActiveByKey(uid, key);
      if target.None? {
        return NoActivePeer;
      }
      var id := target.value;
      ConfigureOne(dev, Remove(key));
      var removed := ConfigureWg(Peers([Remove(key)]), ConfigureDevice, fails);
      if !removed {
        return CallFailed;
      }
      if Persist in fails {
        return CallFailed;
      }
      var ip := rows[id].ip;
      rows := rows[id := rows[id].(status := Disconnected)];
      ReleaseIP(ip);
      return Done;
    }

    method ReplaceKey(uid: UserId, oldKey: Key, newKey: Key, fails: set<Call>) returns (o: Outcome)
      requires Valid()
      modifies this
      ensures Valid()
      ensures (Abs(), o) == PeerModel.ReplaceKey(old(Abs()), uid, oldKey, newKey, fails)
    {
      if FindActive in fails {
        return CallFailed;
      }
      var target := FindActiveByKey(uid, oldKey);
      if target.None? {
        return NoActivePeer;
      }
      var id := target.value;
      ConfigureTwo(dev, Remove(oldKey), Add(newKey, rows[id].ip));
      var swapped := ConfigureWg(Peers([Remove(oldKey), Add(newKey, rows[id].ip)]), ConfigureDevice, fails);
      if !swapped {
        return CallFailed;
      }
      // UPDATE peers SET public_key, which the UNIQUE constraint may refuse
      var holder := FindByPublicKey(newKey);
      assert HeldByOther(rows, id, newKey) <==> holder.Some? && holder.value != id;
      if Persist in fails || (holder.Some? && holder.value != id) {
        return CallFailed;
      }
      rows := rows[id := rows[id].(key := newKey)];
      return Done;
    }

    /** The disconnect and revoke handlers with the service call behind them. */
    method AdminSetStatus(id: PeerId, status: Status, fails: set<Call>) returns (o: Outcome)
      requires Valid()
      modifies this, ipam
      ensures Valid()
      ensures (Abs(), o) == PeerModel.AdminSetStatus(old(Abs()), id, status, fails)
    {
      if LoadPeer in fails {
        return CallFailed;
      }
      if id !in rows {
        return PeerNotFound;
      }
      var row := rows[id];
      if row.status == Active {
        var ignored := RemovePeer(row.owner, row.key, fails);
      }
      if ReloadPeer in fails || SetStatus in fails {
        return CallFailed;
      }
      rows := rows[id := rows[id].(status := status)];
      return Done;
    }

    // ---------------------------------------------- whole-device operations

    /** Reserve every listed address; stops at the first one outside the subnet. */
    method ReserveAll(ids: seq<PeerId>) returns (ok: bool)
      requires Valid() && forall i :: 0 <= i < |ids| ==> ids[i] in rows
      modifies ipam
      ensures Valid()
      ensures ok <==> forall i :: 0 <= i < |ids| ==> ipam.subnet.Contains(rows[ids[i]].ip)
      ensures old(ipam.Taken()) <= ipam.Taken() <= old(ipam.Taken()) + AddrsOf(rows, ids)
      ensures ok ==> ipam.Taken() == old(ipam.Taken()) + AddrsOf(rows, ids)
    {
      ghost var before := ipam.Taken();
      var i := 0;
      while i < |ids|
        invariant 0 <= i <= |ids| && ipam.Valid()
        invariant forall j :: 0 <= j < i ==> ipam.subnet.Contains(rows[ids[j]].ip)
        invariant ipam.Taken() == before + AddrsOf(rows, ids[..i])
      {
        AddrsPrefix(rows, ids, i);
        var ok := ReserveOne(rows[ids[i]].ip);
        if !ok {
          return false;
        }
        i := i + 1;
      }
      assert ids[..i] == ids;
      return true;
    }

    method ReserveOne(ip: Addr) returns (ok: bool)
      requires Valid()
      modifies ipam
      ensures Valid()
      ensures ok <==> ipam.subnet.Contains(ip)
      ensures ipam.Taken() == if ok then old(ipam.Taken()) + {ip} else old(ipam.Taken())
    {
      ParseOfFormat(ip);
      ok := ipam.Reserve(Ipam.Format(ip));
    }

    /** Appends a removal for every device key that no active row has. */
    method AppendStale(adds: seq<PeerConfig>) returns (changes: seq<PeerConfig>)
      requires KeysDistinct(adds) && forall e :: e in adds ==> e.key !in dev.peers
      ensures KeysDistinct(changes)
      ensures Entries(changes) == Entries(adds) + set key | key in dev.peers && key !in ActiveKeys(rows) :: Remove(key)
    {
      changes := adds;
      var dbKeys := ActiveKeys(rows);
      var todo := dev.peers;
      while todo != {}
        invariant todo <= dev.peers && KeysDistinct(changes)
        invariant forall e :: e in changes ==> e.key !in todo
        invariant forall e :: e in changes ==>
                    e in adds || (e == Remove(e.key) && e.key in dev.peers && e.key !in dbKeys)
        invariant forall e :: e in adds ==> e in changes
        invariant forall key :: key in dev.peers && key !in todo && key !in dbKeys ==> Remove(key) in changes
        decreases todo
      {
        var key := PickAny(todo);
        todo := todo - {key};
        if key !in dbKeys {
          changes := changes + [Remove(key)];
        }
      }
    }

    /** The diff between the rows listed and the device: first the rows whose key is
        missing, then the stale device keys in whatever order the map yields them.
        Gives up when a last-seen update fails on the way. */
    method Diff(ids: seq<PeerId>, seen: set<Key>, fails: set<Call>) returns (ok: bool, changes: seq<PeerConfig>)
      requires UniqueKeys(rows) && ListsActive(rows, ids)
      ensures ok <==> !TouchFails(rows, dev, seen, fails)
      ensures ok ==> IsDiff(rows, dev, changes)
    {
      var adds := [];
      var i := 0;
      while i < |ids|
        invariant 0 <= i <= |ids|
        invariant forall j :: 0 <= j < i && rows[ids[j]].key in dev.peers && rows[ids[j]].key in seen ==>
                    TouchSeen(ids[j]) !in fails
        invariant AddsFor(rows, dev, ids, i, adds)
      {
        AddsForNext(rows, dev, ids, i, adds);
        var row := rows[ids[i]];
        if row.key !in dev.peers {
          adds := adds + [Add(row.key, row.ip)];
        } else if row.key in seen && TouchSeen(ids[i]) in fails {
          return false, [];
        }
        i := i + 1;
      }
      changes := AppendStale(adds);
      DiffFromParts(rows, dev, ids, adds, changes);
      ok := true;
    }

    /** Every active row is reserved, then device and table are compared and the diff is
        sent in one call. When an active address lies outside the subnet, the call stops
        with part of the active addresses reserved and nothing else done. */
    method Reconcile(seen: set<Key>, fails: set<Call>) returns (o: Outcome)
      requires Valid()
      modifies this`dev, ipam
      ensures Valid()
      ensures ActiveInside(ipam.subnet, rows) || ListActive in fails ==>
                ReconciledSomehow(old(Abs()), Abs(), o, seen, fails)
      ensures !ActiveInside(ipam.subnet, rows) && ListActive !in fails ==>
                && o == OutsideSubnet && dev == old(dev)
                && old(ipam.Taken()) <= ipam.Taken() <= old(ipam.Taken()) + ActiveAddrs(rows)
    {
      if ListActive in fails {
        return CallFailed;
      }
      var ids := ActiveRows();
      ListedAddrs(rows, ids);
      var reserved := ReserveAll(ids);
      assert reserved <==> ActiveInside(ipam.subnet, rows);
      if !reserved {
        return OutsideSubnet;
      }
      if ReadDevice in fails {
        return CallFailed;
      }
      var compared, changes := Diff(ids, seen, fails);
      if !compared {
        return CallFailed;
      }
      DiffEmptyIff(rows, dev, changes);
      if changes == [] {
        return Done;
      }
      var configured := ConfigureWg(Peers(changes), ConfigureDevice, fails);
      return if configured then Done else CallFailed;
    }

    /** One entry per active row, sent with ReplacePeers. */
    method Rebuild(privateKey: Key, flag: bool, fails: set<Call>) returns (ok: bool)
      requires UniqueKeys(rows)
      modifies this`dev
      ensures ok <==> ListActive !in fails && ConfigureDevice !in fails
      ensures if ok then RebuiltSomehow(rows, privateKey, flag, dev) else dev == old(dev)
    {
      if ListActive in fails {
        return false;
      }
      var ids := ActiveRows();
      var peerCfgs := [];
      var i := 0;
      while i < |ids|
        invariant 0 <= i <= |ids| && |peerCfgs| == i
        invariant forall j :: 0 <= j < i ==> peerCfgs[j] == RebuildEntry(rows[ids[j]], flag)
      {
        peerCfgs := peerCfgs + [RebuildEntry(rows[ids[i]], flag)];
        i := i + 1;
      }
      assert peerCfgs == RebuildEntries(rows, ids, flag);
      ok := ConfigureWg(Config(Some(privateKey), true, peerCfgs), ConfigureDevice, fails);
    }

    method RotateServerKey(newKey: Key, fails: set<Call>) returns (o: Outcome)
      requires Valid()
      modifies this
      ensures Valid()
      ensures o == if ListActive in fails || ConfigureDevice in fails then CallFailed else Done
      ensures if o == Done
              then RebuiltSomehow(rows, newKey, true, dev) && Abs() == old(Abs()).(dev := dev, serverKey := newKey)
              else Abs() == old(Abs())
      ensures DistinctActive(rows) ==> (Abs(), o) == PeerModel.RotateServerKey(old(Abs()), newKey, fails)
    {
      var ok := Rebuild(newKey, true, fails);
      if !ok {
        return CallFailed;
      }
      serverPrivateKey := newKey;
      if DistinctActive(rows) {
        SomehowIsRebuilt(rows, newKey, true, dev);
      }
      return Done;
    }

    method SetWGEnabled(enabled: bool, fails: set<Call>) returns (o: Outcome)
      requires Valid()
      modifies this`dev
      ensures Valid()
      ensures o == if (enabled && ListActive in fails) || ConfigureDevice in fails then CallFailed else Done
      ensures if o != Done then dev == old(dev)
              else if enabled then RebuiltSomehow(rows, serverPrivateKey, false, dev)
              else dev == Device(NO_KEY, {}, map[])
      ensures DistinctActive(rows) ==>
                (Abs(), o) == if enabled then Enable(old(Abs()), fails) else Disable(old(Abs()), fails)
    {
      if enabled {
        var ok := Rebuild(serverPrivateKey, false, fails);
        if ok && DistinctActive(rows) {
          SomehowIsRebuilt(rows, serverPrivateKey, false, dev);
        }
        return if ok then Done else CallFailed;
      }
      var cleared := ConfigureWg(Config(Some(NO_KEY), true, []), ConfigureDevice, fails);
      return if cleared then Done else CallFailed;
    }
  }
}
