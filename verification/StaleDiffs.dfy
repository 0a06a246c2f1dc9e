/** A Reconcile whose diff is sent after the world has moved on. The changes were computed
    from rows listed and a device read earlier; what they do to the rows and calls of the
    moment is decided here entry by entry. */
module StaleDiffs {
  import opened Common
  import opened Wire
  import opened PeerModel
  import opened PeerSafety
  import opened ReconcileDiff
  import opened AddInterleaving
  import opened PeerRefinement
  import Ipam

  /** A key that is on the device leads to its address. */
  predicate Led(d: Device, key: Key, ip: Addr) {
    key in d.peers ==> ip in d.route && d.route[ip] == key
  }

  /** The pending changes leave a key with its address, or take it off: they bring the
      key with that very address, or remove it, or bring it under no other address while
      it is off, or give its address to nobody while it is on. */
  ghost predicate Spares(d: Device, changes: set<PeerConfig>, key: Key, ip: Addr) {
    || Add(key, ip) in changes
    || Remove(key) in changes
    || if key in d.peers then forall other :: Add(other, ip) !in changes
       else forall a: Addr :: Add(key, a) !in changes
  }

  /** The pending changes leave a key on the device with its address. */
  ghost predicate Puts(d: Device, changes: set<PeerConfig>, key: Key, ip: Addr) {
    || Add(key, ip) in changes
    || (key in d.peers && Remove(key) !in changes && forall other :: Add(other, ip) !in changes)
  }

  lemma SparesIff(d: Device, changes: set<PeerConfig>, r: Device, key: Key, ip: Addr)
    requires After(d, changes, r) && Independent(changes) && d.Valid() && Led(d, key, ip)
    ensures Led(r, key, ip) <==> Spares(d, changes, key, ip)
    ensures key in r.peers && Led(r, key, ip) <==> Puts(d, changes, key, ip)
  {
    assert Leads(r, ip, key) <==>
           Add(key, ip) in changes ||
           (Leads(d, ip, key) && Remove(key) !in changes && !exists other :: Add(other, ip) in changes);
    assert key in r.peers <==>
           (key in d.peers && Remove(key) !in changes) || exists a: Addr :: Add(key, a) in changes;
  }

  /** A change list as Compare makes it, of whatever age. */
  ghost predicate Shaped(sw: Sweep) {
    sw.Compared? ==> KeysDistinct(sw.changes) && Independent(Entries(sw.changes))
  }

  lemma DiffShaped(rows: map<PeerId, Row>, d: Device, changes: seq<PeerConfig>)
    requires UniqueKeys(rows) && DistinctActive(rows) && IsDiff(rows, d, changes)
    ensures Shaped(Compared(rows, changes))
  {
    WantedIndependent(rows, d, Entries(changes));
  }

  ghost predicate MaySend(y: System, r: SweepId) {
    r in y.sweeps && y.sweeps[r].Compared? && Shaped(y.sweeps[r]) && y.st.dev.Valid()
  }

  lemma SentDevice(y: System, r: SweepId)
    requires y.st.net.Valid() && MaySend(y, r)
    ensures var y' := Act(y, Send(r, true));
            && y'.st == y.st.(dev := y'.st.dev) && y'.calls == y.calls && y'.st.dev.Valid()
            && After(y.st.dev, Entries(y.sweeps[r].changes), y'.st.dev)
  {
    ApplyIndependent(y.st.dev, y.sweeps[r].changes);
    ApplyEntriesValid(y.st.dev, y.sweeps[r].changes);
  }

  /** A diff of any age, sent now: routing is kept exactly if its changes spare every
      active row of the moment. */
  lemma SendRoutedIff(y: System, r: SweepId)
    requires y.st.net.Valid() && MaySend(y, r) && Routed(y.st)
    ensures Routed(Act(y, Send(r, true)).st) <==>
            forall id :: IsActive(y.st.rows, id) ==>
              Spares(y.st.dev, Entries(y.sweeps[r].changes), y.st.rows[id].key, y.st.rows[id].ip)
  {
    var changes, d' := Entries(y.sweeps[r].changes), Act(y, Send(r, true)).st.dev;
    SentDevice(y, r);
    forall id | IsActive(y.st.rows, id)
      ensures Led(d', y.st.rows[id].key, y.st.rows[id].ip) <==>
              Spares(y.st.dev, changes, y.st.rows[id].key, y.st.rows[id].ip)
    {
      SparesIff(y.st.dev, changes, d', y.st.rows[id].key, y.st.rows[id].ip);
    }
  }

  /** And every active row ends on the device with its address exactly if the changes put
      each of them there. */
  lemma SendRoutesAllIff(y: System, r: SweepId)
    requires y.st.net.Valid() && MaySend(y, r) && Routed(y.st)
    ensures FullyRouted(Act(y, Send(r, true)).st) <==>
            forall id :: IsActive(y.st.rows, id) ==>
              Puts(y.st.dev, Entries(y.sweeps[r].changes), y.st.rows[id].key, y.st.rows[id].ip)
  {
    var changes, d' := Entries(y.sweeps[r].changes), Act(y, Send(r, true)).st.dev;
    SentDevice(y, r);
    forall id | IsActive(y.st.rows, id)
      ensures y.st.rows[id].key in d'.peers && Led(d', y.st.rows[id].key, y.st.rows[id].ip) <==>
              Puts(y.st.dev, changes, y.st.rows[id].key, y.st.rows[id].ip)
    {
      SparesIff(y.st.dev, changes, d', y.st.rows[id].key, y.st.rows[id].ip);
    }
    assert FullyRouted(Act(y, Send(r, true)).st) <==>
           forall id :: IsActive(y.st.rows, id) ==>
             y.st.rows[id].key in d'.peers && Led(d', y.st.rows[id].key, y.st.rows[id].ip);
  }

  // ------------------------------------------------------- a sweep up to its diff

  lemma SeqOf(s: set<PeerConfig>) returns (es: seq<PeerConfig>)
    ensures Entries(es) == s && forall i, j :: 0 <= i < j < |es| ==> es[i] != es[j]
    decreases s
  {
    if e :| e in s {
      var rest := SeqOf(s - {e});
      es := rest + [e];
      assert forall x :: x in rest <==> x in s - {e};
      assert es[..|es| - 1] == rest;
      EntriesSnoc(es);
    } else {
      es := [];
    }
  }

  /** Some order of the wanted entries is a diff. */
  lemma DiffExists(rows: map<PeerId, Row>, d: Device) returns (es: seq<PeerConfig>)
    requires UniqueKeys(rows) && DistinctActive(rows)
    ensures IsDiff(rows, d, es)
  {
    es := SeqOf(Wanted(rows, d));
    WantedIndependent(rows, d, Wanted(rows, d));
    forall i, j | 0 <= i < j < |es|
      ensures es[i].key != es[j].key
    {
      assert es[i] in Entries(es) && es[j] in Entries(es);
    }
  }

  lemma {:induction false} InterleaveMore(y: System, a: seq<Action>, b: seq<Action>)
    requires y.st.net.Valid()
    ensures Interleave(y, a + b) == Interleave(Interleave(y, a), b)
    decreases |a|
  {
    if a == [] {
      assert a + b == b;
    } else {
      assert (a + b)[1..] == a[1..] + b;
      InterleaveMore(Act(y, a[0]), a[1..], b);
    }
  }

  lemma OneAct(y: System, a: Action)
    requires y.st.net.Valid()
    ensures Interleave(y, [a]) == Act(y, a)
  {
    FirstAct(y, a, []);
    assert [a] + [] == [a];
  }

  predicate OwnSteps(script: seq<Action>, r: SweepId) {
    forall a :: a in script ==> a == List(r) || (a.Reserve? && a.sweep == r) || (a.Compare? && a.sweep == r)
  }

  /** All reservations of a listing whose addresses lie inside the subnet. */
  lemma ReserveAll(y: System, r: SweepId) returns (script: seq<Action>)
    requires y.st.net.Valid() && r in y.sweeps && y.sweeps[r].Listing?
    requires forall ip :: ip in y.sweeps[r].todo ==> y.st.net.Contains(ip)
    ensures OwnSteps(script, r)
    ensures Interleave(y, script) ==
            y.(st := y.st.(used := y.st.used + y.sweeps[r].todo), sweeps := y.sweeps[r := y.sweeps[r].(todo := {})])
    decreases y.sweeps[r].todo
  {
    var todo := y.sweeps[r].todo;
    if ip :| ip in todo {
      var y1 := Act(y, Reserve(r, ip));
      var rest := ReserveAll(y1, r);
      script := [Reserve(r, ip)] + rest;
      FirstAct(y, Reserve(r, ip), rest);
      assert y.st.used + {ip} + (todo - {ip}) == y.st.used + todo;
      assert y1.sweeps[r := y1.sweeps[r].(todo := {})] == y.sweeps[r := y.sweeps[r].(todo := {})];
    } else {
      script := [];
      assert todo == {};
      assert y.st.used + todo == y.st.used && y.sweeps[r := y.sweeps[r].(todo := {})] == y.sweeps;
    }
  }

  lemma Between(y: System, a: Action, mid: seq<Action>, b: Action)
    requires y.st.net.Valid()
    ensures Interleave(y, [a] + (mid + [b])) == Act(Interleave(Act(y, a), mid), b)
  {
    FirstAct(y, a, mid + [b]);
    InterleaveMore(Act(y, a), mid, [b]);
    OneAct(Interleave(Act(y, a), mid), b);
  }

  lemma ListsRows(y: System, r: SweepId)
    requires Sound(y.st) && r !in y.sweeps
    ensures var y' := Act(y, List(r));
            && y' == y.(sweeps := y.sweeps[r := Listing(y.st.rows, ActiveAddrs(y.st.rows))])
            && forall ip :: ip in ActiveAddrs(y.st.rows) ==> y.st.net.Contains(ip)
    ensures y.st.used + ActiveAddrs(y.st.rows) == y.st.used
  {
  }

  /** A sweep that is left alone gets as far as its diff. */
  lemma UpToDiff(y: System, r: SweepId) returns (script: seq<Action>, changes: seq<PeerConfig>)
    requires Sound(y.st) && r !in y.sweeps && y.st.dev.peers != ActiveKeys(y.st.rows)
    ensures OwnSteps(script, r) && IsDiff(y.st.rows, y.st.dev, changes)
    ensures Interleave(y, script) == y.(sweeps := y.sweeps[r := Compared(y.st.rows, changes)])
  {
    changes := DiffExists(y.st.rows, y.st.dev);
    DiffNotEmpty(y.st.rows, y.st.dev, changes);
    ListsRows(y, r);
    var reserves := ReserveAll(Act(y, List(r)), r);
    var y2 := Interleave(Act(y, List(r)), reserves);
    assert y2 == y.(sweeps := y.sweeps[r := Listing(y.st.rows, {})]);
    Compares(y2, r, changes);
    script := [List(r)] + (reserves + [Compare(r, changes)]);
    Between(y, List(r), reserves, Compare(r, changes));
  }

  lemma DiffNotEmpty(rows: map<PeerId, Row>, d: Device, changes: seq<PeerConfig>)
    requires IsDiff(rows, d, changes) && d.peers != ActiveKeys(rows)
    ensures changes != []
  {
    DiffKeys(rows, d, changes);
  }

  lemma Compares(y: System, r: SweepId, changes: seq<PeerConfig>)
    requires y.st.net.Valid() && r in y.sweeps && y.sweeps[r] == Listing(y.st.rows, {})
    requires IsDiff(y.st.rows, y.st.dev, changes) && changes != []
    ensures Act(y, Compare(r, changes)) == y.(sweeps := y.sweeps[r := Compared(y.st.rows, changes)])
  {
  }

  /** A Reconcile alone, step by step, is the one-step Reconcile. */
  lemma SoloSweepIsReconcile(s: State, r: SweepId) returns (script: seq<Action>)
    requires Sound(s) && s.dev.peers != ActiveKeys(s.rows)
    ensures Interleave(System(s, map[], map[]), script) == System(Reconcile(s, {}, {}).0, map[], map[])
  {
    var y := System(s, map[], map[]);
    var first, changes := UpToDiff(y, r);
    var y1 := Interleave(y, first);
    script := first + [Send(r, true)];
    InterleaveMore(y, first, [Send(r, true)]);
    OneAct(y1, Send(r, true));
    DiffReconciles(s.rows, s.dev, changes);
    assert s.used + ActiveAddrs(s.rows) == s.used;
    assert y1.sweeps - {r} == map[];
  }

  /** Reserving one listed address holds it back if it lies inside the subnet, and otherwise
      ends the sweep with everything as it was. */
  lemma ReserveOneIff(y: System, r: SweepId, ip: Addr)
    requires y.st.net.Valid() && r in y.sweeps && y.sweeps[r].Listing? && ip in y.sweeps[r].todo
    ensures var y' := Act(y, Reserve(r, ip));
            if y.st.net.Contains(ip)
            then y'.st == y.st.(used := y.st.used + {ip}) && r in y'.sweeps
                 && y'.sweeps[r] == Listing(y.sweeps[r].rows, y.sweeps[r].todo - {ip})
            else y' == y.(sweeps := y.sweeps - {r})
  {
  }

  /** A rebuild alone, step by step, is the one-step RotateServerKey or enableWG. */
  lemma SoloRebuild(s: State, r: SweepId, newKey: Key)
    requires s.net.Valid()
    ensures var listed := Act(System(s, map[], map[]), List(r));
            && Act(listed, Rebuild(r, Some(newKey), true)) == System(RotateServerKey(s, newKey, {}).0, map[], map[])
            && Act(listed, Rebuild(r, None, true)) == System(Enable(s, {}).0, map[], map[])
            && Act(listed, Rebuild(r, None, false)) == System(s, map[], map[])
            && Act(listed, Abandon(r)) == System(s, map[], map[])
  {
    assert Act(System(s, map[], map[]), List(r)).sweeps - {r} == map[];
  }

  // --------------------------------------------------------------- witnesses

  /** A sweep has just compared: its diff is still that of the rows and the device. */
  ghost predicate JustCompared(y: System, r: SweepId) {
    && Safe(y.st) && r in y.sweeps && y.sweeps[r].Compared? && y.sweeps[r].rows == y.st.rows
    && IsDiff(y.st.rows, y.st.dev, y.sweeps[r].changes)
  }

  /** Such a moment is reached from every good table with an active row: the interface is
      disabled and a Reconcile reads table and device. Every active row is then pending. */
  lemma ReachesDiff(t: Table, r: SweepId) returns (script: seq<Action>)
    requires GoodTable(t) && ActiveKeys(t.rows) != {}
    ensures var y := Interleave(System(Expand(t), map[], map[]), script);
            JustCompared(y, r) && y.st == Disable(Expand(t), {}).0 && y.calls == map[]
    ensures forall a :: a in script ==> a == Whole(Event(OpDisable, {})) || OwnSteps([a], r)
  {
    var disable := Whole(Event(OpDisable, {}));
    var y0 := System(Expand(t), map[], map[]);
    ExpandSafe(t);
    var y1 := Act(y0, disable);
    var own, changes := UpToDiff(y1, r);
    script := [disable] + own;
    FirstAct(y0, disable, own);
  }

  /** What is pending for a row that was off the device. */
  lemma PendingAdd(y: System, r: SweepId, id: PeerId)
    requires JustCompared(y, r) && IsActive(y.st.rows, id) && y.st.rows[id].key !in y.st.dev.peers
    ensures Add(y.st.rows[id].key, y.st.rows[id].ip) in Entries(y.sweeps[r].changes)
    ensures MaySend(y, r)
  {
    WantedMeans(y.st.rows, y.st.dev, y.st.rows[id].key, y.st.rows[id].ip);
    DiffShaped(y.st.rows, y.st.dev, y.sweeps[r].changes);
  }

  /** A key no row had and the device had not is no part of a diff. */
  lemma NotPending(y: System, r: SweepId, key: Key)
    requires JustCompared(y, r) && key !in y.st.dev.peers && key !in ActiveKeys(y.st.rows)
    ensures Remove(key) !in Entries(y.sweeps[r].changes)
    ensures forall a: Addr :: Add(key, a) !in Entries(y.sweeps[r].changes)
  {
    forall a: Addr
      ensures Add(key, a) !in Entries(y.sweeps[r].changes)
    {
      WantedMeans(y.st.rows, y.st.dev, key, a);
    }
  }

  /** A stale Add against a row that has its address under another key by now. */
  lemma StaleAddMisroutes(y: System, r: SweepId, st: State, id: PeerId, key: Key)
    requires JustCompared(y, r) && MaySend(y, r) && Safe(st) && st.net == y.st.net
    requires IsActive(st.rows, id) && st.rows[id].key in st.dev.peers && st.rows[id].key != key
    requires st.rows[id].key !in y.st.dev.peers && st.rows[id].key !in ActiveKeys(y.st.rows)
    requires Add(key, st.rows[id].ip) in Entries(y.sweeps[r].changes)
    ensures !Routed(Act(y.(st := st), Send(r, true)).st)
  {
    NotPending(y, r, st.rows[id].key);
    SendRoutedIff(y.(st := st), r);
    assert !Spares(st.dev, Entries(y.sweeps[r].changes), st.rows[id].key, st.rows[id].ip);
  }

  /** A ReplaceKey between diff and send: the stale Add takes the row's address for the
      key the row had. */
  lemma StaleSendAfterReplace(y: System, r: SweepId, id: PeerId, newKey: Key)
    requires JustCompared(y, r) && IsActive(y.st.rows, id) && y.st.rows[id].key !in y.st.dev.peers
    requires newKey !in y.st.dev.peers && forall j :: j in y.st.rows ==> y.st.rows[j].key != newKey
    ensures var replace := Event(OpReplace(y.st.rows[id].owner, y.st.rows[id].key, newKey), {});
            !Routed(Act(Act(y, Whole(replace)), Send(r, true)).st)
  {
    var row := y.st.rows[id];
    assert ActiveHolder(y.st.rows, row.owner, row.key) == Some(id);
    ReplaceKeySafeIff(y.st, row.owner, row.key, newKey, {});
    var st := Step(y.st, Event(OpReplace(row.owner, row.key, newKey), {})).0;
    assert st.rows[id] == row.(key := newKey) && newKey in st.dev.peers;
    PendingAdd(y, r, id);
    StaleAddMisroutes(y, r, st, id, row.key);
  }

  /** A user whose one more peer the quota allows. */
  predicate MayAdd(s: State, uid: UserId) {
    uid in s.users && s.users[uid].active && |ActiveOf(s.rows, uid)| < s.users[uid].maxPeers
  }

  /** A peer is removed and a new key gets the address it freed. */
  lemma AddressPassesOn(s: State, id: PeerId, uid: UserId, newKey: Key, newId: PeerId)
    requires Safe(s) && IsActive(s.rows, id) && MayAdd(s, uid) && newId !in s.rows
    requires forall j :: j in s.rows ==> s.rows[j].key != newKey
    requires Ipam.FirstFree(s.net, s.used - {s.rows[id].ip}) == Some(s.rows[id].ip)
    ensures var s1 := RemovePeer(s, s.rows[id].owner, s.rows[id].key, {}).0;
            var s2 := AddPeer(s1, uid, newKey, newId, {}).0;
            && Safe(s2) && newId in s2.rows && s2.rows[newId] == Row(uid, newKey, s.rows[id].ip, Active)
            && newKey in s2.dev.peers && s2.net == s.net
  {
    var row := s.rows[id];
    assert ActiveHolder(s.rows, row.owner, row.key) == Some(id);
    RemovePeerSafe(s, row.owner, row.key, {});
    var s1 := RemovePeer(s, row.owner, row.key, {}).0;
    assert ActiveOf(s1.rows, uid) <= ActiveOf(s.rows, uid);
    SubsetSize(ActiveOf(s1.rows, uid), ActiveOf(s.rows, uid));
    assert forall j :: j in s1.rows ==> s1.rows[j].key != newKey;
    assert CheckAdd(s1, uid, newKey, {}) == Admit(None);
    AddPeerSafe(s1, uid, newKey, newId, {});
  }

  lemma TwoWhole(y: System, e: Event, f: Event)
    requires y.st.net.Valid()
    ensures Act(Act(y, Whole(e)), Whole(f)) == y.(st := Step(Step(y.st, e).0, f).0)
  {
  }

  lemma RemoveThenAdd(s: State, id: PeerId, uid: UserId, newKey: Key, newId: PeerId)
    requires s.net.Valid() && id in s.rows
    ensures Step(Step(s, RemoveEvent(s, id)).0, Event(OpAdd(uid, newKey, newId), {})).0 ==
            AddPeer(RemovePeer(s, s.rows[id].owner, s.rows[id].key, {}).0, uid, newKey, newId, {}).0
  {
  }

  function RemoveEvent(s: State, id: PeerId): Event
    requires id in s.rows
  {
    Event(OpRemove(s.rows[id].owner, s.rows[id].key), {})
  }

  /** A RemovePeer and an AddPeer between diff and send: the new peer gets the freed
      address, and the stale Add gives it back to the removed peer's key. The new row is
      active, its key on the device, its address not, and no call failed. */
  lemma StaleSendAfterRemoval(y: System, r: SweepId, id: PeerId, uid: UserId, newKey: Key, newId: PeerId)
    requires JustCompared(y, r) && IsActive(y.st.rows, id) && y.st.rows[id].key !in y.st.dev.peers
    requires MayAdd(y.st, uid) && newId !in y.st.rows
    requires newKey !in y.st.dev.peers && forall j :: j in y.st.rows ==> y.st.rows[j].key != newKey
    requires Ipam.FirstFree(y.st.net, y.st.used - {y.st.rows[id].ip}) == Some(y.st.rows[id].ip)
    ensures var add := Event(OpAdd(uid, newKey, newId), {});
            !Routed(Act(Act(Act(y, Whole(RemoveEvent(y.st, id))), Whole(add)), Send(r, true)).st)
  {
    AddressPassesOn(y.st, id, uid, newKey, newId);
    RemoveThenAdd(y.st, id, uid, newKey, newId);
    TwoWhole(y, RemoveEvent(y.st, id), Event(OpAdd(uid, newKey, newId), {}));
    PendingAdd(y, r, id);
    var st := Step(Step(y.st, RemoveEvent(y.st, id)).0, Event(OpAdd(uid, newKey, newId), {})).0;
    StaleAddMisroutes(y, r, st, newId, y.st.rows[id].key);
  }

  /** A diff made while a call is configured and sent after its table write: the Reconcile
      succeeds and the new active row is off the device. */
  lemma StaleSendDropsNewRow(y: System, r: SweepId, c: CallId)
    requires JustCompared(y, r) && c in y.calls && y.calls[c].stage.Configured?
    requires y.calls[c].key in y.st.dev.peers && y.calls[c].key !in ActiveKeys(y.st.rows)
    requires InsertAllowed(y.st.rows, y.calls[c])
    requires y.calls[c].existing.Some? ==>
               y.calls[c].existing.value in y.st.rows && y.st.rows[y.calls[c].existing.value].key == y.calls[c].key
    ensures var y' := Act(Act(y, Action.Persist(c, true)), Send(r, true));
            var id := if y.calls[c].existing.Some? then y.calls[c].existing.value else y.calls[c].newId;
            IsActive(y'.st.rows, id) && y'.st.rows[id].key == y.calls[c].key && y.calls[c].key !in y'.st.dev.peers
  {
    var key := y.calls[c].key;
    DiffShaped(y.st.rows, y.st.dev, y.sweeps[r].changes);
    WantedMeans(y.st.rows, y.st.dev, key, 0);
    assert Remove(key) in Entries(y.sweeps[r].changes);
    var y1 := Act(y, Action.Persist(c, true));
    SentDevice(y1, r);
  }

  /** A revocation between diff and send: the Reconcile succeeds and the revoked key is
      back on the device. */
  lemma StaleSendRestoresRevoked(y: System, r: SweepId, id: PeerId)
    requires JustCompared(y, r) && IsActive(y.st.rows, id) && y.st.rows[id].key !in y.st.dev.peers
    ensures var y' := Act(Act(y, Whole(Event(OpRevoke(id), {}))), Send(r, true));
            id in y'.st.rows && y'.st.rows[id] == y.st.rows[id].(status := Revoked)
            && y.st.rows[id].key in y'.st.dev.peers
  {
    PendingAdd(y, r, id);
    AdminSetStatusSafe(y.st, id, Revoked, {});
    var y1 := Act(y, Whole(Event(OpRevoke(id), {})));
    assert ActiveHolder(y.st.rows, y.st.rows[id].owner, y.st.rows[id].key) == Some(id);
    SentDevice(y1, r);
  }
}
