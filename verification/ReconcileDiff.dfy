/** Reconcile's change list: a minimal diff between the active rows and the device,
    whose effect does not depend on the order in which it was collected. */
module ReconcileDiff {
  import opened Common
  import opened Wire
  import opened PeerModel
  import opened PeerRefinement

  /** The entries a diff must consist of: an Add for every active row whose key the
      device lacks, a Remove for every device key no active row has. */
  ghost function Wanted(rows: map<PeerId, Row>, d: Device): set<PeerConfig> {
    (set id | id in rows && rows[id].status == Active && rows[id].key !in d.peers :: Add(rows[id].key, rows[id].ip))
    + (set key | key in d.peers && key !in ActiveKeys(rows) :: Remove(key))
  }

  /** A list of exactly the wanted entries, in any order, no key twice. */
  ghost predicate IsDiff(rows: map<PeerId, Row>, d: Device, es: seq<PeerConfig>) {
    (set e | e in es) == Wanted(rows, d) && KeysDistinct(es)
  }

  lemma WantedMeans(rows: map<PeerId, Row>, d: Device, key: Key, a: Addr)
    ensures Add(key, a) in Wanted(rows, d) <==>
            key !in d.peers && exists id :: IsActive(rows, id) && rows[id].key == key && rows[id].ip == a
    ensures Remove(key) in Wanted(rows, d) <==> key in d.peers && key !in ActiveKeys(rows)
  {
    if id :| IsActive(rows, id) && rows[id].key == key && rows[id].ip == a && key !in d.peers {
      assert Add(rows[id].key, rows[id].ip) in Wanted(rows, d);
    }
  }

  ghost predicate Leads(d: Device, a: Addr, key: Key) {
    a in d.route && d.route[a] == key
  }

  /** Device `r` is `d` after the entries of the set `done`, whatever their order was. */
  ghost predicate After(d: Device, done: set<PeerConfig>, r: Device) {
    && r.privateKey == d.privateKey
    && (forall key :: key in r.peers <==>
          (key in d.peers && Remove(key) !in done) || exists a: Addr :: Add(key, a) in done)
    && (forall a: Addr, key :: Leads(r, a, key) <==>
          Add(key, a) in done ||
          (Leads(d, a, key) && Remove(key) !in done && !exists other :: Add(other, a) in done))
  }

  /** Entries of a diff do not interfere: each adds a key under one address or removes a
      key, never both, and no two Adds share an address. */
  ghost predicate Independent(es: set<PeerConfig>) {
    && (forall e :: e in es ==> if e.remove then e == Remove(e.key) else exists a: Addr :: e == Add(e.key, a))
    && (forall key, a: Addr :: Add(key, a) in es ==> Remove(key) !in es)
    && (forall key, key', a: Addr :: Add(key, a) in es && Add(key', a) in es ==> key == key')
    && (forall key, a: Addr, a': Addr :: Add(key, a) in es && Add(key, a') in es ==> a == a')
  }

  lemma AfterAdd(d: Device, done: set<PeerConfig>, r: Device, key: Key, a: Addr)
    requires Independent(done + {Add(key, a)}) && Add(key, a) !in done && After(d, done, r)
    ensures After(d, done + {Add(key, a)}, ApplyEntry(r, Add(key, a)))
  {
    var done', r' := done + {Add(key, a)}, ApplyEntry(r, Add(key, a));
    assert Add(key, a) in done';
    assert r'.route == r.route[a := key];
    forall b: Addr, k
      ensures Leads(r', b, k) <==>
        Add(k, b) in done' ||
        (Leads(d, b, k) && Remove(k) !in done' && !exists other :: Add(other, b) in done')
    {
      assert b != a ==> Leads(r', b, k) == Leads(r, b, k);
      if b != a {
        assert forall other :: Add(other, b) in done' <==> Add(other, b) in done;
      }
    }
  }

  lemma AfterRemove(d: Device, done: set<PeerConfig>, r: Device, key: Key)
    requires Independent(done + {Remove(key)}) && After(d, done, r)
    ensures After(d, done + {Remove(key)}, ApplyEntry(r, Remove(key)))
  {
    var done' := done + {Remove(key)};
    assert Remove(key) in done';
    assert forall a: Addr, k :: Add(k, a) in done' <==> Add(k, a) in done;
    assert forall a: Addr :: Add(key, a) !in done;
  }

  lemma WantedIndependent(rows: map<PeerId, Row>, d: Device, es: set<PeerConfig>)
    requires UniqueKeys(rows) && DistinctActive(rows) && es <= Wanted(rows, d)
    ensures Independent(es)
  {
    forall key, a: Addr {:trigger Add(key, a) in es} | Add(key, a) in es
      ensures key !in d.peers && exists id :: IsActive(rows, id) && rows[id].key == key && rows[id].ip == a
    {
      WantedMeans(rows, d, key, a);
    }
  }

  ghost function Entries(es: seq<PeerConfig>): set<PeerConfig> {
    set e | e in es
  }

  lemma EntriesSnoc(es: seq<PeerConfig>)
    requires es != []
    ensures Entries(es) == Entries(es[..|es| - 1]) + {es[|es| - 1]}
  {
    var init, e := es[..|es| - 1], es[|es| - 1];
    forall x | x in es
      ensures x in init || x == e
    {
      var i :| 0 <= i < |es| && es[i] == x;
      if i < |init| {
        assert init[i] == x;
      }
    }
  }

  /** Entries that do not interfere have the sum of their effects in any order and on any
      device, not only the one they were computed from. */
  lemma {:induction false} ApplyIndependent(d: Device, es: seq<PeerConfig>)
    requires KeysDistinct(es) && Independent(Entries(es))
    ensures After(d, Entries(es), ApplyEntries(d, es))
  {
    if es == [] {
      assert Entries(es) == {};
    } else {
      var init, e := es[..|es| - 1], es[|es| - 1];
      EntriesSnoc(es);
      FewerIndependent(Entries(init), e);
      ApplyIndependent(d, init);
      if e.remove {
        AfterRemove(d, Entries(init), ApplyEntries(d, init), e.key);
      } else {
        var a: Addr :| e == Add(e.key, a);
        assert e !in init;
        AfterAdd(d, Entries(init), ApplyEntries(d, init), e.key, a);
      }
    }
  }

  lemma FewerIndependent(es: set<PeerConfig>, e: PeerConfig)
    requires Independent(es + {e})
    ensures Independent(es) && if e.remove then e == Remove(e.key) else exists a: Addr :: e == Add(e.key, a)
  {
    assert e in es + {e};
    assert forall x :: x in es ==> x in es + {e};
  }

  /** The effect of a diff: whatever order the rows and the device peers were visited in,
      the device ends with exactly the active keys and the one route map. */
  lemma DiffReconciles(rows: map<PeerId, Row>, d: Device, es: seq<PeerConfig>)
    requires UniqueKeys(rows) && DistinctActive(rows) && d.Valid() && IsDiff(rows, d, es)
    ensures ApplyEntries(d, es) == Reconciled(rows, d)
  {
    WantedIndependent(rows, d, Entries(es));
    ApplyIndependent(d, es);
    ReconciledIsAfter(rows, d);
    AfterUnique(d, Wanted(rows, d), ApplyEntries(d, es), Reconciled(rows, d));
  }

  /** The order-free goal read as After: the goal is After with every wanted entry done. */
  lemma ReconciledIsAfter(rows: map<PeerId, Row>, d: Device)
    requires UniqueKeys(rows) && DistinctActive(rows) && d.Valid()
    ensures After(d, Wanted(rows, d), Reconciled(rows, d))
  {
    var wanted, goal := Wanted(rows, d), Reconciled(rows, d);
    forall key
      ensures key in goal.peers <==>
              (key in d.peers && Remove(key) !in wanted) || exists a: Addr :: Add(key, a) in wanted
    {
      WantedMeans(rows, d, key, 0);
      if key in ActiveKeys(rows) && key !in d.peers {
        var id :| id in rows && rows[id].status == Active && rows[id].key == key;
        assert Add(rows[id].key, rows[id].ip) in wanted;
      }
    }
    forall a: Addr, key
      ensures Leads(goal, a, key) <==>
              Add(key, a) in wanted ||
              (Leads(d, a, key) && Remove(key) !in wanted && !exists other :: Add(other, a) in wanted)
    {
      ReconciledRoute(rows, d, a, key);
    }
  }

  lemma ReconciledRoute(rows: map<PeerId, Row>, d: Device, a: Addr, key: Key)
    requires UniqueKeys(rows) && DistinctActive(rows) && d.Valid()
    ensures var wanted, goal := Wanted(rows, d), Reconciled(rows, d);
            Leads(goal, a, key) <==>
              Add(key, a) in wanted ||
              (Leads(d, a, key) && Remove(key) !in wanted && !exists other :: Add(other, a) in wanted)
  {
    var wanted := Wanted(rows, d);
    WantedMeans(rows, d, key, a);
    if id :| id in rows && rows[id].status == Active && rows[id].key !in d.peers && rows[id].ip == a {
      assert Add(rows[id].key, a) in wanted;
      assert IsActive(rows, id);
      assert KeyAt(rows, a) == rows[id].key;
    } else {
      forall other
        ensures Add(other, a) !in wanted
      {
        WantedMeans(rows, d, other, a);
      }
    }
  }

  /** After pins the device down. */
  lemma AfterUnique(d: Device, done: set<PeerConfig>, r: Device, r': Device)
    requires After(d, done, r) && After(d, done, r')
    ensures r == r'
  {
    assert forall key :: key in r.peers <==> key in r'.peers;
    forall a: Addr | a in r.route || a in r'.route
      ensures a in r.route && a in r'.route && r.route[a] == r'.route[a]
    {
      var key := if a in r.route then r.route[a] else r'.route[a];
      assert Leads(r, a, key) <==> Leads(r', a, key);
    }
  }

  // ---------------------------------------------------------------- minimality

  ghost function KeysOf(es: seq<PeerConfig>): set<Key> {
    set i | 0 <= i < |es| :: es[i].key
  }

  lemma KeysOfSnoc(es: seq<PeerConfig>)
    requires es != []
    ensures KeysOf(es) == KeysOf(es[..|es| - 1]) + {es[|es| - 1].key}
  {
    var init, last := es[..|es| - 1], es[|es| - 1];
    forall k | k in KeysOf(init) + {last.key}
      ensures k in KeysOf(es)
    {
      if i :| 0 <= i < |init| && init[i].key == k {
        assert es[i].key == k;
      } else {
        assert es[|es| - 1].key == k;
      }
    }
    forall k | k in KeysOf(es)
      ensures k in KeysOf(init) + {last.key}
    {
      var i :| 0 <= i < |es| && es[i].key == k;
      if i < |init| { assert init[i].key == k; }
    }
  }

  /** Membership after entries with distinct keys, whatever their order. */
  lemma {:induction false} PeersAfter(d: Device, es: seq<PeerConfig>, key: Key)
    requires KeysDistinct(es)
    ensures key in ApplyEntries(d, es).peers <==>
            (exists e :: e in es && e.key == key && !e.remove) || (key in d.peers && key !in KeysOf(es))
  {
    if es != [] {
      var init, last := es[..|es| - 1], es[|es| - 1];
      PeersAfter(d, init, key);
      assert es == init + [last];
      assert forall e :: e in init ==> e.key != last.key;
      KeysOfSnoc(es);
    }
  }

  lemma {:induction false} DistinctKeysCount(es: seq<PeerConfig>)
    requires KeysDistinct(es)
    ensures |KeysOf(es)| == |es|
  {
    if es != [] {
      var init, last := es[..|es| - 1], es[|es| - 1];
      DistinctKeysCount(init);
      KeysOfSnoc(es);
    }
  }

  lemma DiffKeys(rows: map<PeerId, Row>, d: Device, es: seq<PeerConfig>)
    requires IsDiff(rows, d, es)
    ensures KeysOf(es) == (ActiveKeys(rows) - d.peers) + (d.peers - ActiveKeys(rows))
  {
    forall k | k in KeysOf(es) ensures k in (ActiveKeys(rows) - d.peers) + (d.peers - ActiveKeys(rows)) {
      var i :| 0 <= i < |es| && es[i].key == k;
      assert es[i] in (set e | e in es);
      assert es[i] in Wanted(rows, d);
    }
    forall k | k in (ActiveKeys(rows) - d.peers) + (d.peers - ActiveKeys(rows)) ensures k in KeysOf(es) {
      var e: PeerConfig;
      if k in d.peers {
        e := Remove(k);
      } else {
        var id :| id in rows && rows[id].status == Active && rows[id].key == k;
        e := Add(rows[id].key, rows[id].ip);
      }
      assert e in Wanted(rows, d);
      assert e in (set x | x in es);
      var i :| 0 <= i < |es| && es[i] == e;
    }
  }

  /** Reconcile changes each key at most once, changes exactly the symmetric difference,
      and no list of entries reaching the active keys is shorter. */
  lemma DiffIsMinimal(rows: map<PeerId, Row>, d: Device, es: seq<PeerConfig>, other: seq<PeerConfig>)
    requires IsDiff(rows, d, es)
    ensures KeysDistinct(es)
    ensures |es| == |(ActiveKeys(rows) - d.peers) + (d.peers - ActiveKeys(rows))|
    ensures ApplyEntries(d, other).peers == ActiveKeys(rows) ==> |es| <= |other|
  {
    DiffKeys(rows, d, es);
    DistinctKeysCount(es);
    EntriesBoundChange(d, other);
  }

  /** A second Reconcile finds nothing to change, so it succeeds even when the device
      would refuse to be configured, and leaves the state alone. */
  lemma SecondReconcileIdle(s: State, seen: set<Key>, fails: set<Call>, seen': set<Key>, fails': set<Call>)
    requires Sound(s)
    requires Reconcile(s, seen, fails).1 == Done
    requires ListActive !in fails' && ReadDevice !in fails' && forall id :: TouchSeen(id) !in fails'
    ensures var s1 := Reconcile(s, seen, fails).0;
            Wanted(s1.rows, s1.dev) == {} && Reconcile(s1, seen', fails') == (s1, Done)
  {
    var s1 := Reconcile(s, seen, fails).0;
    assert s1.dev.peers == ActiveKeys(s1.rows);
    assert s1.used + ActiveAddrs(s1.rows) == s1.used;
  }

  // ------------------------------------------------------- against the rebuild

  /** Every active key already on the device has its row's address there, and any other
      address it has belongs to some active row. */
  ghost predicate Faithful(rows: map<PeerId, Row>, d: Device) {
    && (forall id :: IsActive(rows, id) && rows[id].key in d.peers ==> Leads(d, rows[id].ip, rows[id].key))
    && (forall a :: a in d.route && d.route[a] in ActiveKeys(rows) ==> a in ActiveAddrs(rows))
  }

  /** The diff gives the same device as the full rebuild of enableWG exactly when the
      keys both sides share were configured faithfully. */
  lemma ReconcileEqualsRebuildIff(rows: map<PeerId, Row>, d: Device)
    requires UniqueKeys(rows) && DistinctActive(rows) && d.Valid()
    ensures Reconciled(rows, d) == Rebuilt(rows, d.privateKey) <==> Faithful(rows, d)
  {
    var r := Reconciled(rows, d);
    if Faithful(rows, d) {
      forall id | IsActive(rows, id)
        ensures Leads(r, rows[id].ip, rows[id].key)
      {
        ReconciledLeads(rows, d, id);
      }
      assert forall id :: id in ActiveIds(rows) ==> IsActive(rows, id);
      RebuiltIs(rows, r);
    }
    if r == Rebuilt(rows, d.privateKey) {
      RebuiltRoutes(rows, d.privateKey);
      forall id | IsActive(rows, id) && rows[id].key in d.peers
        ensures Leads(d, rows[id].ip, rows[id].key)
      {
        NotMissing(rows, d, id);
      }
    }
  }

  lemma NotMissing(rows: map<PeerId, Row>, d: Device, id: PeerId)
    requires DistinctActive(rows) && IsActive(rows, id)
    ensures rows[id].ip in MissingAddrs(rows, d) <==> rows[id].key !in d.peers
  {
    if j :| j in rows && rows[j].status == Active && rows[j].key !in d.peers && rows[j].ip == rows[id].ip {
      assert IsActive(rows, j);
      assert j == id;
    }
  }

  lemma ReconciledLeads(rows: map<PeerId, Row>, d: Device, id: PeerId)
    requires DistinctActive(rows) && IsActive(rows, id)
    requires rows[id].key in d.peers ==> Leads(d, rows[id].ip, rows[id].key)
    ensures Leads(Reconciled(rows, d), rows[id].ip, rows[id].key)
  {
    NotMissing(rows, d, id);
    KeyAtRow(rows, id);
  }
}
