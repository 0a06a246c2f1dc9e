/** Any number of AddPeer and Reconcile calls interleaved at every external call, with the
    other operations as single steps. The manager takes no lock; only the allocator
    does. */
module AddInterleaving {
  import opened Common
  import opened Wire
  import opened PeerModel
  import opened ReconcileDiff
  import Ipam

  type CallId = int
  type SweepId = int

  /** Where an AddPeer call stands, with the address it holds. */
  datatype Stage =
    | Admitted              // all checks passed
    | Allocated(ip: Addr)
    | Configured(ip: Addr)  // on the device, not yet in the table
    | Undoing(ip: Addr)     // the store refused; the device entry is to be removed
    | Releasing(ip: Addr)

  datatype Pending = Pending(uid: UserId, key: Key, existing: Option<PeerId>, newId: PeerId, stage: Stage)

  /** A Reconcile, or a full rebuild, between its calls: the rows it listed and the
      addresses it has yet to reserve, or the changes it is about to send. */
  datatype Sweep =
    | Listing(rows: map<PeerId, Row>, todo: set<Addr>)
    | Compared(rows: map<PeerId, Row>, changes: seq<PeerConfig>)

  datatype System = System(st: State, calls: map<CallId, Pending>, sweeps: map<SweepId, Sweep>)

  /** One step of some call, or a whole other operation. A step's `ok` says whether its
      external call succeeds. The row a call found during its checks is unconstrained:
      by the time it is used it may be stale in any way. */
  datatype Action =
    | Begin(call: CallId, uid: UserId, key: Key, existing: Option<PeerId>, newId: PeerId)
    | Allocate(call: CallId)
    | Configure(call: CallId, ok: bool)
    | Persist(call: CallId, ok: bool)
    | Undo(call: CallId, ok: bool)
    | Release(call: CallId)
    | List(sweep: SweepId)                             // ListActive
    | Reserve(sweep: SweepId, ip: Addr)                // of one listed row
    | Compare(sweep: SweepId, changes: seq<PeerConfig>)// device read, last-seen written, diff made
    | Send(sweep: SweepId, ok: bool)
    | Rebuild(sweep: SweepId, newKey: Option<Key>, ok: bool)  // enableWG and RotateServerKey
    | Abandon(sweep: SweepId)                          // a call of the sweep failed
    | Whole(event: Event)

  /** UNIQUE(public_key) and the primary key, as Create meets them. */
  ghost predicate InsertAllowed(rows: map<PeerId, Row>, p: Pending) {
    p.existing.Some? || (p.newId !in rows && forall id :: id in rows ==> rows[id].key != p.key)
  }

  /** An action that does not apply where its call stands does nothing. */
  ghost function Act(y: System, a: Action): (r: System)
    requires y.st.net.Valid()
    ensures r.st.net == y.st.net && r.st.server == y.st.server
  {
    match a
    case Begin(c, uid, key, existing, newId) =>
      if c in y.calls then y else y.(calls := y.calls[c := Pending(uid, key, existing, newId, Admitted)])
    case Allocate(c) =>
      if c in y.calls && y.calls[c].stage == Admitted then
        match Ipam.FirstFree(y.st.net, y.st.used)
        case None => y.(calls := y.calls - {c})
        case Some(ip) =>
          y.(st := y.st.(used := y.st.used + {ip}), calls := y.calls[c := y.calls[c].(stage := Allocated(ip))])
      else y
    case Configure(c, ok) =>
      if c in y.calls && y.calls[c].stage.Allocated? then
        var p := y.calls[c];
        if ok then
          y.(st := y.st.(dev := ApplyEntry(y.st.dev, Add(p.key, p.stage.ip))),
             calls := y.calls[c := p.(stage := Configured(p.stage.ip))])
        else y.(calls := y.calls[c := p.(stage := Releasing(p.stage.ip))])
      else y
    case Persist(c, ok) =>
      if c in y.calls && y.calls[c].stage.Configured? then
        var p := y.calls[c];
        if ok && InsertAllowed(y.st.rows, p) then
          y.(st := y.st.(rows := Persisted(y.st.rows, p.existing, p.newId, p.uid, p.key, p.stage.ip)),
             calls := y.calls - {c})
        else y.(calls := y.calls[c := p.(stage := Undoing(p.stage.ip))])
      else y
    case Undo(c, ok) =>
      if c in y.calls && y.calls[c].stage.Undoing? then
        var p := y.calls[c];
        y.(st := if ok then y.st.(dev := ApplyEntry(y.st.dev, Remove(p.key))) else y.st,
           calls := y.calls[c := p.(stage := Releasing(p.stage.ip))])
      else y
    case Release(c) =>
      if c in y.calls && y.calls[c].stage.Releasing? then
        y.(st := y.st.(used := y.st.used - {y.calls[c].stage.ip}), calls := y.calls - {c})
      else y
    case List(r) =>
      if r in y.sweeps then y
      else y.(sweeps := y.sweeps[r := Listing(y.st.rows, ActiveAddrs(y.st.rows))])
    case Reserve(r, ip) =>
      if r in y.sweeps && y.sweeps[r].Listing? && ip in y.sweeps[r].todo then
        if y.st.net.Contains(ip) then
          y.(st := y.st.(used := y.st.used + {ip}),
             sweeps := y.sweeps[r := y.sweeps[r].(todo := y.sweeps[r].todo - {ip})])
        else y.(sweeps := y.sweeps - {r})
      else y
    case Compare(r, changes) =>
      if r in y.sweeps && y.sweeps[r].Listing? && y.sweeps[r].todo == {}
         && IsDiff(y.sweeps[r].rows, y.st.dev, changes) then
        if changes == [] then y.(sweeps := y.sweeps - {r})
        else y.(sweeps := y.sweeps[r := Compared(y.sweeps[r].rows, changes)])
      else y
    case Send(r, ok) =>
      if r in y.sweeps && y.sweeps[r].Compared? then
        y.(st := if ok then y.st.(dev := ApplyEntries(y.st.dev, y.sweeps[r].changes)) else y.st,
           sweeps := y.sweeps - {r})
      else y
    case Rebuild(r, newKey, ok) =>
      if r in y.sweeps && y.sweeps[r].Listing? then
        var key := if newKey.Some? then newKey.value else y.st.serverKey;
        y.(st := if ok then y.st.(dev := Rebuilt(y.sweeps[r].rows, key), serverKey := key) else y.st,
           sweeps := y.sweeps - {r})
      else y
    case Abandon(r) => y.(sweeps := y.sweeps - {r})
    case Whole(e) => y.(st := Step(y.st, e).0)
  }

  ghost predicate Holds(y: System, c: CallId) {
    c in y.calls && y.calls[c].stage != Admitted
  }

  /** The server address, the active rows' addresses and the addresses in flight are
      pairwise distinct, all inside the subnet but the server's, and all held back by
      the allocator. */
  ghost predicate AddressesSafe(y: System) {
    && AddressSound(y.st)
    && (forall c :: Holds(y, c) ==> InFlightSafe(y.st, y.calls[c].stage.ip))
    && (forall c, c' :: Holds(y, c) && Holds(y, c') && y.calls[c].stage.ip == y.calls[c'].stage.ip ==> c == c')
  }

  ghost predicate InFlightSafe(s: State, ip: Addr)
    requires s.net.Valid()
  {
    ip in s.used && ip != s.server && ip !in ActiveAddrs(s.rows) && s.net.Contains(ip)
  }

  ghost predicate AddressSound(s: State) {
    && s.net.Valid()
    && DistinctActive(s.rows) && ActiveInside(s.net, s.rows)
    && s.server in s.used && s.server !in ActiveAddrs(s.rows)
    && ActiveAddrs(s.rows) <= s.used
  }

  // ------------------------------------------------------------- row effects

  /** Writing an address nobody has into a row keeps the active addresses apart. */
  lemma PersistedAddresses(s: State, existing: Option<PeerId>, newId: PeerId, uid: UserId, key: Key, ip: Addr)
    requires AddressSound(s) && InFlightSafe(s, ip)
    ensures var rows' := Persisted(s.rows, existing, newId, uid, key, ip);
            && AddressSound(s.(rows := rows'))
            && ActiveAddrs(rows') <= ActiveAddrs(s.rows) + {ip}
  {
    var id := if existing.Some? then existing.value else newId;
    var rows' := Persisted(s.rows, existing, newId, uid, key, ip);
    assert forall j :: IsActive(rows', j) && j != id ==> IsActive(s.rows, j) && rows'[j] == s.rows[j];
    assert forall j :: j in ActiveIds(rows') ==> IsActive(rows', j);
    assert IsActive(rows', id) ==> rows'[id].ip == ip;
  }

  lemma StatusAddresses(s: State, id: PeerId, status: Status)
    requires AddressSound(s) && status != Active
    ensures var rows' := WithStatus(s.rows, id, status);
            AddressSound(s.(rows := rows')) && ActiveAddrs(rows') <= ActiveAddrs(s.rows)
            && (IsActive(s.rows, id) ==> s.rows[id].ip !in ActiveAddrs(rows'))
  {
    var rows' := WithStatus(s.rows, id, status);
    assert forall j :: j in ActiveIds(rows') ==> IsActive(s.rows, j) && rows'[j] == s.rows[j] && j != id;
  }

  /** What one whole operation may do to addresses: it frees only active rows' addresses
      and activates only addresses it took from the allocator itself. */
  ghost predicate AddressStep(s: State, s': State) {
    && AddressSound(s')
    && s'.net == s.net && s'.server == s.server
    && s.used - ActiveAddrs(s.rows) <= s'.used
    && ActiveAddrs(s'.rows) <= ActiveAddrs(s.rows) + (s'.used - s.used)
  }

  lemma RemoveAddresses(s: State, uid: UserId, key: Key, fails: set<Call>)
    requires AddressSound(s)
    ensures AddressStep(s, RemovePeer(s, uid, key, fails).0)
  {
    var target := ActiveHolder(s.rows, uid, key);
    if target.Some? {
      StatusAddresses(s, target.value, Disconnected);
    }
  }

  lemma AdminAddresses(s: State, id: PeerId, status: Status, fails: set<Call>)
    requires AddressSound(s) && status != Active
    ensures AddressStep(s, AdminSetStatus(s, id, status, fails).0)
  {
    if id in s.rows {
      RemoveAddresses(s, s.rows[id].owner, s.rows[id].key, fails);
      var s1 := if s.rows[id].status == Active then RemovePeer(s, s.rows[id].owner, s.rows[id].key, fails).0 else s;
      StatusAddresses(s1, id, status);
    }
  }

  lemma AddAddresses(s: State, uid: UserId, key: Key, newId: PeerId, fails: set<Call>)
    requires AddressSound(s)
    ensures AddressStep(s, AddPeer(s, uid, key, newId, fails).0)
  {
    var admission, free := CheckAdd(s, uid, key, fails), Ipam.FirstFree(s.net, s.used);
    if admission.Admit? && free.Some? {
      var s1 := s.(used := s.used + {free.value});
      PersistedAddresses(s1, admission.existing, newId, uid, key, free.value);
    }
  }

  lemma ReplaceAddresses(s: State, uid: UserId, oldKey: Key, newKey: Key, fails: set<Call>)
    requires AddressSound(s)
    ensures AddressStep(s, ReplaceKey(s, uid, oldKey, newKey, fails).0)
  {
    var rows' := ReplaceKey(s, uid, oldKey, newKey, fails).0.rows;
    assert forall j :: IsActive(rows', j) ==> IsActive(s.rows, j) && rows'[j].ip == s.rows[j].ip;
    assert forall j :: j in ActiveIds(rows') ==> IsActive(s.rows, j);
  }

  lemma WholeAddresses(s: State, e: Event)
    requires AddressSound(s)
    ensures AddressStep(s, Step(s, e).0)
  {
    match e.op
    case OpAdd(uid, key, newId) => AddAddresses(s, uid, key, newId, e.fails);
    case OpRemove(uid, key) => RemoveAddresses(s, uid, key, e.fails);
    case OpReplace(uid, oldKey, newKey) => ReplaceAddresses(s, uid, oldKey, newKey, e.fails);
    case OpDisconnect(id) => AdminAddresses(s, id, Disconnected, e.fails);
    case OpRevoke(id) => AdminAddresses(s, id, Revoked, e.fails);
    case _ =>
  }

  // -------------------------------------------------------------------- runs

  lemma ActSafe(y: System, a: Action)
    requires AddressesSafe(y)
    ensures AddressesSafe(Act(y, a))
  {
    match a
    case Persist(c, ok) =>
      if Holds(y, c) {
        var p := y.calls[c];
        PersistedAddresses(y.st, p.existing, p.newId, p.uid, p.key, p.stage.ip);
      }
    case Whole(e) => WholeAddresses(y.st, e);
    case _ =>
  }

  ghost function Interleave(y: System, actions: seq<Action>): (r: System)
    requires y.st.net.Valid()
    ensures r.st.net == y.st.net && r.st.server == y.st.server
    decreases |actions|
  {
    if actions == [] then y else Interleave(Act(y, actions[0]), actions[1..])
  }

  /** Address safety: in every interleaving, whatever calls fail and however stale the
      checks were, no address is ever held twice and none is freed while in use. */
  lemma {:induction false} InterleavingSafe(y: System, actions: seq<Action>)
    requires AddressesSafe(y)
    ensures AddressesSafe(Interleave(y, actions))
    decreases |actions|
  {
    if actions != [] {
      ActSafe(y, actions[0]);
      InterleavingSafe(Act(y, actions[0]), actions[1..]);
    }
  }

  // ------------------------------------------------------- against the whole call

  /** The steps of one call that runs alone with the given failures. */
  function Script(c: CallId, uid: UserId, key: Key, existing: Option<PeerId>, newId: PeerId,
                  fails: set<Call>): seq<Action> {
    [Begin(c, uid, key, existing, newId)] + ([Allocate(c)] + ([Configure(c, ConfigureDevice !in fails)]
    + ([Action.Persist(c, Call.Persist !in fails)] + ([Undo(c, UndoDevice !in fails)] + ([Release(c)] + [])))))
  }

  lemma FirstAct(y: System, a: Action, rest: seq<Action>)
    requires y.st.net.Valid()
    ensures Interleave(y, [a] + rest) == Interleave(Act(y, a), rest)
  {
    assert ([a] + rest)[1..] == rest;
  }

  lemma ThreeActs(y: System, a: Action, b: Action, c: Action, rest: seq<Action>)
    requires y.st.net.Valid()
    ensures Interleave(y, [a] + ([b] + ([c] + rest))) == Interleave(Act(Act(Act(y, a), b), c), rest)
  {
    FirstAct(y, a, [b] + ([c] + rest));
    FirstAct(Act(y, a), b, [c] + rest);
    FirstAct(Act(Act(y, a), b), c, rest);
  }

  /** Begin, Allocate, Configure of a call alone in the system. */
  lemma SoloFirstHalf(s: State, c: CallId, p: Pending, ok: bool)
    requires s.net.Valid() && p.stage == Admitted
    ensures var y2 := Act(System(s, map[c := p], map[]), Allocate(c));
            var y3 := Act(y2, Configure(c, ok));
            match Ipam.FirstFree(s.net, s.used)
            case None => y3 == System(s, map[], map[])
            case Some(ip) =>
              var s1 := s.(used := s.used + {ip});
              y3 == if ok
                    then System(s1.(dev := ApplyEntry(s.dev, Add(p.key, ip))), map[c := p.(stage := Configured(ip))],
                                map[])
                    else System(s1, map[c := p.(stage := Releasing(ip))], map[])
  {
    assert map[c := p] - {c} == map[];
    assert forall q: Pending :: map[c := p][c := q] == map[c := q];
    assert forall q: Pending, r: Pending :: map[c := q][c := r] == map[c := r];
  }

  /** Persist, Undo, Release of a call alone in the system. */
  lemma SoloSecondHalf(s: State, c: CallId, p: Pending, ok: bool, undo: bool)
    requires s.net.Valid()
    ensures var y4 := Act(System(s, map[c := p], map[]), Action.Persist(c, ok));
            var y5 := Act(y4, Undo(c, undo));
            var y6 := Act(y5, Release(c));
            match p.stage
            case Configured(ip) =>
              y6 == System(
                if ok && InsertAllowed(s.rows, p) then
                  s.(rows := Persisted(s.rows, p.existing, p.newId, p.uid, p.key, ip))
                else
                  s.(dev := if undo then ApplyEntry(s.dev, Remove(p.key)) else s.dev, used := s.used - {ip}),
                map[], map[])
            case Releasing(ip) => y6 == System(s.(used := s.used - {ip}), map[], map[])
            case _ => true
  {
    assert forall q: Pending :: map[c := q] - {c} == map[];
    assert forall q: Pending, r: Pending :: map[c := q][c := r] == map[c := r];
  }

  /** All steps after Begin, against the body of AddPeer behind its checks. */
  lemma SoloActs(s: State, c: CallId, p: Pending, fails: set<Call>)
    requires s.net.Valid() && p.stage == Admitted && InsertAllowed(s.rows, p)
    requires CheckAdd(s, p.uid, p.key, fails) == Admit(p.existing)
    ensures var y3 := Act(Act(System(s, map[c := p], map[]), Allocate(c)), Configure(c, ConfigureDevice !in fails));
            var y4 := Act(y3, Action.Persist(c, Call.Persist !in fails));
            Act(Act(y4, Undo(c, UndoDevice !in fails)), Release(c))
            == System(AddPeer(s, p.uid, p.key, p.newId, fails).0, map[], map[])
  {
    SoloFirstHalf(s, c, p, ConfigureDevice !in fails);
    var free := Ipam.FirstFree(s.net, s.used);
    if free.Some? {
      var s1 := s.(used := s.used + {free.value});
      assert s.used + {free.value} - {free.value} == s.used;
      if ConfigureDevice in fails {
        SoloSecondHalf(s1, c, p.(stage := Releasing(free.value)), Call.Persist !in fails, UndoDevice !in fails);
      } else {
        var s3 := s1.(dev := ApplyEntry(s.dev, Add(p.key, free.value)));
        SoloSecondHalf(s3, c, p.(stage := Configured(free.value)), Call.Persist !in fails, UndoDevice !in fails);
      }
    }
  }

  lemma AdmittedMayInsert(s: State, uid: UserId, key: Key, newId: PeerId, fails: set<Call>)
    requires newId !in s.rows && CheckAdd(s, uid, key, fails).Admit?
    ensures InsertAllowed(s.rows, Pending(uid, key, CheckAdd(s, uid, key, fails).existing, newId, Admitted))
  {
  }

  /** An admitted call that runs alone, step by step, is the one-step AddPeer. */
  lemma SoloCallIsAddPeer(s: State, c: CallId, uid: UserId, key: Key, newId: PeerId, fails: set<Call>)
    requires s.net.Valid() && newId !in s.rows
    requires CheckAdd(s, uid, key, fails).Admit?
    ensures var script := Script(c, uid, key, CheckAdd(s, uid, key, fails).existing, newId, fails);
            Interleave(System(s, map[], map[]), script) == System(AddPeer(s, uid, key, newId, fails).0, map[], map[])
  {
    AdmittedMayInsert(s, uid, key, newId, fails);
    SoloWithRow(s, c, Pending(uid, key, CheckAdd(s, uid, key, fails).existing, newId, Admitted), fails);
  }

  lemma SoloWithRow(s: State, c: CallId, p: Pending, fails: set<Call>)
    requires s.net.Valid() && p.stage == Admitted && InsertAllowed(s.rows, p)
    requires CheckAdd(s, p.uid, p.key, fails) == Admit(p.existing)
    ensures Interleave(System(s, map[], map[]), Script(c, p.uid, p.key, p.existing, p.newId, fails))
            == System(AddPeer(s, p.uid, p.key, p.newId, fails).0, map[], map[])
  {
    var persist, undo := Action.Persist(c, Call.Persist !in fails), Undo(c, UndoDevice !in fails);
    var last := [persist] + ([undo] + ([Release(c)] + []));
    var y1 := Act(System(s, map[], map[]), Begin(c, p.uid, p.key, p.existing, p.newId));
    BeginAlone(s, c, p);
    var y3 := Act(Act(y1, Allocate(c)), Configure(c, ConfigureDevice !in fails));
    ThreeActs(System(s, map[], map[]), Begin(c, p.uid, p.key, p.existing, p.newId), Allocate(c),
              Configure(c, ConfigureDevice !in fails), last);
    ThreeActs(y3, persist, undo, Release(c), []);
    SoloActs(s, c, p, fails);
  }

  lemma BeginAlone(s: State, c: CallId, p: Pending)
    requires s.net.Valid() && p.stage == Admitted
    ensures Act(System(s, map[], map[]), Begin(c, p.uid, p.key, p.existing, p.newId)) == System(s, map[c := p], map[])
  {
  }
}
