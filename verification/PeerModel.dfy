/** The peer lifecycle as state transitions: the peers table, the allocator's reserved
    addresses, the WireGuard device and the server key are four copies of one truth,
    and every store or device call may fail without effect. Each transition is what one
    call of PeerManager does in sequence; module PeerManager proves its methods do this. */
module PeerModel {
  import opened Common
  import opened Wire
  import Ipam

  datatype Status = Active | Disconnected | Revoked

  /** A row of the peers table. `public_key` is UNIQUE, `assigned_ip` is not. */
  datatype Row = Row(owner: UserId, key: Key, ip: Addr, status: Status)

  datatype User = User(active: bool, maxPeers: int)

  datatype State = State(
    net: Ipam.Subnet,
    server: Addr,                // the server's own tunnel address
    users: map<UserId, User>,
    rows: map<PeerId, Row>,
    dev: Device,
    used: set<Addr>,             // addresses the allocator holds back
    serverKey: Key)

  /** The external calls of the operations, named so that a set can say which ones fail. */
  datatype Call =
    | FindUser | CountActive | FindActive | FindByKey | ListActive
    | ConfigureDevice | Persist | UndoDevice | ReadDevice | TouchSeen(id: PeerId)
    | LoadPeer | ReloadPeer | SetStatus

  datatype Outcome =
    | Done | CallFailed | AccountInactive | TooManyPeers | PeerExists | PeerRevoked
    | NoActivePeer | NoIPAvailable | OutsideSubnet | PeerNotFound

  // ------------------------------------------------------------ table queries

  predicate IsActive(rows: map<PeerId, Row>, id: PeerId) {
    id in rows && rows[id].status == Active
  }

  function ActiveIds(rows: map<PeerId, Row>): set<PeerId> {
    set id | id in rows && rows[id].status == Active
  }

  function ActiveKeys(rows: map<PeerId, Row>): set<Key> {
    set id | id in rows && rows[id].status == Active :: rows[id].key
  }

  function ActiveAddrs(rows: map<PeerId, Row>): set<Addr> {
    set id | id in rows && rows[id].status == Active :: rows[id].ip
  }

  function ActiveOf(rows: map<PeerId, Row>, uid: UserId): set<PeerId> {
    set id | id in rows && rows[id].status == Active && rows[id].owner == uid
  }

  /** UNIQUE(public_key). */
  ghost predicate UniqueKeys(rows: map<PeerId, Row>) {
    forall i, j :: i in rows && j in rows && rows[i].key == rows[j].key ==> i == j
  }

  /** The row holding a key, if any. */
  ghost function Holder(rows: map<PeerId, Row>, key: Key): (r: Option<PeerId>)
    ensures r.Some? ==> r.value in rows && rows[r.value].key == key
    ensures r.None? ==> forall id :: id in rows ==> rows[id].key != key
  {
    if id :| id in rows && rows[id].key == key then Some(id) else None
  }

  ghost predicate HeldByOther(rows: map<PeerId, Row>, id: PeerId, key: Key) {
    exists j :: j in rows && j != id && rows[j].key == key
  }

  // --------------------------------------------------------------- operations

  datatype Admission = Reject(outcome: Outcome) | Admit(existing: Option<PeerId>)

  /** The checks AddPeer makes before it touches anything. */
  ghost function CheckAdd(s: State, uid: UserId, key: Key, fails: set<Call>): Admission {
    if FindUser in fails then Reject(CallFailed)
    else if uid !in s.users || !s.users[uid].active then Reject(AccountInactive)
    else if CountActive in fails then Reject(CallFailed)
    else if |ActiveOf(s.rows, uid)| >= s.users[uid].maxPeers then Reject(TooManyPeers)
    else if FindActive in fails then Reject(CallFailed)
    else if exists id :: id in ActiveOf(s.rows, uid) && s.rows[id].key == key then Reject(PeerExists)
    else if FindByKey in fails then Reject(CallFailed)
    else
      match Holder(s.rows, key)
      case None => Admit(None)
      case Some(id) =>
        if s.rows[id].owner != uid || s.rows[id].status == Active then Reject(PeerExists)
        else if s.rows[id].status != Disconnected then Reject(PeerRevoked)
        else Admit(Some(id))
  }

  /** Activate on an existing row, Create otherwise. */
  function Persisted(rows: map<PeerId, Row>, existing: Option<PeerId>, newId: PeerId,
                     uid: UserId, key: Key, ip: Addr): map<PeerId, Row> {
    match existing
    case Some(id) => if id in rows then rows[id := rows[id].(ip := ip, status := Active)] else rows
    case None => rows[newId := Row(uid, key, ip, Active)]
  }

  /** AddPeer behind its checks. */
  ghost function AddAdmitted(s: State, existing: Option<PeerId>, uid: UserId, key: Key, newId: PeerId,
                             fails: set<Call>): (State, Outcome)
    requires s.net.Valid()
  {
    match Ipam.FirstFree(s.net, s.used)
    case None => (s, NoIPAvailable)
    case Some(ip) =>
      if ConfigureDevice in fails then (s, CallFailed)
      else
        var d := ApplyEntry(s.dev, Add(key, ip));
        if Persist in fails then
          (s.(dev := if UndoDevice in fails then d else ApplyEntry(d, Remove(key))), CallFailed)
        else
          (s.(dev := d, used := s.used + {ip}, rows := Persisted(s.rows, existing, newId, uid, key, ip)), Done)
  }

  ghost function AddPeer(s: State, uid: UserId, key: Key, newId: PeerId, fails: set<Call>): (State, Outcome)
    requires s.net.Valid()
  {
    match CheckAdd(s, uid, key, fails)
    case Reject(o) => (s, o)
    case Admit(existing) => AddAdmitted(s, existing, uid, key, newId, fails)
  }

  /** The active row of a user with a given key, if any. */
  ghost function ActiveHolder(rows: map<PeerId, Row>, uid: UserId, key: Key): (r: Option<PeerId>)
    ensures r.Some? ==> r.value in ActiveOf(rows, uid) && rows[r.value].key == key
    ensures r.None? ==> forall id :: id in ActiveOf(rows, uid) ==> rows[id].key != key
  {
    if id :| id in ActiveOf(rows, uid) && rows[id].key == key then Some(id) else None
  }

  function WithStatus(rows: map<PeerId, Row>, id: PeerId, status: Status): map<PeerId, Row> {
    if id in rows then rows[id := rows[id].(status := status)] else rows
  }

  ghost function RemovePeer(s: State, uid: UserId, key: Key, fails: set<Call>): (State, Outcome) {
    if FindActive in fails then (s, CallFailed)
    else
      match ActiveHolder(s.rows, uid, key)
      case None => (s, NoActivePeer)
      case Some(id) =>
        if ConfigureDevice in fails then (s, CallFailed)
        else
          var s1 := s.(dev := ApplyEntry(s.dev, Remove(key)));
          if Persist in fails then (s1, CallFailed)
          else (s1.(rows := WithStatus(s.rows, id, Disconnected), used := s.used - {s.rows[id].ip}), Done)
  }

  ghost function ReplaceKey(s: State, uid: UserId, oldKey: Key, newKey: Key, fails: set<Call>): (State, Outcome) {
    if FindActive in fails then (s, CallFailed)
    else
      match ActiveHolder(s.rows, uid, oldKey)
      case None => (s, NoActivePeer)
      case Some(id) =>
        if ConfigureDevice in fails then (s, CallFailed)
        else
          var s1 := s.(dev := ApplyEntry(ApplyEntry(s.dev, Remove(oldKey)), Add(newKey, s.rows[id].ip)));
          if Persist in fails || HeldByOther(s.rows, id, newKey) then (s1, CallFailed)
          else (s1.(rows := s.rows[id := s.rows[id].(key := newKey)]), Done)
  }

  /** GetPeer, then RemovePeer for an active row with its error only logged, then the
      service call that re-reads the row and sets the status. */
  ghost function AdminSetStatus(s: State, id: PeerId, status: Status, fails: set<Call>): (State, Outcome) {
    if LoadPeer in fails then (s, CallFailed)
    else if id !in s.rows then (s, PeerNotFound)
    else
      var row := s.rows[id];
      var s1 := if row.status == Active then RemovePeer(s, row.owner, row.key, fails).0 else s;
      if ReloadPeer in fails || SetStatus in fails then (s1, CallFailed)
      else (s1.(rows := WithStatus(s1.rows, id, status)), Done)
  }

  // ---------------------------------------------------- whole-device operations

  /** Rows whose key the device does not have. */
  function MissingAddrs(rows: map<PeerId, Row>, d: Device): set<Addr> {
    set id | id in rows && rows[id].status == Active && rows[id].key !in d.peers :: rows[id].ip
  }

  /** The key of the active row at an address. */
  ghost function KeyAt(rows: map<PeerId, Row>, a: Addr): Key
    requires a in ActiveAddrs(rows)
  {
    var id :| id in rows && rows[id].status == Active && rows[id].ip == a;
    rows[id].key
  }

  /** The device a successful Reconcile leaves, said without any order: exactly the
      active keys; a missing row's address leads to that row, every other address
      keeps its route unless the peer behind it went away. */
  ghost function Reconciled(rows: map<PeerId, Row>, d: Device): Device {
    var missing := MissingAddrs(rows, d);
    Device(d.privateKey, ActiveKeys(rows),
           map a | a in d.route.Keys + missing && (a in missing || d.route[a] in ActiveKeys(rows)) ::
             if a in missing then KeyAt(rows, a) else d.route[a])
  }

  /** The device the full rebuilds leave: every active row and nothing else. */
  ghost function Rebuilt(rows: map<PeerId, Row>, privateKey: Key): Device {
    Device(privateKey, ActiveKeys(rows), map a | a in ActiveAddrs(rows) :: KeyAt(rows, a))
  }

  /** Some last-seen update that Reconcile attempts fails. */
  ghost predicate TouchFails(rows: map<PeerId, Row>, d: Device, seen: set<Key>, fails: set<Call>) {
    exists id :: IsActive(rows, id) && rows[id].key in d.peers && rows[id].key in seen && TouchSeen(id) in fails
  }

  /** Reconcile when every active address lies inside the subnet. `seen` holds the
      device keys whose last handshake time is set. */
  ghost function Reconcile(s: State, seen: set<Key>, fails: set<Call>): (State, Outcome) {
    if ListActive in fails then (s, CallFailed)
    else
      var s1 := s.(used := s.used + ActiveAddrs(s.rows));
      if ReadDevice in fails || TouchFails(s.rows, s.dev, seen, fails) then (s1, CallFailed)
      else if s.dev.peers == ActiveKeys(s.rows) then (s1, Done)
      else if ConfigureDevice in fails then (s1, CallFailed)
      else (s1.(dev := Reconciled(s.rows, s.dev)), Done)
  }

  ghost function RotateServerKey(s: State, newKey: Key, fails: set<Call>): (State, Outcome) {
    if ListActive in fails || ConfigureDevice in fails then (s, CallFailed)
    else (s.(dev := Rebuilt(s.rows, newKey), serverKey := newKey), Done)
  }

  ghost function Enable(s: State, fails: set<Call>): (State, Outcome) {
    if ListActive in fails || ConfigureDevice in fails then (s, CallFailed)
    else (s.(dev := Rebuilt(s.rows, s.serverKey)), Done)
  }

  ghost function Disable(s: State, fails: set<Call>): (State, Outcome) {
    if ConfigureDevice in fails then (s, CallFailed)
    else (s.(dev := Device(NO_KEY, {}, map[])), Done)
  }

  // --------------------------------------------------------------------- runs

  datatype Op =
    | OpAdd(uid: UserId, key: Key, newId: PeerId)
    | OpRemove(uid: UserId, key: Key)
    | OpReplace(uid: UserId, oldKey: Key, newKey: Key)
    | OpDisconnect(id: PeerId)
    | OpRevoke(id: PeerId)
    | OpReconcile(seen: set<Key>)
    | OpRotate(newKey: Key)
    | OpEnable
    | OpDisable
    | OpSetUser(uid: UserId, user: User)   // registration, or an admin changing status or quota

  datatype Event = Event(op: Op, fails: set<Call>)

  ghost function Step(s: State, e: Event): (r: (State, Outcome))
    requires s.net.Valid()
    ensures r.0.net == s.net && r.0.server == s.server
  {
    match e.op
    case OpAdd(uid, key, newId) => AddPeer(s, uid, key, newId, e.fails)
    case OpRemove(uid, key) => RemovePeer(s, uid, key, e.fails)
    case OpReplace(uid, oldKey, newKey) => ReplaceKey(s, uid, oldKey, newKey, e.fails)
    case OpDisconnect(id) => AdminSetStatus(s, id, Disconnected, e.fails)
    case OpRevoke(id) => AdminSetStatus(s, id, Revoked, e.fails)
    case OpReconcile(seen) => Reconcile(s, seen, e.fails)
    case OpRotate(newKey) => RotateServerKey(s, newKey, e.fails)
    case OpEnable => Enable(s, e.fails)
    case OpDisable => Disable(s, e.fails)
    case OpSetUser(uid, user) => (s.(users := s.users[uid := user]), Done)
  }

  /** The state after a sequence of events. */
  ghost function Run(s: State, events: seq<Event>): (r: State)
    requires s.net.Valid()
    ensures r.net == s.net && r.server == s.server
    decreases |events|
  {
    if events == [] then s
    else Run(Step(s, events[0]).0, events[1..])
  }

  /** A row id handed out by the database is new. */
  ghost predicate FreshId(s: State, e: Event) {
    e.op.OpAdd? ==> e.op.newId !in s.rows
  }

  // --------------------------------------------------------------- invariants

  /** What the database and allocator keep on their own: unique keys; active addresses
      distinct, inside the subnet, not the server's, and all held back by the allocator. */
  ghost predicate Sound(s: State) {
    && s.net.Valid()
    && UniqueKeys(s.rows)
    && DistinctActive(s.rows)
    && ActiveInside(s.net, s.rows)
    && s.server in s.used && s.server !in ActiveAddrs(s.rows)
    && ActiveAddrs(s.rows) <= s.used
    && s.dev.Valid()
  }

  ghost predicate DistinctActive(rows: map<PeerId, Row>) {
    forall i, j :: IsActive(rows, i) && IsActive(rows, j) && rows[i].ip == rows[j].ip ==> i == j
  }

  ghost predicate ActiveInside(net: Ipam.Subnet, rows: map<PeerId, Row>)
    requires net.ones <= 32
  {
    forall id :: IsActive(rows, id) ==> net.Contains(rows[id].ip)
  }

  /** Every active row whose key is on the device has its address routed to that key. */
  ghost predicate Routed(s: State) {
    forall id :: IsActive(s.rows, id) && s.rows[id].key in s.dev.peers ==>
      s.rows[id].ip in s.dev.route && s.dev.route[s.rows[id].ip] == s.rows[id].key
  }

  /** Every active row is on the device with its address routed to it. */
  ghost predicate FullyRouted(s: State) {
    Routed(s) && ActiveKeys(s.rows) <= s.dev.peers
  }
}
