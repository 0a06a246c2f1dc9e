/** The peers table when every operation's read of a row and its write by row id are
    separate steps: which steps overwrite a revoked row. Device and allocator play no
    part in that and are left aside. */
module StaleWrites {
  import opened Common
  import opened PeerModel

  type CallId = int

  datatype Write =
    | Activate(ip: Addr)         // AddPeer, on a row it found disconnected
    | Mark(status: Status)  // RemovePeer, and both admin calls
    | Rekey(newKey: Key)         // ReplaceKey

  datatype Writer = Writer(id: PeerId, write: Write)

  datatype Table = Table(rows: map<PeerId, Row>, writers: map<CallId, Writer>)

  datatype Event =
    | FindForAdd(c: CallId, uid: UserId, key: Key, ip: Addr)
    | FindForRemove(c: CallId, uid: UserId, key: Key)
    | FindForReplace(c: CallId, uid: UserId, oldKey: Key, newKey: Key)
    | FindForAdmin(c: CallId, id: PeerId, revoke: bool)
    | Create(newId: PeerId, uid: UserId, key: Key, ip: Addr)
    | Commit(c: CallId)
    | Drop(c: CallId)            // the call ends without its write

  function Pend(t: Table, c: CallId, w: Writer): Table {
    if c in t.writers then t else t.(writers := t.writers[c := w])
  }

  /** The row effect of a write: by id, whatever the row holds by then. */
  ghost function Written(rows: map<PeerId, Row>, w: Writer): map<PeerId, Row> {
    if w.id !in rows then rows
    else
      var row := rows[w.id];
      match w.write
      case Activate(ip) => rows[w.id := row.(ip := ip, status := Active)]
      case Mark(status) => rows[w.id := row.(status := status)]
      case Rekey(k) => if HeldByOther(rows, w.id, k) then rows else rows[w.id := row.(key := k)]
  }

  ghost function Step(t: Table, e: Event): Table {
    match e
    case FindForAdd(c, uid, key, ip) =>
      (match Holder(t.rows, key)
       case Some(id) =>
         if t.rows[id].owner == uid && t.rows[id].status == Disconnected
         then Pend(t, c, Writer(id, Activate(ip))) else t
       case None => t)
    case FindForRemove(c, uid, key) =>
      (match ActiveHolder(t.rows, uid, key)
       case Some(id) => Pend(t, c, Writer(id, Mark(Disconnected)))
       case None => t)
    case FindForReplace(c, uid, oldKey, newKey) =>
      (match ActiveHolder(t.rows, uid, oldKey)
       case Some(id) => Pend(t, c, Writer(id, Rekey(newKey)))
       case None => t)
    case FindForAdmin(c, id, revoke) =>
      if id in t.rows then Pend(t, c, Writer(id, Mark(if revoke then Revoked else Disconnected))) else t
    case Create(newId, uid, key, ip) =>
      if newId in t.rows || exists id :: id in t.rows && t.rows[id].key == key then t
      else t.(rows := t.rows[newId := Row(uid, key, ip, Active)])
    case Commit(c) =>
      if c in t.writers then Table(Written(t.rows, t.writers[c]), t.writers - {c}) else t
    case Drop(c) => t.(writers := t.writers - {c})
  }

  // ------------------------------------------------------------ revoked rows

  predicate IsRevoked(t: Table, id: PeerId) {
    id in t.rows && t.rows[id].status == Revoked
  }

  /** A write that lands on the row and is not a revocation, nor a key change that the
      table refuses or that changes nothing. */
  ghost predicate Overwrites(t: Table, e: Event, id: PeerId) {
    e.Commit? && e.c in t.writers && t.writers[e.c].id == id && id in t.rows &&
    match t.writers[e.c].write
    case Activate(_) => true
    case Mark(status) => status != Revoked
    case Rekey(k) => k != t.rows[id].key && !HeldByOther(t.rows, id, k)
  }

  /** One step leaves a revoked row as it is exactly when it is no such write. */
  lemma RevokedStepIff(t: Table, e: Event, id: PeerId)
    requires IsRevoked(t, id)
    ensures var rows' := Step(t, e).rows;
            id in rows' && (rows'[id] == t.rows[id] <==> !Overwrites(t, e, id))
  {
  }

  ghost predicate NeverOverwritten(t: Table, events: seq<Event>, id: PeerId)
    decreases |events|
  {
    events == [] || (!Overwrites(t, events[0], id) && NeverOverwritten(Step(t, events[0]), events[1..], id))
  }

  /** The row is the given one now and after every further event. */
  ghost predicate Stays(t: Table, events: seq<Event>, id: PeerId, row: Row)
    decreases |events|
  {
    id in t.rows && t.rows[id] == row && (events == [] || Stays(Step(t, events[0]), events[1..], id, row))
  }

  /** Along every interleaving a revoked row stays as it is throughout exactly when no
      such write lands. */
  lemma {:induction false} RevokedStaysIff(t: Table, events: seq<Event>, id: PeerId)
    requires IsRevoked(t, id)
    ensures Stays(t, events, id, t.rows[id]) <==> NeverOverwritten(t, events, id)
    decreases |events|
  {
    if events != [] {
      RevokedStepIff(t, events[0], id);
      var t' := Step(t, events[0]);
      if t'.rows[id] == t.rows[id] {
        RevokedStaysIff(t', events[1..], id);
      }
    }
  }

  /** Nothing is about to change the row: only revocations, and key changes to the key it
      has, are pending on it. */
  ghost predicate Quiet(t: Table, id: PeerId) {
    forall c :: c in t.writers && t.writers[c].id == id ==> Harmless(t, id, t.writers[c].write)
  }

  predicate Harmless(t: Table, id: PeerId, w: Write) {
    w == Mark(Revoked) || (id in t.rows && w == Rekey(t.rows[id].key))
  }

  /** No admin disconnect of the row begins. */
  predicate NoDisconnect(events: seq<Event>, id: PeerId) {
    forall e :: e in events && e.FindForAdmin? && e.id == id ==> e.revoke
  }

  lemma QuietStep(t: Table, e: Event, id: PeerId)
    requires IsRevoked(t, id) && Quiet(t, id) && UniqueKeys(t.rows)
    requires e.FindForAdmin? && e.id == id ==> e.revoke
    ensures !Overwrites(t, e, id) && Quiet(Step(t, e), id) && UniqueKeys(Step(t, e).rows)
  {
    RevokedStepIff(t, e, id);
  }

  lemma {:induction false} QuietStays(t: Table, events: seq<Event>, id: PeerId)
    requires IsRevoked(t, id) && Quiet(t, id) && UniqueKeys(t.rows) && NoDisconnect(events, id)
    ensures Stays(t, events, id, t.rows[id])
    decreases |events|
  {
    if events != [] {
      QuietStep(t, events[0], id);
      RevokedStepIff(t, events[0], id);
      QuietStays(Step(t, events[0]), events[1..], id);
    }
  }

  ghost function Run(t: Table, events: seq<Event>): Table
    decreases |events|
  {
    if events == [] then t else Run(Step(t, events[0]), events[1..])
  }

  lemma {:induction false} StaysAtEnd(t: Table, events: seq<Event>, id: PeerId, row: Row)
    requires Stays(t, events, id, row)
    ensures id in Run(t, events).rows && Run(t, events).rows[id] == row
    decreases |events|
  {
    if events != [] {
      StaysAtEnd(Step(t, events[0]), events[1..], id, row);
    }
  }

  lemma {:induction false} RunMore(t: Table, a: seq<Event>, b: seq<Event>)
    ensures Run(t, a + b) == Run(Run(t, a), b)
    decreases |a|
  {
    if a == [] {
      assert a + b == b;
    } else {
      assert (a + b)[1..] == a[1..] + b;
      RunMore(Step(t, a[0]), a[1..], b);
    }
  }

  lemma RunPair(t: Table, a: Event, b: Event)
    ensures Run(t, [a, b]) == Step(Step(t, a), b)
  {
    assert [a, b][1..] == [b] && [b][1..] == [];
    assert Run(Step(t, a), [b]) == Run(Step(Step(t, a), b), []);
  }

  function Rank(status: Status): nat {
    match status case Revoked => 2 case Disconnected => 1 case Active => 0
  }

  /** Two events that change one other row and nothing else. */
  ghost predicate ChangesOnly(t: Table, t': Table, j: PeerId) {
    t'.writers == t.writers && j in t.rows && j in t'.rows && t'.rows == t.rows[j := t'.rows[j]]
  }

  /** A call that starts and commits with nothing in between. */
  lemma Alone(t: Table, w: CallId, find: Event, writer: Writer)
    requires w !in t.writers && writer.id in t.rows && Step(t, find) == Pend(t, w, writer)
    ensures Run(t, [find, Commit(w)]) == t.(rows := Written(t.rows, writer))
  {
    RunPair(t, find, Commit(w));
    assert t.writers[w := writer] - {w} == t.writers;
  }

  /** Any other row can be brought one step nearer to active, or if active be given a new
      key, by calls that run alone. */
  lemma MoveOn(t: Table, j: PeerId, newKey: Key) returns (events: seq<Event>)
    requires UniqueKeys(t.rows) && j in t.rows && forall i :: i in t.rows ==> t.rows[i].key != newKey
    ensures forall id :: id != j ==> NoDisconnect(events, id)
    ensures var t', row := Run(t, events), t.rows[j];
            && t'.writers == t.writers
            && match row.status
               case Active => t'.rows == t.rows[j := row.(key := newKey)]
               case Disconnected => t'.rows == t.rows[j := row.(ip := 0, status := Active)]
               case Revoked => t'.rows == t.rows[j := row.(status := Disconnected)]
  {
    var row := t.rows[j];
    var w := NewNumber(t.writers.Keys);
    match row.status
    case Active =>
      assert ActiveHolder(t.rows, row.owner, row.key) == Some(j);
      events := [FindForReplace(w, row.owner, row.key, newKey), Commit(w)];
      Alone(t, w, events[0], Writer(j, Rekey(newKey)));
    case Disconnected =>
      assert Holder(t.rows, row.key) == Some(j);
      events := [FindForAdd(w, row.owner, row.key, 0), Commit(w)];
      Alone(t, w, events[0], Writer(j, Activate(0)));
    case Revoked =>
      events := [FindForAdmin(w, j, false), Commit(w)];
      Alone(t, w, events[0], Writer(j, Mark(Disconnected)));
  }

  lemma NoDisconnectMore(a: seq<Event>, b: seq<Event>, id: PeerId)
    requires NoDisconnect(a, id) && NoDisconnect(b, id)
    ensures NoDisconnect(a + b, id)
  {
    assert forall e :: e in a + b ==> e in a || e in b;
  }

  /** So any other row can be made to give up its key. */
  lemma FreeKey(t: Table, j: PeerId, newKey: Key) returns (events: seq<Event>)
    requires UniqueKeys(t.rows) && j in t.rows && forall i :: i in t.rows ==> t.rows[i].key != newKey
    ensures forall id :: id != j ==> NoDisconnect(events, id)
    ensures ChangesOnly(t, Run(t, events), j) && Run(t, events).rows[j].key == newKey
    decreases Rank(t.rows[j].status)
  {
    var first := MoveOn(t, j, newKey);
    if t.rows[j].status == Active {
      return first;
    }
    var t1 := Run(t, first);
    var rest := FreeKey(t1, j, newKey);
    events := first + rest;
    RunMore(t, first, rest);
    forall id | id != j
      ensures NoDisconnect(events, id)
    {
      NoDisconnectMore(first, rest, id);
    }
  }

  /** A write that is not harmless comes into effect in some continuation. */
  lemma Threatens(t: Table, id: PeerId, c: CallId) returns (events: seq<Event>)
    requires IsRevoked(t, id) && UniqueKeys(t.rows)
    requires c in t.writers && t.writers[c].id == id && !Harmless(t, id, t.writers[c].write)
    ensures NoDisconnect(events, id) && id in Run(t, events).rows && Run(t, events).rows[id] != t.rows[id]
  {
    var first: seq<Event> := [];
    if t.writers[c].write.Rekey? && HeldByOther(t.rows, id, t.writers[c].write.newKey) {
      var j :| j in t.rows && j != id && t.rows[j].key == t.writers[c].write.newKey;
      var newKey := NewNumber(set i | i in t.rows :: t.rows[i].key);
      first := FreeKey(t, j, newKey);
      var rows' := Run(t, first).rows;
      assert forall i :: i in rows' && i != j ==> i in t.rows && rows'[i] == t.rows[i];
    }
    var t1 := Run(t, first);
    events := first + [Commit(c)];
    NoDisconnectMore(first, [Commit(c)], id);
    RunMore(t, first, [Commit(c)]);
    assert [Commit(c)][1..] == [];
    assert Run(t1, [Commit(c)]) == Step(t1, Commit(c));
  }

  /** What an admin can check when revoking: along every continuation in which no admin
      disconnect of the row begins it stays as it is, if and only if nothing but
      revocations and key changes to its own key is pending on it. */
  lemma QuietStaysIff(t: Table, id: PeerId)
    requires IsRevoked(t, id) && UniqueKeys(t.rows)
    ensures (forall events :: NoDisconnect(events, id) ==> Stays(t, events, id, t.rows[id])) <==> Quiet(t, id)
  {
    if Quiet(t, id) {
      forall events | NoDisconnect(events, id)
        ensures Stays(t, events, id, t.rows[id])
      {
        QuietStays(t, events, id);
      }
    } else {
      var c :| c in t.writers && t.writers[c].id == id && !Harmless(t, id, t.writers[c].write);
      var events := Threatens(t, id, c);
      if Stays(t, events, id, t.rows[id]) {
        StaysAtEnd(t, events, id, t.rows[id]);
      }
    }
  }

  // --------------------------------------------------------------- witnesses

  /** After a call has found its row, a whole revocation of the row. */
  ghost function FoundThenRevoked(t: Table, find: Event, admin: CallId, id: PeerId): Table {
    Step(Step(Step(t, find), FindForAdmin(admin, id, true)), Commit(admin))
  }

  /** Not only AddPeer undoes a revocation: so does a RemovePeer in flight, of any active
      row of any table. */
  lemma RemovalUndoesRevocation(t: Table, id: PeerId, c: CallId, admin: CallId)
    requires UniqueKeys(t.rows) && IsActive(t.rows, id) && c != admin && t.writers == map[]
    ensures var t' := FoundThenRevoked(t, FindForRemove(c, t.rows[id].owner, t.rows[id].key), admin, id);
            IsRevoked(t', id) && id in Step(t', Commit(c)).rows && Step(t', Commit(c)).rows[id].status == Disconnected
  {
    assert ActiveHolder(t.rows, t.rows[id].owner, t.rows[id].key) == Some(id);
  }

  /** And a ReplaceKey in flight gives a revoked row a new key. */
  lemma RekeyAfterRevocation(t: Table, id: PeerId, newKey: Key, c: CallId, admin: CallId)
    requires UniqueKeys(t.rows) && IsActive(t.rows, id) && c != admin && t.writers == map[]
    requires !HeldByOther(t.rows, id, newKey)
    ensures var t' := FoundThenRevoked(t, FindForReplace(c, t.rows[id].owner, t.rows[id].key, newKey), admin, id);
            IsRevoked(t', id) && id in Step(t', Commit(c)).rows
            && Step(t', Commit(c)).rows[id] == t'.rows[id].(key := newKey)
  {
    assert ActiveHolder(t.rows, t.rows[id].owner, t.rows[id].key) == Some(id);
  }
}
