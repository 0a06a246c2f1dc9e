/** Registration under concurrency: unlocked pre-checks choose between two transactions,
    one guarded by an exclusive lock on the users table, the other by a row lock on the
    invite. Any number of Register calls interleave at every statement, with the admin's
    invite calls among them; an event whose lock is taken is simply not possible yet and
    leaves the system as it is. */
module Registration {
  import opened Common

  type CallId = int
  type StudentId = int
  type InviteId = int

  datatype Role = AdminRole | UserRole

  datatype User = User(student: StudentId, role: Role, invite: Option<InviteId>)

  datatype Invite = Invite(code: int, maxUses: int, useCount: int, used: bool, expiresAt: Option<int>)

  /** Where a Register call stands. From `Selected` on it holds the invite's row lock. */
  datatype Stage =
    | Looked                            // no such student yet
    | BootChosen | BootLocked | BootEmpty | BootInserted
    | InviteChosen | PreChecked
    | Selected(invite: InviteId) | Inserted(invite: InviteId) | Marked(invite: InviteId)

  datatype Call = Call(student: StudentId, code: int, stage: Stage)

  /** An admin call between its read and its write. */
  datatype AdminCall =
    | Updating(id: InviteId, maxUses: Option<int>, expiresAt: Option<Option<int>>)
    | Deleting(id: InviteId)

  /** Committed rows (users in commit order), open calls and held locks. */
  datatype System = System(
    users: seq<User>,
    invites: map<InviteId, Invite>,
    calls: map<CallId, Call>,
    admin: map<CallId, AdminCall>,
    tableLock: Option<CallId>,
    rowLocks: map<InviteId, CallId>)

  datatype Event =
    | Start(c: CallId, student: StudentId, code: int)
    | Count(c: CallId)
    | LockTable(c: CallId)
    | CheckEmpty(c: CallId)
    | PreCheck(c: CallId, now: int)
    | SelectForUpdate(c: CallId, now: int)
    | Insert(c: CallId)
    | MarkUsed(c: CallId)
    | Commit(c: CallId)
    | Rollback(c: CallId)               // any statement fails, or the commit does
    | CreateInvite(id: InviteId, code: int, maxUses: int, expiresAt: Option<int>)
    | UpdateRead(a: CallId, id: InviteId, newMax: Option<int>, expires: Option<Option<int>>)
    | DeleteRead(a: CallId, id: InviteId)
    | AdminWrite(a: CallId)

  // ------------------------------------------------------------------ queries

  predicate Registered(users: seq<User>, student: StudentId) {
    exists i :: 0 <= i < |users| && users[i].student == student
  }

  /** model.InviteCode.IsAvailable, the check outside the transaction. */
  predicate LooksAvailable(v: Invite, now: int) {
    v.useCount < v.maxUses && (v.expiresAt.None? || now <= v.expiresAt.value)
  }

  /** The check on the locked row. */
  predicate Usable(v: Invite, now: int) {
    v.useCount < v.maxUses && (v.expiresAt.None? || v.expiresAt.value > now)
  }

  ghost function FindCode(invites: map<InviteId, Invite>, code: int): (r: Option<InviteId>)
    ensures r.Some? ==> r.value in invites && invites[r.value].code == code
  {
    if id :| id in invites && invites[id].code == code then Some(id) else None
  }

  predicate HasInserted(stage: Stage) {
    stage.BootInserted? || stage.Inserted? || stage.Marked?
  }

  predicate HoldsRow(stage: Stage) {
    stage.Selected? || stage.Inserted? || stage.Marked?
  }

  predicate HoldsTable(stage: Stage) {
    stage.BootLocked? || stage.BootEmpty? || stage.BootInserted?
  }

  /** Another call has an uncommitted row with the same student id: the insert waits. */
  ghost predicate InsertWaits(y: System, c: CallId, student: StudentId) {
    || (y.tableLock.Some? && y.tableLock.value != c)
    || exists o :: o in y.calls && o != c && HasInserted(y.calls[o].stage) && y.calls[o].student == student
  }

  // ---------------------------------------------------------------- transitions

  function At(y: System, c: CallId, stage: Stage): System
    requires c in y.calls
  {
    y.(calls := y.calls[c := y.calls[c].(stage := stage)])
  }

  /** A call ends: its locks are released, its uncommitted rows vanish. */
  function End(y: System, c: CallId): System {
    y.(calls := y.calls - {c},
       tableLock := if y.tableLock == Some(c) then None else y.tableLock,
       rowLocks := map id | id in y.rowLocks && y.rowLocks[id] != c :: y.rowLocks[id])
  }

  ghost function Step(y: System, e: Event): System {
    match e
    case Start(c, student, code) =>
      if c in y.calls || Registered(y.users, student) then y
      else y.(calls := y.calls[c := Call(student, code, Looked)])
    case Count(c) =>
      if c in y.calls && y.calls[c].stage.Looked? then At(y, c, if y.users == [] then BootChosen else InviteChosen)
      else y
    case LockTable(c) =>
      if c in y.calls && y.calls[c].stage.BootChosen? && y.tableLock.None?
         && (forall o :: o in y.calls ==> !HasInserted(y.calls[o].stage)) then
        At(y, c, BootLocked).(tableLock := Some(c))
      else y
    case CheckEmpty(c) =>
      if c in y.calls && y.calls[c].stage.BootLocked? then
        if y.users == [] then At(y, c, BootEmpty) else End(y, c)
      else y
    case PreCheck(c, now) =>
      if c in y.calls && y.calls[c].stage.InviteChosen? then
        var found := FindCode(y.invites, y.calls[c].code);
        if found.Some? && LooksAvailable(y.invites[found.value], now) then At(y, c, PreChecked) else End(y, c)
      else y
    case SelectForUpdate(c, now) =>
      if c in y.calls && y.calls[c].stage.PreChecked? then
        var found := FindCode(y.invites, y.calls[c].code);
        if found.None? then End(y, c)
        else if found.value in y.rowLocks then y
        else if !Usable(y.invites[found.value], now) then End(y, c)
        else At(y, c, Selected(found.value)).(rowLocks := y.rowLocks[found.value := c])
      else y
    case Insert(c) =>
      if c in y.calls && (y.calls[c].stage.BootEmpty? || y.calls[c].stage.Selected?)
         && !InsertWaits(y, c, y.calls[c].student) then
        if Registered(y.users, y.calls[c].student) then End(y, c)
        else At(y, c, if y.calls[c].stage.BootEmpty? then BootInserted else Inserted(y.calls[c].stage.invite))
      else y
    case MarkUsed(c) =>
      if c in y.calls && y.calls[c].stage.Inserted? then
        if y.calls[c].stage.invite in y.invites then At(y, c, Marked(y.calls[c].stage.invite)) else End(y, c)
      else y
    case Commit(c) =>
      if c in y.calls && y.calls[c].stage.BootInserted? then
        End(y, c).(users := y.users + [User(y.calls[c].student, AdminRole, None)])
      else if c in y.calls && y.calls[c].stage.Marked? then
        var id := y.calls[c].stage.invite;
        End(y, c).(users := y.users + [User(y.calls[c].student, UserRole, Some(id))],
                   invites := if id in y.invites
                              then y.invites[id := y.invites[id].(useCount := y.invites[id].useCount + 1, used := true)]
                              else y.invites)
      else y
    case Rollback(c) => if c in y.calls then End(y, c) else y
    case CreateInvite(id, code, maxUses, expiresAt) =>
      if id in y.invites || FindCode(y.invites, code).Some? || maxUses < 1 then y
      else y.(invites := y.invites[id := Invite(code, maxUses, 0, false, expiresAt)])
    case UpdateRead(a, id, newMax, expires) =>
      if a in y.admin || id !in y.invites
         || (newMax.Some? && (newMax.value < 1 || newMax.value < y.invites[id].useCount))
      then y
      else y.(admin := y.admin[a := Updating(id, newMax, expires)])
    case DeleteRead(a, id) =>
      if a in y.admin || id !in y.invites || y.invites[id].useCount > 0 || y.invites[id].used then y
      else y.(admin := y.admin[a := Deleting(id)])
    case AdminWrite(a) =>
      if a !in y.admin || y.admin[a].id in y.rowLocks then y
      else y.(admin := y.admin - {a}, invites := Written(y.invites, y.admin[a]))
  }

  /** The row effect of an admin write; rows that are gone stay gone. */
  function Written(invites: map<InviteId, Invite>, w: AdminCall): map<InviteId, Invite> {
    match w
    case Deleting(id) => invites - {id}
    case Updating(id, maxUses, expiresAt) =>
      if id !in invites then invites
      else
        var v := invites[id];
        invites[id := v.(maxUses := if maxUses.Some? then maxUses.value else v.maxUses,
                         expiresAt := if expiresAt.Some? then expiresAt.value else v.expiresAt)]
  }

  ghost function Run(y: System, events: seq<Event>): System {
    if events == [] then y else Step(Run(y, events[..|events| - 1]), events[|events| - 1])
  }

  // ------------------------------------------------------------- conservation

  /** How many committed users carry an invite's id. */
  function Uses(users: seq<User>, id: InviteId): nat {
    if users == [] then 0
    else Uses(users[..|users| - 1], id) + if users[|users| - 1].invite == Some(id) then 1 else 0
  }

  ghost predicate Conserved(y: System) {
    forall id :: id in y.invites ==> y.invites[id].useCount == Uses(y.users, id)
  }

  /** Row locks and stages agree, and a locked row exists. */
  ghost predicate LocksAgree(y: System) {
    && (forall c :: c in y.calls && HoldsRow(y.calls[c].stage) ==>
          y.calls[c].stage.invite in y.rowLocks && y.rowLocks[y.calls[c].stage.invite] == c)
    && (forall id :: id in y.rowLocks ==>
          id in y.invites && y.rowLocks[id] in y.calls && HoldsRow(y.calls[y.rowLocks[id]].stage)
          && y.calls[y.rowLocks[id]].stage.invite == id)
  }

  /** Invite ids are never reused (a new UUID names no earlier row). */
  ghost predicate FreshInvite(y: System, e: Event) {
    e.CreateInvite? ==> Uses(y.users, e.id) == 0
  }

  ghost predicate FreshRun(y: System, events: seq<Event>) {
    events == [] ||
    (FreshInvite(Run(y, events[..|events| - 1]), events[|events| - 1]) && FreshRun(y, events[..|events| - 1]))
  }

  lemma UsesSnoc(users: seq<User>, u: User, id: InviteId)
    ensures Uses(users + [u], id) == Uses(users, id) + if u.invite == Some(id) then 1 else 0
  {
    assert (users + [u])[..|users|] == users;
  }

  lemma EndKeepsLocks(y: System, c: CallId)
    requires LocksAgree(y)
    ensures LocksAgree(End(y, c))
    ensures forall id :: id in End(y, c).rowLocks ==> id in y.rowLocks
  {
  }

  predicate SameRow(stage: Stage, stage': Stage) {
    HoldsRow(stage) == HoldsRow(stage') && (HoldsRow(stage) ==> stage.invite == stage'.invite)
  }

  /** A call that ends, or moves between stages that hold the same row, keeps locks and
      stages in step. */
  lemma MoveKeepsLocks(y: System, c: CallId, stage: Stage)
    requires LocksAgree(y)
    ensures LocksAgree(End(y, c))
    ensures c in y.calls && SameRow(y.calls[c].stage, stage) ==> LocksAgree(At(y, c, stage))
  {
    EndKeepsLocks(y, c);
  }

  lemma SelectKeepsLocks(y: System, c: CallId, now: int)
    requires LocksAgree(y)
    ensures LocksAgree(Step(y, SelectForUpdate(c, now)))
  {
    EndKeepsLocks(y, c);
  }

  lemma InsertKeepsLocks(y: System, c: CallId)
    requires LocksAgree(y)
    ensures LocksAgree(Step(y, Insert(c)))
  {
    if c in y.calls {
      MoveKeepsLocks(y, c, if y.calls[c].stage.Selected? then Inserted(y.calls[c].stage.invite) else BootInserted);
    }
  }

  lemma MarkKeepsLocks(y: System, c: CallId)
    requires LocksAgree(y)
    ensures LocksAgree(Step(y, MarkUsed(c)))
  {
    if c in y.calls && y.calls[c].stage.Inserted? {
      MoveKeepsLocks(y, c, Marked(y.calls[c].stage.invite));
    }
  }

  lemma CommitKeepsLocks(y: System, c: CallId)
    requires LocksAgree(y)
    ensures LocksAgree(Step(y, Commit(c)))
  {
    EndKeepsLocks(y, c);
  }

  lemma StepKeepsLocks(y: System, e: Event)
    requires LocksAgree(y)
    ensures LocksAgree(Step(y, e))
  {
    match e
    case SelectForUpdate(c, now) => SelectKeepsLocks(y, c, now);
    case Insert(c) => InsertKeepsLocks(y, c);
    case MarkUsed(c) => MarkKeepsLocks(y, c);
    case Commit(c) => CommitKeepsLocks(y, c);
    case Rollback(c) => EndKeepsLocks(y, c);
    case Count(c) => MoveKeepsLocks(y, c, if y.users == [] then BootChosen else InviteChosen);
    case LockTable(c) => MoveKeepsLocks(y, c, BootLocked);
    case CheckEmpty(c) => MoveKeepsLocks(y, c, BootEmpty);
    case PreCheck(c, _) => MoveKeepsLocks(y, c, PreChecked);
    case _ =>
  }

  lemma StepConserves(y: System, e: Event)
    requires LocksAgree(y) && Conserved(y) && FreshInvite(y, e)
    ensures Conserved(Step(y, e))
  {
    if e.Commit? && e.c in y.calls && (y.calls[e.c].stage.BootInserted? || y.calls[e.c].stage.Marked?) {
      var u := Step(y, e).users[|y.users|];
      forall id | id in y.invites
        ensures Uses(Step(y, e).users, id) == Uses(y.users, id) + if u.invite == Some(id) then 1 else 0
      {
        UsesSnoc(y.users, u, id);
      }
    }
  }

  // --------------------------------------------------------------------- cap

  /** No invite is over its maximum, and one that a call has locked has room for it. */
  ghost predicate Capped(y: System) {
    && (forall id :: id in y.invites ==> y.invites[id].useCount <= y.invites[id].maxUses)
    && (forall c :: c in y.calls && HoldsRow(y.calls[c].stage) && y.calls[c].stage.invite in y.invites ==>
          y.invites[y.calls[c].stage.invite].useCount < y.invites[y.calls[c].stage.invite].maxUses)
  }

  /** An admin write of a new maximum that lands after the count has passed it. */
  ghost predicate Stale(y: System, e: Event) {
    e.AdminWrite? && e.a in y.admin &&
    match y.admin[e.a]
    case Deleting(_) => false
    case Updating(id, newMax, _) =>
      id in y.invites && id !in y.rowLocks && newMax.Some? && newMax.value < y.invites[id].useCount
  }

  /** One event keeps every invite within its cap exactly when it is no stale write. */
  lemma StepCappedIff(y: System, e: Event)
    requires LocksAgree(y) && Capped(y)
    ensures Capped(Step(y, e)) <==> !Stale(y, e)
  {
    if e.AdminWrite? {
      WriteCappedIff(y, e.a);
    } else if e.Commit? {
      CommitCapped(y, e.c);
    } else if e.SelectForUpdate? {
      SelectCapped(y, e.c, e.now);
    } else {
      OtherCapped(y, e);
    }
  }

  lemma SelectCapped(y: System, c: CallId, now: int)
    requires LocksAgree(y) && Capped(y)
    ensures Capped(Step(y, SelectForUpdate(c, now)))
  {
  }

  lemma OtherCapped(y: System, e: Event)
    requires LocksAgree(y) && Capped(y) && !e.AdminWrite? && !e.Commit? && !e.SelectForUpdate?
    ensures Capped(Step(y, e))
  {
  }

  lemma WriteCappedIff(y: System, a: CallId)
    requires LocksAgree(y) && Capped(y)
    ensures Capped(Step(y, AdminWrite(a))) <==> !Stale(y, AdminWrite(a))
  {
    if Stale(y, AdminWrite(a)) {
      var id := y.admin[a].id;
      var v := Step(y, AdminWrite(a)).invites[id];
      assert v.useCount > v.maxUses;
    }
  }

  lemma CommitCapped(y: System, c: CallId)
    requires LocksAgree(y) && Capped(y)
    ensures Capped(Step(y, Commit(c)))
  {
  }

  /** An update whose read and write are not separated is never stale. */
  lemma AtomicUpdateNotStale(y: System, a: CallId, id: InviteId, newMax: Option<int>, expires: Option<Option<int>>)
    requires a !in y.admin
    ensures !Stale(Step(y, UpdateRead(a, id, newMax, expires)), AdminWrite(a))
  {
  }

  // -------------------------------------------------------------------- runs

  lemma {:induction false} RunKeepsLocks(y: System, events: seq<Event>)
    requires LocksAgree(y)
    ensures LocksAgree(Run(y, events))
  {
    if events != [] {
      RunKeepsLocks(y, events[..|events| - 1]);
      StepKeepsLocks(Run(y, events[..|events| - 1]), events[|events| - 1]);
    }
  }

  /** Invite conservation: in every interleaving, each surviving invite's use_count is
      the number of committed users carrying its id. */
  lemma {:induction false} InviteConservation(y: System, events: seq<Event>)
    requires LocksAgree(y) && Conserved(y) && FreshRun(y, events)
    ensures Conserved(Run(y, events))
  {
    if events != [] {
      InviteConservation(y, events[..|events| - 1]);
      RunKeepsLocks(y, events[..|events| - 1]);
      StepConserves(Run(y, events[..|events| - 1]), events[|events| - 1]);
    }
  }

  /** use_count <= max_uses, for every invite. */
  ghost predicate WithinMax(y: System) {
    forall id :: id in y.invites ==> y.invites[id].useCount <= y.invites[id].maxUses
  }

  ghost predicate AlwaysWithinMax(y: System, events: seq<Event>) {
    WithinMax(Run(y, events)) && (events == [] || AlwaysWithinMax(y, events[..|events| - 1]))
  }

  ghost predicate NeverStale(y: System, events: seq<Event>) {
    events == [] ||
    (!Stale(Run(y, events[..|events| - 1]), events[|events| - 1]) && NeverStale(y, events[..|events| - 1]))
  }

  lemma {:induction false} NeverStaleCapped(y: System, events: seq<Event>)
    requires LocksAgree(y) && Capped(y) && NeverStale(y, events)
    ensures Capped(Run(y, events))
  {
    if events != [] {
      var init := events[..|events| - 1];
      NeverStaleCapped(y, init);
      RunKeepsLocks(y, init);
      StepCappedIff(Run(y, init), events[|events| - 1]);
    }
  }

  /** A stale write is itself over the maximum it writes. */
  lemma StaleExceeds(y: System, e: Event)
    requires Stale(y, e)
    ensures !WithinMax(Step(y, e))
  {
    var id := y.admin[e.a].id;
    assert id in Step(y, e).invites;
  }

  /** Cap: despite the stale availability pre-check, no prefix of an interleaving takes
      any invite over its maximum, exactly when no stale admin write happens in it. With
      no call open, Capped asks no more of the start than WithinMax. */
  lemma {:induction false} InviteCapIff(y: System, events: seq<Event>)
    requires LocksAgree(y) && Capped(y)
    ensures AlwaysWithinMax(y, events) <==> NeverStale(y, events)
  {
    if events != [] {
      var init, last := events[..|events| - 1], events[|events| - 1];
      InviteCapIff(y, init);
      if Stale(Run(y, init), last) {
        StaleExceeds(Run(y, init), last);
      } else if NeverStale(y, events) {
        NeverStaleCapped(y, events);
      }
    }
  }

  lemma RunSnoc(y: System, events: seq<Event>, e: Event)
    ensures Run(y, events + [e]) == Step(Run(y, events), e)
  {
    assert (events + [e])[..|events|] == events;
  }

  /** One admin, and one user of invite 7, which allows three, or no user of it yet. */
  function Small(used: bool, calls: map<CallId, Call>, admin: map<CallId, AdminCall>,
                 locks: map<InviteId, CallId>): System {
    System(if used then [User(1, AdminRole, None), User(2, UserRole, Some(7))] else [User(1, AdminRole, None)],
           map[7 := Invite(5, 3, if used then 1 else 0, used, None)], calls, admin, None, locks)
  }

  lemma SmallIsFine(used: bool)
    ensures var y := Small(used, map[], map[], map[]); LocksAgree(y) && Conserved(y) && Capped(y)
  {
    UsesSnoc([], User(1, AdminRole, None), 7);
    UsesSnoc([] + [User(1, AdminRole, None)], User(2, UserRole, Some(7)), 7);
    assert [] + [User(1, AdminRole, None)] == [User(1, AdminRole, None)];
    assert [] + [User(1, AdminRole, None)] + [User(2, UserRole, Some(7))]
           == [User(1, AdminRole, None), User(2, UserRole, Some(7))];
  }

  /** A call registers student 10 up to the row lock. */
  lemma FirstHalfOfCall(used: bool, admin: map<CallId, AdminCall>)
    ensures var y := Small(used, map[], admin, map[]);
            Step(Step(y, Start(1, 10, 5)), Count(1)) == Small(used, map[1 := Call(10, 5, InviteChosen)], admin, map[])
    ensures var y := Small(used, map[1 := Call(10, 5, InviteChosen)], admin, map[]);
            Step(Step(y, PreCheck(1, 0)), SelectForUpdate(1, 0))
            == Small(used, map[1 := Call(10, 5, Selected(7))], admin, map[7 := 1])
  {
    var invites := map[7 := Invite(5, 3, if used then 1 else 0, used, None)];
    assert 7 in invites && FindCode(invites, 5) == Some(7);
    assert map[1 := Call(10, 5, Looked)][1 := Call(10, 5, InviteChosen)] == map[1 := Call(10, 5, InviteChosen)];
  }

  lemma SecondHalfOfCall(used: bool, admin: map<CallId, AdminCall>)
    ensures var y := Small(used, map[1 := Call(10, 5, Selected(7))], admin, map[7 := 1]);
            Step(Step(y, Insert(1)), MarkUsed(1)) == Small(used, map[1 := Call(10, 5, Marked(7))], admin, map[7 := 1])
  {
  }

  lemma CallCommits(used: bool, admin: map<CallId, AdminCall>)
    ensures var y := Step(Small(used, map[1 := Call(10, 5, Marked(7))], admin, map[7 := 1]), Commit(1));
            && y.users == Small(used, map[], map[], map[]).users + [User(10, UserRole, Some(7))]
            && y.invites == map[7 := Invite(5, 3, if used then 2 else 1, true, None)]
            && y.admin == admin && y.rowLocks == map[]
  {
  }

  lemma TwoMore(y: System, events: seq<Event>, now: System, e: Event, f: Event) returns (longer: seq<Event>)
    requires Run(y, events) == now && FreshRun(y, events) && !e.CreateInvite? && !f.CreateInvite?
    ensures Run(y, longer) == Step(Step(now, e), f) && FreshRun(y, longer)
  {
    longer := Extended(y, events, e);
    longer := Extended(y, longer, f);
  }

  lemma UpToRowLock(used: bool, admin: map<CallId, AdminCall>, y: System, events: seq<Event>)
    returns (longer: seq<Event>)
    requires Run(y, events) == Small(used, map[], admin, map[]) && FreshRun(y, events)
    ensures Run(y, longer) == Small(used, map[1 := Call(10, 5, Selected(7))], admin, map[7 := 1])
    ensures FreshRun(y, longer)
  {
    FirstHalfOfCall(used, admin);
    longer := TwoMore(y, events, Small(used, map[], admin, map[]), Start(1, 10, 5), Count(1));
    longer := TwoMore(y, longer, Small(used, map[1 := Call(10, 5, InviteChosen)], admin, map[]),
                      PreCheck(1, 0), SelectForUpdate(1, 0));
  }

  lemma UpToCommit(used: bool, admin: map<CallId, AdminCall>, y: System, events: seq<Event>)
    returns (longer: seq<Event>)
    requires Run(y, events) == Small(used, map[1 := Call(10, 5, Selected(7))], admin, map[7 := 1])
    requires FreshRun(y, events)
    ensures Run(y, longer) == Step(Small(used, map[1 := Call(10, 5, Marked(7))], admin, map[7 := 1]), Commit(1))
    ensures FreshRun(y, longer)
  {
    SecondHalfOfCall(used, admin);
    var now := Small(used, map[1 := Call(10, 5, Selected(7))], admin, map[7 := 1]);
    longer := TwoMore(y, events, now, Insert(1), MarkUsed(1));
    longer := Extended(y, longer, Commit(1));
  }

  /** An admin reads, then a whole registration commits. */
  lemma ReadThenCommit(used: bool, read: Event, w: AdminCall) returns (events: seq<Event>)
    requires !read.CreateInvite?
    requires Step(Small(used, map[], map[], map[]), read) == Small(used, map[], map[0 := w], map[])
    ensures var y := Small(used, map[], map[], map[]);
            && FreshRun(y, events)
            && Run(y, events)
               == Step(Small(used, map[1 := Call(10, 5, Marked(7))], map[0 := w], map[7 := 1]), Commit(1))
  {
    var y := Small(used, map[], map[], map[]);
    events := Extended(y, [], read);
    events := UpToRowLock(used, map[0 := w], y, events);
    events := UpToCommit(used, map[0 := w], y, events);
  }

  /** A run that does break the cap: the admin reads one use and lowers the maximum to
      one, a registration commits the second use, then the lowered maximum is written. */
  lemma StaleUpdateHappens() returns (y: System, events: seq<Event>)
    ensures LocksAgree(y) && Conserved(y) && Capped(y) && FreshRun(y, events)
    ensures !WithinMax(Run(y, events))
  {
    y := Small(true, map[], map[], map[]);
    SmallIsFine(true);
    events := ReadThenCommit(true, UpdateRead(0, 7, Some(1), None), Updating(7, Some(1), None));
    CallCommits(true, map[0 := Updating(7, Some(1), None)]);
    LoweredWrite(Run(y, events));
    events := Extended(y, events, AdminWrite(0));
  }

  lemma LoweredWrite(y: System)
    requires 7 in y.invites && y.invites[7] == Invite(5, 3, 2, true, None) && y.rowLocks == map[]
    requires y.admin == map[0 := Updating(7, Some(1), None)]
    ensures !WithinMax(Step(y, AdminWrite(0)))
  {
    assert Step(y, AdminWrite(0)).invites[7] == Invite(5, 1, 2, true, None);
  }

  lemma Extended(y: System, events: seq<Event>, e: Event) returns (longer: seq<Event>)
    requires FreshRun(y, events) && !e.CreateInvite?
    ensures Run(y, longer) == Step(Run(y, events), e) && FreshRun(y, longer)
  {
    longer := events + [e];
    RunSnoc(y, events, e);
    assert longer[..|longer| - 1] == events;
  }

  // ------------------------------------------------------------ deleted invites

  /** Every invite a user came with still exists. */
  ghost predicate NoDangling(y: System) {
    forall i :: 0 <= i < |y.users| && y.users[i].invite.Some? ==> y.users[i].invite.value in y.invites
  }

  /** A delete that lands after the invite it found unused has been used. */
  ghost predicate StaleDelete(y: System, e: Event) {
    e.AdminWrite? && e.a in y.admin && y.admin[e.a].Deleting? &&
    var id := y.admin[e.a].id;
    id in y.invites && id !in y.rowLocks && y.invites[id].useCount > 0
  }

  lemma {:induction false} UsedBySomeone(users: seq<User>, id: InviteId)
    ensures Uses(users, id) > 0 <==> exists i :: 0 <= i < |users| && users[i].invite == Some(id)
  {
    if users != [] {
      UsedBySomeone(users[..|users| - 1], id);
    }
  }

  lemma DeleteDanglesIff(y: System, e: Event)
    requires Conserved(y) && NoDangling(y) && e.AdminWrite?
    ensures NoDangling(Step(y, e)) <==> !StaleDelete(y, e)
  {
    if e.a in y.admin && y.admin[e.a].Deleting? && y.admin[e.a].id in y.invites && y.admin[e.a].id !in y.rowLocks {
      UsedBySomeone(y.users, y.admin[e.a].id);
    }
  }

  lemma OtherKeepsInvites(y: System, e: Event)
    requires LocksAgree(y) && NoDangling(y) && !e.AdminWrite?
    ensures NoDangling(Step(y, e))
  {
  }

  ghost predicate NeverStaleDelete(y: System, events: seq<Event>) {
    events == [] || (!StaleDelete(Run(y, events[..|events| - 1]), events[|events| - 1])
                     && NeverStaleDelete(y, events[..|events| - 1]))
  }

  ghost predicate AlwaysNoDangling(y: System, events: seq<Event>) {
    NoDangling(Run(y, events)) && (events == [] || AlwaysNoDangling(y, events[..|events| - 1]))
  }

  /** Users keep their invite throughout an interleaving exactly when no delete in it lands
      on an invite that was used since the delete read it. */
  lemma {:induction false} InviteKeptIff(y: System, events: seq<Event>)
    requires LocksAgree(y) && Conserved(y) && NoDangling(y) && FreshRun(y, events)
    ensures AlwaysNoDangling(y, events) <==> NeverStaleDelete(y, events)
  {
    if events != [] {
      var init, last := events[..|events| - 1], events[|events| - 1];
      InviteKeptIff(y, init);
      InviteConservation(y, init);
      RunKeepsLocks(y, init);
      if AlwaysNoDangling(y, init) {
        NoDanglingAtEnd(y, init);
        if last.AdminWrite? {
          DeleteDanglesIff(Run(y, init), last);
        } else {
          OtherKeepsInvites(Run(y, init), last);
        }
      }
    }
  }

  lemma NoDanglingAtEnd(y: System, events: seq<Event>)
    requires AlwaysNoDangling(y, events)
    ensures NoDangling(Run(y, events))
  {
  }

  lemma ReadsUnused()
    ensures Step(Small(false, map[], map[], map[]), DeleteRead(0, 7))
            == Small(false, map[], map[0 := Deleting(7)], map[])
  {
  }

  lemma DeletedWrite(y: System)
    requires |y.users| == 2 && y.users[1].invite == Some(7) && y.rowLocks == map[]
    requires y.admin == map[0 := Deleting(7)]
    ensures !NoDangling(Step(y, AdminWrite(0)))
  {
    var y' := Step(y, AdminWrite(0));
    assert y'.users[1].invite.Some? && 7 !in y'.invites;
  }

  /** Such a run: the admin finds the invite unused, a registration uses it, the delete is
      carried out. */
  lemma StaleDeleteHappens() returns (y: System, events: seq<Event>)
    ensures LocksAgree(y) && Conserved(y) && NoDangling(y) && FreshRun(y, events)
    ensures !NoDangling(Run(y, events))
  {
    y := Small(false, map[], map[], map[]);
    SmallIsFine(false);
    ReadsUnused();
    events := ReadThenCommit(false, DeleteRead(0, 7), Deleting(7));
    CallCommits(false, map[0 := Deleting(7)]);
    DeletedWrite(Run(y, events));
    events := Extended(y, events, AdminWrite(0));
  }

  // --------------------------------------------------------------- bootstrap

  /** Events before a call has chosen its transaction or begun to write in it. */
  predicate Opens(e: Event) {
    e.Start? || e.Count? || e.LockTable? || e.CheckEmpty?
  }

  /** The two looks at the invite, without and with its row lock. */
  predicate ReadsInvite(e: Event) {
    e.PreCheck? || e.SelectForUpdate?
  }

  predicate OnInvitePath(stage: Stage) {
    stage.InviteChosen? || stage.PreChecked? || HoldsRow(stage)
  }

  /** The first committed user, and only that one, is an admin; the invite path is open
      only once somebody is committed; and whoever has seen the table empty under the
      lock still finds it so. */
  ghost predicate Bootstrap(y: System) {
    && OneAdmin(y.users)
    && (forall c :: c in y.calls && OnInvitePath(y.calls[c].stage) ==> y.users != [])
    && (forall c :: c in y.calls && HoldsTable(y.calls[c].stage) ==> y.tableLock == Some(c))
    && (forall c :: c in y.calls && (y.calls[c].stage.BootEmpty? || y.calls[c].stage.BootInserted?) ==> y.users == [])
  }

  ghost predicate OneAdmin(users: seq<User>) {
    forall i :: 0 <= i < |users| ==> (users[i].role == AdminRole <==> i == 0)
  }

  lemma CommitKeepsBootstrap(y: System, c: CallId)
    requires Bootstrap(y)
    ensures Bootstrap(Step(y, Commit(c)))
  {
  }

  lemma StepKeepsBootstrap(y: System, e: Event)
    requires Bootstrap(y)
    ensures Bootstrap(Step(y, e))
  {
    if e.Commit? {
      CommitKeepsBootstrap(y, e.c);
    } else if e.Insert? {
      InsertKeepsBootstrap(y, e.c);
    } else if Opens(e) {
      OpeningKeepsBootstrap(y, e);
    } else if ReadsInvite(e) {
      ReadKeepsBootstrap(y, e);
    } else {
      OtherKeepsBootstrap(y, e);
    }
  }

  lemma InsertKeepsBootstrap(y: System, c: CallId)
    requires Bootstrap(y)
    ensures Bootstrap(Step(y, Insert(c)))
  {
  }

  lemma OpeningKeepsBootstrap(y: System, e: Event)
    requires Bootstrap(y) && Opens(e)
    ensures Bootstrap(Step(y, e))
  {
  }

  lemma ReadKeepsBootstrap(y: System, e: Event)
    requires Bootstrap(y) && ReadsInvite(e)
    ensures Bootstrap(Step(y, e))
  {
  }

  lemma OtherKeepsBootstrap(y: System, e: Event)
    requires Bootstrap(y) && !e.Commit? && !e.Insert? && !Opens(e) && !ReadsInvite(e)
    ensures Bootstrap(Step(y, e))
  {
  }

  lemma {:induction false} RunBootstrap(y: System, events: seq<Event>)
    requires Bootstrap(y)
    ensures Bootstrap(Run(y, events))
  {
    if events != [] {
      RunBootstrap(y, events[..|events| - 1]);
      StepKeepsBootstrap(Run(y, events[..|events| - 1]), events[|events| - 1]);
    }
  }

  /** Single bootstrap: from an empty users table with no call open, in every
      interleaving, the admins among the committed users are exactly the first one. */
  lemma SingleBootstrap(y: System, events: seq<Event>)
    requires y.users == [] && y.calls == map[]
    ensures OneAdmin(Run(y, events).users)
  {
    RunBootstrap(y, events);
  }

  // ---------------------------------------------------------- student numbers

  predicate Inserting(y: System, c: CallId) {
    c in y.calls && HasInserted(y.calls[c].stage)
  }

  /** No two committed or pending users share a student id. */
  ghost predicate StudentsDistinct(y: System) {
    && (forall i, j :: 0 <= i < j < |y.users| ==> y.users[i].student != y.users[j].student)
    && (forall c :: c in y.calls && HasInserted(y.calls[c].stage) ==> !Registered(y.users, y.calls[c].student))
    && (forall c, o :: Inserting(y, c) && Inserting(y, o) && c != o ==>
          y.calls[c].student != y.calls[o].student)
  }

  lemma CommitKeepsStudents(y: System, c: CallId)
    requires StudentsDistinct(y)
    ensures StudentsDistinct(Step(y, Commit(c)))
  {
  }

  lemma StepKeepsStudents(y: System, e: Event)
    requires StudentsDistinct(y)
    ensures StudentsDistinct(Step(y, e))
  {
    if e.Commit? {
      CommitKeepsStudents(y, e.c);
    } else if e.Insert? {
      InsertKeepsStudents(y, e.c);
    } else if Opens(e) {
      OpeningKeepsStudents(y, e);
    } else if ReadsInvite(e) {
      ReadKeepsStudents(y, e);
    } else {
      OtherKeepsStudents(y, e);
    }
  }

  lemma InsertKeepsStudents(y: System, c: CallId)
    requires StudentsDistinct(y)
    ensures StudentsDistinct(Step(y, Insert(c)))
  {
  }

  lemma OpeningKeepsStudents(y: System, e: Event)
    requires StudentsDistinct(y) && Opens(e)
    ensures StudentsDistinct(Step(y, e))
  {
  }

  lemma ReadKeepsStudents(y: System, e: Event)
    requires StudentsDistinct(y) && ReadsInvite(e)
    ensures StudentsDistinct(Step(y, e))
  {
  }

  lemma OtherKeepsStudents(y: System, e: Event)
    requires StudentsDistinct(y) && !e.Commit? && !e.Insert? && !Opens(e) && !ReadsInvite(e)
    ensures StudentsDistinct(Step(y, e))
  {
  }

  lemma {:induction false} RunKeepsStudents(y: System, events: seq<Event>)
    requires StudentsDistinct(y)
    ensures StudentsDistinct(Run(y, events))
  {
    if events != [] {
      RunKeepsStudents(y, events[..|events| - 1]);
      StepKeepsStudents(Run(y, events[..|events| - 1]), events[|events| - 1]);
    }
  }
}
