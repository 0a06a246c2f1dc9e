/** What a registration and the admin's invite calls come to: each decision on an invite
    said in terms of the row and the time, and whole calls that nothing disturbs. */
module RegistrationOutcomes {
  import opened Common
  import opened Registration

  /** UNIQUE(code). */
  ghost predicate CodesUnique(y: System) {
    forall i, j :: i in y.invites && j in y.invites && y.invites[i].code == y.invites[j].code ==> i == j
  }

  ghost predicate HasCode(y: System, id: InviteId, code: int) {
    CodesUnique(y) && id in y.invites && y.invites[id].code == code
  }

  lemma FindsTheCode(y: System, id: InviteId, code: int)
    requires HasCode(y, id, code)
    ensures FindCode(y.invites, code) == Some(id)
  {
  }

  lemma FindsNoCode(y: System, code: int)
    requires forall id :: id in y.invites ==> y.invites[id].code != code
    ensures FindCode(y.invites, code) == None
  {
  }

  // ------------------------------------------------------------ the two looks

  /** The unlocked look lets a call on exactly if the invite has uses left and its expiry,
      if any, has not passed; at the instant of expiry it still does. */
  lemma PreCheckIff(y: System, c: CallId, id: InviteId, now: int)
    requires c in y.calls && y.calls[c].stage == InviteChosen && HasCode(y, id, y.calls[c].code)
    ensures var y', v := Step(y, PreCheck(c, now)), y.invites[id];
            var passes := v.useCount < v.maxUses && (v.expiresAt.None? || now <= v.expiresAt.value);
            && (c in y'.calls <==> passes)
            && (passes ==> y'.calls == y.calls[c := y.calls[c].(stage := PreChecked)])
            && y'.users == y.users && y'.invites == y.invites
  {
    FindsTheCode(y, id, y.calls[c].code);
  }

  /** The look under the row lock lets it on exactly if there are uses left and the expiry
      lies ahead; at the instant of expiry it no longer does. The call then holds the
      row. */
  lemma SelectIff(y: System, c: CallId, id: InviteId, now: int)
    requires c in y.calls && y.calls[c].stage == PreChecked && HasCode(y, id, y.calls[c].code)
    requires id !in y.rowLocks
    ensures var y', v := Step(y, SelectForUpdate(c, now)), y.invites[id];
            var passes := v.useCount < v.maxUses && (v.expiresAt.None? || now < v.expiresAt.value);
            && (c in y'.calls <==> passes)
            && (passes ==> y'.calls == y.calls[c := y.calls[c].(stage := Selected(id))]
                           && id in y'.rowLocks && y'.rowLocks[id] == c)
            && y'.users == y.users && y'.invites == y.invites
  {
    FindsTheCode(y, id, y.calls[c].code);
  }

  /** While another call holds the row, it waits. */
  lemma SelectWaits(y: System, c: CallId, id: InviteId, now: int)
    requires c in y.calls && y.calls[c].stage == PreChecked && HasCode(y, id, y.calls[c].code)
    requires id in y.rowLocks
    ensures Step(y, SelectForUpdate(c, now)) == y
  {
    FindsTheCode(y, id, y.calls[c].code);
  }

  /** A code no invite has ends the call at either look. */
  lemma UnknownCodeEnds(y: System, c: CallId, now: int)
    requires c in y.calls && (y.calls[c].stage == InviteChosen || y.calls[c].stage == PreChecked)
    requires forall id :: id in y.invites ==> y.invites[id].code != y.calls[c].code
    ensures y.calls[c].stage == InviteChosen ==> c !in Step(y, PreCheck(c, now)).calls
    ensures y.calls[c].stage == PreChecked ==> c !in Step(y, SelectForUpdate(c, now)).calls
  {
    FindsNoCode(y, y.calls[c].code);
  }

  /** The exclusive table lock is granted exactly if nobody holds it and nobody has an
      uncommitted row; until then the call waits. */
  lemma LockTableIff(y: System, c: CallId)
    requires c in y.calls && y.calls[c].stage == BootChosen
    ensures var y' := Step(y, LockTable(c));
            if y.tableLock.None? && (forall o :: o in y.calls ==> !HasInserted(y.calls[o].stage))
            then y' == y.(calls := y.calls[c := y.calls[c].(stage := BootLocked)], tableLock := Some(c))
            else y' == y
  {
  }

  /** An insert waits while another call holds the table lock or has an uncommitted row for
      the same student; then it goes through exactly if no such account is committed. */
  lemma InsertIff(y: System, c: CallId, id: InviteId)
    requires c in y.calls && y.calls[c].stage == Selected(id)
    ensures var y' := Step(y, Insert(c));
            var waits := (y.tableLock.Some? && y.tableLock != Some(c))
                         || exists o :: o in y.calls && o != c && HasInserted(y.calls[o].stage)
                                        && y.calls[o].student == y.calls[c].student;
            var taken := exists i :: 0 <= i < |y.users| && y.users[i].student == y.calls[c].student;
            && (waits ==> y' == y)
            && (!waits && !taken ==> y' == y.(calls := y.calls[c := y.calls[c].(stage := Inserted(id))]))
            && (!waits && taken ==> c !in y'.calls && y'.users == y.users && y'.invites == y.invites)
  {
  }

  /** The use is counted only if the invite is still there; otherwise the call ends. */
  lemma MarkUsedIff(y: System, c: CallId, id: InviteId)
    requires c in y.calls && y.calls[c].stage == Inserted(id)
    ensures var y' := Step(y, MarkUsed(c));
            if id in y.invites then y' == y.(calls := y.calls[c := y.calls[c].(stage := Marked(id))])
            else c !in y'.calls && y'.users == y.users && y'.invites == y.invites
  {
  }

  /** A call that fails leaves no trace: its row lock and table lock are free again, and no
      committed row has changed. */
  lemma RollbackLeavesNoTrace(y: System, c: CallId)
    requires LocksAgree(y)
    ensures var y' := Step(y, Rollback(c));
            && y'.users == y.users && y'.invites == y.invites && y'.admin == y.admin
            && y'.calls == y.calls - {c}
            && (c in y.calls ==> y'.tableLock != Some(c) && forall id :: id in y'.rowLocks ==> y'.rowLocks[id] != c)
            && (forall id :: id in y.rowLocks && y.rowLocks[id] != c ==>
                  id in y'.rowLocks && y'.rowLocks[id] == y.rowLocks[id])
            && (y.tableLock != Some(c) ==> y'.tableLock == y.tableLock)
  {
  }

  // --------------------------------------------------------- undisturbed calls

  /** Nobody else is about. */
  predicate Quiet(y: System) {
    y.calls == map[] && y.tableLock == None && y.rowLocks == map[]
  }

  function In(y: System, c: CallId, call: Call, locks: map<InviteId, CallId>): System {
    y.(calls := map[c := call], rowLocks := locks)
  }

  lemma Begins(y: System, c: CallId, student: StudentId, code: int)
    requires Quiet(y) && y.users != [] && !Registered(y.users, student)
    ensures Step(Step(y, Start(c, student, code)), Count(c)) == In(y, c, Call(student, code, InviteChosen), map[])
  {
    assert map[c := Call(student, code, Looked)][c := Call(student, code, InviteChosen)]
           == map[c := Call(student, code, InviteChosen)];
  }

  lemma Ends(y: System, c: CallId, call: Call, locks: map<InviteId, CallId>)
    requires Quiet(y) && forall id :: id in locks ==> locks[id] == c
    ensures End(In(y, c, call, locks), c) == y
  {
    assert map[c := call] - {c} == map[];
    var held := End(In(y, c, call, locks), c).rowLocks;
    forall id
      ensures id !in held
    {
    }
    assert held == map[];
  }

  lemma Looks(y: System, c: CallId, student: StudentId, code: int, id: InviteId, now: int)
    requires Quiet(y) && HasCode(y, id, code)
    ensures var v := y.invites[id];
            Step(In(y, c, Call(student, code, InviteChosen), map[]), PreCheck(c, now)) ==
            if v.useCount < v.maxUses && (v.expiresAt.None? || now <= v.expiresAt.value)
            then In(y, c, Call(student, code, PreChecked), map[]) else y
  {
    var y1 := In(y, c, Call(student, code, InviteChosen), map[]);
    PreCheckIff(y1, c, id, now);
    FindsTheCode(y1, id, code);
    Ends(y, c, Call(student, code, InviteChosen), map[]);
    assert y1.calls[c := Call(student, code, PreChecked)] == map[c := Call(student, code, PreChecked)];
  }

  lemma Locks(y: System, c: CallId, student: StudentId, code: int, id: InviteId, now: int)
    requires Quiet(y) && HasCode(y, id, code)
    ensures var v := y.invites[id];
            Step(In(y, c, Call(student, code, PreChecked), map[]), SelectForUpdate(c, now)) ==
            if v.useCount < v.maxUses && (v.expiresAt.None? || now < v.expiresAt.value)
            then In(y, c, Call(student, code, Selected(id)), map[id := c]) else y
  {
    var y1 := In(y, c, Call(student, code, PreChecked), map[]);
    SelectIff(y1, c, id, now);
    FindsTheCode(y1, id, code);
    Ends(y, c, Call(student, code, PreChecked), map[]);
    assert y1.calls[c := Call(student, code, Selected(id))] == map[c := Call(student, code, Selected(id))];
  }

  lemma Inserts(y: System, c: CallId, student: StudentId, code: int, id: InviteId)
    requires Quiet(y) && id in y.invites && !Registered(y.users, student)
    ensures Step(Step(In(y, c, Call(student, code, Selected(id)), map[id := c]), Insert(c)), MarkUsed(c)) ==
            In(y, c, Call(student, code, Marked(id)), map[id := c])
  {
    var y1 := In(y, c, Call(student, code, Selected(id)), map[id := c]);
    assert y1.calls[c := Call(student, code, Inserted(id))] == map[c := Call(student, code, Inserted(id))];
    assert map[c := Call(student, code, Inserted(id))][c := Call(student, code, Marked(id))]
           == map[c := Call(student, code, Marked(id))];
  }

  function UsedOnce(v: Invite): Invite {
    v.(useCount := v.useCount + 1, used := true)
  }

  lemma Commits(y: System, c: CallId, student: StudentId, code: int, id: InviteId)
    requires Quiet(y) && id in y.invites
    ensures Step(In(y, c, Call(student, code, Marked(id)), map[id := c]), Commit(c)) ==
            y.(users := y.users + [User(student, UserRole, Some(id))],
               invites := y.invites[id := UsedOnce(y.invites[id])])
  {
    Ends(y, c, Call(student, code, Marked(id)), map[id := c]);
  }

  /** Register with an invite code, all its statements in a row. */
  ghost function RegisterAlone(y: System, c: CallId, student: StudentId, code: int, t1: int, t2: int): System {
    var looked := Step(Step(y, Start(c, student, code)), Count(c));
    var locked := Step(Step(looked, PreCheck(c, t1)), SelectForUpdate(c, t2));
    Step(Step(Step(locked, Insert(c)), MarkUsed(c)), Commit(c))
  }

  /** Nothing is left to do for a call that has ended. */
  lemma NoCallNoEffect(y: System, c: CallId, now: int)
    requires c !in y.calls
    ensures Step(y, Insert(c)) == y && Step(y, MarkUsed(c)) == y && Step(y, Commit(c)) == y
    ensures Step(y, SelectForUpdate(c, now)) == y && Step(y, PreCheck(c, now)) == y && Step(y, Count(c)) == y
  {
  }

  /** A registration that nothing disturbs, after the first user: it commits one ordinary
      user with that invite and counts the use, exactly if the invite has uses left and
      its expiry had not passed at the first look and lay ahead at the second; otherwise
      it leaves everything as it was. */
  lemma UndisturbedRegister(y: System, c: CallId, student: StudentId, code: int, id: InviteId, t1: int, t2: int)
    requires Quiet(y) && y.users != [] && !Registered(y.users, student) && HasCode(y, id, code)
    ensures var v := y.invites[id];
            RegisterAlone(y, c, student, code, t1, t2) ==
            if v.useCount < v.maxUses && (v.expiresAt.None? || (t1 <= v.expiresAt.value && t2 < v.expiresAt.value))
            then y.(users := y.users + [User(student, UserRole, Some(id))], invites := y.invites[id := UsedOnce(v)])
            else y
  {
    var v := y.invites[id];
    NoCallNoEffect(y, c, t2);
    Begins(y, c, student, code);
    Looks(y, c, student, code, id, t1);
    Locks(y, c, student, code, id, t2);
    Inserts(y, c, student, code, id);
    Commits(y, c, student, code, id);
  }

  /** With a code no invite has, or a student who has an account, nothing changes. */
  lemma RegisterRefused(y: System, c: CallId, student: StudentId, code: int, t1: int, t2: int)
    requires Quiet(y) && y.users != []
    requires Registered(y.users, student) || forall id :: id in y.invites ==> y.invites[id].code != code
    ensures RegisterAlone(y, c, student, code, t1, t2) == y
  {
    NoCallNoEffect(y, c, t1);
    NoCallNoEffect(y, c, t2);
    if !Registered(y.users, student) {
      Begins(y, c, student, code);
      FindsNoCode(y, code);
      Ends(y, c, Call(student, code, InviteChosen), map[]);
    }
  }

  /** Register on an empty users table, all its statements in a row. */
  ghost function BootstrapAlone(y: System, c: CallId, student: StudentId, code: int): System {
    var chosen := Step(Step(y, Start(c, student, code)), Count(c));
    var empty := Step(Step(chosen, LockTable(c)), CheckEmpty(c));
    Step(Step(empty, Insert(c)), Commit(c))
  }

  lemma BootstrapChosen(y: System, c: CallId, student: StudentId, code: int)
    requires Quiet(y) && y.users == []
    ensures Step(Step(y, Start(c, student, code)), Count(c)) == In(y, c, Call(student, code, BootChosen), map[])
  {
    assert map[c := Call(student, code, Looked)][c := Call(student, code, BootChosen)]
           == map[c := Call(student, code, BootChosen)];
  }

  lemma BootstrapLocked(y: System, c: CallId, student: StudentId, code: int)
    requires Quiet(y) && y.users == []
    ensures Step(Step(In(y, c, Call(student, code, BootChosen), map[]), LockTable(c)), CheckEmpty(c)) ==
            In(y, c, Call(student, code, BootEmpty), map[]).(tableLock := Some(c))
  {
    assert map[c := Call(student, code, BootChosen)][c := Call(student, code, BootLocked)]
           == map[c := Call(student, code, BootLocked)];
    assert map[c := Call(student, code, BootLocked)][c := Call(student, code, BootEmpty)]
           == map[c := Call(student, code, BootEmpty)];
  }

  lemma BootstrapInserts(y: System, c: CallId, student: StudentId, code: int)
    requires Quiet(y) && y.users == []
    ensures var locked := In(y, c, Call(student, code, BootEmpty), map[]).(tableLock := Some(c));
            Step(Step(locked, Insert(c)), Commit(c)) == y.(users := [User(student, AdminRole, None)])
  {
    assert map[c := Call(student, code, BootEmpty)][c := Call(student, code, BootInserted)]
           == map[c := Call(student, code, BootInserted)];
    assert map[c := Call(student, code, BootInserted)] - {c} == map[];
    assert y.users + [User(student, AdminRole, None)] == [User(student, AdminRole, None)];
  }

  /** The first registration needs no invite and makes the admin. */
  lemma UndisturbedBootstrap(y: System, c: CallId, student: StudentId, code: int)
    requires Quiet(y) && y.users == []
    ensures BootstrapAlone(y, c, student, code) == y.(users := [User(student, AdminRole, None)])
  {
    BootstrapChosen(y, c, student, code);
    BootstrapLocked(y, c, student, code);
    BootstrapInserts(y, c, student, code);
  }

  // ------------------------------------------------------------- admin's calls

  /** UpdateInvite, its read and write in a row: it changes the fields asked for exactly
      if the invite exists and a new maximum is at least one and the uses so far. */
  lemma UndisturbedUpdate(y: System, a: CallId, id: InviteId, newMax: Option<int>, expires: Option<Option<int>>)
    requires a !in y.admin && id !in y.rowLocks
    ensures var y' := Step(Step(y, UpdateRead(a, id, newMax, expires)), AdminWrite(a));
            var may := id in y.invites
                       && (newMax.Some? ==> newMax.value >= 1 && newMax.value >= y.invites[id].useCount);
            && (!may ==> y' == y)
            && (may ==>
                  && y'.invites.Keys == y.invites.Keys && y'.users == y.users
                  && (forall j :: j in y.invites && j != id ==> y'.invites[j] == y.invites[j])
                  && y'.invites[id] == y.invites[id].(maxUses := y'.invites[id].maxUses,
                                                      expiresAt := y'.invites[id].expiresAt)
                  && y'.invites[id].maxUses == (if newMax.Some? then newMax.value else y.invites[id].maxUses)
                  && y'.invites[id].expiresAt == (if expires.Some? then expires.value else y.invites[id].expiresAt))
  {
  }

  /** DeleteInvite, likewise: it removes the invite exactly if that exists and has never
      been used. */
  lemma UndisturbedDelete(y: System, a: CallId, id: InviteId)
    requires a !in y.admin && id !in y.rowLocks
    ensures var y' := Step(Step(y, DeleteRead(a, id)), AdminWrite(a));
            var may := id in y.invites && y.invites[id].useCount <= 0 && !y.invites[id].used;
            && (!may ==> y' == y)
            && (may ==> y'.invites == y.invites - {id} && y'.users == y.users)
  {
  }

  /** CreateInvite makes an unused invite, exactly if it allows at least one use and
      neither id nor code is taken. */
  lemma CreateIff(y: System, id: InviteId, code: int, maxUses: int, expiresAt: Option<int>)
    ensures var y' := Step(y, CreateInvite(id, code, maxUses, expiresAt));
            if maxUses >= 1 && id !in y.invites && (forall j :: j in y.invites ==> y.invites[j].code != code)
            then y' == y.(invites := y.invites[id := Invite(code, maxUses, 0, false, expiresAt)])
            else y' == y
  {
    if forall j :: j in y.invites ==> y.invites[j].code != code {
      FindsNoCode(y, code);
    }
  }
}
