/** Revocation when AddPeer and Reconcile calls are in flight. Activate writes by row id and
    does not look at the status it overwrites, so a call that found the row disconnected
    brings it back after an admin has revoked it; and a Reconcile that read the table
    before the revocation brings the key back. */
module Revocation {
  import opened Common
  import opened PeerModel
  import opened PeerHistory
  import opened ReconcileDiff
  import opened AddInterleaving
  import opened Wire
  import Ipam

  predicate IsRevoked(s: State, id: PeerId) {
    id in s.rows && s.rows[id].status == Revoked
  }

  /** The step at which a call in flight activates the row it once found. */
  predicate Reactivates(y: System, a: Action, id: PeerId) {
    a.Persist? && a.ok && a.call in y.calls && y.calls[a.call].stage.Configured? && y.calls[a.call].existing == Some(id)
  }

  /** An admin disconnect of the row that reaches its status write. */
  predicate Disconnects(a: Action, id: PeerId) {
    a.Whole? && a.event.op == OpDisconnect(id) && {LoadPeer, ReloadPeer, SetStatus} !! a.event.fails
  }

  ghost predicate FreshIds(y: System, a: Action) {
    a.Whole? ==> FreshId(y.st, a.event)
  }

  lemma DisconnectWrites(s: State, e: Event, id: PeerId)
    requires s.net.Valid() && e.op == OpDisconnect(id) && IsRevoked(s, id)
    ensures var rows' := Step(s, e).0.rows;
            id in rows' && (rows'[id] == s.rows[id] <==> !({LoadPeer, ReloadPeer, SetStatus} !! e.fails))
  {
  }

  /** Exactly two kinds of step change a revoked row. */
  lemma RevokedStepIff(y: System, a: Action, id: PeerId)
    requires y.st.net.Valid() && UniqueKeys(y.st.rows) && IsRevoked(y.st, id) && FreshIds(y, a)
    ensures var rows' := Act(y, a).st.rows;
            && id in rows'
            && (rows'[id] == y.st.rows[id] <==> !Reactivates(y, a, id) && !Disconnects(a, id))
  {
    if a.Whole? {
      if a.event.op == OpDisconnect(id) {
        DisconnectWrites(y.st, a.event, id);
      } else {
        StepKeepsRevoked(y.st, a.event, id);
      }
    }
  }

  lemma ActKeepsKeysUnique(y: System, a: Action)
    requires y.st.net.Valid() && UniqueKeys(y.st.rows) && FreshIds(y, a)
    ensures UniqueKeys(Act(y, a).st.rows)
  {
    if a.Whole? {
      StepKeepsKeysUnique(y.st, a.event);
    }
  }

  // -------------------------------------------------------------------- runs

  /** A call that may still reach Activate on the row. */
  predicate MayReactivate(p: Pending, id: PeerId) {
    p.existing == Some(id) && (p.stage.Admitted? || p.stage.Allocated? || p.stage.Configured?)
  }

  ghost predicate NoneMayReactivate(y: System, id: PeerId) {
    forall c :: c in y.calls ==> !MayReactivate(y.calls[c], id)
  }

  /** New row ids are new, and a call begins with the row its checks have just found. */
  ghost predicate Honest(y: System, a: Action) {
    && FreshIds(y, a)
    && (a.Begin? ==> CheckAdd(y.st, a.uid, a.key, {}) == Admit(a.existing))
  }

  ghost predicate HonestRun(y: System, actions: seq<Action>)
    requires y.st.net.Valid()
    decreases |actions|
  {
    actions == [] || (Honest(y, actions[0]) && HonestRun(Act(y, actions[0]), actions[1..]))
  }

  predicate NeverDisconnects(actions: seq<Action>, id: PeerId) {
    forall i :: 0 <= i < |actions| ==> !Disconnects(actions[i], id)
  }

  lemma ActKeepsRevoked(y: System, a: Action, id: PeerId)
    requires y.st.net.Valid() && UniqueKeys(y.st.rows) && IsRevoked(y.st, id)
    requires NoneMayReactivate(y, id) && Honest(y, a) && !Disconnects(a, id)
    ensures id in Act(y, a).st.rows && Act(y, a).st.rows[id] == y.st.rows[id]
    ensures NoneMayReactivate(Act(y, a), id)
  {
    RevokedStepIff(y, a, id);
  }

  /** If no AddPeer in flight at the moment of revocation holds the row, then in every
      interleaving without an admin disconnect of it the row keeps status, key, owner and
      address, and its key is off the device after each successful Reconcile. */
  lemma {:induction false} RevokedInterleaved(y: System, actions: seq<Action>, id: PeerId)
    requires y.st.net.Valid() && UniqueKeys(y.st.rows) && IsRevoked(y.st, id)
    requires NoneMayReactivate(y, id) && HonestRun(y, actions) && NeverDisconnects(actions, id)
    ensures var y' := Interleave(y, actions);
            && id in y'.st.rows && y'.st.rows[id] == y.st.rows[id]
            && forall seen, fails :: Reconcile(y'.st, seen, fails).1 == Done ==>
                 y.st.rows[id].key !in Reconcile(y'.st, seen, fails).0.dev.peers
    decreases |actions|
  {
    if actions != [] {
      var a := actions[0];
      ActKeepsRevoked(y, a, id);
      ActKeepsKeysUnique(y, a);
      RevokedInterleaved(Act(y, a), actions[1..], id);
    }
  }

  /** What is left of a call up to its Activate, everything succeeding. */
  function Finish(c: CallId, stage: Stage): seq<Action> {
    match stage
    case Admitted => [Allocate(c), Configure(c, true), Action.Persist(c, true)]
    case Allocated(_) => [Configure(c, true), Action.Persist(c, true)]
    case Configured(_) => [Action.Persist(c, true)]
    case _ => []
  }

  lemma FinishReactivates(y: System, c: CallId, id: PeerId)
    requires y.st.net.Valid() && id in y.st.rows && c in y.calls && MayReactivate(y.calls[c], id)
    requires y.calls[c].stage.Admitted? ==> Ipam.FirstFree(y.st.net, y.st.used).Some?
    ensures var actions := Finish(c, y.calls[c].stage);
            && HonestRun(y, actions) && NeverDisconnects(actions, id)
            && IsActive(Interleave(y, actions).st.rows, id)
    decreases if y.calls[c].stage.Admitted? then 2 else if y.calls[c].stage.Allocated? then 1 else 0
  {
    var actions := Finish(c, y.calls[c].stage);
    var y' := Act(y, actions[0]);
    if y.calls[c].stage.Configured? {
      assert Interleave(y', actions[1..]) == y';
    } else {
      FinishReactivates(y', c, id);
      assert actions[1..] == Finish(c, y'.calls[c].stage);
    }
  }

  /** Permanence, exactly: the row stays as it is in every interleaving without an admin
      disconnect of it if and only if no AddPeer in flight may still activate it. A call
      that has no address yet needs one to be free. */
  lemma RevokedForeverIff(y: System, id: PeerId)
    requires y.st.net.Valid() && UniqueKeys(y.st.rows) && IsRevoked(y.st, id)
    requires forall c :: c in y.calls && MayReactivate(y.calls[c], id) && y.calls[c].stage.Admitted? ==>
               Ipam.FirstFree(y.st.net, y.st.used).Some?
    ensures (forall actions :: HonestRun(y, actions) && NeverDisconnects(actions, id) ==>
               id in Interleave(y, actions).st.rows && Interleave(y, actions).st.rows[id] == y.st.rows[id])
            <==> NoneMayReactivate(y, id)
  {
    if NoneMayReactivate(y, id) {
      forall actions | HonestRun(y, actions) && NeverDisconnects(actions, id)
        ensures id in Interleave(y, actions).st.rows && Interleave(y, actions).st.rows[id] == y.st.rows[id]
      {
        RevokedInterleaved(y, actions, id);
      }
    } else {
      var c :| c in y.calls && MayReactivate(y.calls[c], id);
      FinishReactivates(y, c, id);
    }
  }

  // ------------------------------------------------------------ the device key

  /** The steps that put a key on the device which no active row has. */
  ghost predicate Restores(y: System, a: Action, key: Key) {
    match a
    case Configure(c, ok) => ok && c in y.calls && y.calls[c].stage.Allocated? && y.calls[c].key == key
    case Send(r, ok) =>
      ok && r in y.sweeps && y.sweeps[r].Compared? && exists e :: e in y.sweeps[r].changes && e.key == key && !e.remove
    case Rebuild(r, _, ok) => ok && r in y.sweeps && y.sweeps[r].Listing? && key in ActiveKeys(y.sweeps[r].rows)
    case Whole(e) =>
      e.op.OpReplace? && e.op.newKey == key && {FindActive, ConfigureDevice} !! e.fails
      && ActiveHolder(y.st.rows, e.op.uid, e.op.oldKey).Some?
    case _ => false
  }

  /** A change list names each key once. */
  ghost predicate KeysOnce(y: System) {
    forall r :: r in y.sweeps && y.sweeps[r].Compared? ==> KeysDistinct(y.sweeps[r].changes)
  }

  lemma RevokedKeyWhole(s: State, e: Event, id: PeerId)
    requires s.net.Valid() && UniqueKeys(s.rows) && IsRevoked(s, id) && s.rows[id].key !in s.dev.peers
    ensures s.rows[id].key in Step(s, e).0.dev.peers <==>
            e.op.OpReplace? && e.op.newKey == s.rows[id].key && {FindActive, ConfigureDevice} !! e.fails
            && ActiveHolder(s.rows, e.op.uid, e.op.oldKey).Some?
  {
  }

  /** Exactly which steps bring a revoked row's key back to the device. */
  lemma KeyRestoredIff(y: System, a: Action, id: PeerId)
    requires y.st.net.Valid() && UniqueKeys(y.st.rows) && IsRevoked(y.st, id) && KeysOnce(y)
    requires y.st.rows[id].key !in y.st.dev.peers
    ensures y.st.rows[id].key in Act(y, a).st.dev.peers <==> Restores(y, a, y.st.rows[id].key)
  {
    var key := y.st.rows[id].key;
    match a
    case Whole(e) => RevokedKeyWhole(y.st, e, id);
    case Send(r, _) =>
      if r in y.sweeps && y.sweeps[r].Compared? {
        PeersAfter(y.st.dev, y.sweeps[r].changes, key);
      }
    case _ =>
  }

  /** No call is yet to configure the key. */
  ghost predicate NoneConfigures(y: System, key: Key) {
    forall c :: c in y.calls && y.calls[c].key == key ==>
      !y.calls[c].stage.Admitted? && !y.calls[c].stage.Allocated?
  }

  /** No listing has the key active and no pending change adds it. */
  ghost predicate NoneSends(y: System, key: Key) {
    && KeysOnce(y)
    && (forall r :: r in y.sweeps ==> key !in ActiveKeys(y.sweeps[r].rows))
    && (forall r, e :: r in y.sweeps && y.sweeps[r].Compared? && e in y.sweeps[r].changes && e.key == key ==> e.remove)
  }

  /** The key is off the device and nothing in flight can bring it back. */
  ghost predicate KeyGone(y: System, id: PeerId)
    requires id in y.st.rows
  {
    var key := y.st.rows[id].key;
    key !in y.st.dev.peers && NoneMayReactivate(y, id) && NoneConfigures(y, key) && NoneSends(y, key)
  }

  predicate AimsKey(a: Action, key: Key) {
    a.Whole? && a.event.op.OpReplace? && a.event.op.newKey == key
  }

  lemma ActKeepsNoneConfigures(y: System, a: Action, id: PeerId)
    requires y.st.net.Valid() && UniqueKeys(y.st.rows) && IsRevoked(y.st, id) && Honest(y, a)
    requires NoneConfigures(y, y.st.rows[id].key)
    ensures NoneConfigures(Act(y, a), y.st.rows[id].key)
  {
  }

  lemma ActKeepsNoneSends(y: System, a: Action, key: Key)
    requires y.st.net.Valid() && NoneSends(y, key) && key !in ActiveKeys(y.st.rows) && key !in y.st.dev.peers
    ensures NoneSends(Act(y, a), key)
  {
    if a.Compare? && a.sweep in y.sweeps && IsDiff(y.sweeps[a.sweep].rows, y.st.dev, a.changes) {
      var rows := y.sweeps[a.sweep].rows;
      forall e | e in a.changes
        ensures e.key != key
      {
        assert e in Wanted(rows, y.st.dev);
      }
    }
  }

  lemma ActKeepsKeyGone(y: System, a: Action, id: PeerId)
    requires y.st.net.Valid() && UniqueKeys(y.st.rows) && IsRevoked(y.st, id) && KeyGone(y, id)
    requires Honest(y, a) && !Disconnects(a, id) && !AimsKey(a, y.st.rows[id].key)
    ensures id in Act(y, a).st.rows && Act(y, a).st.rows[id] == y.st.rows[id] && KeyGone(Act(y, a), id)
  {
    ActKeepsRevoked(y, a, id);
    KeyRestoredIff(y, a, id);
    ActKeepsNoneConfigures(y, a, id);
    ActKeepsNoneSends(y, a, y.st.rows[id].key);
  }

  /** Once a revoked row's key is off the device and nothing in flight can bring it back,
      it stays off in every interleaving in which the row is not disconnected by an admin
      and ReplaceKey is not aimed at its key. */
  lemma {:induction false} RevokedKeyStaysOff(y: System, actions: seq<Action>, id: PeerId)
    requires y.st.net.Valid() && UniqueKeys(y.st.rows) && IsRevoked(y.st, id) && KeyGone(y, id)
    requires HonestRun(y, actions) && NeverDisconnects(actions, id)
    requires forall i :: 0 <= i < |actions| ==> !AimsKey(actions[i], y.st.rows[id].key)
    ensures var y' := Interleave(y, actions);
            id in y'.st.rows && y'.st.rows[id] == y.st.rows[id] && y.st.rows[id].key !in y'.st.dev.peers
    decreases |actions|
  {
    if actions != [] {
      ActKeepsKeyGone(y, actions[0], id);
      ActKeepsKeysUnique(y, actions[0]);
      RevokedKeyStaysOff(Act(y, actions[0]), actions[1..], id);
    }
  }

  // ----------------------------------------------------------------- a witness

  /** Whenever the owner may re-add a disconnected peer, an admin revocation that lands
      just after the checks of that AddPeer is lost: the row ends active. */
  lemma RevocationLost(s: State, id: PeerId, c: CallId, newId: PeerId)
    requires s.net.Valid() && UniqueKeys(s.rows) && id in s.rows
    requires CheckAdd(s, s.rows[id].owner, s.rows[id].key, {}) == Admit(Some(id))
    requires Ipam.FirstFree(s.net, s.used).Some?
    ensures var begin := Begin(c, s.rows[id].owner, s.rows[id].key, Some(id), newId);
            var revoke := Whole(Event(OpRevoke(id), {}));
            var y := Act(Act(System(s, map[], map[]), begin), revoke);
            var rest := Finish(c, Admitted);
            && Honest(System(s, map[], map[]), begin) && Honest(Act(System(s, map[], map[]), begin), revoke)
            && IsRevoked(y.st, id)
            && HonestRun(y, rest) && NeverDisconnects(rest, id)
            && IsActive(Interleave(y, rest).st.rows, id)
  {
    var begin := Begin(c, s.rows[id].owner, s.rows[id].key, Some(id), newId);
    var y1 := Act(System(s, map[], map[]), begin);
    var y := Act(y1, Whole(Event(OpRevoke(id), {})));
    assert y.calls == y1.calls;
    FinishReactivates(y, c, id);
  }
}
