/** STUN probes in flight on the shared UDP port. The read loop looks a response up under
    the mutex and delivers it after letting the mutex go; probes register, time out and
    leave at any moment in between. */
module Probes {
  import opened Common
  import opened Stun

  type Packet = seq<Byte>
  type Txn = seq<Byte>
  type Chan = int
  type ProbeId = int

  /** since: how many packets had been received when the probe registered. */
  datatype Probe = Probe(txn: Txn, chan: Chan, since: nat)

  datatype Held = Held(chan: Chan, endpoint: Endpoint)

  /** buffers: the one-place channels; reader: a response looked up, not yet delivered. */
  datatype Proxy = Proxy(
    pending: map<Txn, Chan>,
    buffers: map<Chan, Option<Endpoint>>,
    probes: map<ProbeId, Probe>,
    reader: Option<Held>,
    received: seq<Packet>,
    forwarded: seq<Packet>)

  const INITIAL_PROXY := Proxy(map[], map[], map[], None, [], [])

  datatype Event =
    | Register(p: ProbeId, txn: Txn, chan: Chan)
    | Receive(packet: Packet)
    | Deliver
    | Finish(p: ProbeId)       // answered, timed out, cancelled, or the send failed

  ghost predicate TxnFree(y: Proxy, txn: Txn) {
    forall p :: p in y.probes ==> y.probes[p].txn != txn
  }

  /** Transaction IDs of probes in flight are assumed distinct; channels are new. */
  ghost function Step(y: Proxy, e: Event): Proxy {
    match e
    case Register(p, txn, chan) =>
      if p in y.probes || chan in y.buffers || !TxnFree(y, txn) then y
      else Enrolled(y, p, txn, chan)
    case Receive(packet) => if y.reader.Some? then y else Received(y, packet)
    case Deliver => Delivered(y)
    case Finish(p) =>
      if p in y.probes then y.(pending := y.pending - {y.probes[p].txn}, probes := y.probes - {p}) else y
  }

  function Enrolled(y: Proxy, p: ProbeId, txn: Txn, chan: Chan): Proxy {
    y.(pending := y.pending[txn := chan], buffers := y.buffers[chan := None],
       probes := y.probes[p := Probe(txn, chan, |y.received|)])
  }

  function Received(y: Proxy, packet: Packet): Proxy {
    match Parse(packet)
    case None => y.(received := y.received + [packet], forwarded := y.forwarded + [packet])
    case Some(r) =>
      y.(received := y.received + [packet],
         reader := if r.transaction in y.pending then Some(Held(y.pending[r.transaction], r.endpoint)) else None)
  }

  /** A full channel drops the response. */
  function Delivered(y: Proxy): Proxy {
    if y.reader.None? then y
    else
      var h := y.reader.value;
      var empty := h.chan in y.buffers && y.buffers[h.chan].None?;
      y.(reader := None, buffers := if empty then y.buffers[h.chan := Some(h.endpoint)] else y.buffers)
  }

  ghost function Run(y: Proxy, events: seq<Event>): Proxy {
    if events == [] then y else Step(Run(y, events[..|events| - 1]), events[|events| - 1])
  }

  // ------------------------------------------------------------ what should happen

  function AnswerIn(packet: Packet, txn: Txn): Option<Endpoint> {
    match Parse(packet)
    case None => None
    case Some(r) => if r.transaction == txn then Some(r.endpoint) else None
  }

  /** The endpoint in the first response to txn among the packets from since on. */
  function FirstAnswer(received: seq<Packet>, since: nat, txn: Txn): Option<Endpoint> {
    if |received| <= since then None
    else
      var earlier := FirstAnswer(received[..|received| - 1], since, txn);
      if earlier.Some? then earlier else AnswerIn(received[|received| - 1], txn)
  }

  /** The packets that are not responses, in order. */
  function Others(received: seq<Packet>): seq<Packet> {
    if received == [] then []
    else
      var last := received[|received| - 1];
      var earlier := Others(received[..|received| - 1]);
      if Parse(last).None? then earlier + [last] else earlier
  }

  /** What a probe has waiting, counting the response now being delivered. */
  function Waiting(y: Proxy, chan: Chan): Option<Endpoint> {
    if chan in y.buffers && y.buffers[chan].Some? then y.buffers[chan]
    else if y.reader.Some? && y.reader.value.chan == chan then Some(y.reader.value.endpoint)
    else None
  }

  ghost predicate Registered(y: Proxy) {
    && (forall p :: p in y.probes ==> y.probes[p].txn in y.pending && y.pending[y.probes[p].txn] == y.probes[p].chan)
    && (forall t :: t in y.pending ==> exists p :: p in y.probes && y.probes[p].txn == t)
    && (forall p :: p in y.probes ==> y.probes[p].chan in y.buffers && y.probes[p].since <= |y.received|)
    && (y.reader.Some? ==> y.reader.value.chan in y.buffers)
  }

  ghost predicate Apart(y: Proxy) {
    forall p, q :: p in y.probes && q in y.probes && p != q ==>
      y.probes[p].txn != y.probes[q].txn && y.probes[p].chan != y.probes[q].chan
  }

  ghost predicate Answered(y: Proxy) {
    forall p :: p in y.probes ==>
      Waiting(y, y.probes[p].chan) == FirstAnswer(y.received, y.probes[p].since, y.probes[p].txn)
  }

  ghost predicate Sound(y: Proxy) {
    Registered(y) && Apart(y) && Answered(y) && y.forwarded == Others(y.received)
  }

  lemma NextPacket(received: seq<Packet>, packet: Packet, since: nat, txn: Txn)
    requires since <= |received|
    ensures FirstAnswer(received + [packet], since, txn) ==
            var earlier := FirstAnswer(received, since, txn);
            if earlier.Some? then earlier else AnswerIn(packet, txn)
    ensures Others(received + [packet]) ==
            if Parse(packet).None? then Others(received) + [packet] else Others(received)
  {
    assert (received + [packet])[..|received|] == received;
  }

  /** The packet reaches the probe's channel exactly if it answers that probe. */
  lemma ReceiveWaiting(y: Proxy, packet: Packet, p: ProbeId)
    requires Registered(y) && Apart(y) && y.reader.None? && p in y.probes
    ensures var me := y.probes[p];
            Waiting(Received(y, packet), me.chan) ==
            if Waiting(y, me.chan).Some? then Waiting(y, me.chan) else AnswerIn(packet, me.txn)
  {
    match Parse(packet)
    case None =>
    case Some(r) =>
      if r.transaction in y.pending {
        var q :| q in y.probes && y.probes[q].txn == r.transaction;
      }
  }

  lemma ReceiveAnswered(y: Proxy, packet: Packet)
    requires Sound(y) && y.reader.None?
    ensures Answered(Received(y, packet))
  {
    var y' := Received(y, packet);
    assert y'.probes == y.probes && y'.received == y.received + [packet];
    forall p | p in y.probes
      ensures Waiting(y', y.probes[p].chan) == FirstAnswer(y'.received, y.probes[p].since, y.probes[p].txn)
    {
      ReceiveWaiting(y, packet, p);
      NextPacket(y.received, packet, y.probes[p].since, y.probes[p].txn);
    }
  }

  lemma ReceiveRegistered(y: Proxy, packet: Packet)
    requires Registered(y)
    ensures Registered(Received(y, packet))
  {
    match Parse(packet)
    case None =>
    case Some(r) =>
      if r.transaction in y.pending {
        var q :| q in y.probes && y.probes[q].txn == r.transaction;
      }
  }

  lemma ReceiveSound(y: Proxy, packet: Packet)
    requires Sound(y) && y.reader.None?
    ensures Sound(Received(y, packet))
  {
    ReceiveAnswered(y, packet);
    ReceiveRegistered(y, packet);
    NextPacket(y.received, packet, 0, []);
  }

  lemma EnrolRegistered(y: Proxy, p: ProbeId, txn: Txn, chan: Chan)
    requires Registered(y) && p !in y.probes && chan !in y.buffers && TxnFree(y, txn)
    ensures Registered(Enrolled(y, p, txn, chan))
  {
    var y' := Enrolled(y, p, txn, chan);
    forall t | t in y'.pending
      ensures exists q :: q in y'.probes && y'.probes[q].txn == t
    {
      if t == txn {
        assert y'.probes[p].txn == t;
      } else {
        var q :| q in y.probes && y.probes[q].txn == t;
        assert y'.probes[q].txn == t;
      }
    }
  }

  lemma EnrolAnswered(y: Proxy, p: ProbeId, txn: Txn, chan: Chan)
    requires Sound(y) && p !in y.probes && chan !in y.buffers && TxnFree(y, txn)
    ensures Answered(Enrolled(y, p, txn, chan)) && Apart(Enrolled(y, p, txn, chan))
  {
    var y' := Enrolled(y, p, txn, chan);
    forall q | q in y'.probes
      ensures Waiting(y', y'.probes[q].chan) == FirstAnswer(y'.received, y'.probes[q].since, y'.probes[q].txn)
    {
      if q != p {
        assert y'.probes[q] == y.probes[q];
      }
    }
  }

  lemma StepSound(y: Proxy, e: Event)
    requires Sound(y)
    ensures Sound(Step(y, e))
  {
    match e
    case Receive(packet) =>
      if y.reader.None? {
        ReceiveSound(y, packet);
      }
    case Register(p, txn, chan) =>
      if p !in y.probes && chan !in y.buffers && TxnFree(y, txn) {
        EnrolRegistered(y, p, txn, chan);
        EnrolAnswered(y, p, txn, chan);
      }
    case Deliver => DeliverSound(y);
    case Finish(p) => FinishSound(y, p);
  }

  lemma DeliverSound(y: Proxy)
    requires Sound(y)
    ensures Sound(Delivered(y))
  {
    var y' := Delivered(y);
    assert forall c :: c in y.buffers ==> Waiting(y', c) == Waiting(y, c);
  }

  lemma FinishSound(y: Proxy, p: ProbeId)
    requires Sound(y)
    ensures Sound(Step(y, Finish(p)))
  {
    var y' := Step(y, Finish(p));
    forall t | t in y'.pending
      ensures exists q :: q in y'.probes && y'.probes[q].txn == t
    {
      var q :| q in y.probes && y.probes[q].txn == t;
      assert q in y'.probes;
    }
    forall q | q in y'.probes
      ensures Waiting(y', y'.probes[q].chan) == FirstAnswer(y'.received, y'.probes[q].since, y'.probes[q].txn)
    {
      assert q in y.probes;
    }
  }

  lemma {:induction false} RunSound(events: seq<Event>)
    ensures Sound(Run(INITIAL_PROXY, events))
  {
    if events != [] {
      RunSound(events[..|events| - 1]);
      StepSound(Run(INITIAL_PROXY, events[..|events| - 1]), events[|events| - 1]);
    }
  }

  /** In every interleaving a probe can only read, and once the read loop is between
      packets does read, the first response to its own transaction received since it
      registered; nothing stays registered without a probe; and WireGuard gets exactly the
      packets that are not binding responses, in order. */
  lemma FirstResponseWins(events: seq<Event>)
    ensures var y := Run(INITIAL_PROXY, events);
            && (forall p :: p in y.probes ==>
                  var me := y.probes[p];
                  && me.chan in y.buffers
                  && (y.buffers[me.chan].Some? || y.reader.None? ==>
                        y.buffers[me.chan] == FirstAnswer(y.received, me.since, me.txn)))
            && (y.probes == map[] ==> y.pending == map[])
            && y.forwarded == Others(y.received)
  {
    RunSound(events);
  }

  // ------------------------------------------------------------------- the code

  /** Pending probes and their channels. Each method but HandleStun is one step of the
      proxy `y` it runs in, under the mutex or on a channel. */
  class Service {
    var pending: map<Txn, Chan>
    var buffers: map<Chan, Option<Endpoint>>

    ghost predicate Shows(y: Proxy)
      reads this
    {
      pending == y.pending && buffers == y.buffers
    }

    /** The start of probeOne. */
    method RegisterProbe(p: ProbeId, txn: Txn, chan: Chan, ghost y: Proxy)
      requires Shows(y) && p !in y.probes && chan !in buffers && TxnFree(y, txn)
      modifies this
      ensures Shows(Step(y, Register(p, txn, chan)))
    {
      pending := pending[txn := chan];
      buffers := buffers[chan := None];
    }

    /** The deferred end of probeOne. */
    method Unregister(p: ProbeId, txn: Txn, ghost y: Proxy)
      requires Shows(y) && p in y.probes && y.probes[p].txn == txn
      modifies this
      ensures Shows(Step(y, Finish(p)))
    {
      pending := pending - {txn};
    }

    /** The locked half of handleSTUN: what to deliver, and whether the packet was one for
        the proxy itself. */
    method LookupResponse(packet: Packet, ghost y: Proxy) returns (consumed: bool, held: Option<Held>)
      requires Shows(y) && y.reader.None?
      ensures held == Step(y, Receive(packet)).reader
      ensures consumed <==> Parse(packet).Some?
      ensures consumed <==> Step(y, Receive(packet)).forwarded == y.forwarded
    {
      var parsed := ParseBindingResponse(packet);
      if parsed.None? {
        return false, None;
      }
      var txn := parsed.value.transaction;
      return true, if txn in pending then Some(Held(pending[txn], parsed.value.endpoint)) else None;
    }

    /** The other half: a send that does not wait. Pending may have changed since. */
    method Send(held: Option<Held>, ghost y: Proxy)
      requires Shows(y) && y.reader == held
      modifies this`buffers
      ensures Shows(Step(y, Deliver))
    {
      if held.Some? && held.value.chan in buffers && buffers[held.value.chan].None? {
        buffers := buffers[held.value.chan := Some(held.value.endpoint)];
      }
    }

    /** Both halves with nothing in between. */
    method HandleStun(packet: Packet, ghost y: Proxy) returns (consumed: bool)
      requires Shows(y) && y.reader.None?
      modifies this`buffers
      ensures consumed <==> Parse(packet).Some?
      ensures Shows(Step(Step(y, Receive(packet)), Deliver))
    {
      var held;
      consumed, held := LookupResponse(packet, y);
      Send(held, Step(y, Receive(packet)));
    }

    /** Probe: the configured servers in order until one answers. */
    method ProbeServers(outcomes: seq<Option<Endpoint>>) returns (endpoint: Option<Endpoint>)
      ensures endpoint.None? <==> forall i :: 0 <= i < |outcomes| ==> outcomes[i].None?
      ensures endpoint.Some? ==> exists k :: 0 <= k < |outcomes| && outcomes[k] == endpoint &&
                                             forall i :: 0 <= i < k ==> outcomes[i].None?
    {
      for i := 0 to |outcomes|
        invariant forall j :: 0 <= j < i ==> outcomes[j].None?
      {
        if outcomes[i].Some? {
          return outcomes[i];
        }
      }
      return None;
    }
  }
}
