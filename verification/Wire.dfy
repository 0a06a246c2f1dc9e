/** The WireGuard device as far as the server drives it: a private key, the set of
    configured peers, and cryptokey routing, in which an address leads to at most
    one peer and giving it to one peer takes it from any other. */
module Wire {
  import opened Common

  const NO_KEY: Key := 0  // the zero private key: interface disabled

  datatype Device = Device(privateKey: Key, peers: set<Key>, route: map<Addr, Key>) {
    /** Every routed address leads to a configured peer. */
    ghost predicate Valid() {
      forall a :: a in route ==> route[a] in peers
    }
  }

  datatype PeerConfig = PeerConfig(key: Key, remove: bool, replaceAllowedIPs: bool, allowed: set<Addr>)

  datatype Config = Config(privateKey: Option<Key>, replacePeers: bool, peers: seq<PeerConfig>)

  function Add(key: Key, ip: Addr): PeerConfig {
    PeerConfig(key, false, false, {ip})
  }

  function Remove(key: Key): PeerConfig {
    PeerConfig(key, true, false, {})
  }

  function Unrouted(route: map<Addr, Key>, key: Key): map<Addr, Key> {
    map a | a in route && route[a] != key :: route[a]
  }

  function ApplyEntry(d: Device, e: PeerConfig): Device {
    if e.remove then
      d.(peers := d.peers - {e.key}, route := Unrouted(d.route, e.key))
    else
      var kept := if e.replaceAllowedIPs then Unrouted(d.route, e.key) else d.route;
      d.(peers := d.peers + {e.key}, route := kept + map a | a in e.allowed :: e.key)
  }

  /** Entries take effect in order. */
  function ApplyEntries(d: Device, es: seq<PeerConfig>): Device {
    if es == [] then d
    else ApplyEntry(ApplyEntries(d, es[..|es| - 1]), es[|es| - 1])
  }

  /** ConfigureDevice, when the call succeeds. */
  function Configure(d: Device, c: Config): Device {
    var keyed := if c.privateKey.Some? then d.(privateKey := c.privateKey.value) else d;
    var base := if c.replacePeers then keyed.(peers := {}, route := map[]) else keyed;
    ApplyEntries(base, c.peers)
  }

  function Peers(es: seq<PeerConfig>): Config {
    Config(None, false, es)
  }

  lemma ConfigureOne(d: Device, e: PeerConfig)
    ensures Configure(d, Peers([e])) == ApplyEntry(d, e)
  {
    assert [e][..0] == [];
    assert ApplyEntries(d, []) == d;
  }

  lemma ConfigureTwo(d: Device, e: PeerConfig, f: PeerConfig)
    ensures Configure(d, Peers([e, f])) == ApplyEntry(ApplyEntry(d, e), f)
  {
    assert [e, f][..1] == [e];
    ConfigureOne(d, e);
  }

  lemma {:induction false} ApplyEntriesValid(d: Device, es: seq<PeerConfig>)
    requires d.Valid()
    ensures ApplyEntries(d, es).Valid() && ApplyEntries(d, es).privateKey == d.privateKey
  {
    if es != [] {
      ApplyEntriesValid(d, es[..|es| - 1]);
    }
  }

  ghost predicate KeysDistinct(es: seq<PeerConfig>) {
    forall i, j :: 0 <= i < j < |es| ==> es[i].key != es[j].key
  }

  /** One entry changes the membership of at most one key, so no configuration that
      turns one peer set into another is shorter than their symmetric difference. */
  lemma {:induction false} EntriesBoundChange(d: Device, es: seq<PeerConfig>)
    ensures var r := ApplyEntries(d, es);
            |(r.peers - d.peers) + (d.peers - r.peers)| <= |es|
  {
    if es == [] {
      assert d.peers - d.peers == {};
    } else {
      var init, e := es[..|es| - 1], es[|es| - 1];
      EntriesBoundChange(d, init);
      var mid, r := ApplyEntries(d, init), ApplyEntries(d, es);
      var before := (mid.peers - d.peers) + (d.peers - mid.peers);
      var after := (r.peers - d.peers) + (d.peers - r.peers);
      assert after <= before + {e.key};
      SubsetSize(after, before + {e.key});
    }
  }

  lemma {:induction false} SubsetSize<T>(a: set<T>, b: set<T>)
    requires a <= b
    ensures |a| <= |b|
  {
    if a != {} {
      var x :| x in a;
      SubsetSize(a - {x}, b - {x});
    }
  }
}
