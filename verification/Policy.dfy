/** The access rules of a node: who may relay, who may exit, who may use a service. */
module Policy {
  import opened Bytes

  datatype ServiceConfig = ServiceConfig(name: Text, protocol: Text, peers: seq<Text>, e2eCert: Text, e2eKey: Text)

  datatype NodeConfig = NodeConfig(
    nodeId: Text,
    peers: seq<Text>,
    services: seq<ServiceConfig>,
    allowedRelayClients: seq<Text>)

  const TCP := Ascii("tcp")

  /** The scan of a list of node IDs. */
  predicate Lists(ids: seq<Text>, id: Text) {
    ids != [] && (ids[0] == id || Lists(ids[1..], id))
  }

  /** An empty list admits everybody. */
  predicate AllowsRelay(cfg: NodeConfig, peer: Text) {
    cfg.allowedRelayClients == [] || Lists(cfg.allowedRelayClients, peer)
  }

  /** A routed request may exit only when it came from a configured peer. */
  predicate IsPeer(cfg: NodeConfig, peer: Text) {
    Lists(cfg.peers, peer)
  }

  predicate AllowsPeer(svc: ServiceConfig, peer: Text) {
    svc.peers == [] || Lists(svc.peers, peer)
  }

  predicate HasE2E(svc: ServiceConfig) {
    svc.e2eCert != [] || svc.e2eKey != []
  }

  lemma {:induction false} ListsExactly(ids: seq<Text>, id: Text)
    ensures Lists(ids, id) <==> exists i :: 0 <= i < |ids| && ids[i] == id
  {
    if ids != [] {
      ListsExactly(ids[1..], id);
      if i :| 0 <= i < |ids[1..]| && ids[1..][i] == id {
        assert ids[i + 1] == id;
      }
      if i :| 0 < i < |ids| && ids[i] == id {
        assert ids[1..][i - 1] == id;
      }
    }
  }

  /** Relay clients and service users are denied if and only if there is a list and they are
      not on it; a routed exit needs to be on the list of peers, even an empty one; a service
      has an E2E identity as soon as a certificate or a key is named. */
  lemma AccessRulesExactly(cfg: NodeConfig, svc: ServiceConfig, peer: Text)
    ensures !AllowsRelay(cfg, peer) <==>
      |cfg.allowedRelayClients| > 0 && forall i | 0 <= i < |cfg.allowedRelayClients| :: cfg.allowedRelayClients[i] != peer
    ensures !AllowsPeer(svc, peer) <==> |svc.peers| > 0 && forall i | 0 <= i < |svc.peers| :: svc.peers[i] != peer
    ensures !IsPeer(cfg, peer) <==> forall i | 0 <= i < |cfg.peers| :: cfg.peers[i] != peer
    ensures !HasE2E(svc) <==> |svc.e2eCert| == 0 && |svc.e2eKey| == 0
  {
    ListsExactly(cfg.allowedRelayClients, peer);
    ListsExactly(svc.peers, peer);
    ListsExactly(cfg.peers, peer);
    hide Lists;
  }

  predicate Named(svc: ServiceConfig, protocol: Text, name: Text) {
    svc.protocol == protocol && svc.name == name
  }

  function FindService(services: seq<ServiceConfig>, protocol: Text, name: Text): Option<ServiceConfig> {
    if services == [] then None
    else if Named(services[0], protocol, name) then Some(services[0])
    else FindService(services[1..], protocol, name)
  }

  /** The first entry of that protocol and name, or none if there is none. */
  lemma {:induction false} FindServiceFirst(services: seq<ServiceConfig>, protocol: Text, name: Text)
    ensures match FindService(services, protocol, name)
      case None => forall i | 0 <= i < |services| :: !Named(services[i], protocol, name)
      case Some(svc) => exists i :: 0 <= i < |services| && services[i] == svc && Named(svc, protocol, name)
                          && forall j | 0 <= j < i :: !Named(services[j], protocol, name)
  {
    if services != [] && !Named(services[0], protocol, name) {
      FindServiceFirst(services[1..], protocol, name);
      match FindService(services[1..], protocol, name)
      case None =>
        assert forall i | 0 < i < |services| :: services[i] == services[1..][i - 1];
      case Some(svc) =>
        var i :| 0 <= i < |services[1..]| && services[1..][i] == svc && forall j | 0 <= j < i :: !Named(services[1..][j], protocol, name);
        assert services[i + 1] == svc;
        assert forall j | 0 < j < i + 1 :: services[j] == services[1..][j - 1];
    }
  }
}
