/** What a node does with a connect request, and what happens to a request in any
    network of nodes: where it goes, what each node sees, and who lets it through. */
module Relay {
  import opened Bytes
  import opened ConnectCodec
  import opened E2ECodec
  import opened Policy
  import opened Transcript
  import H = Handshake

  datatype Decision =
    | Reject(code: Byte)
    | Forward(next: Text, req: ConnectRequest)
    | ServePlain(svc: ServiceConfig)
    | ServeE2E(svc: ServiceConfig)

  /** The route begins with this node and ends with the egress, if either is given. */
  predicate RouteValid(nodeId: Text, route: seq<Text>, egress: Text) {
    route == [] || (route[0] == nodeId && (egress == [] || egress == route[|route| - 1]))
  }

  /** The decision for a request from an authenticated peer, check by check. */
  function Decide(cfg: NodeConfig, peer: Text, req: ConnectRequest): Decision {
    if req.protocol != TCP then Reject(CODE_UNSUPPORTED_PROTOCOL)
    else if !RouteValid(cfg.nodeId, req.route, req.egress) then Reject(CODE_ROUTE_INVALID)
    else if |req.route| > 1 then
      if !AllowsRelay(cfg, peer) then Reject(CODE_ACCESS_DENIED) else Forward(req.route[1], StripHop(req))
    else if |req.route| == 1 && !IsPeer(cfg, peer) then Reject(CODE_ACCESS_DENIED)
    else if req.egress != [] && req.egress != cfg.nodeId then Reject(CODE_UNREACHABLE_EGRESS)
    else match FindService(cfg.services, req.protocol, req.service)
      case None => Reject(CODE_SERVICE_NOT_FOUND)
      case Some(svc) =>
        if req.e2eRequired then
          if HasE2E(svc) then ServeE2E(svc) else Reject(CODE_ACCESS_DENIED)
        else if !AllowsPeer(svc, peer) then Reject(CODE_ACCESS_DENIED)
        else if HasE2E(svc) && |req.route| > 0 then Reject(CODE_ACCESS_DENIED)
        else ServePlain(svc)
  }

  /** The nodes by the identity their certificates prove, and the pairs between which
      a stream can be opened now. A node's configured ID may differ from its identity. */
  datatype Network = Network(nodes: map<Text, NodeConfig>, links: set<(Text, Text)>)

  /** A request as one node reads it: who sent it, who reads it, what it says. */
  datatype Hop = Hop(from: Text, node: Text, req: ConnectRequest)

  datatype Outcome = Dropped | Rejected(code: Byte) | Served(svc: ServiceConfig)

  /** The whole way of a request payload from its first node on. Each forwarded request
      is encoded and decoded again; the bytes get fewer, so every way ends. */
  function Travel(net: Network, from: Text, at: Text, p: Text): (r: (seq<Hop>, Outcome))
    requires at in net.nodes
    decreases |p|
  {
    match ParseRequest(p)
    case None => ([], Dropped)
    case Some(req) =>
      var here := Hop(from, at, req);
      match Decide(net.nodes[at], from, req)
      case Reject(code) => ([here], Rejected(code))
      case ServePlain(svc) => ([here], Served(svc))
      case ServeE2E(svc) => ([here], Served(svc))
      case Forward(next, out) =>
        if next !in net.nodes || (at, next) !in net.links then ([here], Rejected(CODE_NEXT_HOP_UNREACHABLE))
        else
          ForwardedFits(p, req);
          var (hops, outcome) := Travel(net, at, next, RequestBytes(out));
          ([here] + hops, outcome)
  }

  // ---------- the request on its way ----------

  /** The node reading at step i, and the one it got the request from. */
  function NodeAt(at: Text, route: seq<Text>, i: nat): Text
    requires i == 0 || i < |route|
  {
    if i == 0 then at else route[i]
  }

  function FromAt(from: Text, at: Text, route: seq<Text>, i: nat): Text
    requires i == 0 || i < |route|
  {
    if i == 0 then from else NodeAt(at, route, i - 1)
  }

  /** The i-th hop of a request: at the i-th node of the route, from the one before, and
      with exactly the first i hops removed. */
  function HopAt(from: Text, at: Text, req: ConnectRequest, i: nat): Hop
    requires i == 0 || i < |req.route|
  {
    Hop(FromAt(from, at, req.route, i), NodeAt(at, req.route, i), if i == 0 then req else req.(route := req.route[i..]))
  }

  predicate FollowsRoute(hops: seq<Hop>, from: Text, at: Text, req: ConnectRequest) {
    && 1 <= |hops| && (|hops| == 1 || |hops| <= |req.route|)
    && forall i | 0 <= i < |hops| :: hops[i] == HopAt(from, at, req, i)
  }

  lemma HopAtShift(from: Text, at: Text, req: ConnectRequest, i: nat)
    requires i + 1 < |req.route|
    ensures HopAt(from, at, req, i + 1) == HopAt(at, req.route[1], StripHop(req), i)
  {
    assert StripHop(req).route[i..] == req.route[i + 1..];
  }

  lemma FollowsRouteCons(hops: seq<Hop>, from: Text, at: Text, req: ConnectRequest)
    requires |req.route| > 1 && FollowsRoute(hops, at, req.route[1], StripHop(req))
    ensures FollowsRoute([Hop(from, at, req)] + hops, from, at, req)
  {
    var all := [Hop(from, at, req)] + hops;
    forall i | 0 <= i < |all| ensures all[i] == HopAt(from, at, req, i) {
      if i > 0 {
        HopAtShift(from, at, req, i - 1);
      }
    }
  }

  /** In any network and for any route, cycles included, a request is read by at most as
      many nodes as its route names, each sees the right suffix and nothing else changed,
      and a service is reached only at the last one. */
  lemma {:induction false} RequestsFollowRoutes(net: Network, from: Text, at: Text, p: Text, req: ConnectRequest)
    requires at in net.nodes && ParseRequest(p) == Some(req)
    ensures var (hops, outcome) := Travel(net, from, at, p);
      && FollowsRoute(hops, from, at, req)
      && (outcome.Served? ==> |hops| == if req.route == [] then 1 else |req.route|)
    decreases |p|
  {
    hide AcceptedForm, ParseRequest, FindService, RequestBytes;
    match Decide(net.nodes[at], from, req)
    case Forward(next, out) =>
      if next in net.nodes && (at, next) in net.links {
        ForwardedFits(p, req);
        RequestRoundTrip(out);
        RequestsFollowRoutes(net, at, next, RequestBytes(out), out);
        FollowsRouteCons(Travel(net, at, next, RequestBytes(out)).0, from, at, req);
      }
    case _ =>
  }

  // ---------- who lets it through ----------

  /** The service of a request, if this node may hand it over: by the client's own proof
      later on for E2E, by the peer for plaintext, and never a routed plaintext request
      to a service with an E2E identity. */
  predicate Admits(cfg: NodeConfig, peer: Text, req: ConnectRequest, svc: ServiceConfig) {
    && FindService(cfg.services, req.protocol, req.service) == Some(svc)
    && (if req.e2eRequired then HasE2E(svc) else AllowsPeer(svc, peer) && (HasE2E(svc) ==> req.route == []))
  }

  /** The i-th node is the one the route names; unless it is the last, it admits the node
      before it as a relay client and reaches the next one; the last one lists the node
      before it as a peer. */
  predicate HopOpen(net: Network, from: Text, at: Text, r: seq<Text>, i: nat)
    requires i < |r|
  {
    var node, previous := NodeAt(at, r, i), FromAt(from, at, r, i);
    && node in net.nodes && net.nodes[node].nodeId == r[i]
    && if i + 1 < |r| then AllowsRelay(net.nodes[node], previous) && (node, r[i + 1]) in net.links
       else IsPeer(net.nodes[node], previous)
  }

  predicate WayOpen(net: Network, from: Text, at: Text, req: ConnectRequest): (open: bool)
    requires req.route != []
    ensures open ==> NodeAt(at, req.route, |req.route| - 1) in net.nodes
  {
    assert HopOpen(net, from, at, req.route, |req.route| - 1) ==> NodeAt(at, req.route, |req.route| - 1) in net.nodes;
    && (req.egress == [] || req.egress == req.route[|req.route| - 1])
    && forall i | 0 <= i < |req.route| :: HopOpen(net, from, at, req.route, i)
  }

  /** All that stands between a request and a service. */
  predicate Reaches(net: Network, from: Text, at: Text, req: ConnectRequest, svc: ServiceConfig)
    requires at in net.nodes
  {
    && req.protocol == TCP
    && if req.route == [] then
         (req.egress == [] || req.egress == net.nodes[at].nodeId) && Admits(net.nodes[at], from, req, svc)
       else
         WayOpen(net, from, at, req)
         && var last := |req.route| - 1;
            Admits(net.nodes[NodeAt(at, req.route, last)], FromAt(from, at, req.route, last), req, svc)
  }

  lemma HopOpenShift(net: Network, from: Text, at: Text, r: seq<Text>, i: nat)
    requires i + 1 < |r|
    ensures HopOpen(net, from, at, r, i + 1) <==> HopOpen(net, at, r[1], r[1..], i)
  {
  }

  lemma WayOpenStep(net: Network, from: Text, at: Text, req: ConnectRequest)
    requires at in net.nodes && |req.route| > 1
    ensures WayOpen(net, from, at, req) <==>
      && RouteValid(net.nodes[at].nodeId, req.route, req.egress) && AllowsRelay(net.nodes[at], from)
      && (at, req.route[1]) in net.links && WayOpen(net, at, req.route[1], StripHop(req))
  {
    var r, out := req.route, StripHop(req);
    assert HopOpen(net, from, at, r, 0) <==>
      r[0] == net.nodes[at].nodeId && AllowsRelay(net.nodes[at], from) && (at, r[1]) in net.links;
    hide HopOpen;
    if WayOpen(net, from, at, req) {
      assert HopOpen(net, from, at, r, 0);
      forall i | 0 <= i < |r| - 1 ensures HopOpen(net, at, r[1], out.route, i) {
        HopOpenShift(net, from, at, r, i);
        assert HopOpen(net, from, at, r, i + 1);
      }
    }
    if r[0] == net.nodes[at].nodeId && AllowsRelay(net.nodes[at], from) && (at, r[1]) in net.links && WayOpen(net, at, r[1], out) {
      forall i | 0 <= i < |r| ensures HopOpen(net, from, at, r, i) {
        if i > 0 {
          HopOpenShift(net, from, at, r, i - 1);
          assert HopOpen(net, at, r[1], out.route, i - 1);
        }
      }
    }
    assert out.route[|out.route| - 1] == r[|r| - 1];
  }

  /** A request reaches a service if and only if every node on its way lets it through. */
  lemma {:induction false} ServedExactlyWhen(net: Network, from: Text, at: Text, p: Text, req: ConnectRequest, svc: ServiceConfig)
    requires at in net.nodes && ParseRequest(p) == Some(req)
    ensures Travel(net, from, at, p).1 == Served(svc) <==> Reaches(net, from, at, req, svc)
    decreases |p|
  {
    hide AcceptedForm, ParseRequest, RequestBytes, FindService;
    if |req.route| == 1 {
      assert WayOpen(net, from, at, req) <==>
        (req.egress == [] || req.egress == req.route[0]) && HopOpen(net, from, at, req.route, 0);
    }
    if |req.route| > 1 {
      ForwardedFits(p, req);
      var next, out := req.route[1], StripHop(req);
      WayOpenStep(net, from, at, req);
      LastHopSame(net, from, at, req);
      hide WayOpen, Admits;
      if next in net.nodes {
        RequestRoundTrip(out);
        ServedExactlyWhen(net, at, next, RequestBytes(out), out, svc);
      } else {
        NotOpenWithoutNext(net, from, at, req);
      }
    }
  }

  lemma LastHopSame(net: Network, from: Text, at: Text, req: ConnectRequest)
    requires |req.route| > 1
    ensures var r, out, last := req.route, StripHop(req), |req.route| - 1;
      && NodeAt(at, r, last) == NodeAt(r[1], out.route, last - 1)
      && FromAt(from, at, r, last) == FromAt(at, r[1], out.route, last - 1)
      && forall cfg: NodeConfig, peer: Text, svc: ServiceConfig :: Admits(cfg, peer, req, svc) <==> Admits(cfg, peer, out, svc)
  {
  }

  lemma NotOpenWithoutNext(net: Network, from: Text, at: Text, req: ConnectRequest)
    requires |req.route| > 1 && req.route[1] !in net.nodes
    ensures !WayOpen(net, from, at, req)
  {
    assert NodeAt(at, req.route, 1) == req.route[1];
    assert !HopOpen(net, from, at, req.route, 1);
  }

  // ---------- what the egress binds the handshake to ----------

  /** The request a client sends for a candidate; with E2E it carries the route twice. */
  function ClientRequest(id: Text, service: Text, egress: Text, route: seq<Text>, e2e: bool): ConnectRequest {
    ConnectRequest(id, TCP, service, egress, route, e2e, if e2e then route else [])
  }

  /** At every node on the way, and so at the egress, the handshake context rebuilt from
      an E2E request is the client's own, with or without a route. */
  lemma ContextSurvivesRelays(net: Network, from: Text, at: Text, id: Text, service: Text, egress: Text, route: seq<Text>)
    requires at in net.nodes && ValidRequest(ClientRequest(id, service, egress, route, true))
    ensures var (hops, _) := Travel(net, from, at, RequestBytes(ClientRequest(id, service, egress, route, true)));
      forall i | 0 <= i < |hops| :: H.EgressContext(hops[i].req) == Context(id, service, egress, route)
  {
    var req := ClientRequest(id, service, egress, route, true);
    RequestRoundTrip(req);
    RequestsFollowRoutes(net, from, at, RequestBytes(req), req);
  }

  // ---------- codes a sound client never sees ----------

  /** Every node's configured ID is the identity its certificate proves. */
  predicate Consistent(net: Network) {
    forall id | id in net.nodes :: net.nodes[id].nodeId == id
  }

  /** A TCP request whose route starts at the node it is sent to and ends at its egress,
      or that has no route and asks for no other egress. */
  predicate WellRouted(at: Text, req: ConnectRequest) {
    && req.protocol == TCP
    && if req.route == [] then req.egress == [] || req.egress == at
       else req.route[0] == at && (req.egress == [] || req.egress == req.route[|req.route| - 1])
  }

  predicate RoutingCode(code: Byte) {
    code == CODE_ROUTE_INVALID || code == CODE_UNREACHABLE_EGRESS || code == CODE_UNSUPPORTED_PROTOCOL
  }

  /** In a consistent network a routing code is answered exactly when the request was
      not well routed from the start, wherever it is answered. */
  lemma {:induction false} RoutingCodesExactlyWhen(net: Network, from: Text, at: Text, p: Text, req: ConnectRequest)
    requires at in net.nodes && Consistent(net) && ParseRequest(p) == Some(req)
    ensures var outcome := Travel(net, from, at, p).1;
      && (WellRouted(at, req) ==> !(outcome.Rejected? && RoutingCode(outcome.code)))
      && (!WellRouted(at, req) ==> outcome.Rejected? && RoutingCode(outcome.code))
    decreases |p|
  {
    hide AcceptedForm, ParseRequest, RequestBytes, FindService;
    if |req.route| > 1 {
      ForwardedFits(p, req);
      var next, out := req.route[1], StripHop(req);
      assert out.route[|out.route| - 1] == req.route[|req.route| - 1];
      if next in net.nodes {
        RequestRoundTrip(out);
        RoutingCodesExactlyWhen(net, at, next, RequestBytes(out), out);
      }
    }
  }

  // ---------- what a rejection says ----------

  /** No service of that name and protocol is configured. */
  predicate NoService(cfg: NodeConfig, req: ConnectRequest) {
    forall i | 0 <= i < |cfg.services| :: !Named(cfg.services[i], req.protocol, req.service)
  }

  /** The service a request names is the first of that name and protocol. */
  predicate IsFirst(cfg: NodeConfig, req: ConnectRequest, i: nat) {
    && i < |cfg.services| && Named(cfg.services[i], req.protocol, req.service)
    && forall j | 0 <= j < i :: !Named(cfg.services[j], req.protocol, req.service)
  }

  /** Without E2E it must admit the peer and, on a route, not be an E2E service; with E2E it
      must be one. */
  predicate Refuses(svc: ServiceConfig, peer: Text, req: ConnectRequest) {
    if req.e2eRequired then !HasE2E(svc) else !AllowsPeer(svc, peer) || (HasE2E(svc) && req.route != [])
  }

  ghost predicate ServiceRefuses(cfg: NodeConfig, peer: Text, req: ConnectRequest) {
    exists i: nat :: IsFirst(cfg, req, i) && Refuses(cfg.services[i], peer, req)
  }

  predicate Linked(net: Network, hop: Hop)
    requires |hop.req.route| > 1
  {
    hop.req.route[1] in net.nodes && (hop.node, hop.req.route[1]) in net.links
  }

  predicate RoutedRight(net: Network, hop: Hop)
    requires hop.node in net.nodes
  {
    hop.req.protocol == TCP && RouteValid(net.nodes[hop.node].nodeId, hop.req.route, hop.req.egress)
  }

  /** The node sends the request on. */
  predicate PassesOn(net: Network, hop: Hop) {
    && hop.node in net.nodes && RoutedRight(net, hop)
    && |hop.req.route| > 1 && AllowsRelay(net.nodes[hop.node], hop.from) && Linked(net, hop)
  }

  /** The node takes the request as its egress. */
  predicate ArrivesAt(net: Network, hop: Hop)
    requires hop.node in net.nodes
  {
    var cfg, req := net.nodes[hop.node], hop.req;
    && RoutedRight(net, hop) && |req.route| <= 1 && (|req.route| == 1 ==> IsPeer(cfg, hop.from))
    && (req.egress == [] || req.egress == cfg.nodeId)
  }

  /** The node ends the request with this code. */
  ghost predicate Stops(net: Network, hop: Hop, code: Byte)
    requires hop.node in net.nodes
  {
    var cfg, req := net.nodes[hop.node], hop.req;
    || (code == CODE_UNSUPPORTED_PROTOCOL && req.protocol != TCP)
    || (code == CODE_ROUTE_INVALID && req.protocol == TCP && !RoutedRight(net, hop))
    || (code == CODE_NEXT_HOP_UNREACHABLE && RoutedRight(net, hop) && |req.route| > 1 && AllowsRelay(cfg, hop.from) && !Linked(net, hop))
    || (code == CODE_UNREACHABLE_EGRESS && RoutedRight(net, hop) && req.route == [] && req.egress != [] && req.egress != cfg.nodeId)
    || (code == CODE_SERVICE_NOT_FOUND && ArrivesAt(net, hop) && NoService(cfg, req))
    || (code == CODE_ACCESS_DENIED
        && (|| (RoutedRight(net, hop) && |req.route| > 1 && !AllowsRelay(cfg, hop.from))
            || (RoutedRight(net, hop) && |req.route| == 1 && !IsPeer(cfg, hop.from))
            || (ArrivesAt(net, hop) && ServiceRefuses(cfg, hop.from, req))))
  }

  lemma ServiceFound(cfg: NodeConfig, peer: Text, req: ConnectRequest)
    ensures var found := FindService(cfg.services, req.protocol, req.service);
      && (found.None? <==> NoService(cfg, req))
      && (found.Some? ==> (Refuses(found.value, peer, req) <==> ServiceRefuses(cfg, peer, req)))
  {
    FindServiceFirst(cfg.services, req.protocol, req.service);
    hide FindService, Refuses;
    var found := FindService(cfg.services, req.protocol, req.service);
    if found.Some? {
      var i :| 0 <= i < |cfg.services| && cfg.services[i] == found.value && Named(found.value, req.protocol, req.service)
        && forall j | 0 <= j < i :: !Named(cfg.services[j], req.protocol, req.service);
      assert IsFirst(cfg, req, i);
    }
  }

  lemma DecisionExact(net: Network, from: Text, at: Text, req: ConnectRequest, code: Byte)
    requires at in net.nodes
    ensures var d, hop := Decide(net.nodes[at], from, req), Hop(from, at, req);
      && (d.Forward? ==> |req.route| > 1 && d == Forward(req.route[1], StripHop(req)))
      && (d.Forward? && Linked(net, hop) <==> PassesOn(net, hop))
      && (d == Reject(code) || (d.Forward? && !Linked(net, hop) && code == CODE_NEXT_HOP_UNREACHABLE) <==> Stops(net, hop, code))
  {
    ServiceFound(net.nodes[at], from, req);
    hide FindService, NoService, ServiceRefuses;
  }

  /** The request gets to its i-th node and no further, and that node answers the code. */
  ghost predicate StopsAt(net: Network, from: Text, at: Text, req: ConnectRequest, code: Byte, i: nat) {
    && (i == 0 || i < |req.route|)
    && (forall j | 0 <= j < i :: PassesOn(net, HopAt(from, at, req, j)))
    && HopAt(from, at, req, i).node in net.nodes && Stops(net, HopAt(from, at, req, i), code)
  }

  ghost predicate Stopped(net: Network, from: Text, at: Text, req: ConnectRequest, code: Byte) {
    exists i: nat :: StopsAt(net, from, at, req, code, i)
  }

  /** A forwarded request goes on as its encoding, and the rest of its way follows. */
  lemma TravelOn(net: Network, from: Text, at: Text, p: Text, req: ConnectRequest)
    requires at in net.nodes && ParseRequest(p) == Some(req) && PassesOn(net, Hop(from, at, req))
    ensures var out := StripHop(req);
      && ValidRequest(out) && ParseRequest(RequestBytes(out)) == Some(out) && |RequestBytes(out)| < |p|
      && Travel(net, from, at, p).1 == Travel(net, at, req.route[1], RequestBytes(out)).1
  {
    DecisionExact(net, from, at, req, CODE_OK);
    hide Decide, ParseRequest, RequestBytes, ValidRequest, RoutedRight;
    ForwardedFits(p, req);
    RequestRoundTrip(StripHop(req));
  }

  /** A request that is not passed on ends where it is read. */
  lemma TravelEnds(net: Network, from: Text, at: Text, p: Text, req: ConnectRequest, code: Byte)
    requires at in net.nodes && ParseRequest(p) == Some(req) && !PassesOn(net, Hop(from, at, req))
    ensures Travel(net, from, at, p).1 == Rejected(code) <==> Stops(net, Hop(from, at, req), code)
  {
    DecisionExact(net, from, at, req, code);
    hide Decide, ParseRequest, RequestBytes, Stops, PassesOn;
  }

  lemma StopsAtShift(net: Network, from: Text, at: Text, req: ConnectRequest, code: Byte, i: nat)
    requires at in net.nodes && PassesOn(net, Hop(from, at, req)) && i + 1 < |req.route|
    ensures StopsAt(net, from, at, req, code, i + 1) <==> StopsAt(net, at, req.route[1], StripHop(req), code, i)
  {
    hide PassesOn, Stops, HopAt;
    var next, out := req.route[1], StripHop(req);
    FirstHop(from, at, req);
    forall j | 0 <= j <= i ensures HopAt(from, at, req, j + 1) == HopAt(at, next, out, j) {
      HopAtShift(from, at, req, j);
    }
    if StopsAt(net, from, at, req, code, i + 1) {
      forall j | 0 <= j < i ensures PassesOn(net, HopAt(at, next, out, j)) {
        assert PassesOn(net, HopAt(from, at, req, j + 1));
      }
    }
    if StopsAt(net, at, next, out, code, i) {
      forall j | 0 <= j < i + 1 ensures PassesOn(net, HopAt(from, at, req, j)) {
        if j > 0 {
          assert PassesOn(net, HopAt(at, next, out, j - 1));
        }
      }
    }
  }

  /** A node that passes a request on does not stop it, whatever the code. */
  lemma PassingIsNotStopping(net: Network, hop: Hop, code: Byte)
    requires PassesOn(net, hop)
    ensures !Stops(net, hop, code)
  {
  }

  /** For every code: a request is rejected with it if and only if some node on its route
      stops it for the reason that code stands for and every node before passes it on. */
  lemma {:induction false} RejectedExactlyWhen(net: Network, from: Text, at: Text, p: Text, req: ConnectRequest, code: Byte)
    requires at in net.nodes && ParseRequest(p) == Some(req)
    ensures Travel(net, from, at, p).1 == Rejected(code) <==> Stopped(net, from, at, req, code)
    decreases |p|
  {
    hide ParseRequest, RequestBytes, ValidRequest, Travel, PassesOn, Stops, HopAt;
    var hop := Hop(from, at, req);
    FirstHop(from, at, req);
    if PassesOn(net, hop) {
      PassesToNext(net, hop);
      TravelOn(net, from, at, p, req);
      var next, out := req.route[1], StripHop(req);
      RejectedExactlyWhen(net, at, next, RequestBytes(out), out, code);
      PassingIsNotStopping(net, hop, code);
      if i: nat :| StopsAt(net, from, at, req, code, i) {
        assert i > 0;
        StopsAtShift(net, from, at, req, code, i - 1);
      }
      if i: nat :| StopsAt(net, at, next, out, code, i) {
        assert i + 1 < |req.route|;
        StopsAtShift(net, from, at, req, code, i);
      }
    } else {
      TravelEnds(net, from, at, p, req, code);
      if Stops(net, hop, code) {
        assert StopsAt(net, from, at, req, code, 0);
      }
      if i: nat :| StopsAt(net, from, at, req, code, i) {
        assert i == 0;
      }
    }
  }

  lemma FirstHop(from: Text, at: Text, req: ConnectRequest)
    ensures HopAt(from, at, req, 0) == Hop(from, at, req)
  {
  }

  lemma PassesToNext(net: Network, hop: Hop)
    requires PassesOn(net, hop)
    ensures |hop.req.route| > 1 && hop.req.route[1] in net.nodes
  {
  }
}
