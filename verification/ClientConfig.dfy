/** The client's configuration: what validation accepts, how a forward becomes a list
    of candidate routes, which session each candidate uses, and why an accepted
    configuration never meets the error branches behind validation. */
module ClientConfig {
  import opened Bytes
  import opened FieldLists
  import opened Frames
  import opened ConnectCodec
  import opened Policy
  import opened Relay
  import opened Transcript
  import H = Handshake

  const MAX_FORWARD_ROUTE := 3
  const MODE_CLIENT := Ascii("client")
  const SELECTION_ORDERED := Ascii("ordered")
  const E2E_OFF := Ascii("off")
  const E2E_AUTO := Ascii("auto")
  const E2E_ALWAYS := Ascii("always")

  datatype Server = Server(id: Text, address: Text)
  datatype Candidate = Candidate(egress: Text, route: seq<Text>)
  datatype ServiceRoute = ServiceRoute(service: Text, protocol: Text, selection: Text, candidates: seq<Candidate>)
  datatype Forward = Forward(protocol: Text, listen: Text, service: Text, egress: Text, route: seq<Text>, e2e: Text)

  datatype ClientConfig = ClientConfig(
    nodeId: Text, mode: Text, cert: Text, key: Text, ca: Text, serviceCA: Text,
    servers: seq<Server>, forwards: seq<Forward>, routes: seq<ServiceRoute>)

  // ---------- what a valid configuration is ----------

  function IdsOf(servers: seq<Server>): set<Text> {
    set s | s in servers :: s.id
  }

  /** Every server has an ID and an address, and no two share an ID. */
  predicate ValidServers(servers: seq<Server>) {
    && (forall i | 0 <= i < |servers| :: servers[i].id != [] && servers[i].address != [])
    && (forall i, j | 0 <= i < j < |servers| :: servers[i].id != servers[j].id)
  }

  predicate HopsNamed(route: seq<Text>) {
    forall i | 0 <= i < |route| :: route[i] != []
  }

  /** One to three named hops from a configured server to the named egress. */
  predicate ValidCandidate(ids: set<Text>, c: Candidate) {
    && c.egress != [] && 1 <= |c.route| <= MAX_FORWARD_ROUTE && HopsNamed(c.route)
    && c.route[0] in ids && c.route[|c.route| - 1] == c.egress
  }

  predicate ValidServiceRoute(ids: set<Text>, r: ServiceRoute) {
    && r.service != [] && r.protocol == TCP && (r.selection == [] || r.selection == SELECTION_ORDERED)
    && r.candidates != [] && forall i | 0 <= i < |r.candidates| :: ValidCandidate(ids, r.candidates[i])
  }

  predicate SameService(a: ServiceRoute, b: ServiceRoute) {
    a.protocol == b.protocol && a.service == b.service
  }

  /** Every service route is valid and no service has two. */
  predicate ValidRoutes(ids: set<Text>, routes: seq<ServiceRoute>) {
    && (forall i | 0 <= i < |routes| :: ValidServiceRoute(ids, routes[i]))
    && (forall i, j | 0 <= i < j < |routes| :: !SameService(routes[i], routes[j]))
  }

  predicate HasServiceRoute(routes: seq<ServiceRoute>, protocol: Text, service: Text) {
    exists i :: 0 <= i < |routes| && routes[i].protocol == protocol && routes[i].service == service
  }

  predicate ValidE2E(serviceCA: Text, mode: Text) {
    mode == [] || mode == E2E_OFF || ((mode == E2E_AUTO || mode == E2E_ALWAYS) && serviceCA != [])
  }

  predicate ValidForwardRoute(ids: set<Text>, f: Forward) {
    f.route == [] ||
      (&& |f.route| <= MAX_FORWARD_ROUTE && HopsNamed(f.route) && f.route[0] in ids
       && (f.egress == [] || f.egress == f.route[|f.route| - 1]))
  }

  /** Where a forward without a route of its own goes. */
  predicate ValidEgress(ids: set<Text>, routes: seq<ServiceRoute>, f: Forward) {
    if f.egress != [] then f.egress in ids else |ids| <= 1 || HasServiceRoute(routes, f.protocol, f.service)
  }

  predicate ValidForward(cfg: ClientConfig, hostPort: Text -> bool, f: Forward) {
    var ids := IdsOf(cfg.servers);
    && f.protocol == TCP && f.listen != [] && hostPort(f.listen) && f.service != []
    && ValidE2E(cfg.serviceCA, f.e2e) && ValidForwardRoute(ids, f)
    && (f.route == [] ==> ValidEgress(ids, cfg.routes, f))
  }

  predicate ValidCommon(cfg: ClientConfig) {
    cfg.nodeId != [] && cfg.mode != [] && cfg.cert != [] && cfg.key != [] && cfg.ca != []
  }

  predicate ValidClient(cfg: ClientConfig, hostPort: Text -> bool) {
    && ValidCommon(cfg) && cfg.mode == MODE_CLIENT
    && cfg.servers != [] && ValidServers(cfg.servers) && ValidRoutes(IdsOf(cfg.servers), cfg.routes)
    && cfg.forwards != [] && forall i | 0 <= i < |cfg.forwards| :: ValidForward(cfg, hostPort, cfg.forwards[i])
  }

  // ---------- validation, as the program does it ----------

  /** The servers by ID, or nothing if an entry is incomplete or an ID repeated. */
  method ValidateServers(servers: seq<Server>) returns (r: Option<map<Text, Server>>)
    ensures r.Some? <==> ValidServers(servers)
    ensures r.Some? ==> r.value == ServerTable(servers) && r.value.Keys == IdsOf(servers)
  {
    hide ServerTable, ValidServers;
    var table: map<Text, Server> := map[];
    ServersStep(servers, 0);
    for i := 0 to |servers|
      invariant ValidServers(servers[..i])
      invariant table == ServerTable(servers[..i])
    {
      var s := servers[i];
      ServersStep(servers, i);
      if s.id == [] || s.address == [] || s.id in table {
        return None;
      }
      table := table[s.id := s];
    }
    assert servers[..|servers|] == servers;
    ServerTableKeys(servers);
    return Some(table);
  }

  /** One more server is fine exactly when it is complete and its ID is not taken. */
  lemma ServersStep(servers: seq<Server>, i: nat)
    requires i <= |servers|
    ensures ValidServers(servers[..0]) && ServerTable(servers[..0]) == map[]
    ensures ValidServers(servers) ==> ValidServers(servers[..i])
    ensures i < |servers| ==>
      var s, table := servers[i], ServerTable(servers[..i]);
      && ServerTable(servers[..i + 1]) == table[s.id := s]
      && (ValidServers(servers[..i + 1]) <==> ValidServers(servers[..i]) && s.id != [] && s.address != [] && s.id !in table)
      && (ValidServers(servers) ==> ValidServers(servers[..i + 1]))
  {
    if i < |servers| {
      assert servers[..i + 1][..i] == servers[..i];
      ServerTableKeys(servers[..i]);
      ValidServersStep(servers, i);
      hide ValidServers;
    }
  }

  lemma ValidServersStep(servers: seq<Server>, i: nat)
    requires i < |servers|
    ensures ValidServers(servers[..i + 1]) <==>
      ValidServers(servers[..i]) && servers[i].id != [] && servers[i].address != [] && servers[i].id !in IdsOf(servers[..i])
  {
    var all, init, s := servers[..i + 1], servers[..i], servers[i];
    assert all[i] == s && forall j | 0 <= j < i :: all[j] == init[j];
    if s.id in IdsOf(init) {
      var j :| 0 <= j < i && init[j].id == s.id;
      assert all[j].id == all[i].id;
    } else {
      assert forall j | 0 <= j < i :: init[j] in init;
      hide IdsOf;
    }
  }

  method CheckHops(route: seq<Text>) returns (ok: bool)
    ensures ok <==> HopsNamed(route)
  {
    for i := 0 to |route|
      invariant HopsNamed(route[..i])
    {
      if route[i] == [] {
        return false;
      }
    }
    return true;
  }

  method CheckCandidates(candidates: seq<Candidate>, servers: map<Text, Server>) returns (ok: bool)
    ensures ok <==> forall i | 0 <= i < |candidates| :: ValidCandidate(servers.Keys, candidates[i])
  {
    for i := 0 to |candidates|
      invariant forall j | 0 <= j < i :: ValidCandidate(servers.Keys, candidates[j])
    {
      var c := candidates[i];
      if c.egress == [] || c.route == [] || |c.route| > MAX_FORWARD_ROUTE {
        return false;
      }
      var named := CheckHops(c.route);
      if !named || c.route[0] !in servers || c.route[|c.route| - 1] != c.egress {
        return false;
      }
    }
    return true;
  }

  /** The key of a service route in the table of those seen so far. */
  function SeenKey(r: ServiceRoute): Text {
    r.protocol + [0] + r.service
  }

  lemma SeenKeyOfTcp(a: ServiceRoute, b: ServiceRoute)
    requires a.protocol == TCP && b.protocol == TCP
    ensures SeenKey(a) == SeenKey(b) <==> SameService(a, b)
  {
    assert SeenKey(a)[4..] == a.service && SeenKey(b)[4..] == b.service;
  }

  method ValidateServiceRoutes(routes: seq<ServiceRoute>, servers: map<Text, Server>) returns (ok: bool)
    ensures ok <==> ValidRoutes(servers.Keys, routes)
  {
    var seen: set<Text> := {};
    for i := 0 to |routes|
      invariant ValidRoutes(servers.Keys, routes[..i])
      invariant seen == set j | 0 <= j < i :: SeenKey(routes[j])
    {
      var r := routes[i];
      if r.service == [] || r.protocol != TCP {
        return false;
      }
      var selection := if r.selection == [] then SELECTION_ORDERED else r.selection;
      if selection != SELECTION_ORDERED {
        return false;
      }
      forall j | 0 <= j < i ensures SeenKey(routes[j]) == SeenKey(r) <==> SameService(routes[j], r) {
        assert ValidServiceRoute(servers.Keys, routes[..i][j]);
        SeenKeyOfTcp(routes[j], r);
      }
      if SeenKey(r) in seen {
        return false;
      }
      seen := seen + {SeenKey(r)};
      if r.candidates == [] {
        return false;
      }
      var fine := CheckCandidates(r.candidates, servers);
      if !fine {
        return false;
      }
      assert routes[..i + 1][..i] == routes[..i];
    }
    assert routes[..|routes|] == routes;
    return true;
  }

  method FindServiceRoute(routes: seq<ServiceRoute>, protocol: Text, service: Text) returns (found: bool)
    ensures found <==> HasServiceRoute(routes, protocol, service)
  {
    for i := 0 to |routes|
      invariant !HasServiceRoute(routes[..i], protocol, service)
    {
      if routes[i].protocol == protocol && routes[i].service == service {
        return true;
      }
    }
    assert routes[..|routes|] == routes;
    return false;
  }

  method ValidateForwardRoute(f: Forward, servers: map<Text, Server>) returns (ok: bool)
    ensures ok <==> ValidForwardRoute(servers.Keys, f)
  {
    if f.route == [] {
      return true;
    }
    if |f.route| > MAX_FORWARD_ROUTE {
      return false;
    }
    var named := CheckHops(f.route);
    if !named || f.route[0] !in servers {
      return false;
    }
    return f.egress == [] || f.egress == f.route[|f.route| - 1];
  }

  method ValidateForward(cfg: ClientConfig, hostPort: Text -> bool, f: Forward, servers: map<Text, Server>) returns (ok: bool)
    requires servers.Keys == IdsOf(cfg.servers)
    ensures ok <==> ValidForward(cfg, hostPort, f)
  {
    hide IdsOf, HasServiceRoute, ValidForwardRoute;
    if f.protocol != TCP || f.listen == [] || !hostPort(f.listen) || f.service == [] || !ValidE2E(cfg.serviceCA, f.e2e) {
      return false;
    }
    var fits := ValidateForwardRoute(f, servers);
    if !fits {
      return false;
    }
    if f.route == [] {
      assert |servers| == |servers.Keys|;
      if |servers| > 1 {
        if f.egress == [] {
          var has := FindServiceRoute(cfg.routes, f.protocol, f.service);
          if !has {
            return false;
          }
        } else if f.egress !in servers {
          return false;
        }
      } else if f.egress != [] {
        if f.egress !in servers {
          return false;
        }
      }
    }
    return true;
  }

  /** Accepts exactly the valid client configurations. */
  method ValidateClient(cfg: ClientConfig, hostPort: Text -> bool) returns (ok: bool)
    ensures ok <==> ValidClient(cfg, hostPort)
  {
    hide ValidServers, ValidRoutes, ValidForward, IdsOf, ServerTable;
    if !ValidCommon(cfg) || cfg.mode != MODE_CLIENT || cfg.servers == [] {
      return false;
    }
    var servers := ValidateServers(cfg.servers);
    if servers.None? {
      return false;
    }
    var routed := ValidateServiceRoutes(cfg.routes, servers.value);
    if !routed || cfg.forwards == [] {
      return false;
    }
    for i := 0 to |cfg.forwards|
      invariant forall j | 0 <= j < i :: ValidForward(cfg, hostPort, cfg.forwards[j])
    {
      var fine := ValidateForward(cfg, hostPort, cfg.forwards[i], servers.value);
      if !fine {
        return false;
      }
    }
    return true;
  }

  // ---------- service routes by protocol and service ----------

  type RouteTable = map<(Text, Text), ServiceRoute>

  /** A later entry for the same service replaces an earlier one. */
  function ResolverOf(routes: seq<ServiceRoute>): RouteTable {
    if routes == [] then map[]
    else
      var last := routes[|routes| - 1];
      ResolverOf(routes[..|routes| - 1])[(last.protocol, last.service) := last]
  }

  method BuildResolver(routes: seq<ServiceRoute>) returns (table: RouteTable)
    ensures table == ResolverOf(routes)
  {
    table := map[];
    for i := 0 to |routes|
      invariant table == ResolverOf(routes[..i])
    {
      table := table[(routes[i].protocol, routes[i].service) := routes[i]];
      assert routes[..i + 1][..i] == routes[..i];
    }
    assert routes[..|routes|] == routes;
  }

  /** The table knows a service exactly when some entry names it, and holds the last
      such entry. */
  lemma {:induction false} ResolverHoldsLast(routes: seq<ServiceRoute>, protocol: Text, service: Text)
    ensures (protocol, service) in ResolverOf(routes) <==> HasServiceRoute(routes, protocol, service)
    ensures (protocol, service) in ResolverOf(routes) ==>
      exists i :: 0 <= i < |routes| && routes[i] == ResolverOf(routes)[(protocol, service)]
        && routes[i].protocol == protocol && routes[i].service == service
        && forall j | i < j < |routes| :: !(routes[j].protocol == protocol && routes[j].service == service)
  {
    if routes != [] {
      var n, key := |routes| - 1, (protocol, service);
      var init := routes[..n];
      ResolverHoldsLast(init, protocol, service);
      if routes[n].protocol == protocol && routes[n].service == service {
        assert routes[n] == ResolverOf(routes)[key];
      } else {
        assert key in ResolverOf(routes) <==> key in ResolverOf(init);
        if key in ResolverOf(init) {
          var i :| 0 <= i < n && init[i] == ResolverOf(init)[key]
            && init[i].protocol == protocol && init[i].service == service
            && forall j | i < j < n :: !(init[j].protocol == protocol && init[j].service == service);
          assert forall j | 0 <= j < n :: routes[j] == init[j];
          assert routes[i] == ResolverOf(routes)[key];
        } else {
          assert forall j | 0 <= j < n :: routes[j] == init[j];
        }
      }
    }
  }

  // ---------- candidates ----------

  datatype Selected = Selected(service: Text, egress: Text, route: seq<Text>, mode: Text)

  function NormalMode(mode: Text): Text {
    if mode == [] then E2E_OFF else mode
  }

  predicate E2ERequired(s: Selected) {
    s.mode == E2E_ALWAYS || (s.mode == E2E_AUTO && |s.route| > 1)
  }

  /** The candidates of a forward: itself if it names a way or no service route does,
      otherwise those of the service route, in its order. */
  function Candidates(table: RouteTable, f: Forward): (r: seq<Selected>)
    ensures r != []
  {
    var own := Selected(f.service, f.egress, f.route, NormalMode(f.e2e));
    if f.route != [] || f.egress != [] || (f.protocol, f.service) !in table then [own]
    else
      var listed := table[(f.protocol, f.service)].candidates;
      if listed == [] then [own]
      else seq(|listed|, i requires 0 <= i < |listed| => Selected(f.service, listed[i].egress, listed[i].route, NormalMode(f.e2e)))
  }

  method ResolveCandidates(table: RouteTable, f: Forward) returns (r: seq<Selected>)
    ensures r == Candidates(table, f)
  {
    if f.route != [] || f.egress != [] || (f.protocol, f.service) !in table || table[(f.protocol, f.service)].candidates == [] {
      return [Selected(f.service, f.egress, f.route, NormalMode(f.e2e))];
    }
    var listed := table[(f.protocol, f.service)].candidates;
    r := [];
    for i := 0 to |listed|
      invariant |r| == i
      invariant forall j | 0 <= j < i :: r[j] == Selected(f.service, listed[j].egress, listed[j].route, NormalMode(f.e2e))
    {
      r := r + [Selected(f.service, listed[i].egress, listed[i].route, NormalMode(f.e2e))];
    }
  }

  // ---------- sessions ----------

  datatype Sessions = Sessions(table: map<Text, Server>, defaultId: Text)

  function ServerTable(servers: seq<Server>): map<Text, Server> {
    if servers == [] then map[]
    else ServerTable(servers[..|servers| - 1])[servers[|servers| - 1].id := servers[|servers| - 1]]
  }

  lemma {:induction false} ServerTableKeys(servers: seq<Server>)
    ensures ServerTable(servers).Keys == IdsOf(servers)
    ensures forall id | id in ServerTable(servers) :: ServerTable(servers)[id].id == id && ServerTable(servers)[id] in servers
  {
    if servers != [] {
      var n := |servers| - 1;
      ServerTableKeys(servers[..n]);
      assert servers == servers[..n] + [servers[n]];
      assert IdsOf(servers) == IdsOf(servers[..n]) + {servers[n].id};
    }
  }

  /** A session per server, and a default one if there is only one. */
  function SessionsOf(servers: seq<Server>): (s: Sessions)
    ensures s.defaultId == [] || s.defaultId in s.table
  {
    var table := ServerTable(servers);
    Sessions(table, if |table| == 1 && servers != [] then servers[|servers| - 1].id else [])
  }

  method NewSessions(servers: seq<Server>) returns (r: Option<Sessions>)
    ensures r == if servers == [] then None else Some(SessionsOf(servers))
  {
    if servers == [] {
      return None;
    }
    var table: map<Text, Server>, defaultId: Text := map[], [];
    for i := 0 to |servers|
      invariant table == ServerTable(servers[..i])
      invariant defaultId == if i == 0 then [] else servers[i - 1].id
    {
      table := table[servers[i].id := servers[i]];
      defaultId := servers[i].id;
      assert servers[..i + 1][..i] == servers[..i];
    }
    assert servers[..|servers|] == servers;
    if |table| != 1 {
      defaultId := [];
    }
    return Some(Sessions(table, defaultId));
  }

  /** The session for an egress, and the egress it is asked for. */
  function SelectSession(s: Sessions, egress: Text): Option<(Server, Text)>
    requires s.defaultId == [] || s.defaultId in s.table
  {
    if egress == [] then
      if s.defaultId == [] then None else Some((s.table[s.defaultId], []))
    else if egress !in s.table then None
    else Some((s.table[egress], egress))
  }

  /** Where a candidate's request goes and what it says: by its first hop if it has a
      route, otherwise by its egress. */
  function RequestFor(s: Sessions, id: Text, c: Selected): Option<(Server, ConnectRequest)>
    requires s.defaultId == [] || s.defaultId in s.table
  {
    match SelectSession(s, if c.route != [] then c.route[0] else c.egress)
    case None => None
    case Some((server, selected)) =>
      Some((server, ClientRequest(id, c.service, if c.route != [] then c.egress else selected, c.route, E2ERequired(c))))
  }

  // ---------- why validation is enough, and not too much ----------

  /** The candidate has named hops and a session, and the node behind that session is
      where its request has to start. */
  predicate Routable(servers: seq<Server>, id: Text, c: Selected) {
    && HopsNamed(c.route)
    && var sent := RequestFor(SessionsOf(servers), id, c);
       sent.Some? && sent.value.0 in servers && sent.value.1.egress == c.egress && WellRouted(sent.value.0.id, sent.value.1)
  }

  /** What makes a candidate routable, in terms of the configuration alone. */
  lemma RoutableExactlyWhen(servers: seq<Server>, id: Text, c: Selected)
    requires ValidServers(servers) && servers != []
    ensures Routable(servers, id, c) <==>
      var ids := IdsOf(servers);
      if c.route == [] then (if c.egress == [] then |ids| == 1 else c.egress in ids)
      else HopsNamed(c.route) && c.route[0] in ids && (c.egress == [] || c.egress == c.route[|c.route| - 1])
  {
    ServerTableKeys(servers);
    var s := SessionsOf(servers);
    assert |s.table| == |s.table.Keys|;
    assert servers[|servers| - 1].id != [];
  }

  /** The routing checks of validation reject exactly the forwards of which some
      candidate could not be sent to the right place. */
  lemma RoutingChecksExact(cfg: ClientConfig, id: Text, f: Forward)
    requires cfg.servers != [] && ValidServers(cfg.servers) && ValidRoutes(IdsOf(cfg.servers), cfg.routes)
    requires |f.route| <= MAX_FORWARD_ROUTE
    ensures var ids, candidates := IdsOf(cfg.servers), Candidates(ResolverOf(cfg.routes), f);
      ValidForwardRoute(ids, f) && (f.route == [] ==> ValidEgress(ids, cfg.routes, f))
      <==> forall i | 0 <= i < |candidates| :: Routable(cfg.servers, id, candidates[i])
  {
    hide Routable;
    var ids, table := IdsOf(cfg.servers), ResolverOf(cfg.routes);
    var candidates := Candidates(table, f);
    assert cfg.servers[0].id in ids;
    ResolverHoldsLast(cfg.routes, f.protocol, f.service);
    forall i | 0 <= i < |candidates| ensures
      Routable(cfg.servers, id, candidates[i]) <==>
        var c := candidates[i];
        if c.route == [] then (if c.egress == [] then |ids| == 1 else c.egress in ids)
        else HopsNamed(c.route) && c.route[0] in ids && (c.egress == [] || c.egress == c.route[|c.route| - 1])
    {
      RoutableExactlyWhen(cfg.servers, id, candidates[i]);
    }
    if f.route == [] && f.egress == [] && HasServiceRoute(cfg.routes, f.protocol, f.service) {
      var listed := table[(f.protocol, f.service)];
      assert ValidServiceRoute(ids, listed);
      forall i | 0 <= i < |candidates| ensures Routable(cfg.servers, id, candidates[i]) {
        assert ValidCandidate(ids, listed.candidates[i]);
      }
    } else {
      assert candidates == [Selected(f.service, f.egress, f.route, NormalMode(f.e2e))];
      assert candidates[0].route == f.route;
    }
  }

  /** For every accepted configuration and forward there is a candidate, and every
      candidate is for the forward's service, is routable, and has the service CA that
      its handshake needs. */
  lemma AcceptedForwardsWork(cfg: ClientConfig, hostPort: Text -> bool, f: Forward, id: Text)
    requires ValidClient(cfg, hostPort) && f in cfg.forwards
    ensures var candidates := Candidates(ResolverOf(cfg.routes), f);
      && candidates != []
      && forall i | 0 <= i < |candidates| ::
           && candidates[i].service == f.service && Routable(cfg.servers, id, candidates[i])
           && (E2ERequired(candidates[i]) ==> cfg.serviceCA != [])
  {
    assert ValidForward(cfg, hostPort, f);
    RoutingChecksExact(cfg, id, f);
  }

  /** No request of an accepted configuration is ever answered with a routing code in a
      consistent network, whatever its nodes allow; and where it needs E2E, every node
      that reads it rebuilds exactly the handshake context of the client's candidate. */
  lemma AcceptedRequestsTravel(cfg: ClientConfig, hostPort: Text -> bool, f: Forward, id: Text, i: nat, net: Network)
    requires ValidClient(cfg, hostPort) && f in cfg.forwards && Consistent(net)
    ensures var candidates := Candidates(ResolverOf(cfg.routes), f);
      i < |candidates| ==>
        var sent := RequestFor(SessionsOf(cfg.servers), id, candidates[i]);
        && sent.Some?
        && var (server, req) := sent.value;
           ValidRequest(req) && server.id in net.nodes ==>
             var (hops, outcome) := Travel(net, cfg.nodeId, server.id, RequestBytes(req));
             && !(outcome.Rejected? && RoutingCode(outcome.code))
             && (req.e2eRequired ==> forall k | 0 <= k < |hops| ::
                   H.EgressContext(hops[k].req) == Context(id, candidates[i].service, candidates[i].egress, candidates[i].route))
  {
    AcceptedForwardsWork(cfg, hostPort, f, id);
    var candidates := Candidates(ResolverOf(cfg.routes), f);
    if i < |candidates| {
      var c := candidates[i];
      assert Routable(cfg.servers, id, c);
      var (server, req) := RequestFor(SessionsOf(cfg.servers), id, c).value;
      hide ValidClient, Candidates, Travel, RequestBytes, WellRouted;
      if ValidRequest(req) && server.id in net.nodes {
        RequestRoundTrip(req);
        RoutingCodesExactlyWhen(net, cfg.nodeId, server.id, RequestBytes(req), req);
        if req.e2eRequired {
          ContextSurvivesRelays(net, cfg.nodeId, server.id, id, c.service, c.egress, c.route);
        }
      }
    }
  }

  // ---------- what is configured is what is sent ----------

  /** The k-th service route is the last one that names the forward's service. */
  predicate IsLastNaming(routes: seq<ServiceRoute>, f: Forward, k: nat) {
    && k < |routes| && routes[k].protocol == f.protocol && routes[k].service == f.service
    && forall j | k < j < |routes| :: !(routes[j].protocol == f.protocol && routes[j].service == f.service)
  }

  /** The forward goes its own way: it names one, or no service route has another. */
  predicate OwnWay(routes: seq<ServiceRoute>, f: Forward) {
    f.route != [] || f.egress != [] || forall k | 0 <= k < |routes| :: !IsLastNaming(routes, f, k) || routes[k].candidates == []
  }

  /** E2E is required always, or on routes of more than one hop, or never. */
  predicate WantsE2E(e2e: Text, route: seq<Text>) {
    e2e == Ascii("always") || (e2e == Ascii("auto") && |route| > 1)
  }

  lemma ModeKept(e2e: Text, c: Selected)
    requires c.mode == NormalMode(e2e)
    ensures E2ERequired(c) <==> WantsE2E(e2e, c.route)
  {
    assert |Ascii("always")| == 6 && |Ascii("auto")| == 4 && |Ascii("off")| == 3;
  }

  /** For every forward and all service routes: the candidates are the forward itself if it
      goes its own way, and otherwise the entries of the last service route that names its
      service, one by one and in order; each is for the forward's service and requires E2E
      exactly as the forward's mode says of that candidate's own route. */
  lemma CandidatesExactly(routes: seq<ServiceRoute>, f: Forward)
    ensures var cs := Candidates(ResolverOf(routes), f);
      && (OwnWay(routes, f) ==> |cs| == 1 && cs[0].egress == f.egress && cs[0].route == f.route)
      && (forall k: nat | IsLastNaming(routes, f, k) && !OwnWay(routes, f) ::
            && |cs| == |routes[k].candidates|
            && forall i | 0 <= i < |cs| :: cs[i].egress == routes[k].candidates[i].egress && cs[i].route == routes[k].candidates[i].route)
      && (forall i | 0 <= i < |cs| :: cs[i].service == f.service && (E2ERequired(cs[i]) <==> WantsE2E(f.e2e, cs[i].route)))
  {
    TableNamesLast(routes, f);
    var cs := Candidates(ResolverOf(routes), f);
    hide ResolverOf, IsLastNaming;
    forall i | 0 <= i < |cs| ensures cs[i].service == f.service && (E2ERequired(cs[i]) <==> WantsE2E(f.e2e, cs[i].route)) {
      ModeKept(f.e2e, cs[i]);
    }
    hide E2ERequired, WantsE2E, NormalMode;
  }

  lemma TableNamesLast(routes: seq<ServiceRoute>, f: Forward)
    ensures var table, key := ResolverOf(routes), (f.protocol, f.service);
      && (key in table ==> exists k: nat :: IsLastNaming(routes, f, k))
      && (forall k: nat :: IsLastNaming(routes, f, k) ==> k < |routes| && key in table && table[key] == routes[k])
  {
    ResolverHoldsLast(routes, f.protocol, f.service);
    hide ResolverOf;
    if (f.protocol, f.service) in ResolverOf(routes) {
      var k: nat :| k < |routes| && routes[k] == ResolverOf(routes)[(f.protocol, f.service)]
        && routes[k].protocol == f.protocol && routes[k].service == f.service
        && forall j | k < j < |routes| :: !(routes[j].protocol == f.protocol && routes[j].service == f.service);
      assert IsLastNaming(routes, f, k);
    }
  }

  /** Every server has its own session, and there is a default exactly when it is alone. */
  lemma {:induction false} SessionsExactly(servers: seq<Server>)
    requires ValidServers(servers)
    ensures SessionsOf(servers).table.Keys == IdsOf(servers)
    ensures forall i | 0 <= i < |servers| :: servers[i].id in SessionsOf(servers).table && SessionsOf(servers).table[servers[i].id] == servers[i]
    ensures SessionsOf(servers).defaultId == if |servers| == 1 then servers[0].id else []
  {
    ServerTableKeys(servers);
    TableExactly(servers);
    assert |ServerTable(servers)| == |servers|;
  }

  lemma {:induction false} TableExactly(servers: seq<Server>)
    requires ValidServers(servers)
    ensures |ServerTable(servers)| == |servers|
    ensures forall i | 0 <= i < |servers| :: servers[i].id in ServerTable(servers) && ServerTable(servers)[servers[i].id] == servers[i]
  {
    if servers != [] {
      var n := |servers| - 1;
      var init := servers[..n];
      assert servers[..n + 1] == servers;
      ValidServersStep(servers, n);
      hide ValidServers;
      TableExactly(init);
      ServerTableKeys(init);
      hide IdsOf;
      var before, after := ServerTable(init), ServerTable(servers);
      assert after == before[servers[n].id := servers[n]];
      assert after.Keys == before.Keys + {servers[n].id};
      assert |after| == |after.Keys| && |before| == |before.Keys|;
      hide ServerTable;
      forall i | 0 <= i < |servers| ensures servers[i].id in after && after[servers[i].id] == servers[i] {
        assert i < n ==> init[i] == servers[i];
      }
    }
  }

  /** For every accepted configuration, forward and candidate: the request goes to the server
      of the first hop, or of the egress, or to the only server; and it says the candidate's
      egress and route, the forward's service, and E2E exactly as the forward's mode, which
      is one of the four, asks for that route, with the route a second time if so. */
  lemma RequestsExactly(cfg: ClientConfig, hostPort: Text -> bool, f: Forward, id: Text, i: nat)
    requires ValidClient(cfg, hostPort) && f in cfg.forwards
    ensures f.e2e == [] || f.e2e == Ascii("off") || f.e2e == Ascii("auto") || f.e2e == Ascii("always")
    ensures var cs := Candidates(ResolverOf(cfg.routes), f);
      i < |cs| ==>
        var c, sent := cs[i], RequestFor(SessionsOf(cfg.servers), id, cs[i]);
        && sent.Some? && sent.value.0 in cfg.servers
        && (c.route != [] ==> sent.value.0.id == c.route[0])
        && (c.route == [] && c.egress != [] ==> sent.value.0.id == c.egress)
        && (c.route == [] && c.egress == [] ==> cfg.servers == [sent.value.0])
        && var e2e := WantsE2E(f.e2e, c.route);
           sent.value.1 == ConnectRequest(id, Ascii("tcp"), f.service, c.egress, c.route, e2e, if e2e then c.route else [])
  {
    AcceptedForwardsWork(cfg, hostPort, f, id);
    CandidatesExactly(cfg.routes, f);
    SessionsExactly(cfg.servers);
    ServerTableKeys(cfg.servers);
    assert ValidForward(cfg, hostPort, f);
    var cs := Candidates(ResolverOf(cfg.routes), f);
    if i < |cs| {
      assert Routable(cfg.servers, id, cs[i]);
      hide ValidClient, Candidates, ResolverOf, E2ERequired, WantsE2E, ServerTable, ValidForward;
    }
  }

  // ---------- accepted requests fit their frames ----------

  lemma {:induction false} ListBytesBound(route: seq<Text>)
    requires Items(route, MAX_TARGET)
    ensures |ListBytes(route)| <= |route| * (2 + MAX_TARGET)
  {
    if route != [] {
      assert Items(route[1..], MAX_TARGET);
      ListBytesBound(route[1..]);
    }
  }

  predicate ShortNames(names: seq<Text>) {
    forall i | 0 <= i < |names| :: |names[i]| <= MAX_TARGET
  }

  /** Every candidate of an accepted forward has at most three hops, so its request is
      written exactly when its names are short enough one by one, and then always fits
      a frame. */
  lemma AcceptedRequestsFit(cfg: ClientConfig, hostPort: Text -> bool, f: Forward, id: Text, i: nat)
    requires ValidClient(cfg, hostPort) && f in cfg.forwards && ValidId(id)
    ensures var candidates := Candidates(ResolverOf(cfg.routes), f);
      i < |candidates| ==>
        var c, sent := candidates[i], RequestFor(SessionsOf(cfg.servers), id, candidates[i]);
        && sent.Some?
        && (ValidRequest(sent.value.1) <==> |c.service| <= MAX_TARGET && |c.egress| <= MAX_TARGET && ShortNames(c.route))
        && (ValidRequest(sent.value.1) ==> |RequestBytes(sent.value.1)| <= MAX_PAYLOAD)
  {
    AcceptedForwardsWork(cfg, hostPort, f, id);
    var candidates := Candidates(ResolverOf(cfg.routes), f);
    if i < |candidates| {
      var c := candidates[i];
      ShortRoute(cfg, hostPort, f, i);
      assert Routable(cfg.servers, id, c);
      assert ValidForward(cfg, hostPort, f);
      hide ValidClient, Candidates, ValidForward, SelectSession;
      var req := RequestFor(SessionsOf(cfg.servers), id, c).value.1;
      assert req.service == f.service && |TCP| == 3;
      if ValidRequest(req) {
        ListBytesBound(req.route);
        ListBytesBound(req.e2eRoute);
      }
    }
  }

  lemma ShortRoute(cfg: ClientConfig, hostPort: Text -> bool, f: Forward, i: nat)
    requires ValidClient(cfg, hostPort) && f in cfg.forwards
    ensures var candidates := Candidates(ResolverOf(cfg.routes), f);
      i < |candidates| ==> |candidates[i].route| <= MAX_FORWARD_ROUTE
  {
    assert ValidForward(cfg, hostPort, f);
    ResolverHoldsLast(cfg.routes, f.protocol, f.service);
    if HasServiceRoute(cfg.routes, f.protocol, f.service) {
      var listed := ResolverOf(cfg.routes)[(f.protocol, f.service)];
      assert ValidServiceRoute(IdsOf(cfg.servers), listed);
    }
  }
}
