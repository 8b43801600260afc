/** Who gets through to a target: the whole setup of one connection in a network, from
    the request through the relays to the handshake and the dial at the egress. */
module Access {
  import opened Bytes
  import opened Frames
  import opened ConnectCodec
  import opened E2ECodec
  import opened Policy
  import opened Relay
  import opened Responses
  import H = Handshake

  // ---------- what the egress answers inside the handshake ----------

  /** Before its hello the egress needs the service's certificate, the client's right to
      the service and a connection to the target, in this order. */
  function HandshakeRefusal(svc: ServiceConfig, client: Text, dials: bool): Option<Byte> {
    if svc.e2eCert == [] || svc.e2eKey == [] then Some(CODE_INTERNAL_ERROR)
    else if !AllowsPeer(svc, client) then Some(CODE_ACCESS_DENIED)
    else if !dials then Some(CODE_TARGET_DIAL_FAILED)
    else None
  }

  /** The error the client's handshake ends with, none if it completes: a refusal comes as
      a close frame, or as a broken stream if its text does not fit one. */
  function HandshakeOutcome(svc: ServiceConfig, client: Text, dials: bool, say: Byte -> Text): Option<SetupError> {
    match HandshakeRefusal(svc, client, dials)
    case None => None
    case Some(code) =>
      if |say(code)| > MAX_MESSAGE then Some(OtherError)
      else match HelloOrClose(FrameBytes(Frame(TYPE_CLOSE, CloseBytes(Close(CLOSE_ERROR, code, say(code))))))
        case GotError(e) => Some(e)
        case GotHello(_) => None
  }

  /** The client treats a refusal in the handshake like a refusal by response. */
  lemma RefusalReachesClient(svc: ServiceConfig, client: Text, dials: bool, say: Byte -> Text)
    ensures var refusal, outcome := HandshakeRefusal(svc, client, dials), HandshakeOutcome(svc, client, dials, say);
      && (refusal.None? <==> outcome.None?)
      && (refusal.Some? && |say(refusal.value)| <= MAX_MESSAGE ==>
            E2ESetupError(outcome.value) == ConnectRejected(refusal.value, say(refusal.value)))
  {
    var refusal := HandshakeRefusal(svc, client, dials);
    hide NextFrame, FrameBytes, ParseClose, CloseBytes;
    if refusal.Some? && |say(refusal.value)| <= MAX_MESSAGE {
      var c := Close(CLOSE_ERROR, refusal.value, say(refusal.value));
      var f := Frame(TYPE_CLOSE, CloseBytes(c));
      NextFrameOfWritten(f, []);
      assert FrameBytes(f) + [] == FrameBytes(f);
      CloseExact(CloseBytes(c), c);
    }
  }

  /** The refusals are those of the handshake protocol itself: between parties whose
      certificates verify, it leaves the egress with keys if and only if there is none. */
  lemma RefusalIsTheProtocols(c: H.Crypto, m: H.Meeting)
    requires H.Ideal(c) && H.Favourable(c, m) && m.svc.e2eCert != [] && m.svc.e2eKey != []
    ensures var s := H.RunSystem(c, {}, H.MeetingSteps(m));
      0 in s.servers && (s.servers[0].keys.Some? <==> HandshakeRefusal(m.svc, m.node, m.dials).None?)
  {
    H.HandshakeExactlyWhen(c, m);
  }

  // ---------- the whole setup ----------

  /** The handshake of a request that was accepted somewhere in the network. */
  function NetHandshake(net: Network, client: Text, at: Text, req: ConnectRequest, say: (Text, Byte) -> Text, dials: Text -> bool): Option<SetupError>
    requires at in net.nodes && ValidRequest(req)
  {
    var (hops, outcome) := Travel(net, client, at, RequestBytes(req));
    if !outcome.Served? || hops == [] then None
    else
      var egress := hops[|hops| - 1].node;
      HandshakeOutcome(outcome.svc, client, dials(egress), code => say(egress, code))
  }

  /** How the setup of one connection fails, none if the client may start proxying. */
  function Setup(net: Network, client: Text, at: Text, req: ConnectRequest, say: (Text, Byte) -> Text, dials: Text -> bool): Option<SetupError>
    requires at in net.nodes && ValidRequest(req)
  {
    match Reply(net, client, at, RequestBytes(req), say, dials)
    case None => Some(OtherError)
    case Some(r) =>
      if !r.ok then Some(ConnectRejected(r.code, r.message))
      else if !req.e2eRequired then None
      else match NetHandshake(net, client, at, req, say, dials)
        case None => None
        case Some(e) => Some(E2ESetupError(e))
  }

  /** The node at the end of a request's route. */
  function EgressOf(at: Text, req: ConnectRequest): Text {
    if req.route == [] then at else NodeAt(at, req.route, |req.route| - 1)
  }

  /** Every node on the way lets the request through to the service; with E2E the service
      has a certificate and admits the client itself, the one that the handshake proves. */
  ghost predicate Admitted(net: Network, client: Text, at: Text, req: ConnectRequest, svc: ServiceConfig)
    requires at in net.nodes
  {
    && Reaches(net, client, at, req, svc)
    && (req.e2eRequired ==> svc.e2eCert != [] && svc.e2eKey != [] && AllowsPeer(svc, client))
  }

  /** The client is admitted to a service and the egress reaches its target. */
  ghost predicate Works(net: Network, client: Text, at: Text, req: ConnectRequest, dials: Text -> bool)
    requires at in net.nodes
  {
    (exists svc :: Admitted(net, client, at, req, svc)) && dials(EgressOf(at, req))
  }

  /** The request gets to a node that cannot reach the next, or the client is admitted at an
      egress that cannot reach its target. */
  ghost predicate EndsUnreachable(net: Network, client: Text, at: Text, req: ConnectRequest, dials: Text -> bool)
    requires at in net.nodes
  {
    || Stopped(net, client, at, req, CODE_NEXT_HOP_UNREACHABLE)
    || ((exists svc :: Admitted(net, client, at, req, svc)) && !dials(EgressOf(at, req)))
  }

  /** Where the request ends, in terms of who lets it through. */
  lemma EndsAtEgress(net: Network, from: Text, at: Text, req: ConnectRequest)
    requires at in net.nodes && ValidRequest(req)
    ensures var (hops, outcome) := Travel(net, from, at, RequestBytes(req));
      && hops != []
      && (outcome.Served? ==> Reaches(net, from, at, req, outcome.svc) && hops[|hops| - 1].node == EgressOf(at, req))
      && (forall svc :: Reaches(net, from, at, req, svc) ==> outcome == Served(svc))
      && hops[|hops| - 1].req.e2eRequired == req.e2eRequired
  {
    hide Reaches, Travel, RequestBytes, ParseRequest;
    RequestRoundTrip(req);
    var p := RequestBytes(req);
    RequestsFollowRoutes(net, from, at, p, req);
    var outcome := Travel(net, from, at, p).1;
    forall svc ensures outcome == Served(svc) <==> Reaches(net, from, at, req, svc) {
      ServedExactlyWhen(net, from, at, p, req, svc);
    }
  }

  /** What the client reads of the decision when every text fits a frame. */
  lemma ReplySays(net: Network, client: Text, at: Text, req: ConnectRequest, say: (Text, Byte) -> Text, dials: Text -> bool)
    requires at in net.nodes && ValidRequest(req) && forall node, code :: |say(node, code)| <= MAX_MESSAGE
    ensures var (hops, outcome) := Travel(net, client, at, RequestBytes(req));
      var reply := Reply(net, client, at, RequestBytes(req), say, dials);
      && reply.Some?
      && (outcome.Rejected? ==> !reply.value.ok && reply.value.code == outcome.code && outcome.code !in {CODE_OK, CODE_TARGET_DIAL_FAILED})
      && (!outcome.Rejected? ==> outcome.Served? && reply.value.ok == (req.e2eRequired || dials(EgressOf(at, req))))
      && (outcome.Served? && !reply.value.ok ==> reply.value.code == CODE_TARGET_DIAL_FAILED)
  {
    RequestRoundTrip(req);
    hide Reaches, Travel, RequestBytes, ParseRequest, Reply, ValidRequest, EgressOf;
    EndsAtEgress(net, client, at, req);
    ClientReadsFinalAnswer(net, client, at, RequestBytes(req), req, say, dials);
    OutcomeCodes(net, client, at, RequestBytes(req), req);
    var (hops, outcome) := Travel(net, client, at, RequestBytes(req));
    var answer := FinalAnswer(hops[|hops| - 1], outcome, say, dials);
    assert |answer.message| <= MAX_MESSAGE;
  }

  /** How the setup goes once the request has reached a service. */
  lemma SetupAtService(net: Network, client: Text, at: Text, req: ConnectRequest, svc: ServiceConfig,
                       say: (Text, Byte) -> Text, dials: Text -> bool)
    requires at in net.nodes && ValidRequest(req) && (forall node, code :: |say(node, code)| <= MAX_MESSAGE)
    requires Travel(net, client, at, RequestBytes(req)).1 == Served(svc)
    ensures var e, egress := Setup(net, client, at, req, say, dials), EgressOf(at, req);
      if req.e2eRequired then
        match HandshakeRefusal(svc, client, dials(egress))
        case None => e == None
        case Some(code) => e == Some(ConnectRejected(code, say(egress, code)))
      else if dials(egress) then e == None
      else e.Some? && e.value.ConnectRejected? && e.value.code == CODE_TARGET_DIAL_FAILED
  {
    ReplySays(net, client, at, req, say, dials);
    EndsAtEgress(net, client, at, req);
    var egress := EgressOf(at, req);
    RefusalReachesClient(svc, client, dials(egress), code => say(egress, code));
    hide Travel, RequestBytes, Reply, Reaches, HandshakeRefusal, HandshakeOutcome, E2ESetupError, EgressOf, ValidRequest;
  }

  /** A request that is rejected on its way fails with the code of the rejection. */
  lemma SetupRejected(net: Network, client: Text, at: Text, req: ConnectRequest, say: (Text, Byte) -> Text, dials: Text -> bool)
    requires at in net.nodes && ValidRequest(req) && (forall node, code :: |say(node, code)| <= MAX_MESSAGE)
    requires Travel(net, client, at, RequestBytes(req)).1.Rejected?
    ensures var e, code := Setup(net, client, at, req, say, dials), Travel(net, client, at, RequestBytes(req)).1.code;
      && e.Some? && e.value.ConnectRejected? && e.value.code == code
      && !(exists svc :: Admitted(net, client, at, req, svc))
      && (forall c: Byte :: Stopped(net, client, at, req, c) <==> c == code)
      && code != CODE_TARGET_DIAL_FAILED
  {
    RequestRoundTrip(req);
    ReplySays(net, client, at, req, say, dials);
    EndsAtEgress(net, client, at, req);
    hide Travel, RequestBytes, ParseRequest, Reply, Reaches, Stopped, EgressOf, ValidRequest, NetHandshake;
    var outcome := Travel(net, client, at, RequestBytes(req)).1;
    forall c: Byte ensures Stopped(net, client, at, req, c) <==> c == outcome.code {
      RejectedExactlyWhen(net, client, at, RequestBytes(req), req, c);
    }
  }

  /** A request that reaches a service is not stopped. */
  lemma ServedIsNotStopped(net: Network, client: Text, at: Text, req: ConnectRequest, code: Byte)
    requires at in net.nodes && ValidRequest(req) && Travel(net, client, at, RequestBytes(req)).1.Served?
    ensures !Stopped(net, client, at, req, code)
  {
    RequestRoundTrip(req);
    hide Travel, RequestBytes, ParseRequest, Stopped, ValidRequest;
    RejectedExactlyWhen(net, client, at, RequestBytes(req), req, code);
  }

  /** How the setup is promised to end. */
  ghost predicate AsPromised(net: Network, client: Text, at: Text, req: ConnectRequest, dials: Text -> bool, e: Option<SetupError>)
    requires at in net.nodes
  {
    && (e.None? <==> Works(net, client, at, req, dials))
    && (e.Some? ==> e.value.ConnectRejected?)
    && (e.Some? ==>
          (Retryable(e.value) <==>
             EndsUnreachable(net, client, at, req, dials) || Stopped(net, client, at, req, CODE_UNREACHABLE_EGRESS)))
  }

  lemma ServedAsPromised(net: Network, client: Text, at: Text, req: ConnectRequest, svc: ServiceConfig,
                         say: (Text, Byte) -> Text, dials: Text -> bool)
    requires at in net.nodes && ValidRequest(req) && (forall node, code :: |say(node, code)| <= MAX_MESSAGE)
    requires Travel(net, client, at, RequestBytes(req)).1 == Served(svc)
    ensures AsPromised(net, client, at, req, dials, Setup(net, client, at, req, say, dials))
  {
    EndsAtEgress(net, client, at, req);
    hide Travel, RequestBytes, Reply, Reaches, Stopped, EgressOf, ValidRequest, Setup;
    SetupAtService(net, client, at, req, svc, say, dials);
    ServedIsNotStopped(net, client, at, req, CODE_NEXT_HOP_UNREACHABLE);
    ServedIsNotStopped(net, client, at, req, CODE_UNREACHABLE_EGRESS);
    assert (exists other :: Admitted(net, client, at, req, other)) <==> Admitted(net, client, at, req, svc);
    assert Admitted(net, client, at, req, svc) <==> (req.e2eRequired ==> svc.e2eCert != [] && svc.e2eKey != [] && AllowsPeer(svc, client));
    hide Admitted;
  }

  lemma RejectedAsPromised(net: Network, client: Text, at: Text, req: ConnectRequest, say: (Text, Byte) -> Text, dials: Text -> bool)
    requires at in net.nodes && ValidRequest(req) && (forall node, code :: |say(node, code)| <= MAX_MESSAGE)
    requires Travel(net, client, at, RequestBytes(req)).1.Rejected?
    ensures AsPromised(net, client, at, req, dials, Setup(net, client, at, req, say, dials))
  {
    hide Travel, RequestBytes, Reply, Reaches, Stopped, EgressOf, ValidRequest, Setup, Admitted;
    SetupRejected(net, client, at, req, say, dials);
  }

  /** The access theorem. A client gets through if and only if every node on the way lets
      its request through, the service admits it (by the previous hop in plaintext, by its
      own proven identity with E2E) and the target answers. If it does not get through, it
      may try elsewhere if and only if something was unreachable: never after a denial. */
  lemma SetupExactlyWhen(net: Network, client: Text, at: Text, req: ConnectRequest, say: (Text, Byte) -> Text, dials: Text -> bool)
    requires at in net.nodes && ValidRequest(req) && forall node, code :: |say(node, code)| <= MAX_MESSAGE
    ensures var e := Setup(net, client, at, req, say, dials);
      && (e.None? <==> Works(net, client, at, req, dials))
      && (e.Some? ==> e.value.ConnectRejected?)
      && (e.Some? ==>
            (Retryable(e.value) <==>
               EndsUnreachable(net, client, at, req, dials) || Stopped(net, client, at, req, CODE_UNREACHABLE_EGRESS)))
  {
    ReplySays(net, client, at, req, say, dials);
    hide Travel, RequestBytes, Reply, ValidRequest, Setup, Works, EndsUnreachable, Stopped, EgressOf;
    var outcome := Travel(net, client, at, RequestBytes(req)).1;
    if outcome.Served? {
      ServedAsPromised(net, client, at, req, outcome.svc, say, dials);
    } else {
      RejectedAsPromised(net, client, at, req, say, dials);
    }
  }

  /** The service that would take the request refuses the client inside the handshake. */
  ghost predicate RefusedInside(net: Network, client: Text, at: Text, req: ConnectRequest, code: Byte)
    requires at in net.nodes
  {
    req.e2eRequired && exists svc ::
      && Reaches(net, client, at, req, svc)
      && (|| (code == CODE_INTERNAL_ERROR && (svc.e2eCert == [] || svc.e2eKey == []))
          || (code == CODE_ACCESS_DENIED && svc.e2eCert != [] && svc.e2eKey != [] && !AllowsPeer(svc, client)))
  }

  /** Which error, exactly: the client is rejected with a code if and only if some node on
      the way stops its request with it, the service refuses it inside the handshake with
      it, or it is admitted and the target cannot be dialled. */
  lemma SetupCodeExactlyWhen(net: Network, client: Text, at: Text, req: ConnectRequest, say: (Text, Byte) -> Text, dials: Text -> bool, code: Byte)
    requires at in net.nodes && ValidRequest(req) && forall node, c :: |say(node, c)| <= MAX_MESSAGE
    ensures var e := Setup(net, client, at, req, say, dials);
      e.Some? && e.value.ConnectRejected? && e.value.code == code <==>
        || Stopped(net, client, at, req, code)
        || RefusedInside(net, client, at, req, code)
        || (code == CODE_TARGET_DIAL_FAILED && (exists svc :: Admitted(net, client, at, req, svc)) && !dials(EgressOf(at, req)))
  {
    ReplySays(net, client, at, req, say, dials);
    EndsAtEgress(net, client, at, req);
    hide Travel, RequestBytes, Reply, Reaches, Stopped, EgressOf, ValidRequest, Setup;
    var outcome := Travel(net, client, at, RequestBytes(req)).1;
    if outcome.Served? {
      var svc := outcome.svc;
      SetupAtService(net, client, at, req, svc, say, dials);
      ServedIsNotStopped(net, client, at, req, code);
      ServedRefusal(net, client, at, req, svc, code);
      assert (exists other :: Admitted(net, client, at, req, other)) <==> Admitted(net, client, at, req, svc);
    } else {
      SetupRejected(net, client, at, req, say, dials);
      hide Admitted;
    }
  }

  lemma ServedRefusal(net: Network, client: Text, at: Text, req: ConnectRequest, svc: ServiceConfig, code: Byte)
    requires at in net.nodes && Reaches(net, client, at, req, svc)
    requires forall other :: Reaches(net, client, at, req, other) ==> other == svc
    ensures RefusedInside(net, client, at, req, code) <==>
      req.e2eRequired && (|| (code == CODE_INTERNAL_ERROR && (svc.e2eCert == [] || svc.e2eKey == []))
                          || (code == CODE_ACCESS_DENIED && svc.e2eCert != [] && svc.e2eKey != [] && !AllowsPeer(svc, client)))
  {
    hide Reaches;
  }
}
