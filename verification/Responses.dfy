/** How the answer of the deciding node gets back through the relays, and how the
    client classifies a failed setup. */
module Responses {
  import opened Bytes
  import opened Frames
  import opened ConnectCodec
  import opened E2ECodec
  import opened Policy
  import opened Relay

  /** What the reader of a stream makes of the first frame on it. */
  function ReadResponse(stream: Text): Option<ConnectResponse> {
    var frame := NextFrame(stream).0;
    if frame.Some? && frame.value.typ == TYPE_CONNECT_RESPONSE then ParseResponse(frame.value.payload) else None
  }

  /** A response written by one node and read by the one before it. */
  function WireTrip(r: ConnectResponse): Option<ConnectResponse> {
    if |r.message| > MAX_MESSAGE then None
    else ReadResponse(FrameBytes(Frame(TYPE_CONNECT_RESPONSE, ResponseBytes(r))))
  }

  /** One trip normalises the code, a second one changes nothing; a response is lost
      exactly when its message is too long or its code unknown. */
  lemma WireTripExact(r: ConnectResponse)
    ensures Normalise(Normalise(r)) == Normalise(r)
    ensures WireTrip(r) == if |r.message| <= MAX_MESSAGE && KnownCode(Normalise(r).code) then Some(Normalise(r)) else None
    ensures Normalise(r).ok == r.ok && Normalise(r).message == r.message
    ensures Normalise(r).code == CODE_OK <==> r.ok
    ensures !r.ok && r.code == CODE_OK ==> Normalise(r).code == CODE_INTERNAL_ERROR
    ensures !r.ok && r.code != CODE_OK ==> Normalise(r).code == r.code
  {
    if |r.message| <= MAX_MESSAGE {
      var f := Frame(TYPE_CONNECT_RESPONSE, ResponseBytes(r));
      NextFrameOfWritten(f, []);
      assert FrameBytes(f) + [] == FrameBytes(f);
      var n := Normalise(r);
      assert ResponseBytes(r) == ResponseBytes(n);
      if KnownCode(n.code) {
        ResponseExact(ResponseBytes(r), n);
      } else {
        CodedExact(ResponseBytes(r), if r.ok then 0 else 1, n.code, r.message);
      }
    }
  }

  /** What the previous node reads when `at` handles a request payload: its own answer,
      or the answer of the node it forwards to, or its own when that gives none. The
      text of an answer and the success of a target dial depend on the node. */
  function Reply(net: Network, from: Text, at: Text, p: Text, say: (Text, Byte) -> Text, dials: Text -> bool): Option<ConnectResponse>
    requires at in net.nodes
    decreases |p|
  {
    match ParseRequest(p)
    case None => None
    case Some(req) =>
      match Decide(net.nodes[at], from, req)
      case Reject(code) => WireTrip(ConnectResponse(false, code, say(at, code)))
      case ServeE2E(_) => WireTrip(ConnectResponse(true, CODE_OK, []))
      case ServePlain(_) =>
        if dials(at) then WireTrip(ConnectResponse(true, CODE_OK, []))
        else WireTrip(ConnectResponse(false, CODE_TARGET_DIAL_FAILED, say(at, CODE_TARGET_DIAL_FAILED)))
      case Forward(next, out) =>
        if next !in net.nodes || (at, next) !in net.links then
          WireTrip(ConnectResponse(false, CODE_NEXT_HOP_UNREACHABLE, say(at, CODE_NEXT_HOP_UNREACHABLE)))
        else
          ForwardedFits(p, req);
          match Reply(net, at, next, RequestBytes(out), say, dials)
          case None => WireTrip(ConnectResponse(false, CODE_NEXT_HOP_UNREACHABLE, say(at, CODE_NEXT_HOP_UNREACHABLE)))
          case Some(r) => WireTrip(r)
  }

  /** The answer of the node where the request ended. */
  function FinalAnswer(last: Hop, outcome: Outcome, say: (Text, Byte) -> Text, dials: Text -> bool): ConnectResponse {
    match outcome
    case Rejected(code) => ConnectResponse(false, code, say(last.node, code))
    case Served(_) =>
      if last.req.e2eRequired || dials(last.node) then ConnectResponse(true, CODE_OK, [])
      else ConnectResponse(false, CODE_TARGET_DIAL_FAILED, say(last.node, CODE_TARGET_DIAL_FAILED))
    case Dropped => ConnectResponse(false, CODE_INTERNAL_ERROR, [])
  }

  /** What the i-th node on the way would answer of its own: the last one its decision,
      the others that they got no answer from the next. */
  function NodeAnswer(hops: seq<Hop>, outcome: Outcome, i: nat, say: (Text, Byte) -> Text, dials: Text -> bool): ConnectResponse
    requires i < |hops|
  {
    if i == |hops| - 1 then FinalAnswer(hops[i], outcome, say, dials)
    else ConnectResponse(false, CODE_NEXT_HOP_UNREACHABLE, say(hops[i].node, CODE_NEXT_HOP_UNREACHABLE))
  }

  predicate Fitting(hops: seq<Hop>, outcome: Outcome, i: nat, say: (Text, Byte) -> Text, dials: Text -> bool)
    requires i < |hops|
  {
    |NodeAnswer(hops, outcome, i, say, dials).message| <= MAX_MESSAGE
  }

  /** The reply is the answer of the last node on the way whose text fits a frame, or
      nothing if no text fits. */
  ghost predicate IsLastFitting(reply: Option<ConnectResponse>, hops: seq<Hop>, outcome: Outcome,
                                say: (Text, Byte) -> Text, dials: Text -> bool) {
    match reply
    case None => forall i: nat | i < |hops| :: !Fitting(hops, outcome, i, say, dials)
    case Some(r) =>
      exists i: nat :: i < |hops| && Fitting(hops, outcome, i, say, dials) && r == NodeAnswer(hops, outcome, i, say, dials)
        && forall j: nat | i < j < |hops| :: !Fitting(hops, outcome, j, say, dials)
  }

  lemma LastFittingCons(first: Hop, hops: seq<Hop>, outcome: Outcome, reply: Option<ConnectResponse>,
                        say: (Text, Byte) -> Text, dials: Text -> bool)
    requires hops != [] && IsLastFitting(reply, hops, outcome, say, dials)
    ensures var all, own := [first] + hops, ConnectResponse(false, CODE_NEXT_HOP_UNREACHABLE, say(first.node, CODE_NEXT_HOP_UNREACHABLE));
      IsLastFitting(if reply.Some? then reply else if |own.message| <= MAX_MESSAGE then Some(own) else None, all, outcome, say, dials)
  {
    hide FinalAnswer;
    var all := [first] + hops;
    forall i: nat | i < |hops|
      ensures NodeAnswer(all, outcome, i + 1, say, dials) == NodeAnswer(hops, outcome, i, say, dials)
      ensures Fitting(all, outcome, i + 1, say, dials) == Fitting(hops, outcome, i, say, dials)
    {
      assert all[i + 1] == hops[i];
    }
    if reply.Some? {
      var i: nat :| i < |hops| && Fitting(hops, outcome, i, say, dials) && reply.value == NodeAnswer(hops, outcome, i, say, dials)
        && forall j: nat | i < j < |hops| :: !Fitting(hops, outcome, j, say, dials);
      hide Fitting, NodeAnswer;
      forall j: nat | i + 1 < j < |all| ensures !Fitting(all, outcome, j, say, dials) {
        assert !Fitting(hops, outcome, j - 1, say, dials);
      }
      assert Fitting(all, outcome, i + 1, say, dials);
    } else {
      forall j: nat | 0 < j < |all| ensures !Fitting(all, outcome, j, say, dials) {
        assert !Fitting(hops, outcome, j - 1, say, dials);
      }
      assert NodeAnswer(all, outcome, 0, say, dials).message == say(first.node, CODE_NEXT_HOP_UNREACHABLE);
    }
  }

  lemma LastFittingAlone(hop: Hop, outcome: Outcome, say: (Text, Byte) -> Text, dials: Text -> bool)
    ensures var own := FinalAnswer(hop, outcome, say, dials);
      IsLastFitting(if |own.message| <= MAX_MESSAGE then Some(own) else None, [hop], outcome, say, dials)
  {
    hide FinalAnswer;
    assert Fitting([hop], outcome, 0, say, dials) <==> |FinalAnswer(hop, outcome, say, dials).message| <= MAX_MESSAGE;
  }

  /** A response that any node may send or has read makes the trip unchanged if it fits. */
  predicate Normal(r: ConnectResponse) {
    KnownCode(r.code) && (r.ok <==> r.code == CODE_OK)
  }

  lemma NormalTrip(r: ConnectResponse)
    requires Normal(r)
    ensures WireTrip(r) == if |r.message| <= MAX_MESSAGE then Some(r) else None
  {
    WireTripExact(r);
  }

  /** Through any number of relays the client reads exactly one node's own answer: that of
      the last node whose text fits a frame, unchanged, code and text. */
  lemma {:induction false} ClientReadsLastFitting(net: Network, from: Text, at: Text, p: Text, req: ConnectRequest,
                                                  say: (Text, Byte) -> Text, dials: Text -> bool)
    requires at in net.nodes && ParseRequest(p) == Some(req)
    ensures var (hops, outcome) := Travel(net, from, at, p);
      var reply := Reply(net, from, at, p, say, dials);
      && hops != [] && IsLastFitting(reply, hops, outcome, say, dials)
      && (reply.Some? ==> Normal(reply.value) && |reply.value.message| <= MAX_MESSAGE)
    decreases |p|
  {
    hide ParseRequest, RequestBytes, WireTrip, Decide, IsLastFitting;
    var hop, d := Hop(from, at, req), Decide(net.nodes[at], from, req);
    ForwardsStripped(net.nodes[at], from, req);
    NormalTrip(ConnectResponse(false, CODE_NEXT_HOP_UNREACHABLE, say(at, CODE_NEXT_HOP_UNREACHABLE)));
    if d.Forward? && d.next in net.nodes && (at, d.next) in net.links {
      ForwardedFits(p, req);
      RequestRoundTrip(d.req);
      ClientReadsLastFitting(net, at, d.next, RequestBytes(d.req), d.req, say, dials);
      var (hops, outcome) := Travel(net, at, d.next, RequestBytes(d.req));
      var reply := Reply(net, at, d.next, RequestBytes(d.req), say, dials);
      LastFittingCons(hop, hops, outcome, reply, say, dials);
      if reply.Some? {
        NormalTrip(reply.value);
      }
    } else {
      ServesAsAsked(net.nodes[at], from, req);
      if d.Reject? {
        RejectCodes(net.nodes[at], from, req);
      }
      var outcome := Travel(net, from, at, p).1;
      NormalTrip(FinalAnswer(hop, outcome, say, dials));
      LastFittingAlone(hop, outcome, say, dials);
    }
  }

  /** In particular, the answer of the node where the request ended, if its text fits. */
  lemma ClientReadsFinalAnswer(net: Network, from: Text, at: Text, p: Text, req: ConnectRequest,
                               say: (Text, Byte) -> Text, dials: Text -> bool)
    requires at in net.nodes && ParseRequest(p) == Some(req)
    ensures var (hops, outcome) := Travel(net, from, at, p);
      && hops != []
      && var answer := FinalAnswer(hops[|hops| - 1], outcome, say, dials);
         |answer.message| <= MAX_MESSAGE ==> Reply(net, from, at, p, say, dials) == Some(answer)
  {
    ClientReadsLastFitting(net, from, at, p, req, say, dials);
    hide Travel, Reply, FinalAnswer, ParseRequest;
    var (hops, outcome) := Travel(net, from, at, p);
    assert Fitting(hops, outcome, |hops| - 1, say, dials) <==> |FinalAnswer(hops[|hops| - 1], outcome, say, dials).message| <= MAX_MESSAGE;
  }

  lemma RejectCodes(cfg: NodeConfig, peer: Text, req: ConnectRequest)
    requires Decide(cfg, peer, req).Reject?
    ensures Decide(cfg, peer, req).code != CODE_OK && KnownCode(Decide(cfg, peer, req).code)
  {
  }

  lemma ServesAsAsked(cfg: NodeConfig, peer: Text, req: ConnectRequest)
    ensures Decide(cfg, peer, req).ServeE2E? ==> req.e2eRequired
    ensures Decide(cfg, peer, req).ServePlain? ==> !req.e2eRequired
  {
  }

  lemma ForwardsStripped(cfg: NodeConfig, peer: Text, req: ConnectRequest)
    ensures Decide(cfg, peer, req).Forward? ==>
      |req.route| > 1 && Decide(cfg, peer, req) == Forward(req.route[1], StripHop(req))
  {
  }

  /** Every request that parses ends in a service or in a known error code; that a target
      cannot be dialled shows only in the answer. */
  lemma {:induction false} OutcomeCodes(net: Network, from: Text, at: Text, p: Text, req: ConnectRequest)
    requires at in net.nodes && ParseRequest(p) == Some(req)
    ensures var outcome := Travel(net, from, at, p).1;
      outcome.Served? || (outcome.Rejected? && KnownCode(outcome.code) && outcome.code !in {CODE_OK, CODE_TARGET_DIAL_FAILED})
    decreases |p|
  {
    hide ParseRequest, RequestBytes, FindService;
    match Decide(net.nodes[at], from, req)
    case Forward(next, out) =>
      if next in net.nodes && (at, next) in net.links {
        ForwardedFits(p, req);
        RequestRoundTrip(out);
        OutcomeCodes(net, at, next, RequestBytes(out), out);
      }
    case _ =>
  }

  // ---------- the client's view of a failed setup ----------

  const CLOSE_ERROR: Byte := 1

  datatype SetupError = ConnectRejected(code: Byte, message: Text) | StreamClosed(close: Close) | OtherError

  datatype ServerAnswer = GotHello(hello: Hello) | GotError(error: SetupError)

  /** The first frame after an accepted E2E request: a server hello or a close. */
  function HelloOrClose(stream: Text): ServerAnswer {
    var frame := NextFrame(stream).0;
    if frame.None? then GotError(OtherError)
    else if frame.value.typ == TYPE_SERVER_HELLO then
      match ParseHello(frame.value.payload)
      case None => GotError(OtherError)
      case Some(h) => GotHello(h)
    else if frame.value.typ == TYPE_CLOSE then
      match ParseClose(frame.value.payload)
      case None => GotError(OtherError)
      case Some(c) => GotError(StreamClosed(c))
    else GotError(OtherError)
  }

  /** The client goes on with a hello if and only if the stream begins with the frame of
      that valid hello, and gets the close if and only if it begins with that close. */
  lemma HelloOrCloseExact(stream: Text, h: Hello, c: Close)
    ensures HelloOrClose(stream) == GotHello(h) <==>
      ValidHello(h) && |HelloBytes(h)| <= MAX_PAYLOAD && exists rest: Text :: stream == FrameBytes(Frame(TYPE_SERVER_HELLO, HelloBytes(h))) + rest
    ensures HelloOrClose(stream) == GotError(StreamClosed(c)) <==>
      ValidClose(c) && exists rest: Text :: stream == FrameBytes(Frame(TYPE_CLOSE, CloseBytes(c))) + rest
  {
    hide FrameBytes, ParseHello, ParseClose, HelloBytes, CloseBytes, ValidHello;
    var (frame, rest) := NextFrame(stream);
    if frame.Some? {
      HelloExact(frame.value.payload, h);
      CloseExact(frame.value.payload, c);
    }
    hide NextFrame;
    if ValidHello(h) && |HelloBytes(h)| <= MAX_PAYLOAD {
      var f := Frame(TYPE_SERVER_HELLO, HelloBytes(h));
      forall more: Text ensures NextFrame(FrameBytes(f) + more) == (Some(f), more) {
        NextFrameOfWritten(f, more);
      }
      HelloExact(f.payload, h);
    }
    if ValidClose(c) {
      var f := Frame(TYPE_CLOSE, CloseBytes(c));
      forall more: Text ensures NextFrame(FrameBytes(f) + more) == (Some(f), more) {
        NextFrameOfWritten(f, more);
      }
      CloseExact(f.payload, c);
    }
  }

  /** A close that carries a connect code counts as a rejection with that code. */
  function E2ESetupError(e: SetupError): SetupError {
    if e.StreamClosed? && KnownCode(e.close.connectCode) && e.close.connectCode != CODE_OK
    then ConnectRejected(e.close.connectCode, e.close.message) else e
  }

  predicate Retryable(e: SetupError) {
    e.ConnectRejected? ==> e.code in {CODE_UNREACHABLE_EGRESS, CODE_NEXT_HOP_UNREACHABLE, CODE_TARGET_DIAL_FAILED}
  }

  /** The error the client ends up with when the egress refuses by response. */
  function ErrorFromResponse(code: Byte, message: Text): SetupError {
    match WireTrip(ConnectResponse(false, code, message))
    case Some(r) => ConnectRejected(r.code, r.message)
    case None => OtherError
  }

  /** The same when the egress has already accepted and refuses by close frame. */
  function ErrorFromClose(code: Byte, message: Text): SetupError
    requires KnownCode(code) && |message| <= MAX_MESSAGE
  {
    match HelloOrClose(FrameBytes(Frame(TYPE_CLOSE, CloseBytes(Close(CLOSE_ERROR, code, message)))))
    case GotError(e) => E2ESetupError(e)
    case GotHello(_) => OtherError
  }

  /** Refusing by response or by close gives the client the same error, and so the same
      retry decision, exactly when the code is not OK. */
  lemma SameErrorEitherWay(code: Byte, message: Text)
    requires KnownCode(code) && |message| <= MAX_MESSAGE
    ensures ErrorFromResponse(code, message) == ErrorFromClose(code, message) <==> code != CODE_OK
    ensures Retryable(ErrorFromResponse(code, message)) == Retryable(ErrorFromClose(code, message)) <==> code != CODE_OK
  {
    hide NextFrame, FrameBytes, ParseClose, CloseBytes, WireTrip;
    var c := Close(CLOSE_ERROR, code, message);
    var f := Frame(TYPE_CLOSE, CloseBytes(c));
    NextFrameOfWritten(f, []);
    assert FrameBytes(f) + [] == FrameBytes(f);
    CloseExact(CloseBytes(c), c);
    WireTripExact(ConnectResponse(false, code, message));
  }
}
