/** How the client tries its candidates for one local connection: the requests it
    sends, the refusals it reads, and the one candidate it proxies on. */
module Fallback {
  import opened Bytes
  import opened ConnectCodec
  import opened E2ECodec
  import opened Relay
  import opened Responses
  import opened ClientConfig
  import opened Access

  /** What comes of one try on a session: no connection, no stream on it, a request that
      could not be written, no readable answer, or an answer. */
  datatype Contact = NoConnection | StreamFailed | SendFailed | NoAnswer | Answered(answer: ConnectResponse)

  /** What the world does to one candidate: the first contact, whether the client is
      being stopped after it, the contact after reconnecting, the error of the handshake
      if it fails, and whether the client is being stopped at the end. */
  datatype Env = Env(first: Contact, stoppedEarly: bool, second: Contact, handshake: Option<SetupError>, stopped: bool)

  datatype Client = Client(sessions: Sessions, id: Text, hasRuntime: bool, candidates: seq<Selected>, env: nat -> Env)

  /** What can be seen of the client from outside, by candidate. */
  datatype Event =
    | Asked(candidate: nat, server: Server, req: ConnectRequest)
    | Refused(candidate: nat, code: Byte)
    | Proxied(candidate: nat, e2e: bool)

  ghost predicate Ready(cl: Client) {
    cl.sessions.defaultId == [] || cl.sessions.defaultId in cl.sessions.table
  }

  // ---------- one candidate ----------

  predicate Writes(req: ConnectRequest, c: Contact) {
    ValidRequest(req) && !c.NoConnection? && !c.StreamFailed?
  }

  function TryEvents(k: nat, server: Server, req: ConnectRequest, c: Contact): seq<Event> {
    if !Writes(req, c) then []
    else if c.Answered? && !c.answer.ok then [Asked(k, server, req), Refused(k, c.answer.code)]
    else [Asked(k, server, req)]
  }

  /** The error of one try, none if the request was accepted. */
  function TryError(req: ConnectRequest, c: Contact): Option<SetupError> {
    if !Writes(req, c) || !c.Answered? then Some(OtherError)
    else if c.answer.ok then None
    else Some(ConnectRejected(c.answer.code, c.answer.message))
  }

  /** Another connection is tried only after a failure that was not a refusal. */
  predicate TriesAgain(req: ConnectRequest, env: Env) {
    var e := TryError(req, env.first);
    !env.first.NoConnection? && e.Some? && !e.value.ConnectRejected? && !env.stoppedEarly
  }

  function OpenEvents(k: nat, server: Server, req: ConnectRequest, env: Env): seq<Event> {
    TryEvents(k, server, req, env.first) + if TriesAgain(req, env) then TryEvents(k, server, req, env.second) else []
  }

  function OpenError(req: ConnectRequest, env: Env): Option<SetupError> {
    if TriesAgain(req, env) then TryError(req, env.second) else TryError(req, env.first)
  }

  function SentFor(cl: Client, k: nat): Option<(Server, ConnectRequest)>
    requires Ready(cl) && k < |cl.candidates|
  {
    RequestFor(cl.sessions, cl.id, cl.candidates[k])
  }

  function HandshakeError(cl: Client, k: nat): Option<SetupError> {
    if !cl.hasRuntime then Some(OtherError)
    else match cl.env(k).handshake
      case None => None
      case Some(e) => Some(E2ESetupError(e))
  }

  /** Why candidate k fails, none if it gets as far as proxying. */
  function AttemptError(cl: Client, k: nat): Option<SetupError>
    requires Ready(cl) && k < |cl.candidates|
  {
    match SentFor(cl, k)
    case None => Some(OtherError)
    case Some((_, req)) =>
      var opening := OpenError(req, cl.env(k));
      if opening.None? && E2ERequired(cl.candidates[k]) then HandshakeError(cl, k) else opening
  }

  function AttemptEvents(cl: Client, k: nat): seq<Event>
    requires Ready(cl) && k < |cl.candidates|
  {
    var opening := match SentFor(cl, k)
      case None => []
      case Some((server, req)) => OpenEvents(k, server, req, cl.env(k));
    opening + if AttemptError(cl, k).None? then [Proxied(k, E2ERequired(cl.candidates[k]))] else []
  }

  /** The reconnecting session's way of opening a stream. */
  method OpenTCPStream(k: nat, server: Server, req: ConnectRequest, env: Env) returns (trace: seq<Event>, error: Option<SetupError>)
    ensures trace == OpenEvents(k, server, req, env) && error == OpenError(req, env)
  {
    if env.first.NoConnection? {
      return [], Some(OtherError);
    }
    trace, error := TryEvents(k, server, req, env.first), TryError(req, env.first);
    if error.None? {
      return;
    }
    if env.stoppedEarly || error.value.ConnectRejected? {
      return;
    }
    if env.second.NoConnection? {
      return trace, Some(OtherError);
    }
    trace, error := trace + TryEvents(k, server, req, env.second), TryError(req, env.second);
  }

  // ---------- all candidates ----------

  /** Candidate k fails in a way that lets the client try another one. */
  predicate MovesOn(cl: Client, k: nat)
    requires Ready(cl) && k < |cl.candidates|
  {
    var e := AttemptError(cl, k);
    e.Some? && Retryable(e.value) && !cl.env(k).stopped
  }

  /** What is seen from candidate k on, and how many candidates have been tried then. */
  function RunFrom(cl: Client, k: nat): (r: (seq<Event>, nat))
    requires Ready(cl) && k <= |cl.candidates|
    ensures k <= r.1 <= |cl.candidates|
    decreases |cl.candidates| - k
  {
    if k == |cl.candidates| then ([], k)
    else if k + 1 < |cl.candidates| && MovesOn(cl, k) then
      var (rest, tried) := RunFrom(cl, k + 1);
      (AttemptEvents(cl, k) + rest, tried)
    else (AttemptEvents(cl, k), k + 1)
  }

  /** One round of the loop: open, then the handshake if required, then proxy. */
  method TryCandidate(cl: Client, i: nat) returns (trace: seq<Event>, error: Option<SetupError>)
    requires Ready(cl) && i < |cl.candidates|
    ensures trace == AttemptEvents(cl, i) && error == AttemptError(cl, i)
  {
    hide OpenEvents, OpenError, HandshakeError, RequestFor, E2ERequired;
    var required := E2ERequired(cl.candidates[i]);
    trace, error := [], Some(OtherError);
    var sent := RequestFor(cl.sessions, cl.id, cl.candidates[i]);
    if sent.Some? {
      trace, error := OpenTCPStream(i, sent.value.0, sent.value.1, cl.env(i));
    }
    if error.None? && required {
      error := HandshakeError(cl, i);
    }
    if error.None? {
      trace := trace + [Proxied(i, required)];
    }
  }

  method HandleLocalConnection(cl: Client) returns (trace: seq<Event>, tried: nat)
    requires Ready(cl)
    ensures (trace, tried) == RunFrom(cl, 0)
  {
    hide AttemptEvents, AttemptError, Retryable;
    trace, tried := [], 0;
    for i := 0 to |cl.candidates|
      invariant tried == i
      invariant trace + RunFrom(cl, i).0 == RunFrom(cl, 0).0 && RunFrom(cl, i).1 == RunFrom(cl, 0).1
    {
      var attempt, error := TryCandidate(cl, i);
      assert trace + (attempt + RunFrom(cl, i + 1).0) == (trace + attempt) + RunFrom(cl, i + 1).0;
      trace, tried := trace + attempt, i + 1;
      if error.None? {
        return;
      }
      var retry := !cl.env(i).stopped && i + 1 < |cl.candidates| && Retryable(error.value);
      if !retry {
        return;
      }
    }
    assert trace + [] == trace;
  }

  // ---------- what every run keeps ----------

  /** The client tries a prefix of the candidates: every one but the last tried failed in
      a way that allows another, and it stops only at the end of the list or when the
      last one did not fail in such a way. */
  lemma {:induction false} TriedIsExactPrefix(cl: Client, k: nat)
    requires Ready(cl) && k < |cl.candidates|
    ensures var tried := RunFrom(cl, k).1;
      && k < tried
      && (forall j | k <= j < tried - 1 :: MovesOn(cl, j))
      && (tried < |cl.candidates| ==> !MovesOn(cl, tried - 1))
    decreases |cl.candidates| - k
  {
    hide MovesOn, AttemptEvents;
    if k + 1 < |cl.candidates| && MovesOn(cl, k) {
      TriedIsExactPrefix(cl, k + 1);
    }
  }

  /** Candidates are taken one after the other. */
  predicate InOrder(t: seq<Event>, k: nat, tried: nat) {
    && (forall p | 0 <= p < |t| :: k <= t[p].candidate < tried)
    && (forall p, q | 0 <= p < q < |t| :: t[p].candidate <= t[q].candidate)
  }

  /** Only the last event can be the start of proxying; it follows a request of the same
      candidate, and is encrypted exactly when that candidate requires E2E. */
  predicate ProxiesLast(cl: Client, t: seq<Event>, tried: nat)
    requires tried <= |cl.candidates|
  {
    forall p | 0 <= p < |t| && t[p].Proxied? ::
      && p == |t| - 1 > 0 && t[p].candidate == tried - 1 && tried > 0
      && t[p].e2e == E2ERequired(cl.candidates[tried - 1])
      && t[p - 1].Asked? && t[p - 1].candidate == tried - 1
  }

  /** No candidate asks three times. */
  predicate AsksTwiceAtMost(t: seq<Event>) {
    forall p, q, r | 0 <= p < q < r < |t| && t[p].Asked? && t[q].Asked? && t[r].Asked? :: t[p].candidate < t[r].candidate
  }

  /** No candidate asks again after a refusal. */
  predicate RefusalsFinal(t: seq<Event>) {
    forall p, q | 0 <= p < q < |t| && t[p].Refused? && t[q].Asked? :: t[p].candidate < t[q].candidate
  }

  /** Every request sent is a valid one and the candidate's own, to its own session. */
  predicate AsksAsConfigured(cl: Client, t: seq<Event>)
    requires Ready(cl)
  {
    forall p | 0 <= p < |t| && t[p].Asked? ::
      && t[p].candidate < |cl.candidates| && ValidRequest(t[p].req)
      && SentFor(cl, t[p].candidate) == Some((t[p].server, t[p].req))
  }

  predicate Proxies(t: seq<Event>) {
    exists p :: 0 <= p < |t| && t[p].Proxied?
  }

  predicate Orderly(cl: Client, t: seq<Event>, k: nat, tried: nat)
    requires Ready(cl) && tried <= |cl.candidates|
  {
    InOrder(t, k, tried) && ProxiesLast(cl, t, tried) && AsksTwiceAtMost(t) && RefusalsFinal(t) && AsksAsConfigured(cl, t)
  }

  /** At most two requests and then at most one refusal. */
  predicate OpenShaped(t: seq<Event>, ask: Event) {
    && |t| <= 3 && (|t| == 3 ==> t[2] != ask)
    && forall p | 0 <= p < |t| :: t[p] == ask || (p == |t| - 1 && t[p].Refused? && t[p].candidate == ask.candidate)
  }

  /** If the stream is open, the last thing was a request. */
  lemma OpenShape(k: nat, server: Server, req: ConnectRequest, env: Env)
    ensures var t, ask := OpenEvents(k, server, req, env), Asked(k, server, req);
      && OpenShaped(t, ask) && (t != [] ==> ValidRequest(req))
      && (OpenError(req, env).None? ==> t != [] && t[|t| - 1] == ask)
  {
    hide ValidRequest;
  }

  lemma OpenedOrderly(cl: Client, k: nat, ask: Event, t: seq<Event>, last: Event)
    requires Ready(cl) && k < |cl.candidates| && ask.Asked? && ask.candidate == k
    requires SentFor(cl, k) == Some((ask.server, ask.req)) && ValidRequest(ask.req)
    requires OpenShaped(t, ask) && t != [] && t[|t| - 1] == ask && last == Proxied(k, E2ERequired(cl.candidates[k]))
    ensures Orderly(cl, t + [last], k, k + 1) && Proxies(t + [last])
  {
    hide ValidRequest, SentFor, E2ERequired;
    assert (t + [last])[|t|].Proxied?;
  }

  lemma FailedOrderly(cl: Client, k: nat, ask: Event, t: seq<Event>)
    requires Ready(cl) && k < |cl.candidates| && ask.Asked? && ask.candidate == k
    requires SentFor(cl, k) == Some((ask.server, ask.req)) && (t != [] ==> ValidRequest(ask.req)) && OpenShaped(t, ask)
    ensures Orderly(cl, t, k, k + 1) && !Proxies(t)
  {
    hide ValidRequest, SentFor;
  }

  lemma AttemptOrderly(cl: Client, k: nat)
    requires Ready(cl) && k < |cl.candidates|
    ensures var t := AttemptEvents(cl, k);
      Orderly(cl, t, k, k + 1) && (AttemptError(cl, k).None? <==> Proxies(t))
  {
    match SentFor(cl, k)
    case None =>
      assert AttemptEvents(cl, k) == [];
    case Some((server, req)) =>
      hide ValidRequest, RequestFor, HandshakeError, E2ERequired, OpenEvents, OpenError, Orderly, Proxies, OpenShaped;
      OpenShape(k, server, req, cl.env(k));
      var ask, opening := Asked(k, server, req), OpenEvents(k, server, req, cl.env(k));
      if AttemptError(cl, k).None? {
        OpenedOrderly(cl, k, ask, opening, Proxied(k, E2ERequired(cl.candidates[k])));
      } else {
        assert AttemptEvents(cl, k) == opening;
        FailedOrderly(cl, k, ask, opening);
      }
  }

  lemma InOrderCons(a: seq<Event>, rest: seq<Event>, k: nat, tried: nat)
    requires InOrder(a, k, k + 1) && InOrder(rest, k + 1, tried) && k + 1 <= tried
    ensures InOrder(a + rest, k, tried)
  {
  }

  lemma AsksTwiceCons(a: seq<Event>, rest: seq<Event>, k: nat, tried: nat)
    requires InOrder(a, k, k + 1) && InOrder(rest, k + 1, tried) && AsksTwiceAtMost(a) && AsksTwiceAtMost(rest)
    ensures AsksTwiceAtMost(a + rest)
  {
    var t := a + rest;
    forall p, q, r | 0 <= p < q < r < |t| && t[p].Asked? && t[q].Asked? && t[r].Asked?
      ensures t[p].candidate < t[r].candidate
    {
      if p < |a| <= r {
        assert a[p].candidate < k + 1 <= rest[r - |a|].candidate;
      } else if |a| <= p {
        assert rest[p - |a|].Asked? && rest[q - |a|].Asked? && rest[r - |a|].Asked?;
      }
    }
  }

  lemma RefusalsCons(a: seq<Event>, rest: seq<Event>, k: nat, tried: nat)
    requires InOrder(a, k, k + 1) && InOrder(rest, k + 1, tried) && RefusalsFinal(a) && RefusalsFinal(rest)
    ensures RefusalsFinal(a + rest)
  {
    var t := a + rest;
    forall p, q | 0 <= p < q < |t| && t[p].Refused? && t[q].Asked? ensures t[p].candidate < t[q].candidate {
      if p < |a| <= q {
        assert a[p].candidate < k + 1 <= rest[q - |a|].candidate;
      }
    }
  }

  lemma OrderlyCons(cl: Client, a: seq<Event>, rest: seq<Event>, k: nat, tried: nat)
    requires Ready(cl) && k + 1 <= tried <= |cl.candidates|
    requires Orderly(cl, a, k, k + 1) && Orderly(cl, rest, k + 1, tried) && !Proxies(a)
    ensures Orderly(cl, a + rest, k, tried)
    ensures Proxies(a + rest) <==> Proxies(rest)
  {
    hide ValidRequest, SentFor, E2ERequired, InOrder, AsksTwiceAtMost, RefusalsFinal;
    InOrderCons(a, rest, k, tried);
    AsksTwiceCons(a, rest, k, tried);
    RefusalsCons(a, rest, k, tried);
    var t := a + rest;
    assert forall p | 0 <= p < |rest| :: t[p + |a|] == rest[p];
    assert forall p | 0 <= p < |t| :: t[p] == if p < |a| then a[p] else rest[p - |a|];
  }

  /** In every run: requests go out candidate by candidate, at most two for each, none
      after a refusal, and the payload is proxied at most once, at the very end, never in
      plaintext where E2E is required. It is proxied exactly when the last attempt did
      not fail. */
  lemma {:induction false} EveryRunOrderly(cl: Client, k: nat)
    requires Ready(cl) && k < |cl.candidates|
    ensures var (t, tried) := RunFrom(cl, k);
      && Orderly(cl, t, k, tried) && tried > k
      && (AttemptError(cl, tried - 1).None? <==> Proxies(t))
    decreases |cl.candidates| - k
  {
    hide AttemptEvents, AttemptError, Orderly, Proxies;
    AttemptOrderly(cl, k);
    if k + 1 < |cl.candidates| && MovesOn(cl, k) {
      EveryRunOrderly(cl, k + 1);
      var (rest, tried) := RunFrom(cl, k + 1);
      OrderlyCons(cl, AttemptEvents(cl, k), rest, k, tried);
    }
  }

  /** The client proxies on candidate k exactly when k succeeds and every candidate
      before it failed in a way that allows another. */
  lemma ProxiedExactlyWhen(cl: Client, k: nat, e2e: bool)
    requires Ready(cl) && k < |cl.candidates|
    ensures Proxied(k, e2e) in RunFrom(cl, 0).0 <==>
      e2e == E2ERequired(cl.candidates[k]) && AttemptError(cl, k).None? && forall j | 0 <= j < k :: MovesOn(cl, j)
  {
    hide AttemptError, E2ERequired, RunFrom;
    var (t, tried) := RunFrom(cl, 0);
    TriedIsExactPrefix(cl, 0);
    EveryRunOrderly(cl, 0);
    FailsWhenMovingOn(cl, k);
    if AttemptError(cl, k).None? && forall j | 0 <= j < k :: MovesOn(cl, j) {
      assert tried == k + 1;
    }
  }

  lemma FailsWhenMovingOn(cl: Client, k: nat)
    requires Ready(cl) && k < |cl.candidates|
    ensures MovesOn(cl, k) ==> AttemptError(cl, k).Some?
  {
  }

  // ---------- what decides an attempt ----------

  predicate Accepts(req: ConnectRequest, c: Contact) {
    ValidRequest(req) && c.Answered? && c.answer.ok
  }

  predicate Declines(req: ConnectRequest, c: Contact) {
    ValidRequest(req) && c.Answered? && !c.answer.ok
  }

  /** The first contact had a connection but came to nothing, and the client is not being
      stopped: the session drops the connection and makes a second contact. */
  predicate SecondContact(req: ConnectRequest, env: Env) {
    !env.first.NoConnection? && !Accepts(req, env.first) && !Declines(req, env.first) && !env.stoppedEarly
  }

  /** A stream is open if and only if the first contact accepted, or came to nothing and the
      second accepted; it is refused with a code and a text if and only if the one that
      decides declined with them; and the request is sent on every contact that gets a
      stream, and on no other. */
  lemma OpenExactly(k: nat, server: Server, req: ConnectRequest, env: Env, code: Byte, message: Text)
    ensures var e, t := OpenError(req, env), OpenEvents(k, server, req, env);
      && (e.None? <==> Accepts(req, env.first) || (SecondContact(req, env) && Accepts(req, env.second)))
      && (e == Some(ConnectRejected(code, message)) <==>
            || (Declines(req, env.first) && env.first.answer.code == code && env.first.answer.message == message)
            || (SecondContact(req, env) && Declines(req, env.second) && env.second.answer.code == code && env.second.answer.message == message))
      && (Asked(k, server, req) in t <==>
            ValidRequest(req) && (|| !(env.first.NoConnection? || env.first.StreamFailed?)
                                  || (SecondContact(req, env) && !(env.second.NoConnection? || env.second.StreamFailed?))))
      && (Refused(k, code) in t <==>
            || (Declines(req, env.first) && env.first.answer.code == code)
            || (SecondContact(req, env) && Declines(req, env.second) && env.second.answer.code == code))
  {
    hide ValidRequest;
  }

  /** A candidate succeeds if and only if it has a session, its request is accepted, and where
      it requires E2E there is a runtime and the handshake completes. */
  lemma AttemptExactly(cl: Client, k: nat)
    requires Ready(cl) && k < |cl.candidates|
    ensures AttemptError(cl, k).None? <==>
      && SentFor(cl, k).Some?
      && var req, env := SentFor(cl, k).value.1, cl.env(k);
         && (Accepts(req, env.first) || (SecondContact(req, env) && Accepts(req, env.second)))
         && (E2ERequired(cl.candidates[k]) ==> cl.hasRuntime && env.handshake.None?)
  {
    hide SentFor, E2ERequired, OpenError, Accepts, SecondContact;
    if SentFor(cl, k).Some? {
      OpenExactly(k, SentFor(cl, k).value.0, SentFor(cl, k).value.1, cl.env(k), 0, []);
    }
  }

  /** The failure of candidate j lets the client try another: the client is not being stopped,
      and if a node refused, it refused because something was unreachable. */
  predicate MayGoOn(cl: Client, j: nat)
    requires Ready(cl) && j < |cl.candidates|
  {
    && !cl.env(j).stopped
    && match AttemptError(cl, j)
       case None => false
       case Some(e) => !e.ConnectRejected? || e.code == CODE_UNREACHABLE_EGRESS || e.code == CODE_NEXT_HOP_UNREACHABLE || e.code == CODE_TARGET_DIAL_FAILED
  }

  /** Candidate k is tried if and only if every one before it failed and let the client go
      on: not after a success, a stop or any other refusal. */
  lemma TriedExactlyWhen(cl: Client, k: nat)
    requires Ready(cl) && k < |cl.candidates|
    ensures k < RunFrom(cl, 0).1 <==> forall j | 0 <= j < k :: MayGoOn(cl, j)
  {
    hide RunFrom, AttemptError;
    TriedIsExactPrefix(cl, 0);
    var tried := RunFrom(cl, 0).1;
    forall j | 0 <= j < |cl.candidates| ensures MovesOn(cl, j) <==> MayGoOn(cl, j) {
    }
    hide MovesOn, MayGoOn;
    if k >= tried {
      assert !MovesOn(cl, tried - 1);
    }
  }

  /** The client of a configuration and forward, whatever the world does to it. */
  predicate Serves(cl: Client, cfg: ClientConfig, f: Forward) {
    cl.sessions == SessionsOf(cfg.servers) && cl.candidates == Candidates(ResolverOf(cfg.routes), f)
  }

  /** In every run of an accepted client, requests carry the E2E flag and payload is proxied
      encrypted exactly as the forward's mode asks for the candidate's route: always, on
      more than one hop, or never. */
  lemma EncryptedExactlyWhen(cl: Client, cfg: ClientConfig, hostPort: Text -> bool, f: Forward)
    requires ValidClient(cfg, hostPort) && f in cfg.forwards && Serves(cl, cfg, f)
    ensures var t := RunFrom(cl, 0).0;
      forall p | 0 <= p < |t| ::
        && t[p].candidate < |cl.candidates|
        && var wanted := WantsE2E(f.e2e, cl.candidates[t[p].candidate].route);
           && (t[p].Proxied? ==> t[p].e2e == wanted)
           && (t[p].Asked? ==> t[p].req.e2eRequired == wanted && t[p].req.service == f.service)
  {
    CandidatesExactly(cfg.routes, f);
    EveryRunOrderly(cl, 0);
    var t := RunFrom(cl, 0).0;
    forall p | 0 <= p < |t| && t[p].Asked?
      ensures t[p].candidate < |cl.candidates| && t[p].req.e2eRequired == WantsE2E(f.e2e, cl.candidates[t[p].candidate].route)
      ensures t[p].req.service == f.service
    {
      RequestsExactly(cfg, hostPort, f, cl.id, t[p].candidate);
    }
    hide RunFrom, WantsE2E, E2ERequired, ValidClient, Candidates, ResolverOf;
  }

  // ---------- the client in a network ----------

  /** What a session gives if every node that is there can be dialled and no frame is
      lost. */
  function NetContact(net: Network, from: Text, server: Server, req: ConnectRequest, say: (Text, Byte) -> Text, dials: Text -> bool): Contact {
    if server.id !in net.nodes then NoConnection
    else if !ValidRequest(req) then SendFailed
    else match Reply(net, from, server.id, RequestBytes(req), say, dials)
      case None => NoAnswer
      case Some(r) => Answered(r)
  }

  /** What the handshake gives if certificates verify and no frame is lost. */
  function NetShake(net: Network, from: Text, server: Server, req: ConnectRequest, say: (Text, Byte) -> Text, dials: Text -> bool): Option<SetupError> {
    if server.id in net.nodes && ValidRequest(req) then NetHandshake(net, from, server.id, req, say, dials) else None
  }

  /** The client of a configuration and forward, in a network whose node IDs match: what
      each candidate meets is what the nodes decide, texts fit their frames, and nobody
      stops the client. Servers may be missing and requests too long. */
  ghost predicate InNetwork(cl: Client, cfg: ClientConfig, f: Forward, net: Network, say: (Text, Byte) -> Text, dials: Text -> bool) {
    && cl.sessions == SessionsOf(cfg.servers) && cl.hasRuntime == (cfg.serviceCA != [])
    && cl.candidates == Candidates(ResolverOf(cfg.routes), f)
    && Consistent(net) && (forall node, code :: |say(node, code)| <= MAX_MESSAGE)
    && forall k | 0 <= k < |cl.candidates| ::
         && !cl.env(k).stopped
         && match SentFor(cl, k)
            case None => true
            case Some((server, req)) =>
              && cl.env(k).first == NetContact(net, cfg.nodeId, server, req, say, dials)
              && cl.env(k).handshake == NetShake(net, cfg.nodeId, server, req, say, dials)
  }

  /** Such a client, for every configuration, forward and network. */
  function NetworkClient(cfg: ClientConfig, f: Forward, id: Text, net: Network, say: (Text, Byte) -> Text, dials: Text -> bool): (cl: Client)
    ensures Ready(cl)
  {
    var sessions, candidates := SessionsOf(cfg.servers), Candidates(ResolverOf(cfg.routes), f);
    var env := (k: nat) =>
      if k >= |candidates| then Env(NoConnection, false, NoConnection, None, false)
      else match RequestFor(sessions, id, candidates[k])
        case None => Env(NoConnection, false, NoConnection, None, false)
        case Some((server, req)) =>
          Env(NetContact(net, cfg.nodeId, server, req, say, dials), false, NoConnection,
              NetShake(net, cfg.nodeId, server, req, say, dials), false);
    Client(sessions, id, cfg.serviceCA != [], candidates, env)
  }

  lemma NetworkClientInNetwork(cfg: ClientConfig, f: Forward, id: Text, net: Network, say: (Text, Byte) -> Text, dials: Text -> bool)
    ensures var cl := NetworkClient(cfg, f, id, net, say, dials);
      InNetwork(cl, cfg, f, net, say, dials) <==> Consistent(net) && forall node, code :: |say(node, code)| <= MAX_MESSAGE
  {
    hide Consistent, ValidRequest, NetContact, NetShake, Candidates, RequestFor, SessionsOf, ResolverOf;
  }

  /** A request that is sent and gets through to its target. */
  ghost predicate GetsThrough(net: Network, client: Text, server: Server, req: ConnectRequest, dials: Text -> bool) {
    ValidRequest(req) && server.id in net.nodes && Works(net, client, server.id, req, dials)
  }

  /** A request that cannot be written, has no server to go to, or ends at something
      unreachable. */
  ghost predicate GetsNowhere(net: Network, client: Text, server: Server, req: ConnectRequest, dials: Text -> bool) {
    !ValidRequest(req) || server.id !in net.nodes || EndsUnreachable(net, client, server.id, req, dials)
  }

  /** An attempt in a network is the setup of its request; without a server or a request
      that can be written it fails at once. */
  lemma AttemptIsSetup(cl: Client, k: nat, net: Network, client: Text, server: Server, req: ConnectRequest,
                       say: (Text, Byte) -> Text, dials: Text -> bool)
    requires Ready(cl) && k < |cl.candidates| && SentFor(cl, k) == Some((server, req))
    requires req.e2eRequired == E2ERequired(cl.candidates[k]) && (req.e2eRequired ==> cl.hasRuntime)
    requires cl.env(k).first == NetContact(net, client, server, req, say, dials)
    requires cl.env(k).handshake == NetShake(net, client, server, req, say, dials)
    ensures if server.id !in net.nodes || !ValidRequest(req) then AttemptError(cl, k) == Some(OtherError)
      else
        var e := Setup(net, client, server.id, req, say, dials);
        (e.Some? ==> e.value.ConnectRejected?) ==> AttemptError(cl, k) == e
  {
    hide ValidRequest, E2ERequired, SentFor, Reply, NetHandshake, RequestBytes;
  }

  /** The request of a candidate of an accepted configuration. */
  lemma SentOverNetwork(cl: Client, cfg: ClientConfig, hostPort: Text -> bool, f: Forward, net: Network,
                        say: (Text, Byte) -> Text, dials: Text -> bool, k: nat)
    requires ValidClient(cfg, hostPort) && f in cfg.forwards && InNetwork(cl, cfg, f, net, say, dials) && k < |cl.candidates|
    ensures E2ERequired(cl.candidates[k]) ==> cl.hasRuntime
    ensures SentFor(cl, k).Some?
    ensures var (server, req) := SentFor(cl, k).value;
      && req.e2eRequired == E2ERequired(cl.candidates[k])
      && (server.id in net.nodes && ValidRequest(req) ==>
            var outcome := Travel(net, cfg.nodeId, server.id, RequestBytes(req)).1;
            !(outcome.Rejected? && RoutingCode(outcome.code)))
  {
    hide ValidClient, Candidates, Travel, ValidRequest, NetContact, NetShake, E2ERequired, SelectSession, WellRouted, Consistent;
    AcceptedForwardsWork(cfg, hostPort, f, cl.id);
    assert Routable(cfg.servers, cl.id, cl.candidates[k]);
    AcceptedRequestsTravel(cfg, hostPort, f, cl.id, k, net);
  }

  /** For a request that is routed right, the setup lets the client move on exactly when
      it ends at something unreachable. */
  lemma SetupDecides(net: Network, client: Text, at: Text, req: ConnectRequest, say: (Text, Byte) -> Text, dials: Text -> bool)
    requires at in net.nodes && ValidRequest(req) && (forall node, code :: |say(node, code)| <= MAX_MESSAGE)
    requires var outcome := Travel(net, client, at, RequestBytes(req)).1; !(outcome.Rejected? && RoutingCode(outcome.code))
    ensures var e := Setup(net, client, at, req, say, dials);
      && (e.Some? ==> e.value.ConnectRejected?)
      && (e.None? <==> Works(net, client, at, req, dials))
      && (e.Some? && Retryable(e.value) <==> EndsUnreachable(net, client, at, req, dials))
  {
    RequestRoundTrip(req);
    EndsAtEgress(net, client, at, req);
    hide ValidRequest, Travel, RequestBytes, ParseRequest, Reaches, Stopped, Setup, EgressOf, Retryable;
    SetupExactlyWhen(net, client, at, req, say, dials);
    RejectedExactlyWhen(net, client, at, RequestBytes(req), req, CODE_UNREACHABLE_EGRESS);
    if Works(net, client, at, req, dials) {
      ServedIsNotStopped(net, client, at, req, CODE_NEXT_HOP_UNREACHABLE);
    }
  }

  /** A candidate of an accepted configuration succeeds exactly when its request gets
      through, and lets the client move on exactly when it gets nowhere. */
  lemma AttemptOverNetwork(cl: Client, cfg: ClientConfig, hostPort: Text -> bool, f: Forward, net: Network,
                           say: (Text, Byte) -> Text, dials: Text -> bool, k: nat)
    requires ValidClient(cfg, hostPort) && f in cfg.forwards && InNetwork(cl, cfg, f, net, say, dials) && k < |cl.candidates|
    ensures SentFor(cl, k).Some?
    ensures var (server, req) := SentFor(cl, k).value;
      && (AttemptError(cl, k).None? <==> GetsThrough(net, cfg.nodeId, server, req, dials))
      && (MovesOn(cl, k) <==> GetsNowhere(net, cfg.nodeId, server, req, dials))
  {
    hide ValidClient, Travel, NetContact, NetShake, ValidRequest, E2ERequired, SentFor, Works, EndsUnreachable,
      RequestBytes, AttemptError, Setup, Retryable;
    SentOverNetwork(cl, cfg, hostPort, f, net, say, dials, k);
    var (server, req) := SentFor(cl, k).value;
    AttemptIsSetup(cl, k, net, cfg.nodeId, server, req, say, dials);
    OtherIsRetryable();
    if server.id in net.nodes && ValidRequest(req) {
      SetupDecides(net, cfg.nodeId, server.id, req, say, dials);
    }
  }

  lemma OtherIsRetryable()
    ensures Retryable(OtherError)
  {
  }

  /** In a network, an accepted client proxies on candidate k if and only if k gets through
      to its target and every candidate before it gets nowhere: it steps over servers that
      are missing, hops and targets that are unreachable and requests that cannot be
      written, and never over a denial, by response or in the handshake. */
  lemma FirstWorkingCandidate(cl: Client, cfg: ClientConfig, hostPort: Text -> bool, f: Forward, net: Network,
                              say: (Text, Byte) -> Text, dials: Text -> bool, k: nat)
    requires ValidClient(cfg, hostPort) && f in cfg.forwards && InNetwork(cl, cfg, f, net, say, dials) && k < |cl.candidates|
    ensures forall j | 0 <= j < |cl.candidates| :: SentFor(cl, j).Some?
    ensures Proxied(k, E2ERequired(cl.candidates[k])) in RunFrom(cl, 0).0 <==>
      && GetsThrough(net, cfg.nodeId, SentFor(cl, k).value.0, SentFor(cl, k).value.1, dials)
      && forall j | 0 <= j < k :: GetsNowhere(net, cfg.nodeId, SentFor(cl, j).value.0, SentFor(cl, j).value.1, dials)
  {
    forall j | 0 <= j < |cl.candidates|
      ensures SentFor(cl, j).Some?
      ensures var (server, req) := SentFor(cl, j).value;
        && (AttemptError(cl, j).None? <==> GetsThrough(net, cfg.nodeId, server, req, dials))
        && (MovesOn(cl, j) <==> GetsNowhere(net, cfg.nodeId, server, req, dials))
    {
      AttemptOverNetwork(cl, cfg, hostPort, f, net, say, dials, j);
    }
    hide ValidClient, GetsThrough, GetsNowhere, AttemptError, MovesOn, RunFrom, SentFor;
    ProxiedExactlyWhen(cl, k, E2ERequired(cl.candidates[k]));
  }
}
