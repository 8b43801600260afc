/** The end-to-end handshake between many clients and many egress services, with
    relays that deliver any message to anybody at any time. */
module Handshake {
  import opened Bytes
  import opened ConnectCodec
  import opened E2ECodec
  import opened Transcript
  import opened Policy

  /** The foreign functions: SHA-256, certificate chain verification (leaf key and
      node ID, leaf key and service name), X25519 and HKDF. */
  datatype Crypto = Crypto(
    sha: Text -> Text,
    clientCert: seq<Text> -> Option<(Text, Text)>,
    serviceCert: seq<Text> -> Option<(Text, Text)>,
    publicKey: Text -> Text,
    shared: (Text, Text) -> Option<Text>,
    hkdf: (Text, Text) -> Text)

  /** Hashing without collisions, and a key agreement both sides reach alike
      (section 6.1 of RFC 7748). */
  ghost predicate Ideal(c: Crypto) {
    && (forall x: Text, y: Text :: c.sha(x) == c.sha(y) ==> x == y)
    && (forall a: Text, b: Text :: c.shared(a, c.publicKey(b)) == c.shared(b, c.publicKey(a)))
    && (forall a: Text :: ValidKey(c.publicKey(a)))
  }

  datatype TrafficKeys = TrafficKeys(clientToServer: Text, serverToClient: Text)

  /** The keys of one side's encrypted reader and writer. */
  datatype Ends = Ends(readKey: Text, writeKey: Text)

  function ClientEnds(keys: Option<TrafficKeys>): Option<Ends> {
    match keys
    case None => None
    case Some(k) => Some(Ends(k.serverToClient, k.clientToServer))
  }

  function ServerEnds(keys: Option<TrafficKeys>): Option<Ends> {
    match keys
    case None => None
    case Some(k) => Some(Ends(k.clientToServer, k.serverToClient))
  }

  /** Both sides hold keys, and each reads under the key the other writes under. */
  predicate Crossed(client: Option<Ends>, server: Option<Ends>) {
    && client.Some? && server.Some?
    && client.value.writeKey == server.value.readKey && client.value.readKey == server.value.writeKey
  }

  /** Who a client session answered: the service certificate key and the server's
      ephemeral key. */
  datatype Answer = Answer(serviceKey: Text, serverEphemeral: Text)

  datatype ClientSession = ClientSession(
    certKey: Text,
    ctx: Context,
    private: Text,
    answered: Option<Answer>,
    keys: Option<Ends>)

  /** The client an egress session admitted, and its own ephemeral key. */
  datatype Admission = Admission(certKey: Text, nodeId: Text, clientEphemeral: Text, private: Text)

  datatype ServerSession = ServerSession(
    serviceKey: Text,
    svc: ServiceConfig,
    ctx: Context,
    admitted: Option<Admission>,
    keys: Option<Ends>)

  /** All sessions, every signature an honest party has made (key and digest), and
      the ephemeral keys in use. */
  datatype System = System(
    clients: map<nat, ClientSession>,
    servers: map<nat, ServerSession>,
    signed: set<(Text, Text)>,
    ephemerals: set<Text>)

  /** A move of the system: a session starts or a message of anybody's making reaches
      one. The egress also reports whether its target could be dialled. */
  datatype Step =
    | ClientStart(cid: nat, certKey: Text, ctx: Context, private: Text)
    | ClientGetsHello(cid: nat, hello: Hello)
    | ServerStart(sid: nat, serviceKey: Text, svc: ServiceConfig, req: ConnectRequest)
    | ServerGetsHello(sid: nat, hello: Hello, dialled: bool, private: Text)
    | ServerGetsFinished(sid: nat)

  function Digest(c: Crypto, d: Domain, ctx: Context, clientKey: Text, serverKey: Option<Text>): Option<Text> {
    if ValidTranscript(ctx, clientKey, serverKey) then Some(c.sha(TranscriptBytes(d, ctx, clientKey, serverKey))) else None
  }

  /** A signature counts when the key's holder made it, or when the key is in the
      hands of the other side. */
  predicate Verifies(corrupt: set<Text>, s: System, key: Text, digest: Option<Text>) {
    digest.Some? && (key in corrupt || (key, digest.value) in s.signed)
  }

  function Sign(s: System, key: Text, digest: Option<Text>): System {
    if digest.Some? then s.(signed := s.signed + {(key, digest.value)}) else s
  }

  /** The first half of the key material protects client-to-server traffic. */
  function Derive(c: Crypto, private: Text, peer: Text, hash: Option<Text>): Option<TrafficKeys>
  {
    match (c.shared(private, peer), hash)
    case (Some(secret), Some(h)) =>
      var material := c.hkdf(secret, h);
      if |material| != 64 then None else Some(TrafficKeys(material[..32], material[32..]))
    case _ => None
  }

  /** The context the egress rebuilds: the E2E route if there is one, else the route. */
  function EgressContext(req: ConnectRequest): Context {
    Context(req.id, req.service, req.egress, if req.e2eRoute != [] then req.e2eRoute else req.route)
  }

  /** What one move does; a message that fails a check changes nothing. */
  function Apply(c: Crypto, corrupt: set<Text>, s: System, step: Step): System
  {
    match step
    case ClientStart(cid, certKey, ctx, private) =>
      var pub := c.publicKey(private);
      if cid in s.clients || pub in s.ephemerals || !ValidTranscript(ctx, pub, None) then s
      else
        var digest := Digest(c, ClientHelloDomain, ctx, pub, None);
        Sign(s.(clients := s.clients[cid := ClientSession(certKey, ctx, private, None, None)],
                ephemerals := s.ephemerals + {pub}), certKey, digest)
    case ClientGetsHello(cid, hello) =>
      if cid !in s.clients || s.clients[cid].answered.Some? then s
      else
        var me := s.clients[cid];
        var pub := c.publicKey(me.private);
        var cert := c.serviceCert(hello.chain);
        if cert.None? || cert.value.1 != me.ctx.service
           || !Verifies(corrupt, s, cert.value.0, Digest(c, ServerHelloDomain, me.ctx, pub, Some(hello.key))) then s
        else
          var keys := Derive(c, me.private, hello.key, Digest(c, TranscriptDomain, me.ctx, pub, Some(hello.key)));
          Sign(s.(clients := s.clients[cid := me.(answered := Some(Answer(cert.value.0, hello.key)), keys := ClientEnds(keys))]),
               me.certKey, Digest(c, ClientFinishedDomain, me.ctx, pub, Some(hello.key)))
    case ServerStart(sid, serviceKey, svc, req) =>
      if sid in s.servers then s
      else s.(servers := s.servers[sid := ServerSession(serviceKey, svc, EgressContext(req), None, None)])
    case ServerGetsHello(sid, hello, dialled, private) =>
      if sid !in s.servers || s.servers[sid].admitted.Some? then s
      else
        var me := s.servers[sid];
        var pub := c.publicKey(private);
        var cert := c.clientCert(hello.chain);
        if cert.None? || !Verifies(corrupt, s, cert.value.0, Digest(c, ClientHelloDomain, me.ctx, hello.key, None))
           || !AllowsPeer(me.svc, cert.value.1) || !dialled || pub in s.ephemerals then s
        else
          Sign(s.(servers := s.servers[sid := me.(admitted := Some(Admission(cert.value.0, cert.value.1, hello.key, private)))],
                  ephemerals := s.ephemerals + {pub}),
               me.serviceKey, Digest(c, ServerHelloDomain, me.ctx, hello.key, Some(pub)))
    case ServerGetsFinished(sid) =>
      if sid !in s.servers || s.servers[sid].admitted.None? then s
      else
        var me := s.servers[sid];
        var a := me.admitted.value;
        var pub := c.publicKey(a.private);
        if !Verifies(corrupt, s, a.certKey, Digest(c, ClientFinishedDomain, me.ctx, a.clientEphemeral, Some(pub))) then s
        else
          var keys := Derive(c, a.private, a.clientEphemeral, Digest(c, TranscriptDomain, me.ctx, a.clientEphemeral, Some(pub)));
          s.(servers := s.servers[sid := me.(keys := ServerEnds(keys))])
  }

  const INITIAL := System(map[], map[], {}, {})

  function RunSystem(c: Crypto, corrupt: set<Text>, steps: seq<Step>): System
  {
    if steps == [] then INITIAL else Apply(c, corrupt, RunSystem(c, corrupt, steps[..|steps| - 1]), steps[|steps| - 1])
  }

  // ---------- what every run keeps ----------

  /** The session behind a signature made with this key on this digest. */
  ghost predicate ByClientHello(c: Crypto, s: System, key: Text, digest: Text, cid: nat) {
    && cid in s.clients && s.clients[cid].certKey == key
    && Digest(c, ClientHelloDomain, s.clients[cid].ctx, c.publicKey(s.clients[cid].private), None) == Some(digest)
  }

  ghost predicate ByClientFinished(c: Crypto, s: System, key: Text, digest: Text, cid: nat) {
    && cid in s.clients && s.clients[cid].certKey == key && s.clients[cid].answered.Some?
    && Digest(c, ClientFinishedDomain, s.clients[cid].ctx, c.publicKey(s.clients[cid].private),
              Some(s.clients[cid].answered.value.serverEphemeral)) == Some(digest)
  }

  ghost predicate ByServerHello(c: Crypto, s: System, key: Text, digest: Text, sid: nat) {
    && sid in s.servers && s.servers[sid].serviceKey == key && s.servers[sid].admitted.Some?
    && Digest(c, ServerHelloDomain, s.servers[sid].ctx, s.servers[sid].admitted.value.clientEphemeral,
              Some(c.publicKey(s.servers[sid].admitted.value.private))) == Some(digest)
  }

  ghost predicate Explained(c: Crypto, s: System, key: Text, digest: Text) {
    || (exists cid :: ByClientHello(c, s, key, digest, cid))
    || (exists cid :: ByClientFinished(c, s, key, digest, cid))
    || (exists sid :: ByServerHello(c, s, key, digest, sid))
  }

  /** Every honest signature was made by a session, for that session's own context. */
  ghost predicate SignedBySessions(c: Crypto, s: System) {
    forall k: Text, d: Text | (k, d) in s.signed :: Explained(c, s, k, d)
  }

  /** Some chain verifies as a certificate of this key for this service. */
  ghost predicate ServiceCertified(c: Crypto, key: Text, service: Text) {
    exists chain: seq<Text> :: c.serviceCert(chain) == Some((key, service))
  }

  /** Some chain verifies as a certificate of this key for this node. */
  ghost predicate ClientCertified(c: Crypto, key: Text, node: Text) {
    exists chain: seq<Text> :: c.clientCert(chain) == Some((key, node))
  }

  /** A client session holds keys only after a service certificate for its own service
      signed its context and both ephemeral keys. */
  ghost predicate ClientJustified(c: Crypto, corrupt: set<Text>, s: System, cid: nat)
    requires cid in s.clients
  {
    var me := s.clients[cid];
    var pub := c.publicKey(me.private);
    && pub in s.ephemerals
    && (me.answered.None? ==> me.keys.None?)
    && (me.answered.Some? ==>
          var se := me.answered.value.serverEphemeral;
          && ServiceCertified(c, me.answered.value.serviceKey, me.ctx.service)
          && Verifies(corrupt, s, me.answered.value.serviceKey, Digest(c, ServerHelloDomain, me.ctx, pub, Some(se)))
          && me.keys == ClientEnds(Derive(c, me.private, se, Digest(c, TranscriptDomain, me.ctx, pub, Some(se)))))
  }

  ghost predicate ServerJustified(c: Crypto, corrupt: set<Text>, s: System, sid: nat)
    requires sid in s.servers
  {
    var me := s.servers[sid];
    && (me.admitted.None? ==> me.keys.None?)
    && (me.admitted.Some? ==>
          var a := me.admitted.value;
          var pub := c.publicKey(a.private);
          && pub in s.ephemerals
          && ClientCertified(c, a.certKey, a.nodeId) && AllowsPeer(me.svc, a.nodeId)
          && Verifies(corrupt, s, a.certKey, Digest(c, ClientHelloDomain, me.ctx, a.clientEphemeral, None))
          && (me.keys.Some? ==>
                && Verifies(corrupt, s, a.certKey, Digest(c, ClientFinishedDomain, me.ctx, a.clientEphemeral, Some(pub)))
                && me.keys == ServerEnds(Derive(c, a.private, a.clientEphemeral, Digest(c, TranscriptDomain, me.ctx, a.clientEphemeral, Some(pub))))))
  }

  ghost predicate FreshServerKeys(c: Crypto, s: System) {
    forall i, j | i in s.servers && j in s.servers && i != j && s.servers[i].admitted.Some? && s.servers[j].admitted.Some? ::
      c.publicKey(s.servers[i].admitted.value.private) != c.publicKey(s.servers[j].admitted.value.private)
  }

  ghost predicate FreshClientKeys(c: Crypto, s: System) {
    forall i, j | i in s.clients && j in s.clients && i != j ::
      c.publicKey(s.clients[i].private) != c.publicKey(s.clients[j].private)
  }

  ghost predicate Inv(c: Crypto, corrupt: set<Text>, s: System)
  {
    && SignedBySessions(c, s)
    && (forall cid | cid in s.clients :: ClientJustified(c, corrupt, s, cid))
    && (forall sid | sid in s.servers :: ServerJustified(c, corrupt, s, sid))
    && FreshServerKeys(c, s) && FreshClientKeys(c, s)
  }

  /** The later system still holds every session and signature of the earlier one. */
  ghost predicate Extends(s: System, t: System) {
    && s.signed <= t.signed && s.ephemerals <= t.ephemerals
    && (forall i | i in s.clients ::
          && i in t.clients
          && t.clients[i].certKey == s.clients[i].certKey && t.clients[i].ctx == s.clients[i].ctx
          && t.clients[i].private == s.clients[i].private
          && (s.clients[i].answered.Some? ==> t.clients[i].answered == s.clients[i].answered))
    && (forall i | i in s.servers ::
          && i in t.servers
          && t.servers[i].serviceKey == s.servers[i].serviceKey && t.servers[i].ctx == s.servers[i].ctx
          && (s.servers[i].admitted.Some? ==> t.servers[i].admitted == s.servers[i].admitted))
  }

  lemma ExplainedKept(c: Crypto, s: System, t: System, key: Text, digest: Text)
    requires Extends(s, t) && Explained(c, s, key, digest)
    ensures Explained(c, t, key, digest)
  {
    hide Digest;
    if cid :| ByClientHello(c, s, key, digest, cid) {
      assert ByClientHello(c, t, key, digest, cid);
    } else if cid :| ByClientFinished(c, s, key, digest, cid) {
      assert ByClientFinished(c, t, key, digest, cid);
    } else {
      var sid :| ByServerHello(c, s, key, digest, sid);
      assert ByServerHello(c, t, key, digest, sid);
    }
  }

  /** Old signatures stay explained, so only a new one needs an explanation. */
  lemma SignaturesKept(c: Crypto, s: System, t: System, new_: Option<(Text, Text)>)
    requires SignedBySessions(c, s) && Extends(s, t)
    requires match new_ case None => t.signed == s.signed
             case Some((k, d)) => t.signed == s.signed + {(k, d)} && Explained(c, t, k, d)
    ensures SignedBySessions(c, t)
  {
    hide Explained, Extends;
    forall k: Text, d: Text | (k, d) in t.signed ensures Explained(c, t, k, d) {
      if (k, d) in s.signed {
        ExplainedKept(c, s, t, k, d);
      }
    }
  }

  lemma ClientKept(c: Crypto, corrupt: set<Text>, s: System, t: System, i: nat)
    requires Extends(s, t) && i in s.clients && ClientJustified(c, corrupt, s, i) && t.clients[i] == s.clients[i]
    ensures ClientJustified(c, corrupt, t, i)
  {
    hide Digest, Derive;
  }

  lemma ServerKept(c: Crypto, corrupt: set<Text>, s: System, t: System, i: nat)
    requires Extends(s, t) && i in s.servers && ServerJustified(c, corrupt, s, i) && t.servers[i] == s.servers[i]
    ensures ServerJustified(c, corrupt, t, i)
  {
    hide Digest, Derive, AllowsPeer;
  }

  /** Sessions a step does not touch stay justified. */
  lemma SessionsKept(c: Crypto, corrupt: set<Text>, s: System, t: System)
    requires Inv(c, corrupt, s) && Extends(s, t)
    ensures forall i | i in s.clients && t.clients[i] == s.clients[i] :: ClientJustified(c, corrupt, t, i)
    ensures forall i | i in s.servers && t.servers[i] == s.servers[i] :: ServerJustified(c, corrupt, t, i)
  {
    hide SignedBySessions, FreshServerKeys, FreshClientKeys, ClientJustified, ServerJustified;
    forall i | i in s.clients && t.clients[i] == s.clients[i] ensures ClientJustified(c, corrupt, t, i) {
      ClientKept(c, corrupt, s, t, i);
    }
    forall i | i in s.servers && t.servers[i] == s.servers[i] ensures ServerJustified(c, corrupt, t, i) {
      ServerKept(c, corrupt, s, t, i);
    }
  }

  lemma DigestDefined(c: Crypto, d: Domain, ctx: Context, k: Text, sk: Option<Text>)
    ensures Digest(c, d, ctx, k, sk).Some? <==> ValidTranscript(ctx, k, sk)
  {
  }

  lemma ExplainedBy(c: Crypto, s: System, key: Text, digest: Text, i: nat)
    requires ByClientHello(c, s, key, digest, i) || ByClientFinished(c, s, key, digest, i) || ByServerHello(c, s, key, digest, i)
    ensures Explained(c, s, key, digest)
  {
  }

  /** No step loses a session or a signature. */
  lemma StepExtends(c: Crypto, corrupt: set<Text>, s: System, step: Step)
    ensures Extends(s, Apply(c, corrupt, s, step))
  {
    hide Digest, Derive, AllowsPeer, ValidTranscript, Verifies;
  }

  lemma ClientStartKeeps(c: Crypto, corrupt: set<Text>, s: System, step: Step)
    requires Inv(c, corrupt, s) && step.ClientStart?
    ensures Inv(c, corrupt, Apply(c, corrupt, s, step))
  {
    hide Extends, Explained, Digest, Derive, AllowsPeer, ValidTranscript, SignedBySessions, ServerJustified;
    var t := Apply(c, corrupt, s, step);
    if t != s {
      var pub := c.publicKey(step.private);
      DigestDefined(c, ClientHelloDomain, step.ctx, pub, None);
      var digest := Digest(c, ClientHelloDomain, step.ctx, pub, None).value;
      StepExtends(c, corrupt, s, step);
      ExplainedBy(c, t, step.certKey, digest, step.cid);
      SignaturesKept(c, s, t, Some((step.certKey, digest)));
      SessionsKept(c, corrupt, s, t);
      forall i | i in s.clients ensures c.publicKey(s.clients[i].private) != pub {
        assert ClientJustified(c, corrupt, s, i);
      }
    }
  }

  lemma ClientGetsHelloKeeps(c: Crypto, corrupt: set<Text>, s: System, step: Step)
    requires Inv(c, corrupt, s) && step.ClientGetsHello?
    ensures Inv(c, corrupt, Apply(c, corrupt, s, step))
  {
    hide Extends, Explained, Digest, Derive, AllowsPeer, ValidTranscript, SignedBySessions, ServerJustified;
    var t := Apply(c, corrupt, s, step);
    if t != s {
      var me := s.clients[step.cid];
      var pub := c.publicKey(me.private);
      DigestDefined(c, ServerHelloDomain, me.ctx, pub, Some(step.hello.key));
      DigestDefined(c, ClientFinishedDomain, me.ctx, pub, Some(step.hello.key));
      var digest := Digest(c, ClientFinishedDomain, me.ctx, pub, Some(step.hello.key)).value;
      StepExtends(c, corrupt, s, step);
      ExplainedBy(c, t, me.certKey, digest, step.cid);
      SignaturesKept(c, s, t, Some((me.certKey, digest)));
      SessionsKept(c, corrupt, s, t);
      assert ClientJustified(c, corrupt, s, step.cid);
      assert ClientJustified(c, corrupt, t, step.cid);
    }
  }

  lemma ServerStartKeeps(c: Crypto, corrupt: set<Text>, s: System, step: Step)
    requires Inv(c, corrupt, s) && step.ServerStart?
    ensures Inv(c, corrupt, Apply(c, corrupt, s, step))
  {
    hide Extends, Explained, Digest, Derive, AllowsPeer, SignedBySessions, ClientJustified;
    if step.sid in s.servers {
      return;
    }
    var t := Apply(c, corrupt, s, step);
    StepExtends(c, corrupt, s, step);
    SignaturesKept(c, s, t, None);
    SessionsKept(c, corrupt, s, t);
  }

  lemma ServerGetsHelloKeeps(c: Crypto, corrupt: set<Text>, s: System, step: Step)
    requires Inv(c, corrupt, s) && step.ServerGetsHello? && Ideal(c)
    ensures Inv(c, corrupt, Apply(c, corrupt, s, step))
  {
    hide Extends, Explained, Digest, Derive, AllowsPeer, SignedBySessions, ClientJustified;
    var t := Apply(c, corrupt, s, step);
    if t != s {
      var me := s.servers[step.sid];
      var pub := c.publicKey(step.private);
      DigestDefined(c, ClientHelloDomain, me.ctx, step.hello.key, None);
      DigestDefined(c, ServerHelloDomain, me.ctx, step.hello.key, Some(pub));
      var digest := Digest(c, ServerHelloDomain, me.ctx, step.hello.key, Some(pub)).value;
      StepExtends(c, corrupt, s, step);
      ExplainedBy(c, t, me.serviceKey, digest, step.sid);
      SignaturesKept(c, s, t, Some((me.serviceKey, digest)));
      SessionsKept(c, corrupt, s, t);
      assert ServerJustified(c, corrupt, s, step.sid);
      assert ServerJustified(c, corrupt, t, step.sid);
      forall i | i in s.servers && i != step.sid && s.servers[i].admitted.Some?
        ensures c.publicKey(s.servers[i].admitted.value.private) != pub
      {
        assert ServerJustified(c, corrupt, s, i);
      }
    }
  }

  lemma ServerGetsFinishedKeeps(c: Crypto, corrupt: set<Text>, s: System, step: Step)
    requires Inv(c, corrupt, s) && step.ServerGetsFinished?
    ensures Inv(c, corrupt, Apply(c, corrupt, s, step))
  {
    hide Extends, Explained, Digest, Derive, AllowsPeer, SignedBySessions, ClientJustified;
    var t := Apply(c, corrupt, s, step);
    if t != s {
      StepExtends(c, corrupt, s, step);
      SignaturesKept(c, s, t, None);
      SessionsKept(c, corrupt, s, t);
      assert ServerJustified(c, corrupt, s, step.sid);
      assert ServerJustified(c, corrupt, t, step.sid);
    }
  }

  lemma {:induction false} InvInEveryRun(c: Crypto, corrupt: set<Text>, steps: seq<Step>)
    requires Ideal(c)
    ensures Inv(c, corrupt, RunSystem(c, corrupt, steps))
  {
    hide Apply, Inv;
    if steps == [] {
      InvInitially(c, corrupt);
    } else {
      var n := |steps| - 1;
      InvInEveryRun(c, corrupt, steps[..n]);
      var s := RunSystem(c, corrupt, steps[..n]);
      match steps[n]
      case ClientStart(_, _, _, _) => ClientStartKeeps(c, corrupt, s, steps[n]);
      case ClientGetsHello(_, _) => ClientGetsHelloKeeps(c, corrupt, s, steps[n]);
      case ServerStart(_, _, _, _) => ServerStartKeeps(c, corrupt, s, steps[n]);
      case ServerGetsHello(_, _, _, _) => ServerGetsHelloKeeps(c, corrupt, s, steps[n]);
      case ServerGetsFinished(_) => ServerGetsFinishedKeeps(c, corrupt, s, steps[n]);
    }
  }

  lemma InvInitially(c: Crypto, corrupt: set<Text>)
    ensures Inv(c, corrupt, INITIAL)
  {
  }

  // ---------- agreement ----------

  /** Equal digests come from the same domain, context and keys. */
  lemma DigestInjective(c: Crypto, d: Domain, ctx: Context, k: Text, sk: Option<Text>,
                        d': Domain, ctx': Context, k': Text, sk': Option<Text>)
    requires Ideal(c)
    requires Digest(c, d, ctx, k, sk).Some? && Digest(c, d, ctx, k, sk) == Digest(c, d', ctx', k', sk')
    ensures d == d' && ctx == ctx' && k == k' && sk == sk'
  {
    hide TranscriptBytes;
    TranscriptInjective(d, ctx, k, sk, d', ctx', k', sk');
  }

  /** Client session cid and egress session sid share the context and both ephemeral
      keys. */
  ghost predicate Agree(c: Crypto, s: System, cid: nat, sid: nat) {
    && cid in s.clients && sid in s.servers
    && s.clients[cid].answered.Some? && s.servers[sid].admitted.Some?
    && var client, server := s.clients[cid], s.servers[sid];
       && client.ctx == server.ctx
       && c.publicKey(client.private) == server.admitted.value.clientEphemeral
       && client.answered.value.serverEphemeral == c.publicKey(server.admitted.value.private)
  }

  /** The keys of agreeing sessions are the two halves of what HKDF makes of their shared
      secret and the hash of their transcript: the client writes under the first and reads
      under the second, the egress the other way round. */
  ghost predicate SplitsMaterial(c: Crypto, client: ClientSession, server: ServerSession)
    requires server.admitted.Some?
  {
    var x, y := c.publicKey(client.private), c.publicKey(server.admitted.value.private);
    var secret := c.shared(client.private, y);
    && client.keys.Some? && server.keys.Some? && secret.Some? && ValidTranscript(client.ctx, x, Some(y))
    && var material := c.hkdf(secret.value, c.sha(TranscriptBytes(TranscriptDomain, client.ctx, x, Some(y))));
       && |material| == 64
       && client.keys.value.writeKey == server.keys.value.readKey == material[..32]
       && client.keys.value.readKey == server.keys.value.writeKey == material[32..]
  }

  lemma AgreedKeys(c: Crypto, corrupt: set<Text>, s: System, cid: nat, sid: nat)
    requires Ideal(c) && Inv(c, corrupt, s) && Agree(c, s, cid, sid) && s.servers[sid].keys.Some?
    ensures Crossed(s.clients[cid].keys, s.servers[sid].keys)
    ensures SplitsMaterial(c, s.clients[cid], s.servers[sid])
  {
    hide TranscriptBytes, ValidTranscript, SignedBySessions, FreshServerKeys, FreshClientKeys, Verifies, AllowsPeer,
      ServiceCertified, ClientCertified;
    assert ClientJustified(c, corrupt, s, cid) && ServerJustified(c, corrupt, s, sid);
    var a, me := s.servers[sid].admitted.value, s.clients[cid];
    SameDerivation(c, me.private, a.private, Digest(c, TranscriptDomain, me.ctx, c.publicKey(me.private), Some(c.publicKey(a.private))));
  }

  /** The two directions are under different keys whenever HKDF gives different halves. */
  lemma DirectionsDiffer(c: Crypto, client: ClientSession, server: ServerSession)
    requires server.admitted.Some? && SplitsMaterial(c, client, server)
    ensures var x, y := c.publicKey(client.private), c.publicKey(server.admitted.value.private);
      var material := c.hkdf(c.shared(client.private, y).value, c.sha(TranscriptBytes(TranscriptDomain, client.ctx, x, Some(y))));
      && client.keys.value.writeKey + client.keys.value.readKey == material
      && (material[..32] != material[32..] ==>
            client.keys.value.writeKey != client.keys.value.readKey && server.keys.value.writeKey != server.keys.value.readKey)
  {
    hide TranscriptBytes;
  }

  /** In every run, when an egress session holds keys for a client whose certificate
      key is not corrupt, that client has a session that signed exactly this request
      ID, service, egress, original route and both ephemeral keys; the two sides split the
      key material of exactly this transcript between their directions; and the service
      admits the node that the client's certificate names. */
  lemma EgressAgreement(c: Crypto, corrupt: set<Text>, steps: seq<Step>, sid: nat)
    requires Ideal(c)
    ensures var s := RunSystem(c, corrupt, steps);
      sid in s.servers && s.servers[sid].keys.Some? ==>
        && s.servers[sid].admitted.Some?
        && ClientCertified(c, s.servers[sid].admitted.value.certKey, s.servers[sid].admitted.value.nodeId)
        && AllowsPeer(s.servers[sid].svc, s.servers[sid].admitted.value.nodeId)
        && (s.servers[sid].admitted.value.certKey !in corrupt ==>
              exists cid :: Agree(c, s, cid, sid)
                && s.clients[cid].certKey == s.servers[sid].admitted.value.certKey
                && SplitsMaterial(c, s.clients[cid], s.servers[sid]))
  {
    InvInEveryRun(c, corrupt, steps);
    var s := RunSystem(c, corrupt, steps);
    if sid in s.servers && s.servers[sid].keys.Some? && s.servers[sid].admitted.Some?
       && s.servers[sid].admitted.value.certKey !in corrupt {
      var cid := FinishedSigner(c, corrupt, s, sid);
      AgreedKeys(c, corrupt, s, cid, sid);
    }
    if sid in s.servers {
      assert ServerJustified(c, corrupt, s, sid);
    }
  }

  lemma FinishedSigner(c: Crypto, corrupt: set<Text>, s: System, sid: nat) returns (cid: nat)
    requires Ideal(c) && Inv(c, corrupt, s)
    requires sid in s.servers && s.servers[sid].keys.Some? && s.servers[sid].admitted.Some?
    requires s.servers[sid].admitted.value.certKey !in corrupt
    ensures Agree(c, s, cid, sid) && s.clients[cid].certKey == s.servers[sid].admitted.value.certKey
  {
    hide Derive, AllowsPeer, Digest, FreshServerKeys, FreshClientKeys;
    assert ServerJustified(c, corrupt, s, sid);
    var me := s.servers[sid];
    var a := me.admitted.value;
    var pub := c.publicKey(a.private);
    var d := Digest(c, ClientFinishedDomain, me.ctx, a.clientEphemeral, Some(pub));
    assert Explained(c, s, a.certKey, d.value);
    if i :| ByClientHello(c, s, a.certKey, d.value, i) {
      DigestInjective(c, ClientFinishedDomain, me.ctx, a.clientEphemeral, Some(pub),
                      ClientHelloDomain, s.clients[i].ctx, c.publicKey(s.clients[i].private), None);
    } else if i :| ByClientFinished(c, s, a.certKey, d.value, i) {
      DigestInjective(c, ClientFinishedDomain, me.ctx, a.clientEphemeral, Some(pub), ClientFinishedDomain,
                      s.clients[i].ctx, c.publicKey(s.clients[i].private), Some(s.clients[i].answered.value.serverEphemeral));
      cid := i;
    } else {
      var i :| ByServerHello(c, s, a.certKey, d.value, i);
      DigestInjective(c, ClientFinishedDomain, me.ctx, a.clientEphemeral, Some(pub), ServerHelloDomain, s.servers[i].ctx,
                      s.servers[i].admitted.value.clientEphemeral, Some(c.publicKey(s.servers[i].admitted.value.private)));
    }
  }

  /** The client's side: when a client session has answered a hello, the service key is
      certified for the very service the client asked for; and if that key is not corrupt,
      an egress session of that service key has the same context and both
      ephemeral keys. */
  lemma ClientAgreement(c: Crypto, corrupt: set<Text>, steps: seq<Step>, cid: nat)
    requires Ideal(c)
    ensures var s := RunSystem(c, corrupt, steps);
      && (cid in s.clients && s.clients[cid].keys.Some? ==> s.clients[cid].answered.Some?)
      && (cid in s.clients && s.clients[cid].answered.Some? ==>
        && ServiceCertified(c, s.clients[cid].answered.value.serviceKey, s.clients[cid].ctx.service)
        && (s.clients[cid].answered.value.serviceKey !in corrupt ==>
              exists sid :: Agree(c, s, cid, sid) && s.servers[sid].serviceKey == s.clients[cid].answered.value.serviceKey))
  {
    InvInEveryRun(c, corrupt, steps);
    var s := RunSystem(c, corrupt, steps);
    if cid in s.clients {
      assert ClientJustified(c, corrupt, s, cid);
    }
    if cid in s.clients && s.clients[cid].answered.Some? && s.clients[cid].answered.value.serviceKey !in corrupt {
      var sid := HelloSigner(c, corrupt, s, cid);
    }
  }

  lemma HelloSigner(c: Crypto, corrupt: set<Text>, s: System, cid: nat) returns (sid: nat)
    requires Ideal(c) && Inv(c, corrupt, s)
    requires cid in s.clients && s.clients[cid].answered.Some? && s.clients[cid].answered.value.serviceKey !in corrupt
    ensures Agree(c, s, cid, sid) && s.servers[sid].serviceKey == s.clients[cid].answered.value.serviceKey
  {
    hide Derive, AllowsPeer, Digest, FreshServerKeys, FreshClientKeys;
    assert ClientJustified(c, corrupt, s, cid);
    var me := s.clients[cid];
    var pub, se, key := c.publicKey(me.private), me.answered.value.serverEphemeral, me.answered.value.serviceKey;
    var d := Digest(c, ServerHelloDomain, me.ctx, pub, Some(se));
    assert Explained(c, s, key, d.value);
    if i :| ByClientHello(c, s, key, d.value, i) {
      DigestInjective(c, ServerHelloDomain, me.ctx, pub, Some(se),
                      ClientHelloDomain, s.clients[i].ctx, c.publicKey(s.clients[i].private), None);
    } else if i :| ByClientFinished(c, s, key, d.value, i) {
      DigestInjective(c, ServerHelloDomain, me.ctx, pub, Some(se), ClientFinishedDomain,
                      s.clients[i].ctx, c.publicKey(s.clients[i].private), Some(s.clients[i].answered.value.serverEphemeral));
    } else {
      var i :| ByServerHello(c, s, key, d.value, i);
      DigestInjective(c, ServerHelloDomain, me.ctx, pub, Some(se), ServerHelloDomain, s.servers[i].ctx,
                      s.servers[i].admitted.value.clientEphemeral, Some(c.publicKey(s.servers[i].admitted.value.private)));
      sid := i;
    }
  }

  /** No replay: a client session agrees with at most one egress session. */
  lemma AtMostOneEgress(c: Crypto, corrupt: set<Text>, steps: seq<Step>, cid: nat, i: nat, j: nat)
    requires Ideal(c)
    ensures var s := RunSystem(c, corrupt, steps);
      Agree(c, s, cid, i) && Agree(c, s, cid, j) ==> i == j
  {
    InvInEveryRun(c, corrupt, steps);
  }

  /** An egress session agrees with at most one client session. */
  lemma AtMostOneClient(c: Crypto, corrupt: set<Text>, steps: seq<Step>, sid: nat, i: nat, j: nat)
    requires Ideal(c)
    ensures var s := RunSystem(c, corrupt, steps);
      Agree(c, s, i, sid) && Agree(c, s, j, sid) ==> i == j
  {
    InvInEveryRun(c, corrupt, steps);
  }

  /** Two parties that meet: their certificate and ephemeral keys, the service and the
      request, the hellos they send, and whether the target can be dialled. */
  datatype Meeting = Meeting(certKey: Text, node: Text, a: Text, b: Text, serviceKey: Text, svc: ServiceConfig,
                             req: ConnectRequest, first: Hello, second: Hello, dials: bool)

  /** What a handshake takes for granted: certificates that verify and keys that agree. */
  ghost predicate Favourable(c: Crypto, m: Meeting) {
    var ctx, x, y := EgressContext(m.req), c.publicKey(m.a), c.publicKey(m.b);
    && ValidContext(ctx) && x != y
    && m.first.key == x && c.clientCert(m.first.chain) == Some((m.certKey, m.node))
    && m.second.key == y && c.serviceCert(m.second.chain) == Some((m.serviceKey, m.req.service))
    && Derive(c, m.a, y, Digest(c, TranscriptDomain, ctx, x, Some(y))).Some?
  }

  /** What the egress decides: the service admits the client, and the target answers. */
  predicate Welcome(m: Meeting) {
    AllowsPeer(m.svc, m.node) && m.dials
  }

  ghost function MeetingSteps(m: Meeting): (steps: seq<Step>)
    ensures |steps| == 5
  {
    [ClientStart(0, m.certKey, EgressContext(m.req), m.a), ServerStart(0, m.serviceKey, m.svc, m.req),
     ServerGetsHello(0, m.first, m.dials, m.b), ClientGetsHello(0, m.second), ServerGetsFinished(0)]
  }

  /** The system when both hellos are out, and what each side then does. */
  lemma HellosExchanged(c: Crypto, m: Meeting) returns (s: System)
    requires Ideal(c) && Favourable(c, m) && Welcome(m)
    ensures var ctx, x, y, steps := EgressContext(m.req), c.publicKey(m.a), c.publicKey(m.b), MeetingSteps(m);
      && s == Apply(c, {}, Apply(c, {}, Apply(c, {}, INITIAL, steps[0]), steps[1]), steps[2])
      && s.clients == map[0 := ClientSession(m.certKey, ctx, m.a, None, None)]
      && s.servers == map[0 := ServerSession(m.serviceKey, m.svc, ctx, Some(Admission(m.certKey, m.node, x, m.b)), None)]
      && Verifies({}, s, m.serviceKey, Digest(c, ServerHelloDomain, ctx, x, Some(y)))
  {
    var steps := MeetingSteps(m);
    s := Apply(c, {}, INITIAL, steps[0]);
    ClientBegins(c, m);
    s := Apply(c, {}, s, steps[1]);
    hide Ideal, Digest, Favourable;
    ServerAnswers(c, m, s);
    s := Apply(c, {}, s, steps[2]);
  }

  lemma ClientBegins(c: Crypto, m: Meeting)
    requires Ideal(c) && Favourable(c, m)
    ensures var ctx, x := EgressContext(m.req), c.publicKey(m.a);
      var s := Apply(c, {}, Apply(c, {}, INITIAL, MeetingSteps(m)[0]), MeetingSteps(m)[1]);
      && s.clients == map[0 := ClientSession(m.certKey, ctx, m.a, None, None)]
      && s.servers == map[0 := ServerSession(m.serviceKey, m.svc, ctx, None, None)]
      && s.ephemerals == {x} && Verifies({}, s, m.certKey, Digest(c, ClientHelloDomain, ctx, x, None))
  {
    var ctx, x := EgressContext(m.req), c.publicKey(m.a);
    DigestDefined(c, ClientHelloDomain, ctx, x, None);
    assert ValidTranscript(ctx, x, None);
    hide Ideal, Favourable, Digest, Verifies, Sign, Derive;
    Starts(c, m.certKey, ctx, m.a);
    var digest := Digest(c, ClientHelloDomain, ctx, x, None);
    SignedVerifies(INITIAL.(clients := map[0 := ClientSession(m.certKey, ctx, m.a, None, None)], ephemerals := {x}), m.certKey, digest);
    hide Apply;
    var first := Apply(c, {}, INITIAL, MeetingSteps(m)[0]);
    ServerStarts(c, first, m.serviceKey, m.svc, m.req);
    StillVerifies(first, first.(servers := first.servers[0 := ServerSession(m.serviceKey, m.svc, ctx, None, None)]), m.certKey, digest);
  }

  lemma StillVerifies(s: System, t: System, key: Text, digest: Option<Text>)
    requires t.signed == s.signed && Verifies({}, s, key, digest)
    ensures Verifies({}, t, key, digest)
  {
  }

  lemma Starts(c: Crypto, certKey: Text, ctx: Context, private: Text)
    requires ValidTranscript(ctx, c.publicKey(private), None)
    ensures var pub := c.publicKey(private);
      Apply(c, {}, INITIAL, ClientStart(0, certKey, ctx, private)) ==
      Sign(INITIAL.(clients := map[0 := ClientSession(certKey, ctx, private, None, None)], ephemerals := {pub}),
           certKey, Digest(c, ClientHelloDomain, ctx, pub, None))
  {
    hide Digest, Derive, ValidTranscript, Sign;
    assert {} + {c.publicKey(private)} == {c.publicKey(private)};
  }

  lemma ServerStarts(c: Crypto, s: System, serviceKey: Text, svc: ServiceConfig, req: ConnectRequest)
    requires 0 !in s.servers
    ensures Apply(c, {}, s, ServerStart(0, serviceKey, svc, req)) ==
      s.(servers := s.servers[0 := ServerSession(serviceKey, svc, EgressContext(req), None, None)])
  {
  }

  lemma SignedVerifies(s: System, key: Text, digest: Option<Text>)
    ensures var t := Sign(s, key, digest);
      && t.clients == s.clients && t.servers == s.servers && t.ephemerals == s.ephemerals
      && (digest.Some? ==> Verifies({}, t, key, digest))
  {
  }

  /** The egress admits a client whose hello passes every check. */
  lemma Admits(c: Crypto, s: System, hello: Hello, private: Text, cert: (Text, Text))
    requires 0 in s.servers && s.servers[0].admitted.None? && c.clientCert(hello.chain) == Some(cert)
    requires Verifies({}, s, cert.0, Digest(c, ClientHelloDomain, s.servers[0].ctx, hello.key, None))
    requires AllowsPeer(s.servers[0].svc, cert.1) && c.publicKey(private) !in s.ephemerals
    ensures var me, pub := s.servers[0], c.publicKey(private);
      Apply(c, {}, s, ServerGetsHello(0, hello, true, private)) ==
      Sign(s.(servers := s.servers[0 := me.(admitted := Some(Admission(cert.0, cert.1, hello.key, private)))],
              ephemerals := s.ephemerals + {pub}),
           me.serviceKey, Digest(c, ServerHelloDomain, me.ctx, hello.key, Some(pub)))
  {
    hide Digest, Derive, AllowsPeer, Verifies, Sign;
  }

  lemma ServerAnswers(c: Crypto, m: Meeting, s: System)
    requires Ideal(c) && Favourable(c, m) && Welcome(m)
    requires s.servers == map[0 := ServerSession(m.serviceKey, m.svc, EgressContext(m.req), None, None)]
    requires s.ephemerals == {c.publicKey(m.a)}
    requires Verifies({}, s, m.certKey, Digest(c, ClientHelloDomain, EgressContext(m.req), c.publicKey(m.a), None))
    ensures var ctx, x, y := EgressContext(m.req), c.publicKey(m.a), c.publicKey(m.b);
      var t := Apply(c, {}, s, ServerGetsHello(0, m.first, m.dials, m.b));
      && t.clients == s.clients
      && t.servers == map[0 := ServerSession(m.serviceKey, m.svc, ctx, Some(Admission(m.certKey, m.node, x, m.b)), None)]
      && Verifies({}, t, m.serviceKey, Digest(c, ServerHelloDomain, ctx, x, Some(y)))
  {
    hide Apply, Digest, Derive, Verifies, Sign;
    var ctx, x, y, me := EgressContext(m.req), c.publicKey(m.a), c.publicKey(m.b), s.servers[0];
    DigestDefined(c, ServerHelloDomain, ctx, x, Some(y));
    Admits(c, s, m.first, m.b, (m.certKey, m.node));
    SignedVerifies(s.(servers := s.servers[0 := me.(admitted := Some(Admission(m.certKey, m.node, x, m.b)))],
                      ephemerals := s.ephemerals + {y}), m.serviceKey, Digest(c, ServerHelloDomain, ctx, x, Some(y)));
  }

  lemma ClientFinishes(c: Crypto, m: Meeting, s: System)
    requires Favourable(c, m)
    requires var ctx, x, y := EgressContext(m.req), c.publicKey(m.a), c.publicKey(m.b);
      && s.clients == map[0 := ClientSession(m.certKey, ctx, m.a, None, None)]
      && Verifies({}, s, m.serviceKey, Digest(c, ServerHelloDomain, ctx, x, Some(y)))
    ensures var ctx, x, y := EgressContext(m.req), c.publicKey(m.a), c.publicKey(m.b);
      var t := Apply(c, {}, s, ClientGetsHello(0, m.second));
      var keys := Derive(c, m.a, y, Digest(c, TranscriptDomain, ctx, x, Some(y)));
      && t.clients == map[0 := ClientSession(m.certKey, ctx, m.a, Some(Answer(m.serviceKey, y)), ClientEnds(keys))]
      && t.servers == s.servers
      && Verifies({}, t, m.certKey, Digest(c, ClientFinishedDomain, ctx, x, Some(y)))
  {
    var ctx, x, y := EgressContext(m.req), c.publicKey(m.a), c.publicKey(m.b);
    DigestDefined(c, ServerHelloDomain, ctx, x, Some(y));
    DigestDefined(c, ClientFinishedDomain, ctx, x, Some(y));
    hide Digest, Derive, AllowsPeer, ValidContext, ValidTranscript;
  }

  lemma SameDerivation(c: Crypto, a: Text, b: Text, hash: Option<Text>)
    requires Ideal(c)
    ensures Derive(c, a, c.publicKey(b), hash) == Derive(c, b, c.publicKey(a), hash)
  {
    assert c.shared(a, c.publicKey(b)) == c.shared(b, c.publicKey(a));
  }

  lemma ServerFinishes(c: Crypto, m: Meeting, s: System)
    requires Ideal(c) && Favourable(c, m)
    requires var ctx, x, y := EgressContext(m.req), c.publicKey(m.a), c.publicKey(m.b);
      && s.servers == map[0 := ServerSession(m.serviceKey, m.svc, ctx, Some(Admission(m.certKey, m.node, x, m.b)), None)]
      && Verifies({}, s, m.certKey, Digest(c, ClientFinishedDomain, ctx, x, Some(y)))
    ensures var ctx, x, y := EgressContext(m.req), c.publicKey(m.a), c.publicKey(m.b);
      var t := Apply(c, {}, s, ServerGetsFinished(0));
      var keys := Derive(c, m.a, y, Digest(c, TranscriptDomain, ctx, x, Some(y)));
      && t.servers == map[0 := ServerSession(m.serviceKey, m.svc, ctx, Some(Admission(m.certKey, m.node, x, m.b)), ServerEnds(keys))]
      && t.clients == s.clients
  {
    hide Ideal, Favourable, Digest, Derive;
    var ctx, x, y := EgressContext(m.req), c.publicKey(m.a), c.publicKey(m.b);
    SameDerivation(c, m.a, m.b, Digest(c, TranscriptDomain, ctx, x, Some(y)));
  }

  /** An egress that does not welcome the client leaves its session as it was. */
  lemma Turned(c: Crypto, m: Meeting, s: System)
    requires !Welcome(m) && 0 in s.servers && s.servers[0].svc == m.svc && s.servers[0].admitted.None?
    requires c.clientCert(m.first.chain) == Some((m.certKey, m.node))
    ensures Apply(c, {}, s, ServerGetsHello(0, m.first, m.dials, m.b)) == s
    ensures var t := Apply(c, {}, Apply(c, {}, s, ClientGetsHello(0, m.second)), ServerGetsFinished(0));
      t.servers == s.servers
  {
    hide Digest, Derive, AllowsPeer, Verifies;
  }

  /** Undisturbed, the five moves of one handshake leave the egress with keys, and then both
      sides with their halves of the key material, if and only if the service admits the client's certificate
      and the target can be dialled. */
  lemma HandshakeExactlyWhen(c: Crypto, m: Meeting)
    requires Ideal(c) && Favourable(c, m)
    ensures var s := RunSystem(c, {}, MeetingSteps(m));
      && 0 in s.servers && 0 in s.clients
      && (s.servers[0].keys.Some? <==> Welcome(m))
      && (Welcome(m) ==> Agree(c, s, 0, 0) && SplitsMaterial(c, s.clients[0], s.servers[0]))
  {
    hide Apply, Digest, Derive, Verifies;
    RunOfFive(c, MeetingSteps(m));
    if Welcome(m) {
      var s3 := HellosExchanged(c, m);
      ClientFinishes(c, m, s3);
      ServerFinishes(c, m, Apply(c, {}, s3, ClientGetsHello(0, m.second)));
      InvInEveryRun(c, {}, MeetingSteps(m));
      hide Inv, SplitsMaterial;
      AgreedKeys(c, {}, RunSystem(c, {}, MeetingSteps(m)), 0, 0);
    } else {
      ClientBegins(c, m);
      var steps := MeetingSteps(m);
      var s2 := Apply(c, {}, Apply(c, {}, INITIAL, steps[0]), steps[1]);
      Turned(c, m, s2);
      StepExtends(c, {}, s2, ClientGetsHello(0, m.second));
      StepExtends(c, {}, Apply(c, {}, s2, ClientGetsHello(0, m.second)), ServerGetsFinished(0));
    }
  }

  /** An example: a client [3] with the empty private key, an egress for service [2]. */
  ghost function SampleKey(private: Text): (k: Text)
    ensures |k| == 32 && k[0] == if private == [] then 0 else 1
  {
    seq(32, _ => if private == [] then 0 else 1)
  }

  ghost function SampleCrypto(): Crypto {
    Crypto(x => x, _ => Some(([1], [3])), _ => Some(([1], [2])), a => SampleKey(a), (_, _) => Some([1]), (_, _) => seq(64, _ => 1))
  }

  ghost function SampleMeeting(): Meeting {
    Meeting([1], [3], [], [1], [1], ServiceConfig([2], TCP, [], [1], [1]),
            ConnectRequest(seq(16, i => if i == 6 then 0x70 else 0), TCP, [2], [], [], true, []),
            Hello([], SampleKey([]), []), Hello([], SampleKey([1]), []), true)
  }

  lemma SampleIsIdeal()
    ensures Ideal(SampleCrypto())
  {
  }

  lemma SampleIsFavourable()
    ensures Favourable(SampleCrypto(), SampleMeeting()) && Welcome(SampleMeeting())
  {
    var c, m := SampleCrypto(), SampleMeeting();
    var x, y := SampleKey([]), SampleKey([1]);
    DigestDefined(c, TranscriptDomain, EgressContext(m.req), x, Some(y));
    hide Digest, SampleKey;
  }

  /** The contract on the foreign functions can be met by parties that do meet. */
  lemma MeetingExists()
    ensures exists c: Crypto, m: Meeting :: Ideal(c) && Favourable(c, m) && Welcome(m)
  {
    SampleIsIdeal();
    SampleIsFavourable();
    hide SampleCrypto, SampleMeeting, Ideal, Favourable, Welcome;
  }

  lemma RunOfFive(c: Crypto, steps: seq<Step>)
    requires |steps| == 5
    ensures RunSystem(c, {}, steps) ==
      Apply(c, {}, Apply(c, {}, Apply(c, {}, Apply(c, {}, Apply(c, {}, INITIAL, steps[0]), steps[1]), steps[2]), steps[3]), steps[4])
  {
    hide Apply;
    assert steps[..4][..3] == steps[..3] && steps[..3][..2] == steps[..2] && steps[..2][..1] == steps[..1] && steps[..1][..0] == [];
    assert RunSystem(c, {}, steps[..1]) == Apply(c, {}, INITIAL, steps[0]);
    assert RunSystem(c, {}, steps[..2]) == Apply(c, {}, RunSystem(c, {}, steps[..1]), steps[1]);
    assert RunSystem(c, {}, steps[..3]) == Apply(c, {}, RunSystem(c, {}, steps[..2]), steps[2]);
    assert RunSystem(c, {}, steps[..4]) == Apply(c, {}, RunSystem(c, {}, steps[..3]), steps[3]);
  }
}
