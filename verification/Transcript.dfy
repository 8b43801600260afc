/** The bytes that handshake signatures and record seals are bound to. The
    encodings are injective, so no two contexts share their bytes. */
module Transcript {
  import opened Bytes
  import opened FieldLists
  import opened ConnectCodec
  import opened E2ECodec

  const X25519_KEY := 32
  const RECORD_SUFFIX := 8

  datatype Domain = ClientHelloDomain | ServerHelloDomain | ClientFinishedDomain | TranscriptDomain

  function DomainText(d: Domain): Text {
    match d
    case ClientHelloDomain => Ascii("qoru-e2e-client-hello-v1")
    case ServerHelloDomain => Ascii("qoru-e2e-server-hello-v1")
    case ClientFinishedDomain => Ascii("qoru-e2e-client-finished-v1")
    case TranscriptDomain => Ascii("qoru-e2e-transcript-v1")
  }

  /** The routing context bound into a handshake. */
  datatype Context = Context(id: Text, service: Text, egress: Text, route: seq<Text>)

  // ---------- the canonical text of a request ID ----------

  function HexDigit(n: nat): Byte
    requires n < 16
  {
    if n < 10 then 48 + n else 87 + n
  }

  function Hex(b: Text): (t: Text)
    ensures |t| == 2 * |b|
  {
    if b == [] then [] else [HexDigit(b[0] / 16), HexDigit(b[0] % 16)] + Hex(b[1..])
  }

  const DASH: Text := [45]

  function IdText(id: Text): (t: Text)
    requires |id| == 16
    ensures |t| == 36
  {
    Hex(id[..4]) + DASH + Hex(id[4..6]) + DASH + Hex(id[6..8]) + DASH + Hex(id[8..10]) + DASH + Hex(id[10..])
  }

  lemma {:induction false} HexInjective(a: Text, b: Text)
    requires Hex(a) == Hex(b)
    ensures a == b
  {
    if a != [] && b != [] {
      var x, y := Hex(a), Hex(b);
      assert x[0] == HexDigit(a[0] / 16) && x[1] == HexDigit(a[0] % 16);
      assert y[0] == HexDigit(b[0] / 16) && y[1] == HexDigit(b[0] % 16);
      assert x[2..] == Hex(a[1..]) && y[2..] == Hex(b[1..]);
      HexInjective(a[1..], b[1..]);
      assert a == [a[0]] + a[1..] && b == [b[0]] + b[1..];
    }
  }

  lemma IdTextParts(id: Text)
    requires |id| == 16
    ensures var t := IdText(id);
      && t[..8] == Hex(id[..4]) && t[9..13] == Hex(id[4..6]) && t[14..18] == Hex(id[6..8])
      && t[19..23] == Hex(id[8..10]) && t[24..] == Hex(id[10..])
  {
  }

  lemma IdTextInjective(a: Text, b: Text)
    requires |a| == |b| == 16 && IdText(a) == IdText(b)
    ensures a == b
  {
    IdTextParts(a);
    IdTextParts(b);
    HexInjective(a[..4], b[..4]);
    HexInjective(a[4..6], b[4..6]);
    HexInjective(a[6..8], b[6..8]);
    HexInjective(a[8..10], b[8..10]);
    HexInjective(a[10..], b[10..]);
    assert forall x: Text | |x| == 16 :: x == x[..4] + x[4..6] + x[6..8] + x[8..10] + x[10..];
  }

  // ---------- fields behind a four-byte length ----------

  /** The length is cut to 32 bits, as the program's conversion does. */
  function Field32(f: Text): (b: Text)
    ensures |b| == 4 + |f|
  {
    BigEndian(|f| % 0x1_0000_0000, 4) + f
  }

  lemma Field32Cut(f: Text, x: Text)
    ensures var p := Field32(f) + x;
      p[..4] == BigEndian(|f| % 0x1_0000_0000, 4) && p[4..4 + |f|] == f && p[4 + |f|..] == x
  {
  }

  lemma LengthInjective(n: nat, m: nat)
    requires n < 0x1_0000_0000 && m < 0x1_0000_0000
    requires BigEndian(n, 4) == BigEndian(m, 4)
    ensures n == m
  {
    assert Pow256(2) == 0x1_0000;
    assert Pow256(4) == 0x1_0000_0000;
    BigEndianInjective(n, m, 4);
  }

  lemma Field32Unique(f: Text, x: Text, g: Text, y: Text)
    requires |f| < 0x1_0000_0000 && |g| < 0x1_0000_0000
    requires Field32(f) + x == Field32(g) + y
    ensures f == g && x == y
  {
    hide Field32, BigEndian;
    Field32Cut(f, x);
    Field32Cut(g, y);
    LengthInjective(|f|, |g|);
  }

  function List32(items: seq<Text>): Text {
    if items == [] then [] else Field32(items[0]) + List32(items[1..])
  }

  lemma {:induction false} List32Append(a: seq<Text>, b: seq<Text>)
    ensures List32(a + b) == List32(a) + List32(b)
  {
    hide Field32;
    if a == [] {
      assert a + b == b;
    } else {
      List32Append(a[1..], b);
      assert (a + b)[1..] == a[1..] + b;
      Assoc(Field32(a[0]), List32(a[1..]), List32(b));
    }
  }

  lemma {:induction false} List32Unique(a: seq<Text>, x: Text, b: seq<Text>, y: Text)
    requires |a| == |b| && Items(a, MAX_TARGET) && Items(b, MAX_TARGET)
    requires List32(a) + x == List32(b) + y
    ensures a == b && x == y
  {
    if a == [] {
      assert List32(a) + x == x && List32(b) + y == y;
    } else {
      Assoc(Field32(a[0]), List32(a[1..]), x);
      Assoc(Field32(b[0]), List32(b[1..]), y);
      Field32Unique(a[0], List32(a[1..]) + x, b[0], List32(b[1..]) + y);
      List32Unique(a[1..], x, b[1..], y);
      assert a == [a[0]] + a[1..] && b == [b[0]] + b[1..];
    }
  }

  // ---------- the transcript ----------

  predicate ValidContext(ctx: Context) {
    ValidId(ctx.id) && 1 <= |ctx.service| <= MAX_TARGET && |ctx.egress| <= MAX_TARGET && ValidRoute(ctx.route)
  }

  /** An X25519 public key: the parser takes exactly 32 bytes. */
  predicate ValidKey(key: Text) {
    1 <= |key| <= MAX_EPHEMERAL_KEY && |key| == X25519_KEY
  }

  predicate ValidTranscript(ctx: Context, clientKey: Text, serverKey: Option<Text>) {
    ValidContext(ctx) && ValidKey(clientKey) && (serverKey.Some? ==> ValidKey(serverKey.value))
  }

  function KeyBytes(clientKey: Text, serverKey: Option<Text>): Text {
    Field32(clientKey) + match serverKey case None => [0] case Some(k) => [1] + Field32(k)
  }

  function RouteAndKeys(route: seq<Text>, clientKey: Text, serverKey: Option<Text>): Text
    requires |route| < 256
  {
    [|route|] + (List32(route) + KeyBytes(clientKey, serverKey))
  }

  function TranscriptBytes(d: Domain, ctx: Context, clientKey: Text, serverKey: Option<Text>): Text
    requires ValidTranscript(ctx, clientKey, serverKey)
  {
    Field32(DomainText(d)) + (Field32(IdText(ctx.id)) + (Field32(ctx.service) + (Field32(ctx.egress)
      + RouteAndKeys(ctx.route, clientKey, serverKey))))
  }

  lemma DomainTextInjective(d: Domain, e: Domain)
    requires DomainText(d) == DomainText(e)
    ensures d == e
  {
    var a, b := "qoru-e2e-client-hello-v1", "qoru-e2e-server-hello-v1";
    assert Ascii(a)[9] == a[9] as int == 99 && Ascii(b)[9] == b[9] as int == 115;
  }

  lemma KeyBytesUnique(c: Text, s: Option<Text>, c': Text, s': Option<Text>)
    requires ValidKey(c) && ValidKey(c') && (s.Some? ==> ValidKey(s.value)) && (s'.Some? ==> ValidKey(s'.value))
    requires KeyBytes(c, s) == KeyBytes(c', s')
    ensures c == c' && s == s'
  {
    var x := match s case None => [0] case Some(k) => [1] + Field32(k);
    var y := match s' case None => [0] case Some(k) => [1] + Field32(k);
    Field32Unique(c, x, c', y);
    assert x[0] == (if s.None? then 0 else 1) && y[0] == (if s'.None? then 0 else 1);
    if s.Some? {
      assert x[1..] == Field32(s.value) && y[1..] == Field32(s'.value);
      assert Field32(s.value) + [] == Field32(s'.value) + [];
      Field32Unique(s.value, [], s'.value, []);
    }
  }

  lemma RouteAndKeysUnique(r: seq<Text>, c: Text, s: Option<Text>, r': seq<Text>, c': Text, s': Option<Text>)
    requires ValidRoute(r) && ValidRoute(r')
    requires ValidKey(c) && ValidKey(c') && (s.Some? ==> ValidKey(s.value)) && (s'.Some? ==> ValidKey(s'.value))
    requires RouteAndKeys(r, c, s) == RouteAndKeys(r', c', s')
    ensures r == r' && c == c' && s == s'
  {
    var x, y := RouteAndKeys(r, c, s), RouteAndKeys(r', c', s');
    assert x[0] == |r| && y[0] == |r'|;
    assert x[1..] == List32(r) + KeyBytes(c, s) && y[1..] == List32(r') + KeyBytes(c', s');
    List32Unique(r, KeyBytes(c, s), r', KeyBytes(c', s'));
    KeyBytesUnique(c, s, c', s');
  }

  /** Equal transcript bytes come exactly from the same domain, request ID, service, egress,
      route, client key and optional server key. */
  lemma TranscriptInjective(d: Domain, ctx: Context, c: Text, s: Option<Text>,
                            d': Domain, ctx': Context, c': Text, s': Option<Text>)
    requires ValidTranscript(ctx, c, s) && ValidTranscript(ctx', c', s')
    ensures TranscriptBytes(d, ctx, c, s) == TranscriptBytes(d', ctx', c', s')
       <==> d == d' && ctx == ctx' && c == c' && s == s'
  {
    hide Field32, RouteAndKeys, IdText;
    if TranscriptBytes(d, ctx, c, s) == TranscriptBytes(d', ctx', c', s') {
      var k, k' := RouteAndKeys(ctx.route, c, s), RouteAndKeys(ctx'.route, c', s');
      var e, e' := Field32(ctx.egress) + k, Field32(ctx'.egress) + k';
      var v, v' := Field32(ctx.service) + e, Field32(ctx'.service) + e';
      Field32Unique(DomainText(d), Field32(IdText(ctx.id)) + v, DomainText(d'), Field32(IdText(ctx'.id)) + v');
      DomainTextInjective(d, d');
      Field32Unique(IdText(ctx.id), v, IdText(ctx'.id), v');
      IdTextInjective(ctx.id, ctx'.id);
      Field32Unique(ctx.service, e, ctx'.service, e');
      Field32Unique(ctx.egress, k, ctx'.egress, k');
      RouteAndKeysUnique(ctx.route, c, s, ctx'.route, c', s');
    }
  }

  method WriteRouteHops(buf: Text, hops: seq<Text>) returns (out: Text)
    ensures out == buf + List32(hops)
  {
    out := buf;
    assert buf + [] == buf;
    for i := 0 to |hops|
      invariant out == buf + List32(hops[..i])
    {
      List32Append(hops[..i], [hops[i]]);
      assert List32([hops[i]]) == Field32(hops[i]);
      assert hops[..i] + [hops[i]] == hops[..i + 1];
      Assoc(buf, List32(hops[..i]), Field32(hops[i]));
      out := out + Field32(hops[i]);
    }
    assert hops[..|hops|] == hops;
  }

  method WriteKeys(buf: Text, clientKey: Text, serverKey: Option<Text>) returns (out: Text)
    ensures out == buf + KeyBytes(clientKey, serverKey)
  {
    out := buf + Field32(clientKey);
    if serverKey.None? {
      out := out + [0];
      Assoc(buf, Field32(clientKey), [0]);
    } else {
      out := out + [1];
      out := out + Field32(serverKey.value);
      Assoc(buf + Field32(clientKey), [1], Field32(serverKey.value));
      Assoc(buf, Field32(clientKey), [1] + Field32(serverKey.value));
    }
  }

  /** Checks the context and the keys and appends the fields to a buffer. */
  method MarshalTranscript(d: Domain, ctx: Context, clientKey: Text, serverKey: Option<Text>) returns (r: Option<Text>)
    ensures r.Some? <==> ValidTranscript(ctx, clientKey, serverKey)
    ensures r.Some? ==> r.value == TranscriptBytes(d, ctx, clientKey, serverKey)
  {
    hide Field32, IdText, DomainText, List32, KeyBytes;
    if !ValidId(ctx.id) || |ctx.service| == 0 || |ctx.service| > MAX_TARGET || |ctx.egress| > MAX_TARGET || |ctx.route| > MAX_HOPS {
      return None;
    }
    for i := 0 to |ctx.route|
      invariant Items(ctx.route[..i], MAX_TARGET)
    {
      if |ctx.route[i]| == 0 || |ctx.route[i]| > MAX_TARGET {
        return None;
      }
    }
    if !ValidKey(clientKey) || (serverKey.Some? && !ValidKey(serverKey.value)) {
      return None;
    }
    var buf := Field32(DomainText(d));
    buf := buf + Field32(IdText(ctx.id));
    buf := buf + Field32(ctx.service);
    buf := buf + Field32(ctx.egress);
    buf := buf + [|ctx.route|];
    buf := WriteRouteHops(buf, ctx.route);
    buf := WriteKeys(buf, clientKey, serverKey);
    HeadThenRest(d, ctx, List32(ctx.route), KeyBytes(clientKey, serverKey));
    r := Some(buf);
  }

  lemma HeadThenRest(d: Domain, ctx: Context, list: Text, keys: Text)
    requires |ctx.id| == 16 && |ctx.route| < 256
    ensures var a, b, c, e := Field32(DomainText(d)), Field32(IdText(ctx.id)), Field32(ctx.service), Field32(ctx.egress);
      a + b + c + e + [|ctx.route|] + list + keys == a + (b + (c + (e + ([|ctx.route|] + (list + keys)))))
  {
    var a, b, c, e := Field32(DomainText(d)), Field32(IdText(ctx.id)), Field32(ctx.service), Field32(ctx.egress);
    var n := [|ctx.route|];
    Assoc(a + b + c + e + n, list, keys);
    Assoc(a + b + c + e, n, list + keys);
    Assoc(a + b + c, e, n + (list + keys));
    Assoc(a + b, c, e + (n + (list + keys)));
    Assoc(a, b, c + (e + (n + (list + keys))));
  }

  // ---------- the associated data of a record ----------

  function RecordAad(transcriptHash: Text, suffix: Text): Text {
    Field32(Ascii("qoru-e2e-data-v1")) + Field32(transcriptHash) + Field32(suffix)
  }

  /** Equal associated data comes exactly from the same transcript hash and nonce suffix,
      for hashes of any length, because every suffix has the same length. */
  lemma RecordAadInjective(h: Text, s: Text, h': Text, s': Text)
    requires |s| == |s'| == RECORD_SUFFIX
    ensures RecordAad(h, s) == RecordAad(h', s') <==> h == h' && s == s'
  {
    var x, y := RecordAad(h, s), RecordAad(h', s');
    assert |x| == 20 + 4 + |h| + 12 && |y| == 20 + 4 + |h'| + 12;
    assert h == x[24..24 + |h|] && h' == y[24..24 + |h'|];
    assert s == x[28 + |h|..] && s' == y[28 + |h'|..];
  }
}
