/** The remaining payloads: connect responses and the E2E hello, data, close and
    finished messages. Each codec is exact: a payload decodes to a message if and
    only if it is the encoding of that valid message. */
module E2ECodec {
  import opened Bytes
  import opened FieldLists
  import opened Frames

  const MAX_CHAIN := 8
  const MAX_CERT := 16 * 1024
  const MAX_EPHEMERAL_KEY := 4096
  const MAX_SIGNATURE := 8192
  const MAX_NONCE_SUFFIX := 24
  const MAX_CIPHERTEXT := MAX_PAYLOAD - 1 - MAX_NONCE_SUFFIX - 2
  const MAX_MESSAGE := MAX_PAYLOAD - 4

  const CODE_OK: Byte := 0
  const CODE_SERVICE_NOT_FOUND: Byte := 1
  const CODE_ACCESS_DENIED: Byte := 2
  const CODE_TARGET_DIAL_FAILED: Byte := 3
  const CODE_UNSUPPORTED_PROTOCOL: Byte := 4
  const CODE_UNREACHABLE_EGRESS: Byte := 5
  const CODE_ROUTE_INVALID: Byte := 6
  const CODE_NEXT_HOP_UNREACHABLE: Byte := 7
  const CODE_INTERNAL_ERROR: Byte := 8

  predicate KnownCode(code: Byte) {
    code <= CODE_INTERNAL_ERROR
  }

  // ---------- hello ----------

  datatype Hello = Hello(chain: seq<Text>, key: Text, signature: Text)

  predicate ValidHello(h: Hello) {
    && 1 <= |h.chain| <= MAX_CHAIN && Items(h.chain, MAX_CERT)
    && 1 <= |h.key| <= MAX_EPHEMERAL_KEY
    && 1 <= |h.signature| <= MAX_SIGNATURE
  }

  function HelloBytes(h: Hello): Text
    requires ValidHello(h)
  {
    CountedBytes(h.chain) + Field16(h.key) + Field16(h.signature)
  }

  function ParseHello(p: Text): Option<Hello> {
    if |p| < 1 || p[0] == 0 || p[0] > MAX_CHAIN then None
    else match CountedAt(p, 0, MAX_CERT)
      case None => None
      case Some((chain, o1)) =>
        match FieldAt(p, o1, 1, MAX_EPHEMERAL_KEY)
        case None => None
        case Some((key, o2)) =>
          match FieldAt(p, o2, 1, MAX_SIGNATURE)
          case None => None
          case Some((signature, o3)) => if o3 == |p| then Some(Hello(chain, key, signature)) else None
  }

  lemma HelloSound(p: Text, h: Hello)
    requires ParseHello(p) == Some(h)
    ensures ValidHello(h) && p == HelloBytes(h)
  {
    hide FieldAt;
    var (chain, o1) := CountedAt(p, 0, MAX_CERT).value;
    CountedAtExact(p, 0, MAX_CERT, chain, o1);
    assert p[0] == CountedBytes(chain)[0];
    var (key, o2) := FieldAt(p, o1, 1, MAX_EPHEMERAL_KEY).value;
    FieldAtExact(p, o1, 1, MAX_EPHEMERAL_KEY, key, o2);
    FieldAtExact(p, o2, 1, MAX_SIGNATURE, h.signature, |p|);
    HelloHolds(p, h);
  }

  lemma HelloComplete(h: Hello)
    requires ValidHello(h)
    ensures ParseHello(HelloBytes(h)) == Some(h)
  {
    var p := HelloBytes(h);
    assert Holds(p, 0, p);
    HelloHolds(p, h);
    var o1 := |CountedBytes(h.chain)|;
    CountedAtExact(p, 0, MAX_CERT, h.chain, o1);
    assert p[0] == p[0..o1][0];
    FieldAtExact(p, o1, 1, MAX_EPHEMERAL_KEY, h.key, o1 + 2 + |h.key|);
    FieldAtExact(p, o1 + 2 + |h.key|, 1, MAX_SIGNATURE, h.signature, |p|);
    hide FieldAt, CountedAt, Holds, Field16, CountedBytes;
  }

  lemma HelloExact(p: Text, h: Hello)
    ensures ParseHello(p) == Some(h) <==> ValidHello(h) && p == HelloBytes(h)
  {
    if ParseHello(p) == Some(h) {
      HelloSound(p, h);
    }
    if ValidHello(h) {
      HelloComplete(h);
    }
  }

  lemma HelloHolds(p: Text, h: Hello)
    requires ValidHello(h)
    ensures var o1 := |CountedBytes(h.chain)|;
      Holds(p, 0, HelloBytes(h)) <==>
        Holds(p, 0, CountedBytes(h.chain)) && Holds(p, o1, Field16(h.key)) && Holds(p, o1 + 2 + |h.key|, Field16(h.signature))
  {
    HoldsBoth(p, 0, CountedBytes(h.chain) + Field16(h.key), Field16(h.signature));
    HoldsBoth(p, 0, CountedBytes(h.chain), Field16(h.key));
  }

  /** Fills a hello in place; refuses exactly the invalid and the oversized ones. */
  method MarshalHello(h: Hello) returns (r: Option<array<Byte>>)
    ensures r.Some? <==> ValidHello(h) && |HelloBytes(h)| <= MAX_PAYLOAD
    ensures r.Some? ==> fresh(r.value) && r.value[..] == HelloBytes(h)
  {
    if |h.chain| == 0 || |h.chain| > MAX_CHAIN {
      return None;
    }
    var size := 1;
    for i := 0 to |h.chain|
      invariant Items(h.chain[..i], MAX_CERT)
      invariant size == 1 + |ListBytes(h.chain[..i])|
    {
      if |h.chain[i]| == 0 || |h.chain[i]| > MAX_CERT {
        return None;
      }
      ListBytesSnoc(h.chain[..i], h.chain[i]);
      assert h.chain[..i] + [h.chain[i]] == h.chain[..i + 1];
      size := size + 2 + |h.chain[i]|;
    }
    assert h.chain[..|h.chain|] == h.chain;
    if |h.key| == 0 || |h.key| > MAX_EPHEMERAL_KEY || |h.signature| == 0 || |h.signature| > MAX_SIGNATURE {
      return None;
    }
    size := size + 2 + |h.key| + 2 + |h.signature|;
    if size > MAX_PAYLOAD {
      return None;
    }
    var payload := new Byte[size](_ => 0);
    var offset := WriteCounted(payload, 0, h.chain);
    assert [] + CountedBytes(h.chain) == CountedBytes(h.chain);
    offset := PutField16(payload, offset, h.key);
    offset := PutField16(payload, offset, h.signature);
    assert payload[..] == payload[..offset];
    r := Some(payload);
  }

  method UnmarshalHello(payload: Text) returns (r: Option<Hello>)
    ensures r == ParseHello(payload)
  {
    if |payload| < 1 || payload[0] == 0 || payload[0] > MAX_CHAIN {
      return None;
    }
    var chain := ReadItems(payload, 1, payload[0], MAX_CERT);
    if chain.None? {
      return None;
    }
    var key := FieldAt(payload, chain.value.1, 1, MAX_EPHEMERAL_KEY);
    if key.None? {
      return None;
    }
    var signature := FieldAt(payload, key.value.1, 1, MAX_SIGNATURE);
    if signature.None? || |payload| - signature.value.1 != 0 {
      return None;
    }
    r := Some(Hello(chain.value.0, key.value.0, signature.value.0));
  }

  // ---------- data ----------

  datatype Data = Data(nonceSuffix: Text, ciphertext: Text)

  predicate ValidData(d: Data) {
    1 <= |d.nonceSuffix| <= MAX_NONCE_SUFFIX && 1 <= |d.ciphertext| <= MAX_CIPHERTEXT
  }

  /** Every valid record fits a frame, so framing it never fails on size. */
  function DataBytes(d: Data): (b: Text)
    requires ValidData(d)
    ensures |b| <= MAX_PAYLOAD
  {
    Field8(d.nonceSuffix) + Field16(d.ciphertext)
  }

  function ParseData(p: Text): Option<Data> {
    if |p| < 4 then None
    else match Field8At(p, 0, 1, MAX_NONCE_SUFFIX)
      case None => None
      case Some((suffix, o1)) =>
        match FieldAt(p, o1, 1, MAX_CIPHERTEXT)
        case None => None
        case Some((ciphertext, o2)) => if o2 == |p| then Some(Data(suffix, ciphertext)) else None
  }

  lemma DataExact(p: Text, d: Data)
    ensures ParseData(p) == Some(d) <==> ValidData(d) && p == DataBytes(d)
  {
    if ParseData(p) == Some(d) {
      var (suffix, o1) := Field8At(p, 0, 1, MAX_NONCE_SUFFIX).value;
      Field8AtExact(p, 0, 1, MAX_NONCE_SUFFIX, suffix, o1);
      FieldAtExact(p, o1, 1, MAX_CIPHERTEXT, d.ciphertext, |p|);
      HoldsBoth(p, 0, Field8(suffix), Field16(d.ciphertext));
    }
    if ValidData(d) && p == DataBytes(d) {
      var o1 := 1 + |d.nonceSuffix|;
      assert Holds(p, 0, DataBytes(d));
      HoldsBoth(p, 0, Field8(d.nonceSuffix), Field16(d.ciphertext));
      Field8AtExact(p, 0, 1, MAX_NONCE_SUFFIX, d.nonceSuffix, o1);
      FieldAtExact(p, o1, 1, MAX_CIPHERTEXT, d.ciphertext, |p|);
    }
  }

  method MarshalData(d: Data) returns (r: Option<array<Byte>>)
    ensures r.Some? <==> ValidData(d)
    ensures r.Some? ==> fresh(r.value) && r.value[..] == DataBytes(d)
  {
    if |d.nonceSuffix| == 0 || |d.nonceSuffix| > MAX_NONCE_SUFFIX || |d.ciphertext| == 0 || |d.ciphertext| > MAX_CIPHERTEXT {
      return None;
    }
    var payload := new Byte[1 + |d.nonceSuffix| + 2 + |d.ciphertext|](_ => 0);
    payload[0] := |d.nonceSuffix|;
    assert payload[..1] == [|d.nonceSuffix|];
    CopyAt(payload, 1, d.nonceSuffix);
    var offset := PutField16(payload, 1 + |d.nonceSuffix|, d.ciphertext);
    assert payload[..] == payload[..offset];
    r := Some(payload);
  }

  method WriteData(w: ByteSink, d: Data) returns (ok: bool)
    modifies w
    ensures ok ==> ValidData(d) && w.data == old(w.data) + FrameBytes(Frame(TYPE_DATA, DataBytes(d)))
    ensures !ValidData(d) ==> w.data == old(w.data)
    ensures !ok && ValidData(d) ==> CutShort(old(w.data), w.data, FrameBytes(Frame(TYPE_DATA, DataBytes(d))))
  {
    var payload := MarshalData(d);
    if payload.None? {
      return false;
    }
    ok := WriteFrame(w, Frame(TYPE_DATA, payload.value[..]));
  }

  // ---------- two codes and a message: close frames and responses ----------

  function CodedBytes(first: Byte, second: Byte, message: Text): (b: Text)
    requires |message| <= MAX_MESSAGE
    ensures |b| == 4 + |message|
  {
    [first, second] + Field16(message)
  }

  /** First code, second code and message of a payload that is exactly those. */
  function ParseCoded(p: Text): Option<(Byte, Byte, Text)> {
    if |p| < 4 || |p| - 4 != U16At(p, 2) then None else Some((p[0], p[1], p[4..]))
  }

  lemma CodedExact(p: Text, first: Byte, second: Byte, message: Text)
    requires |p| <= MAX_PAYLOAD
    ensures ParseCoded(p) == Some((first, second, message)) <==>
      |message| <= MAX_MESSAGE && p == CodedBytes(first, second, message)
  {
    if |message| <= MAX_MESSAGE && p == CodedBytes(first, second, message) {
      assert p[2..4] == U16(|message|);
      assert U16At(p, 2) == |message|;
      assert p[4..] == message;
    }
    if ParseCoded(p) == Some((first, second, message)) {
      assert p == [p[0], p[1]] + (p[2..4] + p[4..]);
    }
  }

  method MarshalCoded(first: Byte, second: Byte, message: Text) returns (payload: array<Byte>)
    requires |message| <= MAX_MESSAGE
    ensures fresh(payload) && payload[..] == CodedBytes(first, second, message)
  {
    payload := new Byte[4 + |message|](_ => 0);
    payload[0] := first;
    payload[1] := second;
    assert payload[..2] == [first, second];
    var end := PutField16(payload, 2, message);
    assert payload[..] == payload[..end];
  }

  datatype Close = Close(code: Byte, connectCode: Byte, message: Text)

  predicate ValidClose(c: Close) {
    KnownCode(c.connectCode) && |c.message| <= MAX_MESSAGE
  }

  function CloseBytes(c: Close): (b: Text)
    requires ValidClose(c)
    ensures |b| <= MAX_PAYLOAD
  {
    CodedBytes(c.code, c.connectCode, c.message)
  }

  function ParseClose(p: Text): Option<Close> {
    match ParseCoded(p)
    case None => None
    case Some((code, connectCode, message)) =>
      if KnownCode(connectCode) && |message| <= MAX_MESSAGE then Some(Close(code, connectCode, message)) else None
  }

  lemma CloseExact(p: Text, c: Close)
    requires |p| <= MAX_PAYLOAD
    ensures ParseClose(p) == Some(c) <==> ValidClose(c) && p == CloseBytes(c)
  {
    CodedExact(p, c.code, c.connectCode, c.message);
  }

  method WriteClose(w: ByteSink, c: Close) returns (ok: bool)
    modifies w
    ensures ok ==> ValidClose(c) && w.data == old(w.data) + FrameBytes(Frame(TYPE_CLOSE, CloseBytes(c)))
    ensures !ValidClose(c) ==> w.data == old(w.data)
    ensures !ok && ValidClose(c) ==> CutShort(old(w.data), w.data, FrameBytes(Frame(TYPE_CLOSE, CloseBytes(c))))
  {
    if !KnownCode(c.connectCode) || |c.message| > MAX_MESSAGE {
      return false;
    }
    var payload := MarshalCoded(c.code, c.connectCode, c.message);
    ok := WriteFrame(w, Frame(TYPE_CLOSE, payload[..]));
  }

  datatype ConnectResponse = ConnectResponse(ok: bool, code: Byte, message: Text)

  /** What a reader can get: a known code that is OK exactly on success. */
  predicate ValidResponse(r: ConnectResponse) {
    KnownCode(r.code) && (r.ok <==> r.code == CODE_OK) && |r.message| <= MAX_MESSAGE
  }

  /** The code the writer puts on the wire. */
  function Normalise(r: ConnectResponse): ConnectResponse {
    r.(code := if r.ok then CODE_OK else if r.code == CODE_OK then CODE_INTERNAL_ERROR else r.code)
  }

  function ResponseBytes(r: ConnectResponse): (b: Text)
    requires |r.message| <= MAX_MESSAGE
    ensures |b| <= MAX_PAYLOAD
  {
    CodedBytes(if r.ok then 0 else 1, Normalise(r).code, r.message)
  }

  function ParseResponse(p: Text): Option<ConnectResponse> {
    match ParseCoded(p)
    case None => None
    case Some((status, code, message)) =>
      if !KnownCode(code) then None
      else if status == 0 && code == CODE_OK then Some(ConnectResponse(true, CODE_OK, message))
      else if status == 1 && code != CODE_OK then Some(ConnectResponse(false, code, message))
      else None
  }

  lemma ResponseExact(p: Text, r: ConnectResponse)
    requires |p| <= MAX_PAYLOAD
    ensures ParseResponse(p) == Some(r) <==> ValidResponse(r) && p == ResponseBytes(r)
  {
    CodedExact(p, if r.ok then 0 else 1, r.code, r.message);
    if ParseCoded(p).Some? {
      var (status, code, message) := ParseCoded(p).value;
      CodedExact(p, status, code, message);
    }
  }

  method WriteConnectResponse(w: ByteSink, r: ConnectResponse) returns (ok: bool)
    modifies w
    ensures ok ==> |r.message| <= MAX_MESSAGE && w.data == old(w.data) + FrameBytes(Frame(TYPE_CONNECT_RESPONSE, ResponseBytes(r)))
    ensures |r.message| > MAX_MESSAGE ==> w.data == old(w.data)
    ensures !ok && |r.message| <= MAX_MESSAGE ==>
      CutShort(old(w.data), w.data, FrameBytes(Frame(TYPE_CONNECT_RESPONSE, ResponseBytes(r))))
  {
    var status, code := 0, r.code;
    if !r.ok {
      status := 1;
      if code == CODE_OK {
        code := CODE_INTERNAL_ERROR;
      }
    } else {
      code := CODE_OK;
    }
    if |r.message| > MAX_MESSAGE {
      return false;
    }
    var payload := MarshalCoded(status, code, r.message);
    ok := WriteFrame(w, Frame(TYPE_CONNECT_RESPONSE, payload[..]));
  }

  method ReadConnectResponse(s: ByteSource) returns (r: Option<ConnectResponse>)
    modifies s
    ensures var (frame, rest) := NextFrame(old(s.rest));
      && s.rest == rest
      && r == if frame.Some? && frame.value.typ == TYPE_CONNECT_RESPONSE then ParseResponse(frame.value.payload) else None
  {
    var frame, _ := ReadFrame(s);
    if frame.None? || frame.value.typ != TYPE_CONNECT_RESPONSE {
      return None;
    }
    r := ParseResponse(frame.value.payload);
  }

  // ---------- client finished ----------

  function FinishedBytes(signature: Text): Text
    requires 1 <= |signature| <= MAX_SIGNATURE
  {
    Field16(signature)
  }

  function ParseFinished(p: Text): Option<Text> {
    match FieldAt(p, 0, 1, MAX_SIGNATURE)
    case None => None
    case Some((signature, end)) => if end == |p| then Some(signature) else None
  }

  lemma FinishedExact(p: Text, signature: Text)
    ensures ParseFinished(p) == Some(signature) <==> 1 <= |signature| <= MAX_SIGNATURE && p == FinishedBytes(signature)
  {
    FieldAtExact(p, 0, 1, MAX_SIGNATURE, signature, |p|);
  }

  /** What hellos, records, closes and responses can be read, in numbers: up to 8
      certificates of 1 to 16384 bytes, a key of 1 to 4096 and a signature of 1 to 8192; a
      suffix of 1 to 24 bytes and a ciphertext of 1 to 65508; nine codes and a text of up
      to 65531. */
  lemma MessageLimits(h: Hello, d: Data, c: Close, r: ConnectResponse)
    ensures (exists p: Text :: ParseHello(p) == Some(h)) <==>
      && 1 <= |h.chain| <= 8 && (forall i | 0 <= i < |h.chain| :: 1 <= |h.chain[i]| <= 16384)
      && 1 <= |h.key| <= 4096 && 1 <= |h.signature| <= 8192
    ensures (exists p: Text :: ParseData(p) == Some(d)) <==> 1 <= |d.nonceSuffix| <= 24 && 1 <= |d.ciphertext| <= 65508
    ensures (exists p: Text :: |p| <= 65535 && ParseClose(p) == Some(c)) <==> c.connectCode <= 8 && |c.message| <= 65531
    ensures (exists p: Text :: |p| <= 65535 && ParseResponse(p) == Some(r)) <==>
      r.code <= 8 && |r.message| <= 65531 && (r.ok <==> r.code == 0)
  {
    hide ParseHello, ParseData, ParseClose, ParseResponse, HelloBytes, DataBytes, CloseBytes, ResponseBytes;
    HelloLimits(h);
    if p: Text :| ParseData(p) == Some(d) {
      DataExact(p, d);
    }
    if ValidData(d) {
      DataExact(DataBytes(d), d);
    }
    if p: Text :| |p| <= 65535 && ParseClose(p) == Some(c) {
      CloseExact(p, c);
    }
    if ValidClose(c) {
      CloseExact(CloseBytes(c), c);
    }
    if p: Text :| |p| <= 65535 && ParseResponse(p) == Some(r) {
      ResponseExact(p, r);
    }
    if ValidResponse(r) {
      ResponseExact(ResponseBytes(r), r);
    }
  }

  lemma HelloLimits(h: Hello)
    ensures (exists p: Text :: ParseHello(p) == Some(h)) <==> ValidHello(h)
  {
    hide ParseHello, HelloBytes, ValidHello;
    if p: Text :| ParseHello(p) == Some(h) {
      HelloExact(p, h);
    }
    if ValidHello(h) {
      HelloExact(HelloBytes(h), h);
    }
  }
}
