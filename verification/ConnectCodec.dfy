/** The ConnectRequest payload: how it is written in place, how it is read back by
    offset, and exactly which payloads are accepted as which request. */
module ConnectCodec {
  import opened Bytes
  import opened FieldLists
  import opened Frames

  const MAX_PROTOCOL := 32
  const MAX_TARGET := 4096
  const MAX_HOPS := 255

  /** A request. The request ID is the 16 bytes of a UUID; a decoded route list is
      nil in the program exactly when it is empty here. */
  datatype ConnectRequest = ConnectRequest(
    id: Text,
    protocol: Text,
    service: Text,
    egress: Text,
    route: seq<Text>,
    e2eRequired: bool,
    e2eRoute: seq<Text>)

  /** Sixteen bytes with the UUID version nibble 7. */
  predicate ValidId(id: Text) {
    |id| == 16 && id[6] / 16 == 7
  }

  predicate ValidRoute(route: seq<Text>) {
    |route| <= MAX_HOPS && Items(route, MAX_TARGET)
  }

  predicate ValidRequest(req: ConnectRequest) {
    && ValidId(req.id)
    && 1 <= |req.protocol| <= MAX_PROTOCOL
    && 1 <= |req.service| <= MAX_TARGET
    && |req.egress| <= MAX_TARGET
    && ValidRoute(req.route)
    && ValidRoute(req.e2eRoute)
  }

  // ---------- the encoding ----------

  function Flag(b: bool): Byte {
    if b then 1 else 0
  }

  function NameBytes(protocol: Text, service: Text, egress: Text): Text
    requires |protocol| <= MAX_PROTOCOL && |service| <= MAX_TARGET && |egress| <= MAX_TARGET
  {
    Field8(protocol) + Field16(service) + Field16(egress)
  }

  /** The payload up to and including the route. */
  function RequestPrefix(req: ConnectRequest): (b: Text)
    requires ValidRequest(req)
    ensures |b| >= 19
  {
    req.id + NameBytes(req.protocol, req.service, req.egress) + CountedBytes(req.route)
  }

  function RequestBytes(req: ConnectRequest): (b: Text)
    requires ValidRequest(req)
  {
    RequestPrefix(req) + [Flag(req.e2eRequired)] + CountedBytes(req.e2eRoute)
  }

  // ---------- the decoding, as a function ----------

  /** The optional end of the payload: nothing, the flag alone, or flag and route. */
  function TailAt(p: Text, offset: nat): Option<(bool, seq<Text>)> {
    if offset == |p| then Some((false, []))
    else if |p| < offset || p[offset] > 1 then None
    else if offset + 1 == |p| then Some((p[offset] == 1, []))
    else match CountedAt(p, offset + 1, MAX_TARGET)
      case None => None
      case Some((route, end)) => if end == |p| then Some((p[offset] == 1, route)) else None
  }

  /** Protocol, service and egress, and the offset behind them. */
  function NamesAt(p: Text): Option<(Text, Text, Text, nat)> {
    match Field8At(p, 16, 1, MAX_PROTOCOL)
    case None => None
    case Some((protocol, o1)) =>
      match FieldAt(p, o1, 1, MAX_TARGET)
      case None => None
      case Some((service, o2)) =>
        match FieldAt(p, o2, 0, MAX_TARGET)
        case None => None
        case Some((egress, o3)) => Some((protocol, service, egress, o3))
  }

  function ParseRequest(p: Text): Option<ConnectRequest> {
    if |p| < 19 || !ValidId(p[..16]) then None
    else match NamesAt(p)
      case None => None
      case Some((protocol, service, egress, o3)) =>
        match CountedAt(p, o3, MAX_TARGET)
        case None => None
        case Some((route, o4)) =>
          match TailAt(p, o4)
          case None => None
          case Some((required, e2eRoute)) =>
            Some(ConnectRequest(p[..16], protocol, service, egress, route, required, e2eRoute))
  }

  // ---------- what is accepted ----------

  lemma NamesAtExact(p: Text, protocol: Text, service: Text, egress: Text, end: nat)
    ensures NamesAt(p) == Some((protocol, service, egress, end)) <==>
      && 1 <= |protocol| <= MAX_PROTOCOL && 1 <= |service| <= MAX_TARGET && |egress| <= MAX_TARGET
      && var names := NameBytes(protocol, service, egress);
         end == 16 + |names| && Holds(p, 16, names)
  {
    hide FieldAt, Field8At, Holds, Field16, Field8;
    var o1 := 17 + |protocol|;
    var o2 := o1 + 2 + |service|;
    Field8AtExact(p, 16, 1, MAX_PROTOCOL, protocol, o1);
    FieldAtExact(p, o1, 1, MAX_TARGET, service, o2);
    FieldAtExact(p, o2, 0, MAX_TARGET, egress, end);
    if |protocol| <= MAX_PROTOCOL && |service| <= MAX_TARGET && |egress| <= MAX_TARGET {
      HoldsBoth(p, 16, Field8(protocol) + Field16(service), Field16(egress));
      HoldsBoth(p, 16, Field8(protocol), Field16(service));
    }
    if NamesAt(p) == Some((protocol, service, egress, end)) {
      var x := Field8At(p, 16, 1, MAX_PROTOCOL).value;
      Field8AtExact(p, 16, 1, MAX_PROTOCOL, x.0, x.1);
      var y := FieldAt(p, x.1, 1, MAX_TARGET).value;
      FieldAtExact(p, x.1, 1, MAX_TARGET, y.0, y.1);
    }
  }

  /** The end of an accepted payload of `req`: the full form, the flag alone with an
      empty E2E route, or nothing when the flag is off too. */
  predicate TailOf(tail: Text, req: ConnectRequest)
    requires ValidRequest(req)
  {
    || tail == [Flag(req.e2eRequired)] + CountedBytes(req.e2eRoute)
    || (tail == [Flag(req.e2eRequired)] && req.e2eRoute == [])
    || (tail == [] && req.e2eRoute == [] && !req.e2eRequired)
  }

  lemma TailAtSound(p: Text, offset: nat)
    requires offset <= |p| && TailAt(p, offset).Some?
    ensures var (required, route) := TailAt(p, offset).value;
      && ValidRoute(route)
      && (|| p[offset..] == [Flag(required)] + CountedBytes(route)
          || (p[offset..] == [Flag(required)] && route == [])
          || (p[offset..] == [] && route == [] && !required))
  {
    if offset + 1 < |p| {
      var (route, end) := CountedAt(p, offset + 1, MAX_TARGET).value;
      CountedAtExact(p, offset + 1, MAX_TARGET, route, end);
      assert p[offset..] == [p[offset]] + p[offset + 1..];
    }
  }

  lemma TailAtComplete(p: Text, offset: nat, req: ConnectRequest)
    requires offset <= |p| && ValidRequest(req) && TailOf(p[offset..], req)
    ensures TailAt(p, offset) == Some((req.e2eRequired, req.e2eRoute))
  {
    var tail := p[offset..];
    if tail == [Flag(req.e2eRequired)] + CountedBytes(req.e2eRoute) {
      assert p[offset] == tail[0];
      assert p[offset + 1..] == tail[1..] == CountedBytes(req.e2eRoute);
      CountedAtExact(p, offset + 1, MAX_TARGET, req.e2eRoute, |p|);
    } else if tail != [] {
      assert p[offset] == tail[0];
    }
  }

  lemma PrefixHolds(p: Text, req: ConnectRequest)
    requires ValidRequest(req)
    ensures var names := NameBytes(req.protocol, req.service, req.egress);
      Holds(p, 0, RequestPrefix(req))
      <==> Holds(p, 0, req.id) && Holds(p, 16, names) && Holds(p, 16 + |names|, CountedBytes(req.route))
  {
    var names := NameBytes(req.protocol, req.service, req.egress);
    HoldsBoth(p, 0, req.id + names, CountedBytes(req.route));
    HoldsBoth(p, 0, req.id, names);
  }

  /** Parsing succeeds exactly when the prefix and one of the tails stand there. */
  lemma ParseSound(p: Text, req: ConnectRequest)
    requires ParseRequest(p) == Some(req)
    ensures ValidRequest(req) && Holds(p, 0, RequestPrefix(req)) && TailOf(p[|RequestPrefix(req)|..], req)
  {
    hide NamesAt, CountedAt, TailAt, NameBytes, CountedBytes;
    var (protocol, service, egress, o3) := NamesAt(p).value;
    NamesAtExact(p, protocol, service, egress, o3);
    var (route, o4) := CountedAt(p, o3, MAX_TARGET).value;
    CountedAtExact(p, o3, MAX_TARGET, route, o4);
    TailAtSound(p, o4);
    assert ValidRequest(req);
    PrefixHolds(p, req);
  }

  lemma ParseComplete(p: Text, req: ConnectRequest)
    requires ValidRequest(req) && Holds(p, 0, RequestPrefix(req)) && TailOf(p[|RequestPrefix(req)|..], req)
    ensures ParseRequest(p) == Some(req)
  {
    PrefixHolds(p, req);
    var o3 := 16 + |NameBytes(req.protocol, req.service, req.egress)|;
    NamesAtExact(p, req.protocol, req.service, req.egress, o3);
    CountedAtExact(p, o3, MAX_TARGET, req.route, |RequestPrefix(req)|);
    TailAtComplete(p, |RequestPrefix(req)|, req);
  }

  /** The canonical bytes, or the two legacy short forms of a request without an
      E2E route: one byte less, or two bytes less when the flag is off as well. */
  predicate AcceptedForm(p: Text, req: ConnectRequest)
    requires ValidRequest(req)
  {
    var full := RequestBytes(req);
    || p == full
    || (req.e2eRoute == [] && p == full[..|full| - 1])
    || (req.e2eRoute == [] && !req.e2eRequired && p == full[..|full| - 2])
  }

  lemma AcceptedFormIsTail(p: Text, req: ConnectRequest)
    requires ValidRequest(req)
    ensures AcceptedForm(p, req) <==> Holds(p, 0, RequestPrefix(req)) && TailOf(p[|RequestPrefix(req)|..], req)
  {
    var prefix, full, flag := RequestPrefix(req), RequestBytes(req), [Flag(req.e2eRequired)];
    var n := |prefix|;
    Assoc(prefix, flag, CountedBytes(req.e2eRoute));
    if req.e2eRoute == [] {
      assert CountedBytes([]) == [0];
      assert full[..|full| - 1] == prefix + flag && full[..|full| - 2] == prefix;
    }
    if Holds(p, 0, prefix) {
      assert p == prefix + p[n..];
    }
    assert forall x: Text {:trigger prefix + x} :: (prefix + x)[..n] == prefix && (prefix + x)[n..] == x;
    assert prefix + [] == prefix;
  }

  /** A payload decodes to a request exactly when the request is valid and the
      payload is one of its accepted forms. */
  lemma AcceptedPayloads(p: Text, req: ConnectRequest)
    ensures ParseRequest(p) == Some(req) <==> ValidRequest(req) && AcceptedForm(p, req)
  {
    if ParseRequest(p) == Some(req) {
      ParseSound(p, req);
    }
    if ValidRequest(req) {
      AcceptedFormIsTail(p, req);
      if AcceptedForm(p, req) {
        ParseComplete(p, req);
      }
    }
  }

  /** Decoding undoes encoding. */
  lemma RequestRoundTrip(req: ConnectRequest)
    requires ValidRequest(req)
    ensures ParseRequest(RequestBytes(req)) == Some(req)
  {
    AcceptedPayloads(RequestBytes(req), req);
  }

  /** What is written and read, in numbers: a version 7 ID of 16 bytes, a protocol of 1 to
      32 bytes, a service of 1 to 4096, an egress of up to 4096, and two lists of up to 255
      hops of 1 to 4096 bytes each. */
  lemma RequestLimits(req: ConnectRequest)
    ensures (exists p: Text :: ParseRequest(p) == Some(req)) <==>
      && |req.id| == 16 && 0x70 <= req.id[6] < 0x80
      && 1 <= |req.protocol| <= 32 && 1 <= |req.service| <= 4096 && |req.egress| <= 4096
      && |req.route| <= 255 && (forall i | 0 <= i < |req.route| :: 1 <= |req.route[i]| <= 4096)
      && |req.e2eRoute| <= 255 && (forall i | 0 <= i < |req.e2eRoute| :: 1 <= |req.e2eRoute[i]| <= 4096)
  {
    hide ParseRequest, AcceptedForm, RequestBytes;
    if p: Text :| ParseRequest(p) == Some(req) {
      AcceptedPayloads(p, req);
    }
    if ValidRequest(req) {
      RequestRoundTrip(req);
    }
  }

  // ---------- forwarding ----------

  /** The request a relay sends on: its own hop removed. */
  function StripHop(req: ConnectRequest): ConnectRequest
    requires req.route != []
  {
    req.(route := req.route[1..])
  }

  /** Any accepted request with another hop passes every check of the writer once
      its first hop is removed, and takes strictly fewer bytes than it came in. */
  lemma ForwardedFits(p: Text, req: ConnectRequest)
    requires ParseRequest(p) == Some(req) && |req.route| >= 2
    ensures ValidRequest(StripHop(req))
    ensures |RequestBytes(StripHop(req))| < |p|
  {
    AcceptedPayloads(p, req);
    var out := StripHop(req);
    assert ListBytes(req.route) == Field16(req.route[0]) + ListBytes(out.route);
    assert |CountedBytes(req.route)| >= |CountedBytes(out.route)| + 3;
  }

  // ---------- the writer and the reader, as the program runs them ----------

  /** The encoded length of a valid route; an invalid one has none. */
  method EncodedRouteLength(route: seq<Text>) returns (r: Option<nat>)
    ensures r.Some? <==> ValidRoute(route)
    ensures r.Some? ==> r.value == |CountedBytes(route)|
  {
    if |route| > MAX_HOPS {
      return None;
    }
    var length := 1;
    for i := 0 to |route|
      invariant Items(route[..i], MAX_TARGET)
      invariant length == 1 + |ListBytes(route[..i])|
    {
      if |route[i]| == 0 || |route[i]| > MAX_TARGET {
        return None;
      }
      ListBytesSnoc(route[..i], route[i]);
      assert route[..i] + [route[i]] == route[..i + 1];
      length := length + 2 + |route[i]|;
    }
    assert route[..|route|] == route;
    r := Some(length);
  }

  /** Fills the payload of a request in place; refuses exactly the invalid ones. */
  method MarshalRequest(req: ConnectRequest) returns (r: Option<array<Byte>>)
    ensures r.Some? <==> ValidRequest(req)
    ensures r.Some? ==> fresh(r.value) && r.value[..] == RequestBytes(req)
  {
    hide CountedBytes;
    if !ValidId(req.id) || |req.protocol| == 0 || |req.protocol| > MAX_PROTOCOL
       || |req.service| == 0 || |req.service| > MAX_TARGET || |req.egress| > MAX_TARGET {
      return None;
    }
    var routeLen := EncodedRouteLength(req.route);
    if routeLen.None? {
      return None;
    }
    var e2eRouteLen := EncodedRouteLength(req.e2eRoute);
    if e2eRouteLen.None? {
      return None;
    }
    var size := 16 + 1 + |req.protocol| + 2 + |req.service| + 2 + |req.egress| + routeLen.value + 1 + e2eRouteLen.value;
    var payload := new Byte[size](_ => 0);
    var offset := PutNames(payload, req);
    offset := WriteCounted(payload, offset, req.route);
    if req.e2eRequired {
      payload[offset] := 1;
    }
    offset := offset + 1;
    assert payload[..offset] == RequestPrefix(req) + [Flag(req.e2eRequired)];
    offset := WriteCounted(payload, offset, req.e2eRoute);
    assert payload[..] == payload[..offset];
    r := Some(payload);
  }

  /** Writes everything before the route and leaves the rest as it was. */
  method PutNames(a: array<Byte>, req: ConnectRequest) returns (next: nat)
    requires ValidRequest(req)
    requires 16 + |NameBytes(req.protocol, req.service, req.egress)| <= a.Length
    modifies a
    ensures next == 16 + |NameBytes(req.protocol, req.service, req.egress)|
    ensures a[..next] == req.id + NameBytes(req.protocol, req.service, req.egress)
    ensures forall k | next <= k < a.Length :: a[k] == old(a[k])
  {
    CopyAt(a, 0, req.id);
    a[16] := |req.protocol|;
    assert a[..17] == req.id + [|req.protocol|];
    CopyAt(a, 17, req.protocol);
    Assoc(req.id, [|req.protocol|], req.protocol);
    next := 17 + |req.protocol|;
    next := PutField16(a, next, req.service);
    Assoc(req.id, Field8(req.protocol), Field16(req.service));
    next := PutField16(a, next, req.egress);
    Assoc(req.id, Field8(req.protocol) + Field16(req.service), Field16(req.egress));
  }

  /** Marshals and frames a request onto a stream. */
  method WriteConnectRequest(w: ByteSink, req: ConnectRequest) returns (ok: bool)
    modifies w
    ensures ok ==> ValidRequest(req) && |RequestBytes(req)| <= MAX_PAYLOAD
    ensures ok ==> w.data == old(w.data) + FrameBytes(Frame(TYPE_CONNECT_REQUEST, RequestBytes(req)))
    ensures !ValidRequest(req) || |RequestBytes(req)| > MAX_PAYLOAD ==> w.data == old(w.data)
    ensures !ok && ValidRequest(req) && |RequestBytes(req)| <= MAX_PAYLOAD ==>
      CutShort(old(w.data), w.data, FrameBytes(Frame(TYPE_CONNECT_REQUEST, RequestBytes(req))))
  {
    var payload := MarshalRequest(req);
    if payload.None? {
      return false;
    }
    ok := WriteFrame(w, Frame(TYPE_CONNECT_REQUEST, payload.value[..]));
  }

  /** The flag and the E2E route, each of which an older peer may leave out. */
  method ReadTail(payload: Text, start: nat) returns (r: Option<(bool, seq<Text>)>)
    requires start <= |payload|
    ensures r == TailAt(payload, start)
  {
    var offset, required := start, false;
    if |payload| - offset >= 1 {
      if payload[offset] > 1 {
        return None;
      }
      required := payload[offset] == 1;
      offset := offset + 1;
    }
    var e2eRoute := [];
    if |payload| - offset > 0 {
      var route := ReadItems(payload, offset + 1, payload[offset], MAX_TARGET);
      if route.None? {
        return None;
      }
      e2eRoute, offset := route.value.0, route.value.1;
    }
    if |payload| - offset != 0 {
      return None;
    }
    r := Some((required, e2eRoute));
  }

  /** Reads the payload by offset, field by field. */
  method UnmarshalRequest(payload: Text) returns (r: Option<ConnectRequest>)
    ensures r == ParseRequest(payload)
  {
    hide NamesAt, TailAt;
    if |payload| < 19 || !ValidId(payload[..16]) {
      return None;
    }
    var names := NamesAt(payload);
    if names.None? {
      return None;
    }
    var (protocol, service, egress, offset) := names.value;
    if |payload| < offset + 1 {
      return None;
    }
    var route := ReadItems(payload, offset + 1, payload[offset], MAX_TARGET);
    if route.None? {
      return None;
    }
    var tail := ReadTail(payload, route.value.1);
    if tail.None? {
      return None;
    }
    r := Some(ConnectRequest(payload[..16], protocol, service, egress, route.value.0, tail.value.0, tail.value.1));
  }

  /** Takes one frame off a stream and decodes it as a request. */
  method ReadConnectRequest(s: ByteSource) returns (r: Option<ConnectRequest>)
    modifies s
    ensures var (frame, rest) := NextFrame(old(s.rest));
      && s.rest == rest
      && r == if frame.Some? && frame.value.typ == TYPE_CONNECT_REQUEST then ParseRequest(frame.value.payload) else None
  {
    var frame, _ := ReadFrame(s);
    if frame.None? || frame.value.typ != TYPE_CONNECT_REQUEST {
      return None;
    }
    r := UnmarshalRequest(frame.value.payload);
  }
}
