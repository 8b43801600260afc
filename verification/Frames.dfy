/** The frame layer: a version byte, a type byte, a two-byte length and the
    payload. Streams are byte sources and sinks; a sink may fail at any write. */
module Frames {
  import opened Bytes

  const VERSION: Byte := 1
  const MAX_PAYLOAD := 64 * 1024 - 1

  const TYPE_CONNECT_REQUEST: Byte := 1
  const TYPE_CONNECT_RESPONSE: Byte := 2
  const TYPE_CLIENT_HELLO: Byte := 3
  const TYPE_SERVER_HELLO: Byte := 4
  const TYPE_DATA: Byte := 5
  const TYPE_CLOSE: Byte := 6
  const TYPE_CLIENT_FINISHED: Byte := 7

  datatype Frame = Frame(typ: Byte, payload: Text)

  predicate Fits(f: Frame) {
    |f.payload| <= MAX_PAYLOAD
  }

  predicate AllFit(fs: seq<Frame>) {
    forall i | 0 <= i < |fs| :: Fits(fs[i])
  }

  function FrameBytes(f: Frame): (b: Text)
    requires Fits(f)
    ensures |b| == 4 + |f.payload|
  {
    [VERSION, f.typ] + Field16(f.payload)
  }

  /** What reading one frame off a stream gives and what it leaves unread. A bad
      version leaves the stream just behind the header; a short stream is used up. */
  function NextFrame(s: Text): (r: (Option<Frame>, Text))
    ensures r.0.Some? ==> Fits(r.0.value) && s == FrameBytes(r.0.value) + r.1
    ensures |r.1| <= |s| && (s != [] ==> |r.1| < |s|)
    ensures s == [] ==> r.0.None?
  {
    if |s| < 4 then (None, [])
    else if s[0] != VERSION then (None, s[4..])
    else
      var n := U16At(s, 2);
      if |s| < 4 + n then (None, [])
      else
        assert s == [s[0], s[1]] + (U16(n) + s[4..4 + n]) + s[4 + n..];
        (Some(Frame(s[1], s[4..4 + n])), s[4 + n..])
  }

  /** A failed read that reports end of stream rather than a broken frame: nothing
      was left where the header or the payload should begin. */
  predicate EndsStream(s: Text) {
    s == [] || (|s| == 4 && s[0] == VERSION && U16At(s, 2) > 0)
  }

  lemma NextFrameOfWritten(f: Frame, rest: Text)
    requires Fits(f)
    ensures NextFrame(FrameBytes(f) + rest) == (Some(f), rest)
  {
    var s := FrameBytes(f) + rest;
    assert s[2..4] == U16(|f.payload|);
    assert U16At(s, 2) == |f.payload|;
    assert s[4..4 + |f.payload|] == f.payload;
    assert s[4 + |f.payload|..] == rest;
  }

  function StreamBytes(fs: seq<Frame>): Text
    requires AllFit(fs)
  {
    if fs == [] then [] else FrameBytes(fs[0]) + StreamBytes(fs[1..])
  }

  /** All frames of a stream, when the stream is exactly a list of frames. */
  function AllFrames(s: Text): (r: Option<seq<Frame>>)
    decreases |s|
  {
    if s == [] then Some([])
    else
      var (f, rest) := NextFrame(s);
      if f.None? then None
      else match AllFrames(rest)
        case None => None
        case Some(fs) => Some([f.value] + fs)
  }

  /** Frames written one after another read back as the same list, and a stream
      that reads as a list of frames holds exactly those frames' bytes. */
  lemma {:induction false} StreamRoundTrip(s: Text, fs: seq<Frame>)
    ensures AllFrames(s) == Some(fs)
       <==> AllFit(fs) && s == StreamBytes(fs)
    decreases |s|, |fs|
  {
    if AllFit(fs) && s == StreamBytes(fs) && fs != [] {
      NextFrameOfWritten(fs[0], StreamBytes(fs[1..]));
      StreamRoundTrip(StreamBytes(fs[1..]), fs[1..]);
      assert fs == [fs[0]] + fs[1..];
    }
    if AllFrames(s) == Some(fs) && s != [] {
      var (f, rest) := NextFrame(s);
      assert AllFrames(rest).Some? && fs == [f.value] + AllFrames(rest).value;
      assert fs[1..] == AllFrames(rest).value;
      StreamRoundTrip(rest, fs[1..]);
      forall i | 0 <= i < |fs| ensures Fits(fs[i]) {
        assert i > 0 ==> fs[i] == fs[1..][i - 1];
      }
    }
  }

  lemma {:induction false} StreamBytesAppend(xs: seq<Frame>, ys: seq<Frame>)
    requires AllFit(xs) && AllFit(ys)
    ensures AllFit(xs + ys)
    ensures StreamBytes(xs + ys) == StreamBytes(xs) + StreamBytes(ys)
  {
    if xs == [] {
      assert xs + ys == ys;
    } else {
      StreamBytesAppend(xs[1..], ys);
      assert (xs + ys)[1..] == xs[1..] + ys;
      var f, a, b := FrameBytes(xs[0]), StreamBytes(xs[1..]), StreamBytes(ys);
      assert f + (a + b) == (f + a) + b;
    }
  }

  /** The reading end of a stream: the bytes not read yet. */
  class ByteSource {
    var rest: Text

    constructor (s: Text)
      ensures rest == s
    {
      rest := s;
    }

    /** Reads exactly n bytes, or uses the stream up and fails. */
    method ReadFull(n: nat) returns (r: Option<Text>, eof: bool)
      modifies this
      ensures old(|rest|) >= n ==> r == Some(old(rest[..n])) && rest == old(rest[n..]) && !eof
      ensures old(|rest|) < n ==> r == None && rest == [] && eof == (old(rest) == [])
    {
      eof := false;
      if |rest| >= n {
        r := Some(rest[..n]);
        rest := rest[n..];
      } else {
        r := None;
        eof := rest == [];
        rest := [];
      }
    }
  }

  /** The writing end of a stream: the bytes that got through. A write that fails
      may have let any part of its bytes through. */
  class ByteSink {
    var data: Text

    constructor ()
      ensures data == []
    {
      data := [];
    }

    method Write(b: Text) returns (ok: bool)
      modifies this
      ensures ok ==> data == old(data) + b
      ensures !ok ==> exists k :: 0 <= k <= |b| && data == old(data) + b[..k]
    {
      var k :| 0 <= k <= |b|;
      if k < |b| {
        data := data + b[..k];
        ok := false;
      } else {
        assert b[..|b|] == b;
        data := data + b;
        ok := *;
      }
    }
  }

  /** Some part of the bytes, from the start, has been added. */
  ghost predicate CutShort(before: Text, after: Text, b: Text) {
    exists k :: 0 <= k <= |b| && after == before + b[..k]
  }

  /** Header first, then payload; an oversized payload is refused before any byte. */
  method WriteFrame(w: ByteSink, f: Frame) returns (ok: bool)
    modifies w
    ensures ok ==> Fits(f) && w.data == old(w.data) + FrameBytes(f)
    ensures !Fits(f) ==> w.data == old(w.data)
    ensures Fits(f) && !ok ==> CutShort(old(w.data), w.data, FrameBytes(f))
  {
    if |f.payload| > MAX_PAYLOAD {
      return false;
    }
    var header := [VERSION, f.typ] + U16(|f.payload|);
    assert FrameBytes(f) == header + f.payload;
    ok := w.Write(header);
    if !ok {
      ghost var k :| 0 <= k <= 4 && w.data == old(w.data) + header[..k];
      assert FrameBytes(f)[..k] == header[..k];
      return;
    }
    ok := w.Write(f.payload);
    if ok {
      assert old(w.data) + header + f.payload == old(w.data) + FrameBytes(f);
    } else {
      ghost var k :| 0 <= k <= |f.payload| && w.data == old(w.data) + header + f.payload[..k];
      assert FrameBytes(f)[..4 + k] == header + f.payload[..k];
      assert w.data == old(w.data) + FrameBytes(f)[..4 + k];
    }
  }

  method ReadFrame(r: ByteSource) returns (res: Option<Frame>, eof: bool)
    modifies r
    ensures (res, r.rest) == NextFrame(old(r.rest))
    ensures eof <==> EndsStream(old(r.rest))
  {
    var header, payload;
    header, eof := r.ReadFull(4);
    if header.None? {
      return None, eof;
    }
    if header.value[0] != VERSION {
      return None, false;
    }
    var n := U16At(header.value, 2);
    assert n == U16At(old(r.rest), 2);
    payload, eof := r.ReadFull(n);
    if payload.None? {
      return None, eof;
    }
    res := Some(Frame(header.value[1], payload.value));
    assert old(r.rest[4..])[..n] == old(r.rest[4..4 + n]);
    assert old(r.rest[4..])[n..] == old(r.rest[4 + n..]);
  }
}
