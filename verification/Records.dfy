/** The encrypted record layer. A writer cuts plaintext into numbered sealed
    records, a reader opens them in strict order; together they are a byte pipe. */
module Records {
  import opened Bytes
  import opened Frames
  import opened E2ECodec
  import opened Transcript

  const TAG := 16
  const MAX_PLAINTEXT := MAX_CIPHERTEXT - TAG
  const MAX_SEQUENCE := 0xFFFF_FFFF_FFFF_FFFF

  const CLOSE_OK: Byte := 0

  /** The cipher, as sections 2.1 and 2.2 of RFC 5116 describe it: seal takes nonce,
      plaintext and associated data; open takes nonce, ciphertext and the same. */
  datatype Aead = Aead(seal: (Text, Text, Text) -> Text, open: (Text, Text, Text) -> Option<Text>)

  /** Sealing adds a tag. */
  ghost predicate AddsTag(aead: Aead) {
    forall n: Text, p: Text, d: Text :: |aead.seal(n, p, d)| == |p| + TAG
  }

  function Suffix(number: nat): (s: Text)
    ensures |s| == RECORD_SUFFIX
  {
    BigEndian(number, RECORD_SUFFIX)
  }

  /** The suffix at the end of an otherwise zero 12-byte nonce. */
  function Nonce(suffix: Text): Text {
    [0, 0, 0, 0] + suffix
  }

  lemma SuffixInjective(n: nat, m: nat)
    requires n <= MAX_SEQUENCE && m <= MAX_SEQUENCE && Suffix(n) == Suffix(m)
    ensures n == m
  {
    assert Pow256(2) == 0x1_0000;
    assert Pow256(4) == 0x1_0000_0000;
    assert Pow256(6) == 0x1_0000_0000_0000;
    assert Pow256(8) == 0x1_0000_0000_0000_0000;
    BigEndianInjective(n, m, RECORD_SUFFIX);
  }

  /** The nonce, ciphertext and associated data of a chunk sealed as record k. */
  ghost predicate IsRecord(aead: Aead, hash: Text, k: nat, chunk: Text, n: Text, c: Text, d: Text) {
    n == Nonce(Suffix(k)) && d == RecordAad(hash, Suffix(k)) && c == aead.seal(n, chunk, d)
  }

  /** The contract of the cipher when `chunks` are sealed, chunk k under the k-th nonce:
      a reader can open exactly those records, each to its own chunk. */
  ghost predicate OpensExactly(aead: Aead, hash: Text, chunks: seq<Text>) {
    && AddsTag(aead)
    && forall n: Text, c: Text, d: Text, p: Text ::
         aead.open(n, c, d) == Some(p) <==> exists k :: 0 <= k < |chunks| && p == chunks[k] && IsRecord(aead, hash, k, chunks[k], n, c, d)
  }

  function Concat(chunks: seq<Text>): Text {
    if chunks == [] then [] else chunks[0] + Concat(chunks[1..])
  }

  lemma {:induction false} ConcatAppend(a: seq<Text>, b: seq<Text>)
    ensures Concat(a + b) == Concat(a) + Concat(b)
  {
    if a == [] {
      assert a + b == b;
    } else {
      ConcatAppend(a[1..], b);
      assert (a + b)[1..] == a[1..] + b;
      Assoc(a[0], Concat(a[1..]), Concat(b));
    }
  }

  lemma ConcatSnoc(chunks: seq<Text>, k: nat)
    requires k < |chunks|
    ensures Concat(chunks[..k + 1]) == Concat(chunks[..k]) + chunks[k]
  {
    ConcatAppend(chunks[..k], [chunks[k]]);
    assert chunks[..k] + [chunks[k]] == chunks[..k + 1];
    assert Concat([chunks[k]]) == chunks[k] + [] == chunks[k];
  }

  lemma ConcatNothing(chunks: seq<Text>)
    ensures Concat([]) == Concat(chunks[..0]) == []
  {
  }

  lemma ConcatPrefix(chunks: seq<Text>, k: nat)
    requires k <= |chunks|
    ensures Concat(chunks[..k]) <= Concat(chunks)
  {
    ConcatAppend(chunks[..k], chunks[k..]);
    assert chunks[..k] + chunks[k..] == chunks;
  }

  // ---------- cutting a write into chunks ----------

  function Chunks(p: Text): (cs: seq<Text>) {
    if p == [] then [] else if |p| <= MAX_PLAINTEXT then [p] else [p[..MAX_PLAINTEXT]] + Chunks(p[MAX_PLAINTEXT..])
  }

  predicate ChunkSizes(chunks: seq<Text>) {
    forall i | 0 <= i < |chunks| :: 1 <= |chunks[i]| <= MAX_PLAINTEXT
  }

  /** The chunks are small enough, none is empty, they give the write back, and all
      but the last are full, so there are no more of them than needed. */
  lemma {:induction false} ChunksExact(p: Text)
    ensures ChunkSizes(Chunks(p)) && Concat(Chunks(p)) == p
    ensures forall i | 0 <= i < |Chunks(p)| - 1 :: |Chunks(p)[i]| == MAX_PLAINTEXT == 65492
  {
    if |p| > MAX_PLAINTEXT {
      var head, tail := p[..MAX_PLAINTEXT], p[MAX_PLAINTEXT..];
      ChunksExact(tail);
      assert Chunks(p)[1..] == Chunks(tail);
      assert head + tail == p;
    } else if p != [] {
      assert Concat([p]) == p + [];
    }
  }

  lemma ChunksCases(p: Text)
    ensures p == [] ==> Chunks(p) == []
    ensures 1 <= |p| <= MAX_PLAINTEXT ==> Chunks(p) == [p]
    ensures |p| > MAX_PLAINTEXT ==> Chunks(p) == [p[..MAX_PLAINTEXT]] + Chunks(p[MAX_PLAINTEXT..])
  {
  }

  /** The next chunk of a write whose first bytes made k full chunks. */
  lemma {:induction false} ChunksStep(p: Text, k: nat, done: nat, end: nat)
    requires done == k * MAX_PLAINTEXT && done < |p|
    requires end == if done + MAX_PLAINTEXT > |p| then |p| else done + MAX_PLAINTEXT
    ensures Chunks(p[..end]) == Chunks(p[..done]) + [p[done..end]]
    decreases k
  {
    ChunksCases(p[..end]);
    ChunksCases(p[..done]);
    hide Chunks;
    if k == 0 {
      assert p[..0] == [] && p[..end] == p[0..end];
    } else {
      var tail := p[MAX_PLAINTEXT..];
      ChunksStep(tail, k - 1, done - MAX_PLAINTEXT, end - MAX_PLAINTEXT);
      assert tail[..end - MAX_PLAINTEXT] == p[..end][MAX_PLAINTEXT..];
      assert tail[done - MAX_PLAINTEXT..end - MAX_PLAINTEXT] == p[done..end];
      assert p[..end][..MAX_PLAINTEXT] == p[..MAX_PLAINTEXT];
      if k == 1 {
        ChunksCases([]);
        assert tail[..0] == [];
        assert p[..done] == p[..MAX_PLAINTEXT];
      } else {
        assert tail[..done - MAX_PLAINTEXT] == p[..done][MAX_PLAINTEXT..];
        assert p[..done][..MAX_PLAINTEXT] == p[..MAX_PLAINTEXT];
      }
    }
  }

  /** The first full chunks of a write begin the chunks of the whole. */
  lemma {:induction false} ChunksPrefix(p: Text, k: nat)
    ensures Chunks(p[..if k * MAX_PLAINTEXT <= |p| then k * MAX_PLAINTEXT else |p|]) <= Chunks(p)
    decreases k
  {
    var n := if k * MAX_PLAINTEXT <= |p| then k * MAX_PLAINTEXT else |p|;
    ChunksCases(p[..n]);
    ChunksCases(p);
    hide Chunks;
    if n == |p| {
      assert p[..n] == p;
    } else if k > 0 {
      var tail := p[MAX_PLAINTEXT..];
      ChunksPrefix(tail, k - 1);
      assert p[..n][..MAX_PLAINTEXT] == p[..MAX_PLAINTEXT];
      assert tail[..n - MAX_PLAINTEXT] == p[..n][MAX_PLAINTEXT..];
      ChunksCases(tail[..n - MAX_PLAINTEXT]);
    }
  }

  // ---------- the records of a stream ----------

  function RecordData(aead: Aead, hash: Text, number: nat, chunk: Text): Data {
    var suffix := Suffix(number);
    Data(suffix, aead.seal(Nonce(suffix), chunk, RecordAad(hash, suffix)))
  }

  /** A sealed chunk passes every size check of its frame. */
  lemma RecordFits(aead: Aead, hash: Text, number: nat, chunk: Text)
    requires AddsTag(aead) && 1 <= |chunk| <= MAX_PLAINTEXT
    ensures ValidData(RecordData(aead, hash, number, chunk))
  {
    var suffix := Suffix(number);
    assert |aead.seal(Nonce(suffix), chunk, RecordAad(hash, suffix))| == |chunk| + TAG;
  }

  ghost function RecordFrame(aead: Aead, hash: Text, number: nat, chunk: Text): (f: Frame)
    requires AddsTag(aead) && 1 <= |chunk| <= MAX_PLAINTEXT
    ensures Fits(f) && f.typ == TYPE_DATA
  {
    RecordFits(aead, hash, number, chunk);
    Frame(TYPE_DATA, DataBytes(RecordData(aead, hash, number, chunk)))
  }

  const CLOSE_FRAME := Frame(TYPE_CLOSE, CloseBytes(Close(CLOSE_OK, CODE_OK, [])))

  /** Records number..|chunks|-1, in order. */
  ghost function RecordsFrom(aead: Aead, hash: Text, chunks: seq<Text>, number: nat): (s: Text)
    requires AddsTag(aead) && ChunkSizes(chunks) && number <= |chunks|
    decreases |chunks| - number
  {
    if number == |chunks| then []
    else FrameBytes(RecordFrame(aead, hash, number, chunks[number])) + RecordsFrom(aead, hash, chunks, number + 1)
  }

  lemma {:induction false} RecordsFromSnoc(aead: Aead, hash: Text, chunks: seq<Text>, chunk: Text, number: nat)
    requires AddsTag(aead) && ChunkSizes(chunks) && 1 <= |chunk| <= MAX_PLAINTEXT && number <= |chunks|
    ensures ChunkSizes(chunks + [chunk])
    ensures RecordsFrom(aead, hash, chunks + [chunk], number)
         == RecordsFrom(aead, hash, chunks, number) + FrameBytes(RecordFrame(aead, hash, |chunks|, chunk))
    decreases |chunks| - number
  {
    var more := chunks + [chunk];
    var last := FrameBytes(RecordFrame(aead, hash, |chunks|, chunk));
    if number == |chunks| {
      assert RecordsFrom(aead, hash, more, number + 1) == [];
      assert last + [] == last && [] + last == last;
    } else {
      RecordsFromSnoc(aead, hash, chunks, chunk, number + 1);
      assert more[number] == chunks[number];
      Assoc(FrameBytes(RecordFrame(aead, hash, number, chunks[number])), RecordsFrom(aead, hash, chunks, number + 1), last);
    }
  }

  // ---------- the writer ----------

  datatype WriteError = WriterClosed | Exhausted | SinkFailed

  /** One use of the cipher: under which number, on what, and whether its frame was
      accepted by the sink. */
  datatype Sealing = Sealing(number: nat, chunk: Text, accepted: bool)

  ghost function Accepted(log: seq<Sealing>): nat {
    if log == [] then 0 else Accepted(log[..|log| - 1]) + if log[|log| - 1].accepted then 1 else 0
  }

  /** A sealing takes the number of frames accepted before it. */
  ghost predicate Numbered(log: seq<Sealing>) {
    forall i | 0 <= i < |log| :: log[i].number == Accepted(log[..i])
  }

  /** The chunks sealed so far, in order. */
  ghost function Sealed(log: seq<Sealing>): seq<Text> {
    seq(|log|, i requires 0 <= i < |log| => log[i].chunk)
  }

  /** Sealing i was made under number i. */
  ghost predicate InSequence(log: seq<Sealing>) {
    forall i | 0 <= i < |log| :: log[i].number == i
  }

  class EncryptedWriter {
    const aead: Aead
    const hash: Text
    const sink: ByteSink
    var number: nat
    var closed: bool
    ghost var log: seq<Sealing>
    ghost var chunks: seq<Text>
    ghost var intact: bool

    /** While no sink write has failed, the stream holds records 0, 1, 2, ... of the
        chunks and, once closed, one close frame; nothing else. */
    ghost predicate Valid()
      reads this, sink
    {
      && AddsTag(aead)
      && number <= MAX_SEQUENCE
      && Numbered(log) && number == Accepted(log)
      && (intact ==>
            && number == |chunks| && ChunkSizes(chunks)
            && InSequence(log) && Sealed(log) == chunks
            && sink.data == if closed then RecordsFrom(aead, hash, chunks, 0) + FrameBytes(CLOSE_FRAME)
                            else RecordsFrom(aead, hash, chunks, 0))
    }

    constructor (aead: Aead, hash: Text, sink: ByteSink)
      requires AddsTag(aead) && sink.data == []
      ensures Valid() && intact && !closed && chunks == [] && log == []
      ensures this.aead == aead && this.hash == hash && this.sink == sink
    {
      this.aead, this.hash, this.sink := aead, hash, sink;
      number, closed := 0, false;
      log, chunks, intact := [], [], true;
    }

    /** Seals one chunk under the current number. The number moves on only when the
        sink accepted the frame. */
    method WriteRecord(chunk: Text) returns (err: Option<WriteError>)
      requires Valid() && !closed && 1 <= |chunk| <= MAX_PLAINTEXT
      modifies this, sink
      ensures Valid() && !closed
      ensures err == Some(Exhausted) <==> old(number) == MAX_SEQUENCE
      ensures err.Some? ==> chunks == old(chunks) && (err.value.Exhausted? || err.value.SinkFailed?)
      ensures err == Some(Exhausted) ==> log == old(log) && intact == old(intact)
      ensures err == None ==> log == old(log) + [Sealing(old(number), chunk, true)] && number == old(number) + 1
      ensures err == None ==> chunks == old(chunks) + [chunk] && intact == old(intact)
      ensures err == Some(SinkFailed) ==> log == old(log) + [Sealing(old(number), chunk, false)] && number == old(number)
      ensures err == Some(SinkFailed) ==> !intact
      ensures old(intact) ==> InSequence(log) && Sealed(log) == old(chunks) + if err == Some(Exhausted) then [] else [chunk]
    {
      hide RecordFrame, FrameBytes, Accepted, Numbered, RecordsFrom;
      if number == MAX_SEQUENCE {
        assert chunks + [] == chunks;
        return Some(Exhausted);
      }
      var ok := EmitRecord(chunk);
      AcceptedSnoc(log, Sealing(number, chunk, ok));
      log := log + [Sealing(number, chunk, ok)];
      assert intact ==> Sealed(log) == chunks + [chunk];
      if !ok {
        intact := false;
        return Some(SinkFailed);
      }
      if intact {
        RecordsFromSnoc(aead, hash, chunks, chunk, 0);
      }
      chunks := chunks + [chunk];
      number := number + 1;
      err := None;
    }

    /** Seals and frames a chunk under the current number. */
    method EmitRecord(chunk: Text) returns (ok: bool)
      requires AddsTag(aead) && 1 <= |chunk| <= MAX_PLAINTEXT
      modifies sink
      ensures ok ==> sink.data == old(sink.data) + FrameBytes(RecordFrame(aead, hash, number, chunk))
    {
      var suffix := Suffix(number);
      var ciphertext := aead.seal(Nonce(suffix), chunk, RecordAad(hash, suffix));
      RecordFits(aead, hash, number, chunk);
      ok := WriteData(sink, Data(suffix, ciphertext));
    }

    /** Writes p chunk by chunk; on an error, says how many bytes went through. */
    method Write(p: Text) returns (n: nat, err: Option<WriteError>)
      requires Valid()
      modifies this, sink
      ensures Valid() && closed == old(closed)
      ensures n <= |p| && (err == None ==> n == |p|)
      ensures chunks == old(chunks) + Chunks(p[..n])
      ensures err == Some(WriterClosed) <==> p != [] && old(closed)
      ensures p == [] || old(closed) ==> n == 0 && log == old(log) && intact == old(intact)
      ensures err == Some(Exhausted) ==> number == MAX_SEQUENCE
      ensures old(intact) ==> (intact <==> err != Some(SinkFailed))
      ensures old(intact) ==> InSequence(log) && |log| <= MAX_SEQUENCE && Sealed(log) <= old(chunks) + Chunks(p)
    {
      assert p[..0] == [];
      assert old(chunks) + [] == old(chunks);
      if |p| == 0 {
        return 0, None;
      }
      if closed {
        return 0, Some(WriterClosed);
      }
      n, err := WriteChunks(p);
    }

    method WriteChunks(p: Text) returns (n: nat, err: Option<WriteError>)
      requires Valid() && !closed
      modifies this, sink
      ensures Valid() && !closed
      ensures n <= |p| && (err == None ==> n == |p|)
      ensures chunks == old(chunks) + Chunks(p[..n])
      ensures err != Some(WriterClosed)
      ensures err == Some(Exhausted) ==> number == MAX_SEQUENCE
      ensures old(intact) ==> (intact <==> err != Some(SinkFailed))
      ensures old(intact) ==> InSequence(log) && |log| <= MAX_SEQUENCE && Sealed(log) <= old(chunks) + Chunks(p)
    {
      hide RecordsFrom, Numbered, Accepted, Chunks;
      n, err := 0, None;
      ghost var k, sent := 0, [];
      ChunksCases(p[..0]);
      while n < |p|
        invariant Valid() && !closed
        invariant n <= |p| && (n == |p| || n == k * MAX_PLAINTEXT)
        invariant sent == Chunks(p[..n])
        invariant chunks == old(chunks) + sent
        invariant intact == old(intact) && err == None
      {
        var end := n + MAX_PLAINTEXT;
        if end > |p| {
          end := |p|;
        }
        ChunksStep(p, k, n, end);
        ChunksPrefix(p, k);
        ChunksPrefix(p, k + 1);
        err := WriteRecord(p[n..end]);
        if err.Some? {
          return;
        }
        assert old(chunks) + sent + [p[n..end]] == old(chunks) + (sent + [p[n..end]]);
        k, sent := k + 1, sent + [p[n..end]];
        n := end;
      }
      assert p[..n] == p;
    }

    /** All writes one after another, up to the first error. Whatever has been sealed by
        then are the first chunks of the writes, each under its own number. */
    method WriteAll(writes: seq<Text>) returns (ok: bool)
      requires Valid() && intact && !closed && chunks == []
      modifies this, sink
      ensures Valid() && !closed
      ensures InSequence(log) && |log| <= MAX_SEQUENCE && Sealed(log) <= AllChunks(writes)
      ensures ok ==> intact && chunks == AllChunks(writes)
    {
      assert |log| == |Sealed(log)| == 0;
      hide Chunks, RecordsFrom, Numbered, Accepted, AddsTag, ChunkSizes, FrameBytes, InSequence, Sealed;
      for i := 0 to |writes|
        invariant Valid() && intact && !closed
        invariant chunks == AllChunks(writes[..i])
        invariant |log| <= MAX_SEQUENCE
      {
        AllChunksPrefix(writes, i);
        AllChunksPrefix(writes, i + 1);
        assert writes[..i + 1][..i] == writes[..i];
        var n, err := Write(writes[i]);
        if err.Some? {
          return false;
        }
        assert writes[i][..n] == writes[i];
      }
      assert writes[..|writes|] == writes;
      ok := true;
    }

    /** Sends the close frame once. */
    method CloseWrite() returns (ok: bool)
      requires Valid()
      modifies this, sink
      ensures Valid() && closed && chunks == old(chunks) && log == old(log)
      ensures old(closed) ==> ok && sink.data == old(sink.data) && intact == old(intact)
      ensures !old(closed) && old(intact) ==> intact == ok
    {
      if closed {
        return true;
      }
      closed := true;
      ok := WriteClose(sink, Close(CLOSE_OK, CODE_OK, []));
      if !ok {
        intact := false;
      }
    }
  }

  lemma AcceptedSnoc(log: seq<Sealing>, s: Sealing)
    requires Numbered(log) && s.number == Accepted(log)
    ensures Numbered(log + [s])
    ensures Accepted(log + [s]) == Accepted(log) + if s.accepted then 1 else 0
  {
    var more := log + [s];
    assert more[..|log|] == log;
    assert forall i | 0 <= i < |log| :: more[..i] == log[..i];
  }

  /** Numbers are never used twice exactly when nothing is sealed after a frame the
      sink refused: a failed write does not move the number on. */
  lemma NumbersUnique(log: seq<Sealing>)
    requires Numbered(log)
    ensures (forall i, j | 0 <= i < j < |log| :: log[i].number != log[j].number)
       <==> (forall i | 0 <= i < |log| - 1 :: log[i].accepted)
  {
    if forall i | 0 <= i < |log| - 1 :: log[i].accepted {
      forall i, j | 0 <= i < j < |log| ensures log[i].number != log[j].number {
        AllAccepted(log, i);
        AllAccepted(log, j);
      }
    } else {
      var i :| 0 <= i < |log| - 1 && !log[i].accepted;
      assert log[..i + 1][..i] == log[..i];
      assert log[i + 1].number == log[i].number;
    }
  }

  lemma {:induction false} AllAccepted(log: seq<Sealing>, k: nat)
    requires k < |log| && forall i | 0 <= i < |log| - 1 :: log[i].accepted
    ensures Accepted(log[..k]) == k
    decreases k
  {
    if k > 0 {
      AllAccepted(log, k - 1);
      assert log[..k][..k - 1] == log[..k - 1];
    }
  }

  // ---------- the reader ----------

  datatype ReadResult = Bytes(bytes: Text) | Eof | PeerClosed(close: Close) | Failed

  /** The unread stream, the number expected next, the opened bytes not handed out
      yet, and whether a close frame was seen. */
  datatype Reader = Reader(wire: Text, number: nat, buf: Text, closed: bool)

  function OpenData(aead: Aead, hash: Text, number: nat, payload: Text): Option<Text> {
    match ParseData(payload)
    case None => None
    case Some(d) =>
      if d.nonceSuffix != Suffix(number) then None
      else match aead.open(Nonce(d.nonceSuffix), d.ciphertext, RecordAad(hash, d.nonceSuffix))
        case None => None
        case Some(plaintext) => if number == MAX_SEQUENCE then None else Some(plaintext)
  }

  /** Reads frames until the buffer holds something; a result means it never will. */
  function Fill(aead: Aead, hash: Text, st: Reader): (r: (Reader, Option<ReadResult>))
    ensures r.1.None? ==> r.0.buf != []
    ensures r.1.Some? ==> !r.1.value.Bytes? && r.0.buf == []
    decreases |st.wire|
  {
    if st.buf != [] then (st, None)
    else
      var (frame, rest) := NextFrame(st.wire);
      var next := st.(wire := rest);
      match frame
      case None => (next, Some(if EndsStream(st.wire) then Eof else Failed))
      case Some(f) =>
        if f.typ == TYPE_DATA then
          match OpenData(aead, hash, st.number, f.payload)
          case None => (next, Some(Failed))
          case Some(plaintext) => Fill(aead, hash, next.(number := st.number + 1, buf := plaintext))
        else if f.typ == TYPE_CLOSE then
          match ParseClose(f.payload)
          case None => (next, Some(Failed))
          case Some(c) => (next.(closed := true), Some(if c.code == CLOSE_OK then Eof else PeerClosed(c)))
        else (next, Some(Failed))
  }

  function Take(st: Reader, n: nat): (Reader, ReadResult) {
    var k := if n <= |st.buf| then n else |st.buf|;
    (st.(buf := st.buf[k..]), Bytes(st.buf[..k]))
  }

  /** One Read into a buffer of n bytes. */
  function ReadStep(aead: Aead, hash: Text, st: Reader, n: nat): (Reader, ReadResult) {
    if st.buf != [] then Take(st, n)
    else if st.closed then (st, Eof)
    else
      var (filled, end) := Fill(aead, hash, st);
      match end
      case Some(result) => (filled, result)
      case None => Take(filled, n)
  }

  class EncryptedReader {
    const aead: Aead
    const hash: Text
    const source: ByteSource
    var number: nat
    var buf: Text
    var closed: bool

    ghost function State(): Reader
      reads this, source
    {
      Reader(source.rest, number, buf, closed)
    }

    constructor (aead: Aead, hash: Text, source: ByteSource)
      ensures this.aead == aead && this.hash == hash && this.source == source
      ensures State() == Reader(source.rest, 0, [], false)
    {
      this.aead, this.hash, this.source := aead, hash, source;
      number, buf, closed := 0, [], false;
    }

    method OpenDataFrame(payload: Text) returns (plaintext: Option<Text>)
      modifies this`number
      ensures plaintext == OpenData(aead, hash, old(number), payload)
      ensures number == if plaintext.Some? then old(number) + 1 else old(number)
    {
      var data := ParseData(payload);
      if data.None? || data.value.nonceSuffix != Suffix(number) {
        return None;
      }
      var suffix := data.value.nonceSuffix;
      plaintext := aead.open(Nonce(suffix), data.value.ciphertext, RecordAad(hash, suffix));
      if plaintext.None? {
        return;
      }
      if number == MAX_SEQUENCE {
        return None;
      }
      number := number + 1;
    }

    method Read(n: nat) returns (result: ReadResult)
      modifies this, source
      ensures (State(), result) == ReadStep(aead, hash, old(State()), n)
    {
      hide NextFrame, EndsStream, OpenData, ParseClose, Take;
      if |buf| > 0 {
        result := TakeBuffered(n);
        return;
      }
      if closed {
        return Eof;
      }
      while |buf| == 0
        invariant Fill(aead, hash, State()) == Fill(aead, hash, old(State()))
        invariant !closed
        decreases |source.rest|, |buf| == 0
      {
        var frame, eof := ReadFrame(source);
        if frame.None? {
          return if eof then Eof else Failed;
        }
        if frame.value.typ == TYPE_DATA {
          var plaintext := OpenDataFrame(frame.value.payload);
          if plaintext.None? {
            return Failed;
          }
          assert buf + plaintext.value == plaintext.value;
          if |plaintext.value| == 0 {
            continue;
          }
          buf := buf + plaintext.value;
        } else if frame.value.typ == TYPE_CLOSE {
          var close := ParseClose(frame.value.payload);
          if close.None? {
            return Failed;
          }
          closed := true;
          if close.value.code == CLOSE_OK {
            return Eof;
          }
          return PeerClosed(close.value);
        } else {
          return Failed;
        }
      }
      result := TakeBuffered(n);
    }

    /** Reads of the given sizes, one after another, whatever each of them returns. */
    method ReadAll(sizes: seq<nat>) returns (results: seq<ReadResult>)
      modifies this, source
      ensures (State(), results) == Run(aead, hash, old(State()), sizes)
    {
      hide ReadStep;
      results := [];
      for i := 0 to |sizes|
        invariant (State(), results) == Run(aead, hash, old(State()), sizes[..i])
      {
        var r := Read(sizes[i]);
        results := results + [r];
        assert sizes[..i + 1][..i] == sizes[..i];
      }
      assert sizes[..|sizes|] == sizes;
    }

    method TakeBuffered(n: nat) returns (result: ReadResult)
      modifies this`buf
      ensures (State(), result) == Take(old(State()), n)
    {
      var k := if n <= |buf| then n else |buf|;
      result := Bytes(buf[..k]);
      buf := buf[k..];
    }
  }

  // ---------- whole runs of reads ----------

  function Delivered(results: seq<ReadResult>): Text {
    if results == [] then []
    else Delivered(results[..|results| - 1]) + match results[|results| - 1] case Bytes(b) => b case _ => []
  }

  /** Reads of the given sizes one after another, whatever each of them returns. */
  function Run(aead: Aead, hash: Text, st: Reader, sizes: seq<nat>): (r: (Reader, seq<ReadResult>))
    ensures |r.1| == |sizes|
  {
    if sizes == [] then (st, [])
    else
      var (before, results) := Run(aead, hash, st, sizes[..|sizes| - 1]);
      var (after, result) := ReadStep(aead, hash, before, sizes[|sizes| - 1]);
      (after, results + [result])
  }

  function Start(wire: Text): Reader {
    Reader(wire, 0, [], false)
  }

  lemma DeliveredSnoc(results: seq<ReadResult>, r: ReadResult)
    ensures Delivered(results + [r]) == Delivered(results) + match r case Bytes(b) => b case _ => []
  {
    assert (results + [r])[..|results|] == results;
  }

  /** What has been handed out and what is buffered are exactly the first chunks. */
  ghost predicate InStep(chunks: seq<Text>, st: Reader, delivered: Text) {
    st.number <= |chunks| && delivered + st.buf == Concat(chunks[..st.number])
  }

  lemma OpenedIsNext(aead: Aead, hash: Text, chunks: seq<Text>, number: nat, payload: Text)
    requires OpensExactly(aead, hash, chunks) && |chunks| <= MAX_SEQUENCE && number <= |chunks|
    requires OpenData(aead, hash, number, payload).Some?
    ensures number < |chunks| && OpenData(aead, hash, number, payload).value == chunks[number]
  {
    var d := ParseData(payload).value;
    var n, aad := Nonce(d.nonceSuffix), RecordAad(hash, d.nonceSuffix);
    assert aead.open(n, d.ciphertext, aad).Some?;
    var p := aead.open(n, d.ciphertext, aad).value;
    var k :| 0 <= k < |chunks| && p == chunks[k] && IsRecord(aead, hash, k, chunks[k], n, d.ciphertext, aad);
    assert Suffix(k) == n[4..] == Suffix(number);
    SuffixInjective(k, number);
  }

  /** Opening the next record keeps the reader in step. */
  lemma OpenInStep(aead: Aead, hash: Text, chunks: seq<Text>, st: Reader, delivered: Text, payload: Text, rest: Text)
    requires OpensExactly(aead, hash, chunks) && |chunks| <= MAX_SEQUENCE
    requires InStep(chunks, st, delivered) && st.buf == []
    requires OpenData(aead, hash, st.number, payload).Some?
    ensures InStep(chunks, st.(wire := rest, number := st.number + 1, buf := OpenData(aead, hash, st.number, payload).value), delivered)
  {
    hide OpensExactly, OpenData, Concat;
    OpenedIsNext(aead, hash, chunks, st.number, payload);
    ConcatSnoc(chunks, st.number);
    assert delivered + [] == delivered;
  }

  lemma {:induction false} FillInStep(aead: Aead, hash: Text, chunks: seq<Text>, st: Reader, delivered: Text)
    requires OpensExactly(aead, hash, chunks) && |chunks| <= MAX_SEQUENCE
    requires InStep(chunks, st, delivered)
    ensures InStep(chunks, Fill(aead, hash, st).0, delivered)
    decreases |st.wire|
  {
    hide OpensExactly, OpenData, Concat, NextFrame, ParseClose, FrameBytes, EndsStream;
    var (frame, rest) := NextFrame(st.wire);
    assert InStep(chunks, st.(wire := rest), delivered) && InStep(chunks, st.(wire := rest, closed := true), delivered);
    if st.buf == [] && frame.Some? && frame.value.typ == TYPE_DATA {
      var plain := OpenData(aead, hash, st.number, frame.value.payload);
      if plain.Some? {
        OpenInStep(aead, hash, chunks, st, delivered, frame.value.payload, rest);
        hide InStep;
        FillInStep(aead, hash, chunks, st.(wire := rest, number := st.number + 1, buf := plain.value), delivered);
      }
    }
  }

  lemma ReadInStep(aead: Aead, hash: Text, chunks: seq<Text>, st: Reader, delivered: Text, n: nat)
    requires OpensExactly(aead, hash, chunks) && |chunks| <= MAX_SEQUENCE
    requires InStep(chunks, st, delivered)
    ensures var (st', r) := ReadStep(aead, hash, st, n);
      InStep(chunks, st', delivered + match r case Bytes(b) => b case _ => [])
  {
    hide OpensExactly, Fill, Concat;
    FillInStep(aead, hash, chunks, st, delivered);
    var full := if st.buf != [] then st else Fill(aead, hash, st).0;
    var k := if n <= |full.buf| then n else |full.buf|;
    assert (delivered + full.buf[..k]) + full.buf[k..] == delivered + full.buf;
    assert delivered + [] == delivered;
  }

  lemma {:induction false} RunInStep(aead: Aead, hash: Text, chunks: seq<Text>, wire: Text, sizes: seq<nat>)
    requires OpensExactly(aead, hash, chunks) && |chunks| <= MAX_SEQUENCE
    ensures var (st, results) := Run(aead, hash, Start(wire), sizes);
      InStep(chunks, st, Delivered(results))
  {
    hide OpensExactly, ReadStep;
    if sizes == [] {
      assert chunks[..0] == [];
    } else {
      var n := |sizes| - 1;
      RunInStep(aead, hash, chunks, wire, sizes[..n]);
      var (before, results) := Run(aead, hash, Start(wire), sizes[..n]);
      ReadInStep(aead, hash, chunks, before, Delivered(results), sizes[n]);
      DeliveredSnoc(results, ReadStep(aead, hash, before, sizes[n]).1);
    }
  }

  /** Whatever bytes arrive (frames dropped, repeated, reordered, altered, injected
      or cut), all bytes ever handed out by reads of any sizes, reads after errors
      included, are a prefix of what was written. */
  lemma DeliveredIsPrefix(aead: Aead, hash: Text, chunks: seq<Text>, wire: Text, sizes: seq<nat>)
    requires OpensExactly(aead, hash, chunks) && |chunks| <= MAX_SEQUENCE
    ensures Delivered(Run(aead, hash, Start(wire), sizes).1) <= Concat(chunks)
  {
    RunInStep(aead, hash, chunks, wire, sizes);
    var (st, results) := Run(aead, hash, Start(wire), sizes);
    ConcatPrefix(chunks, st.number);
  }

  // ---------- the unaltered stream ----------

  /** Everything a writer that was closed leaves on the stream. */
  ghost function ClosedStream(aead: Aead, hash: Text, chunks: seq<Text>, number: nat): Text
    requires AddsTag(aead) && ChunkSizes(chunks) && number <= |chunks|
  {
    RecordsFrom(aead, hash, chunks, number) + FrameBytes(CLOSE_FRAME)
  }

  ghost predicate OnTrack(aead: Aead, hash: Text, chunks: seq<Text>, st: Reader, delivered: Text)
    requires AddsTag(aead) && ChunkSizes(chunks)
  {
    if st.closed then st.buf == [] && delivered == Concat(chunks)
    else InStep(chunks, st, delivered) && st.wire == ClosedStream(aead, hash, chunks, st.number)
  }

  /** Every record opens to its chunk at its place. */
  ghost predicate RecordsOpen(aead: Aead, hash: Text, chunks: seq<Text>)
    requires AddsTag(aead) && ChunkSizes(chunks)
  {
    forall k | 0 <= k < |chunks| :: OpenData(aead, hash, k, RecordFrame(aead, hash, k, chunks[k]).payload) == Some(chunks[k])
  }

  lemma RecordsDoOpen(aead: Aead, hash: Text, chunks: seq<Text>)
    requires OpensExactly(aead, hash, chunks) && ChunkSizes(chunks) && |chunks| <= MAX_SEQUENCE
    ensures RecordsOpen(aead, hash, chunks)
  {
    forall k | 0 <= k < |chunks|
      ensures OpenData(aead, hash, k, RecordFrame(aead, hash, k, chunks[k]).payload) == Some(chunks[k])
    {
      RecordFits(aead, hash, k, chunks[k]);
      var d := RecordData(aead, hash, k, chunks[k]);
      DataExact(DataBytes(d), d);
      assert IsRecord(aead, hash, k, chunks[k], Nonce(Suffix(k)), d.ciphertext, RecordAad(hash, Suffix(k)));
    }
  }

  lemma NextRecord(aead: Aead, hash: Text, chunks: seq<Text>, number: nat)
    requires AddsTag(aead) && ChunkSizes(chunks) && number < |chunks|
    ensures NextFrame(ClosedStream(aead, hash, chunks, number))
         == (Some(RecordFrame(aead, hash, number, chunks[number])), ClosedStream(aead, hash, chunks, number + 1))
  {
    hide NextFrame, FrameBytes, RecordFrame;
    var frame := RecordFrame(aead, hash, number, chunks[number]);
    Assoc(FrameBytes(frame), RecordsFrom(aead, hash, chunks, number + 1), FrameBytes(CLOSE_FRAME));
    NextFrameOfWritten(frame, ClosedStream(aead, hash, chunks, number + 1));
  }

  lemma FillFromRecord(aead: Aead, hash: Text, chunks: seq<Text>, st: Reader)
    requires AddsTag(aead) && ChunkSizes(chunks) && RecordsOpen(aead, hash, chunks)
    requires st.buf == [] && st.number < |chunks| && st.wire == ClosedStream(aead, hash, chunks, st.number)
    ensures Fill(aead, hash, st) ==
      (st.(wire := ClosedStream(aead, hash, chunks, st.number + 1), number := st.number + 1, buf := chunks[st.number]), None)
  {
    hide AddsTag, NextFrame, OpenData, RecordFrame, ClosedStream;
    NextRecord(aead, hash, chunks, st.number);
  }

  lemma FillFromClose(aead: Aead, hash: Text, chunks: seq<Text>, st: Reader)
    requires AddsTag(aead) && ChunkSizes(chunks)
    requires st.buf == [] && st.number == |chunks| && st.wire == ClosedStream(aead, hash, chunks, st.number)
    ensures Fill(aead, hash, st) == (st.(wire := [], closed := true), Some(Eof))
  {
    hide NextFrame, FrameBytes, ParseClose, CloseBytes;
    assert st.wire == FrameBytes(CLOSE_FRAME) + [];
    NextFrameOfWritten(CLOSE_FRAME, []);
    CloseExact(CLOSE_FRAME.payload, Close(CLOSE_OK, CODE_OK, []));
  }

  lemma TakeOnTrack(aead: Aead, hash: Text, chunks: seq<Text>, st: Reader, delivered: Text, n: nat)
    requires AddsTag(aead) && ChunkSizes(chunks) && n > 0
    requires OnTrack(aead, hash, chunks, st, delivered) && !st.closed && st.buf != []
    ensures var (st', r) := Take(st, n);
      r.Bytes? && r.bytes != [] && OnTrack(aead, hash, chunks, st', delivered + r.bytes) && delivered != Concat(chunks)
  {
    hide Concat, ClosedStream;
    var k := if n <= |st.buf| then n else |st.buf|;
    assert (delivered + st.buf[..k]) + st.buf[k..] == delivered + st.buf;
    ConcatPrefix(chunks, st.number);
    assert |delivered| < |Concat(chunks)|;
  }

  /** On the unaltered stream a read into a non-empty buffer gives at least one more
      byte until all bytes are out, and end of stream from then on. */
  lemma ReadOnTrack(aead: Aead, hash: Text, chunks: seq<Text>, st: Reader, delivered: Text, n: nat)
    requires AddsTag(aead) && ChunkSizes(chunks) && RecordsOpen(aead, hash, chunks) && n > 0
    requires OnTrack(aead, hash, chunks, st, delivered)
    ensures var (st', r) := ReadStep(aead, hash, st, n);
      if delivered == Concat(chunks) then r == Eof && OnTrack(aead, hash, chunks, st', delivered)
      else r.Bytes? && r.bytes != [] && OnTrack(aead, hash, chunks, st', delivered + r.bytes)
  {
    hide AddsTag, RecordsOpen, Fill, Concat, ClosedStream, Take;
    if st.closed {
    } else if st.buf != [] {
      TakeOnTrack(aead, hash, chunks, st, delivered, n);
    } else if st.number == |chunks| {
      FillFromClose(aead, hash, chunks, st);
      assert chunks[..st.number] == chunks && delivered + [] == delivered;
    } else {
      FillFromRecord(aead, hash, chunks, st);
      ConcatSnoc(chunks, st.number);
      assert delivered + [] == delivered;
      TakeOnTrack(aead, hash, chunks, Fill(aead, hash, st).0, delivered, n);
    }
  }

  /** Every result is at least one byte until all bytes are out, and then the end. */
  predicate PipeResults(results: seq<ReadResult>, total: Text) {
    forall i | 0 <= i < |results| ::
      if Delivered(results[..i]) == total then results[i] == Eof else results[i].Bytes? && results[i].bytes != []
  }

  lemma PipeResultsSnoc(results: seq<ReadResult>, total: Text, r: ReadResult)
    requires PipeResults(results, total)
    requires if Delivered(results) == total then r == Eof else r.Bytes? && r.bytes != []
    ensures PipeResults(results + [r], total)
  {
    hide Delivered;
    assert forall i | 0 <= i <= |results| :: (results + [r])[..i] == results[..i];
    assert results[..|results|] == results;
  }

  ghost predicate RunFacts(aead: Aead, hash: Text, chunks: seq<Text>, count: nat, st: Reader, results: seq<ReadResult>)
    requires AddsTag(aead) && ChunkSizes(chunks)
  {
    && OnTrack(aead, hash, chunks, st, Delivered(results))
    && (|Delivered(results)| >= count || Delivered(results) == Concat(chunks))
    && PipeResults(results, Concat(chunks))
  }

  lemma RunFactsStart(aead: Aead, hash: Text, chunks: seq<Text>)
    requires AddsTag(aead) && ChunkSizes(chunks)
    ensures RunFacts(aead, hash, chunks, 0, Start(ClosedStream(aead, hash, chunks, 0)), [])
  {
    hide ClosedStream;
    ConcatNothing(chunks);
  }

  lemma RunFactsStep(aead: Aead, hash: Text, chunks: seq<Text>, count: nat, st: Reader, results: seq<ReadResult>, n: nat)
    requires AddsTag(aead) && ChunkSizes(chunks) && RecordsOpen(aead, hash, chunks) && n > 0
    requires RunFacts(aead, hash, chunks, count, st, results)
    ensures var (st', r) := ReadStep(aead, hash, st, n);
      RunFacts(aead, hash, chunks, count + 1, st', results + [r])
  {
    hide AddsTag, RecordsOpen;
    var r := ReadStep(aead, hash, st, n).1;
    ReadOnTrack(aead, hash, chunks, st, Delivered(results), n);
    hide ReadStep, OnTrack, Concat;
    DeliveredSnoc(results, r);
    PipeResultsSnoc(results, Concat(chunks), r);
    hide Delivered, PipeResults;
    assert Delivered(results) + [] == Delivered(results);
  }

  lemma {:induction false} RunOnTrack(aead: Aead, hash: Text, chunks: seq<Text>, sizes: seq<nat>)
    requires AddsTag(aead) && ChunkSizes(chunks) && RecordsOpen(aead, hash, chunks)
    requires forall i | 0 <= i < |sizes| :: sizes[i] > 0
    ensures var (st, results) := Run(aead, hash, Start(ClosedStream(aead, hash, chunks, 0)), sizes);
      RunFacts(aead, hash, chunks, |sizes|, st, results)
  {
    hide AddsTag, RecordsOpen, ReadStep, ClosedStream, RunFacts;
    if sizes == [] {
      RunFactsStart(aead, hash, chunks);
    } else {
      var n, start := |sizes| - 1, Start(ClosedStream(aead, hash, chunks, 0));
      RunOnTrack(aead, hash, chunks, sizes[..n]);
      var (before, results) := Run(aead, hash, start, sizes[..n]);
      RunFactsStep(aead, hash, chunks, n, before, results, sizes[n]);
    }
  }

  /** The plaintext chunks of a list of writes. */
  function AllChunks(writes: seq<Text>): seq<Text> {
    if writes == [] then [] else AllChunks(writes[..|writes| - 1]) + Chunks(writes[|writes| - 1])
  }

  lemma {:induction false} AllChunksPrefix(writes: seq<Text>, i: nat)
    requires i <= |writes|
    ensures AllChunks(writes[..i]) <= AllChunks(writes)
    decreases |writes|
  {
    hide Chunks;
    if i == |writes| {
      assert writes[..i] == writes;
    } else {
      AllChunksPrefix(writes[..|writes| - 1], i);
      assert writes[..|writes| - 1][..i] == writes[..i];
    }
  }

  lemma {:induction false} AllChunksExact(writes: seq<Text>)
    ensures ChunkSizes(AllChunks(writes)) && Concat(AllChunks(writes)) == Concat(writes)
  {
    hide Concat, Chunks;
    if writes == [] {
      ConcatNothing([]);
    } else {
      var n := |writes| - 1;
      AllChunksExact(writes[..n]);
      ChunksExact(writes[n]);
      ConcatAppend(AllChunks(writes[..n]), Chunks(writes[n]));
      ConcatSnoc(writes, n);
      assert writes[..n + 1] == writes;
    }
  }

  /** The pipe: whatever was written in whatever pieces, reads of any positive sizes
      return exactly those bytes in order, each read at least one, and then end of
      stream; nothing else is ever returned. */
  lemma BytePipe(aead: Aead, hash: Text, writes: seq<Text>, sizes: seq<nat>)
    requires OpensExactly(aead, hash, AllChunks(writes)) && |AllChunks(writes)| <= MAX_SEQUENCE
    requires forall i | 0 <= i < |sizes| :: sizes[i] > 0
    ensures ChunkSizes(AllChunks(writes))
    ensures var (_, results) := Run(aead, hash, Start(ClosedStream(aead, hash, AllChunks(writes), 0)), sizes);
      && Delivered(results) <= Concat(writes)
      && (|sizes| >= |Concat(writes)| ==> Delivered(results) == Concat(writes))
      && PipeResults(results, Concat(writes))
  {
    var chunks := AllChunks(writes);
    AllChunksExact(writes);
    RecordsDoOpen(aead, hash, chunks);
    RunOnTrack(aead, hash, chunks, sizes);
    var (st, results) := Run(aead, hash, Start(ClosedStream(aead, hash, chunks, 0)), sizes);
    if !st.closed {
      ConcatPrefix(chunks, st.number);
    }
  }

  // ---------- one writer, one reader, any wire between them ----------

  /** Everything sealed are the first chunks of the writes, so whatever a reader of any
      wire hands out is a prefix of what was written. */
  lemma PrefixOfWrites(aead: Aead, hash: Text, writes: seq<Text>, sealed: seq<Text>, wire: Text, sizes: seq<nat>)
    requires OpensExactly(aead, hash, sealed) && sealed <= AllChunks(writes) && |sealed| <= MAX_SEQUENCE
    ensures Delivered(Run(aead, hash, Start(wire), sizes).1) <= Concat(writes)
  {
    hide OpensExactly, Run, Delivered;
    DeliveredIsPrefix(aead, hash, sealed, wire, sizes);
    AllChunksExact(writes);
    assert AllChunks(writes)[..|sealed|] == sealed;
    ConcatPrefix(AllChunks(writes), |sealed|);
  }

  /** A writer takes the writes and is closed; what the reader gets is `wire`, whatever
      happened to the stream in between. Under one cipher, which opens exactly what the
      writer sealed, the reader's bytes are always a prefix of the writes, even if the
      sink failed on the way; and if the writer got through and the wire is what it
      sent, the two are a plain byte pipe. */
  method Tunnel(aead: Aead, hash: Text, writes: seq<Text>, wire: Text, sizes: seq<nat>)
    returns (sent: Text, complete: bool, results: seq<ReadResult>, ghost sealed: seq<Text>)
    requires AddsTag(aead)
    ensures sealed <= AllChunks(writes) && (complete ==> sealed == AllChunks(writes))
    ensures complete ==> ChunkSizes(sealed) && sent == ClosedStream(aead, hash, sealed, 0)
    ensures |results| == |sizes|
    ensures OpensExactly(aead, hash, sealed) ==> Delivered(results) <= Concat(writes)
    ensures OpensExactly(aead, hash, sealed) && complete && wire == sent && (forall i | 0 <= i < |sizes| :: sizes[i] > 0) ==>
      PipeResults(results, Concat(writes)) && (|sizes| >= |Concat(writes)| ==> Delivered(results) == Concat(writes))
  {
    hide OpensExactly, AddsTag, Delivered, Concat, AllChunks, PipeResults, RecordsFrom, ReadStep, Chunks;
    var sink := new ByteSink();
    var writer := new EncryptedWriter(aead, hash, sink);
    var ok := writer.WriteAll(writes);
    sealed, complete := Sealed(writer.log), false;
    if ok {
      complete := writer.CloseWrite();
    }
    sent := sink.data;
    var source := new ByteSource(wire);
    var reader := new EncryptedReader(aead, hash, source);
    results := reader.ReadAll(sizes);
    if OpensExactly(aead, hash, sealed) {
      PrefixOfWrites(aead, hash, writes, sealed, wire, sizes);
      if complete && wire == sent && forall i | 0 <= i < |sizes| :: sizes[i] > 0 {
        BytePipe(aead, hash, writes, sizes);
      }
    }
  }

  // ---------- what one read says ----------

  /** The message is the record with this number, and opens to p. */
  ghost predicate RecordOpens(aead: Aead, hash: Text, number: nat, d: Data, p: Text) {
    && ValidData(d) && d.nonceSuffix == Suffix(number) && number != MAX_SEQUENCE
    && aead.open([0, 0, 0, 0] + d.nonceSuffix, d.ciphertext, RecordAad(hash, d.nonceSuffix)) == Some(p)
  }

  ghost predicate OpensTo(aead: Aead, hash: Text, number: nat, payload: Text, p: Text) {
    exists d: Data :: RecordOpens(aead, hash, number, d, p) && payload == DataBytes(d)
  }

  lemma OpenDataExact(aead: Aead, hash: Text, number: nat, payload: Text, p: Text)
    ensures OpenData(aead, hash, number, payload) == Some(p) <==> OpensTo(aead, hash, number, payload, p)
  {
    hide ParseData, DataBytes, Suffix, RecordAad;
    if OpenData(aead, hash, number, payload) == Some(p) {
      DataExact(payload, ParseData(payload).value);
      assert RecordOpens(aead, hash, number, ParseData(payload).value, p);
    }
    if OpensTo(aead, hash, number, payload, p) {
      var d: Data :| RecordOpens(aead, hash, number, d, p) && payload == DataBytes(d);
      DataExact(payload, d);
    }
  }

  /** The stream begins with this frame. */
  ghost predicate Begins(wire: Text, f: Frame) {
    Fits(f) && |FrameBytes(f)| <= |wire| && wire[..|FrameBytes(f)|] == FrameBytes(f)
  }

  lemma BeginsExact(wire: Text, f: Frame)
    ensures Begins(wire, f) <==> NextFrame(wire).0 == Some(f)
  {
    if Begins(wire, f) {
      NextFrameOfWritten(f, wire[|FrameBytes(f)|..]);
      assert wire == FrameBytes(f) + wire[|FrameBytes(f)|..];
    }
  }

  /** Nothing is left, or a header and nothing of the payload it announces. */
  predicate Stops(wire: Text) {
    wire == [] || (|wire| == 4 && wire[0] == VERSION && wire[2..4] != [0, 0])
  }

  lemma StopsExact(wire: Text)
    ensures Stops(wire) <==> EndsStream(wire)
    ensures Stops(wire) ==> NextFrame(wire).0.None?
  {
    if |wire| == 4 {
      assert wire[2..4] == [wire[2], wire[3]];
    }
  }

  /** The stream and the number from the first record on that opens to something: empty
      records are read and passed over. */
  function PastEmpty(aead: Aead, hash: Text, wire: Text, number: nat): (r: (Text, nat))
    decreases |wire|
  {
    var (frame, rest) := NextFrame(wire);
    if wire != [] && frame.Some? && frame.value.typ == TYPE_DATA && OpenData(aead, hash, number, frame.value.payload) == Some([])
    then PastEmpty(aead, hash, rest, number + 1) else (wire, number)
  }

  /** What the first frame that is not an empty record makes a read say. */
  ghost predicate Says(aead: Aead, hash: Text, wire: Text, number: nat, n: nat, r: ReadResult) {
    match r
    case Eof => Stops(wire) || exists c: Close :: ValidClose(c) && c.code == CLOSE_OK && Begins(wire, Frame(TYPE_CLOSE, CloseBytes(c)))
    case PeerClosed(c) => ValidClose(c) && c.code != CLOSE_OK && Begins(wire, Frame(TYPE_CLOSE, CloseBytes(c)))
    case Bytes(b) =>
      exists payload: Text, p: Text :: Begins(wire, Frame(TYPE_DATA, payload)) && OpensTo(aead, hash, number, payload, p)
        && p != [] && b == if n <= |p| then p[..n] else p
    case Failed =>
      || (!Stops(wire) && forall f: Frame :: !Begins(wire, f))
      || (exists f: Frame :: Begins(wire, f) && f.typ != TYPE_DATA && f.typ != TYPE_CLOSE)
      || (exists f: Frame :: Begins(wire, f) && f.typ == TYPE_DATA && forall p: Text :: !OpensTo(aead, hash, number, f.payload, p))
      || (exists f: Frame :: Begins(wire, f) && f.typ == TYPE_CLOSE && forall c: Close :: !(ValidClose(c) && f.payload == CloseBytes(c)))
  }

  lemma {:induction false} FillPastEmpty(aead: Aead, hash: Text, st: Reader)
    requires st.buf == []
    ensures var (wire, number) := PastEmpty(aead, hash, st.wire, st.number);
      && Fill(aead, hash, st) == Fill(aead, hash, st.(wire := wire, number := number))
      && (wire == [] || NextFrame(wire).0.None? || NextFrame(wire).0.value.typ != TYPE_DATA
          || OpenData(aead, hash, number, NextFrame(wire).0.value.payload) != Some([]))
    decreases |st.wire|
  {
    hide NextFrame, OpenData, ParseClose, EndsStream, FrameBytes;
    var (frame, rest) := NextFrame(st.wire);
    if st.wire != [] && frame.Some? && frame.value.typ == TYPE_DATA && OpenData(aead, hash, st.number, frame.value.payload) == Some([]) {
      FillPastEmpty(aead, hash, st.(wire := rest, number := st.number + 1));
    }
  }

  /** What is known of the first frame of a stream, and of its payload. */
  lemma FirstFrame(wire: Text, f: Frame)
    requires NextFrame(wire).0 == Some(f)
    ensures !Stops(wire) && forall g: Frame :: Begins(wire, g) <==> g == f
  {
    StopsExact(wire);
    forall g: Frame ensures Begins(wire, g) <==> g == f {
      BeginsExact(wire, g);
    }
  }

  lemma NoFrame(wire: Text)
    requires NextFrame(wire).0.None?
    ensures forall g: Frame :: !Begins(wire, g)
    ensures Stops(wire) <==> EndsStream(wire)
  {
    StopsExact(wire);
    forall g: Frame ensures !Begins(wire, g) {
      BeginsExact(wire, g);
    }
  }

  /** Exactly what a first frame says: a record by what it opens to, a close by its code. */
  lemma DataSays(aead: Aead, hash: Text, wire: Text, number: nat, n: nat, f: Frame, r: ReadResult)
    requires NextFrame(wire).0 == Some(f) && f.typ == TYPE_DATA && OpenData(aead, hash, number, f.payload) != Some([])
    ensures Says(aead, hash, wire, number, n, r) <==>
      r == match OpenData(aead, hash, number, f.payload)
           case None => Failed
           case Some(p) => Bytes(if n <= |p| then p[..n] else p)
  {
    FirstFrame(wire, f);
    forall p: Text ensures OpensTo(aead, hash, number, f.payload, p) <==> OpenData(aead, hash, number, f.payload) == Some(p) {
      OpenDataExact(aead, hash, number, f.payload, p);
    }
    hide NextFrame, OpenData, OpensTo, Begins, Stops, CloseBytes;
    var plain := OpenData(aead, hash, number, f.payload);
    if plain.Some? {
      assert Begins(wire, Frame(TYPE_DATA, f.payload)) && OpensTo(aead, hash, number, f.payload, plain.value);
    } else {
      assert Begins(wire, f);
    }
  }

  lemma CloseSays(aead: Aead, hash: Text, wire: Text, number: nat, n: nat, f: Frame, r: ReadResult)
    requires NextFrame(wire).0 == Some(f) && f.typ == TYPE_CLOSE
    ensures Says(aead, hash, wire, number, n, r) <==>
      r == match ParseClose(f.payload)
           case None => Failed
           case Some(c) => if c.code == CLOSE_OK then Eof else PeerClosed(c)
  {
    FirstFrame(wire, f);
    forall c: Close ensures ParseClose(f.payload) == Some(c) <==> ValidClose(c) && f.payload == CloseBytes(c) {
      CloseExact(f.payload, c);
    }
    hide NextFrame, OpensTo, Begins, Stops, CloseBytes, ParseClose;
    assert Begins(wire, f);
  }

  lemma OtherSays(aead: Aead, hash: Text, wire: Text, number: nat, n: nat, f: Frame, r: ReadResult)
    requires NextFrame(wire).0 == Some(f) && f.typ != TYPE_CLOSE && f.typ != TYPE_DATA
    ensures Says(aead, hash, wire, number, n, r) <==> r == Failed
  {
    FirstFrame(wire, f);
    hide NextFrame, OpensTo, Begins, Stops, CloseBytes;
    assert Begins(wire, f);
  }

  lemma NothingSays(aead: Aead, hash: Text, wire: Text, number: nat, n: nat, r: ReadResult)
    requires NextFrame(wire).0.None?
    ensures Says(aead, hash, wire, number, n, r) <==> r == if EndsStream(wire) then Eof else Failed
  {
    NoFrame(wire);
    hide NextFrame, OpensTo, Begins, Stops, EndsStream, CloseBytes;
  }

  /** One step of filling, when the next frame is not an empty record. */
  lemma ReadOnce(aead: Aead, hash: Text, st: Reader, n: nat, r: ReadResult)
    requires st.buf == [] && !st.closed
    requires NextFrame(st.wire).0.Some? && NextFrame(st.wire).0.value.typ == TYPE_DATA ==>
      OpenData(aead, hash, st.number, NextFrame(st.wire).0.value.payload) != Some([])
    ensures ReadStep(aead, hash, st, n).1 == r <==> Says(aead, hash, st.wire, st.number, n, r)
  {
    hide NextFrame, OpenData, ParseClose, EndsStream, FrameBytes, Says;
    var frame := NextFrame(st.wire).0;
    if frame.None? {
      NothingSays(aead, hash, st.wire, st.number, n, r);
    } else if frame.value.typ == TYPE_DATA {
      DataSays(aead, hash, st.wire, st.number, n, frame.value, r);
      var plain := OpenData(aead, hash, st.number, frame.value.payload);
      if plain.Some? {
        var next := st.(wire := NextFrame(st.wire).1, number := st.number + 1, buf := plain.value);
        assert Fill(aead, hash, next) == (next, None);
        assert plain.value[..|plain.value|] == plain.value;
      }
    } else if frame.value.typ == TYPE_CLOSE {
      CloseSays(aead, hash, st.wire, st.number, n, frame.value, r);
    } else {
      OtherSays(aead, hash, st.wire, st.number, n, frame.value, r);
    }
  }

  /** For every wire, every state of the reader and every buffer size: what is buffered comes
      first, a reader that has seen a close says the end, and otherwise a read says r if and
      only if the first frame that is not an empty record says it: the end for a clean close
      or a stream that stops, the peer's own code, connect code and text for any other close,
      the opened bytes for the next record, and failure for everything else. */
  lemma ReadExactly(aead: Aead, hash: Text, st: Reader, n: nat, r: ReadResult)
    ensures ReadStep(aead, hash, st, n).1 == r <==>
      if st.buf != [] then r == Bytes(if n <= |st.buf| then st.buf[..n] else st.buf)
      else if st.closed then r == Eof
      else
        var (wire, number) := PastEmpty(aead, hash, st.wire, st.number);
        Says(aead, hash, wire, number, n, r)
  {
    if st.buf != [] {
      assert st.buf[..|st.buf|] == st.buf;
    } else if !st.closed {
      FillPastEmpty(aead, hash, st);
      var (wire, number) := PastEmpty(aead, hash, st.wire, st.number);
      var at := st.(wire := wire, number := number);
      hide Says, Fill, PastEmpty;
      EmptyHasNoFrame(wire);
      ReadOnce(aead, hash, at, n, r);
    }
  }

  lemma EmptyHasNoFrame(wire: Text)
    ensures wire == [] ==> NextFrame(wire).0.None?
  {
  }

  // ---------- the limits of these claims ----------

  /** The cipher contract can be met, whatever is sealed. */
  lemma CipherExists(hash: Text, chunks: seq<Text>)
    ensures exists aead: Aead :: OpensExactly(aead, hash, chunks)
  {
    var tag := seq(TAG, _ => 0);
    var records := set k | 0 <= k < |chunks| :: (Nonce(Suffix(k)), chunks[k] + tag, RecordAad(hash, Suffix(k)));
    var aead := Aead((n: Text, p: Text, d: Text) => p + tag,
                     (n: Text, c: Text, d: Text) => if (n, c, d) in records && |c| >= TAG then Some(c[..|c| - TAG]) else None);
    forall n: Text, c: Text, d: Text, p: Text
      ensures aead.open(n, c, d) == Some(p) <==> exists k :: 0 <= k < |chunks| && p == chunks[k] && IsRecord(aead, hash, k, chunks[k], n, c, d)
    {
      assert forall x: Text {:trigger x + tag} :: (x + tag)[..|x|] == x;
      if aead.open(n, c, d) == Some(p) {
        var k :| 0 <= k < |chunks| && (n, c, d) == (Nonce(Suffix(k)), chunks[k] + tag, RecordAad(hash, Suffix(k)));
        assert IsRecord(aead, hash, k, chunks[k], n, c, d);
      }
      if k :| 0 <= k < |chunks| && p == chunks[k] && IsRecord(aead, hash, k, chunks[k], n, c, d) {
        assert (Nonce(Suffix(k)), chunks[k] + tag, RecordAad(hash, Suffix(k))) in records;
      }
    }
    assert OpensExactly(aead, hash, chunks);
  }

  /** Close frames are not sealed, so end of stream does not prove completeness: from
      the close frame alone, or from nothing, every read is the end of the stream, and
      whatever was written is missing. */
  lemma ForgedCloseEndsStream(aead: Aead, hash: Text, chunks: seq<Text>, n: nat)
    requires ChunkSizes(chunks) && chunks != []
    ensures forall wire | wire == [] || wire == FrameBytes(CLOSE_FRAME) ::
      var results := Run(aead, hash, Start(wire), [n]).1;
      results == [Eof] && Delivered(results) != Concat(chunks)
  {
    assert FrameBytes(CLOSE_FRAME) + [] == FrameBytes(CLOSE_FRAME);
    NextFrameOfWritten(CLOSE_FRAME, []);
    CloseExact(CLOSE_FRAME.payload, Close(CLOSE_OK, CODE_OK, []));
    ConcatShorter(chunks, 0);
    forall wire | wire == [] || wire == FrameBytes(CLOSE_FRAME)
      ensures var results := Run(aead, hash, Start(wire), [n]).1; results == [Eof] && Delivered(results) != Concat(chunks)
    {
      assert [n][..0] == [];
      assert Run(aead, hash, Start(wire), []) == (Start(wire), []);
      DeliveredSnoc([], Eof);
    }
  }

  /** How many records a wire has for a reader that expects `number` next: those that
      open in order before the first close frame. Frames that cannot be read, parsed or
      opened cost a failed read each and are passed over. */
  function RecordsOn(aead: Aead, hash: Text, wire: Text, number: nat): nat
    decreases |wire|
  {
    if wire == [] then number
    else
      var (frame, rest) := NextFrame(wire);
      if frame.Some? && frame.value.typ == TYPE_CLOSE && ParseClose(frame.value.payload).Some? then number
      else if frame.Some? && frame.value.typ == TYPE_DATA && OpenData(aead, hash, number, frame.value.payload).Some?
      then RecordsOn(aead, hash, rest, number + 1)
      else RecordsOn(aead, hash, rest, number)
  }

  /** The same for a reader that is under way. */
  function RecordsAhead(aead: Aead, hash: Text, st: Reader): nat {
    if st.closed then st.number else RecordsOn(aead, hash, st.wire, st.number)
  }

  /** A failed read may leave more to come, an end of stream does not. */
  lemma {:induction false} FillRecordsAhead(aead: Aead, hash: Text, st: Reader)
    requires !st.closed
    ensures var (st', end) := Fill(aead, hash, st);
      RecordsAhead(aead, hash, st') == RecordsAhead(aead, hash, st) && (end == Some(Eof) ==> st'.closed || st'.wire == [])
    decreases |st.wire|
  {
    hide NextFrame, OpenData, ParseClose, FrameBytes;
    if st.buf == [] {
      EndsWithNothing(st.wire);
      hide EndsStream;
      var (frame, rest) := NextFrame(st.wire);
      if frame.Some? && frame.value.typ == TYPE_DATA {
        var plain := OpenData(aead, hash, st.number, frame.value.payload);
        if plain.Some? {
          FillRecordsAhead(aead, hash, st.(wire := rest, number := st.number + 1, buf := plain.value));
        }
      }
    }
  }

  lemma EndsWithNothing(wire: Text)
    ensures EndsStream(wire) ==> NextFrame(wire) == (None, [])
  {
  }

  lemma {:induction false} RunRecordsAhead(aead: Aead, hash: Text, wire: Text, sizes: seq<nat>)
    ensures var (st, results) := Run(aead, hash, Start(wire), sizes);
      && RecordsAhead(aead, hash, st) == RecordsOn(aead, hash, wire, 0)
      && (sizes != [] && results[|results| - 1] == Eof ==> st.closed || st.wire == [])
  {
    hide Fill, RecordsOn;
    if sizes != [] {
      RunRecordsAhead(aead, hash, wire, sizes[..|sizes| - 1]);
      var before := Run(aead, hash, Start(wire), sizes[..|sizes| - 1]).0;
      if !before.closed {
        FillRecordsAhead(aead, hash, before);
      }
    }
  }

  /** Whatever arrives, the bytes before an end of stream are all that was written if and
      only if the wire has every record, in order, before its first close frame. */
  lemma EofCompleteExactlyWhen(aead: Aead, hash: Text, chunks: seq<Text>, wire: Text, sizes: seq<nat>)
    requires OpensExactly(aead, hash, chunks) && |chunks| <= MAX_SEQUENCE && ChunkSizes(chunks) && sizes != []
    ensures var results := Run(aead, hash, Start(wire), sizes).1;
      results[|results| - 1] == Eof ==> (Delivered(results) == Concat(chunks) <==> RecordsOn(aead, hash, wire, 0) == |chunks|)
  {
    RunRecordsAhead(aead, hash, wire, sizes);
    hide OpensExactly, Run;
    EofCompleteWhenAllOpened(aead, hash, chunks, wire, sizes);
  }

  lemma EofCompleteWhenAllOpened(aead: Aead, hash: Text, chunks: seq<Text>, wire: Text, sizes: seq<nat>)
    requires OpensExactly(aead, hash, chunks) && |chunks| <= MAX_SEQUENCE && ChunkSizes(chunks) && sizes != []
    ensures var (st, results) := Run(aead, hash, Start(wire), sizes);
      results[|results| - 1] == Eof ==> (Delivered(results) == Concat(chunks) <==> st.number == |chunks|)
  {
    hide OpensExactly, Concat, Fill, Delivered;
    RunInStep(aead, hash, chunks, wire, sizes);
    var (st, results) := Run(aead, hash, Start(wire), sizes);
    if results[|results| - 1] == Eof {
      assert st.buf == [];
      assert Delivered(results) + [] == Delivered(results);
      if st.number < |chunks| {
        ConcatShorter(chunks, st.number);
      } else {
        assert chunks[..st.number] == chunks;
      }
    }
  }

  lemma ConcatShorter(chunks: seq<Text>, k: nat)
    requires ChunkSizes(chunks) && k < |chunks|
    ensures |Concat(chunks[..k])| < |Concat(chunks)|
  {
    ConcatAppend(chunks[..k], chunks[k..]);
    assert chunks == chunks[..k] + chunks[k..];
    assert Concat(chunks[k..]) == chunks[k] + Concat(chunks[k..][1..]);
  }
}
