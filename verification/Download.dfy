/**
 The multiplexed download protocol of pasyncnet.c as a state machine. Commands open numbered streams,
 incoming bytes are cut into frames, and each frame drives the stream it names: first a header record,
 then the file's bytes, until the stream is closed by one call of its callback.
 */
module Download {
  import opened Octets

  const ERROR_NET: nat := 1
  const ERROR_FILE: nat := 2
  const ERROR_DISK_FULL: nat := 3
  const ERROR_IO: nat := 4
  const ERROR_CHECKSUM: nat := 5
  const FLAG_RETRY_AS_IS: nat := 2
  const UINT32: nat := 0x1_0000_0000

  const STREAM_HEADER_LEN: nat := 6
  const BUFFER_LEN: nat := 65536
  const RESPONSE_LEN: nat := 88
  const HEXLEN: nat := 40

  const TASK_EXIT: nat := 0
  const TASK_DOWNLOAD: nat := 1
  const TASK_DOWNLOAD_IF_CHANGED: nat := 2
  const MAX_COMMAND: nat := 4096
  const DOWNLOAD_LEN: nat := 32
  const DOWNLOAD_IF_CHANGED_LEN: nat := 80

  type Digest = Text -> Text

  /** How the local disk answers while one frame is handled: the open, then each write in turn. */
  datatype Io = Io(opens: bool, noSpace: bool, writes: nat -> int)

  datatype Phase = Headers | Body

  /** A stream; `request` stands for the caller's callback, `written` for what went to the file. */
  datatype Stream = Stream(
    request: nat, active: bool, phase: Phase, refusal: nat, open: bool,
    size: nat, hash: nat, sha1hex: Text, remsize: nat, hashed: Text, written: Text)

  datatype Result = Result(error: nat, errorflags: nat, size: nat, hash: nat, sha1hex: Text)

  /** One call of a callback, with the stream as it was then and whether the local file was left. */
  datatype Call = Call(result: Result, stream: Stream, fileKept: bool)

  datatype Reader = Reader(header: bool, id: nat, need: nat, got: Text)

  datatype Conn = Conn(
    streams: map<nat, Stream>, last: nat, calls: seq<Call>, replies: seq<nat>,
    reader: Reader, frames: nat, dead: bool)

  datatype Event =
    | Command(kind: nat, len: nat, sent: bool)
    | Incoming(bytes: Text)

  // ---------------------------------------------------------------- Streams

  /** psync_file_write in a loop: how many of n bytes are stored; fewer than n means that a write failed. */
  function Stored(n: nat, writes: nat -> int, k: nat): (r: nat)
    ensures r <= n
    decreases n
  {
    if n == 0 || writes(k) <= 0 then 0
    else if writes(k) >= n then n
    else writes(k) + Stored(n - writes(k), writes, k + 1)
  }

  function Ended(c: Conn, id: nat, result: Result): (r: Conn)
    requires id in c.streams
  {
    var s := c.streams[id];
    c.(streams := c.streams - {id}, calls := c.calls + [Call(result, s, s.open && result.error == 0)])
  }

  /** file_download_send_error: the one callback of the stream, then close_stream. */
  function SendError(c: Conn, id: nat, error: nat, errorflags: nat): (r: Conn)
    requires id in c.streams
  {
    var s := c.streams[id];
    Ended(c, id, Result(error, errorflags, s.size, s.hash, s.sha1hex))
  }

  /** process_file_download_data */
  function BodyStep(c: Conn, id: nat, data: Text, io: Io, sha1: Digest): (r: Conn)
    requires id in c.streams
  {
    var s := c.streams[id];
    if |data| > s.remsize then SendError(c, id, ERROR_NET, FLAG_RETRY_AS_IS).(dead := true) else
      var n := Stored(|data|, io.writes, 0);
      var t := s.(remsize := s.remsize - |data|, hashed := s.hashed + data, written := s.written + data[..n]);
      Settled(c.(streams := c.streams[id := t]), id, n < |data|, io, sha1)
  }

  /** What follows the writes of one frame: nothing while bytes are still to come, or the end of the stream. */
  function Settled(c: Conn, id: nat, failed: bool, io: Io, sha1: Digest): (r: Conn)
    requires id in c.streams
  {
    var s := c.streams[id];
    if failed then SendError(c, id, if io.noSpace then ERROR_DISK_FULL else ERROR_IO, 0)
    else if s.remsize > 0 then c
    else SendError(c, id, if sha1(s.hashed) == s.sha1hex then 0 else ERROR_CHECKSUM, 0)
  }

  /** The fields of task_file_download_resp_t that the stream uses. */
  datatype Response = Response(error: nat, errorflags: nat, size: nat, hash: nat, sha1hex: Text)

  function ResponseOf(d: Text): (r: Response)
    requires |d| >= RESPONSE_LEN
  {
    Response(Le(d[..4]), Le(d[4..8]), Le(d[8..16]), Le(d[16..24]), d[48..88])
  }

  /** process_file_download_headers */
  function HeadersStep(c: Conn, id: nat, data: Text, io: Io, sha1: Digest): (r: Conn)
    requires id in c.streams
  {
    if |data| < RESPONSE_LEN then c.(dead := true) else
      var m := ResponseOf(data);
      var s := c.streams[id].(size := m.size, hash := m.hash, sha1hex := m.sha1hex, refusal := m.error);
      var d := c.(streams := c.streams[id := s]);
      if m.error != 0 then SendError(d, id, (m.error + 100) % UINT32, m.errorflags)
      else if !io.opens then SendError(d, id, ERROR_FILE, 0)
      else
        var t := s.(open := true, remsize := m.size);
        if m.size == 0 then SendError(c.(streams := c.streams[id := t]), id, 0, 0) else
          var e := c.(streams := c.streams[id := t.(phase := Body, hashed := [])]);
          if |data| > RESPONSE_LEN then BodyStep(e, id, data[RESPONSE_LEN..], io, sha1) else e
  }

  /** process_stream_data: a frame for a stream that does not exist is thrown away. */
  function Dispatch(c: Conn, id: nat, data: Text, io: nat -> Io, sha1: Digest): (r: Conn) {
    var d := c.(reader := Reader(true, 0, STREAM_HEADER_LEN, []), frames := c.frames + 1);
    if id !in c.streams then d
    else if c.streams[id].phase.Headers? then HeadersStep(d, id, data, io(c.frames), sha1)
    else BodyStep(d, id, data, io(c.frames), sha1)
  }

  /** No handler of a stream looks at the reader. */
  lemma BodyIgnoresReader(c: Conn, id: nat, data: Text, io: Io, sha1: Digest, r: Reader, n: nat)
    requires id in c.streams
    ensures BodyStep(c.(reader := r, frames := n), id, data, io, sha1) == BodyStep(c, id, data, io, sha1).(reader := r, frames := n)
  {
    hide Stored;
  }

  lemma HeadersIgnoreReader(c: Conn, id: nat, data: Text, io: Io, sha1: Digest, r: Reader, n: nat)
    requires id in c.streams
    ensures HeadersStep(c.(reader := r, frames := n), id, data, io, sha1) == HeadersStep(c, id, data, io, sha1).(reader := r, frames := n)
  {
    hide ResponseOf, BodyStep;
    if |data| > RESPONSE_LEN {
      var m := ResponseOf(data);
      var s := c.streams[id].(size := m.size, hash := m.hash, sha1hex := m.sha1hex, refusal := m.error);
      var u := s.(open := true, remsize := m.size, phase := Body, hashed := []);
      BodyIgnoresReader(c.(streams := c.streams[id := u]), id, data[RESPONSE_LEN..], io, sha1, r, n);
    }
  }

  // ---------------------------------------------------------------- Frames

  /** What a full buffer leads to: a header says how much follows, a payload goes to its stream. */
  function Full(c: Conn, got: Text, io: nat -> Io, sha1: Digest): (r: Conn)
    requires c.reader.header ==> |got| == STREAM_HEADER_LEN
  {
    if c.reader.header then c.(reader := Reader(false, Le(got[..4]), Le(got[4..6]) + 1, []))
    else Dispatch(c, c.reader.id, got, io, sha1)
  }

  predicate ReaderOk(r: Reader) {
    |r.got| < r.need <= BUFFER_LEN && (r.header ==> r.need == STREAM_HEADER_LEN)
  }

  /** Incoming bytes one at a time: the reference for every way to cut them into reads. */
  function Consume(c: Conn, bytes: Text, io: nat -> Io, sha1: Digest): (r: Conn)
    requires ReaderOk(c.reader)
    ensures ReaderOk(r.reader)
    decreases |bytes|
  {
    if bytes == [] || c.dead then c else
      var got := c.reader.got + [bytes[0]];
      var d := if |got| < c.reader.need then c.(reader := c.reader.(got := got)) else Full(c, got, io, sha1);
      LengthBound(got);
      Consume(d, bytes[1..], io, sha1)
  }

  /** A payload length of two bytes plus one never exceeds the buffer. */
  lemma LengthBound(got: Text)
    ensures |got| == STREAM_HEADER_LEN ==> Le(got[4..6]) + 1 <= BUFFER_LEN
  {
    if |got| == STREAM_HEADER_LEN {
      var s := got[4..6];
      assert Le(s) == s[0] + 256 * Le(s[1..]);
      assert Le(s[1..]) == s[1] + 256 * Le(s[1..][1..]);
      assert s[1..][1..] == [];
    }
  }

  /** Bytes that arrive in two parts do what they would do together. */
  lemma {:induction false} ConsumeConcat(c: Conn, a: Text, b: Text, io: nat -> Io, sha1: Digest)
    requires ReaderOk(c.reader)
    ensures Consume(c, a + b, io, sha1) == Consume(Consume(c, a, io, sha1), b, io, sha1)
    decreases |a|
  {
    hide Full;
    if a == [] {
      assert a + b == b;
    } else if !c.dead {
      var got := c.reader.got + [a[0]];
      assert (a + b)[0] == a[0];
      assert (a + b)[1..] == a[1..] + b;
      var d := if |got| < c.reader.need then c.(reader := c.reader.(got := got)) else Full(c, got, io, sha1);
      StepOk(c, got, io, sha1);
      ConsumeConcat(d, a[1..], b, io, sha1);
    }
  }

  lemma StepOk(c: Conn, got: Text, io: nat -> Io, sha1: Digest)
    requires ReaderOk(c.reader) && |got| == |c.reader.got| + 1
    ensures var d := if |got| < c.reader.need then c.(reader := c.reader.(got := got)) else Full(c, got, io, sha1);
            ReaderOk(d.reader)
  {
    LengthBound(got);
  }

  /** A read that ends inside the item, or exactly at its end. */
  lemma {:induction false} ConsumePiece(c: Conn, piece: Text, io: nat -> Io, sha1: Digest)
    requires ReaderOk(c.reader) && !c.dead && 0 < |piece| <= c.reader.need - |c.reader.got|
    ensures var got := c.reader.got + piece;
            Consume(c, piece, io, sha1) ==
            if |got| < c.reader.need then c.(reader := c.reader.(got := got)) else Full(c, got, io, sha1)
    decreases |piece|
  {
    hide Full;
    var got := c.reader.got + [piece[0]];
    StepOk(c, got, io, sha1);
    if |piece| > 1 {
      var d := c.(reader := c.reader.(got := got));
      assert got + piece[1..] == c.reader.got + piece;
      ConsumePiece(d, piece[1..], io, sha1);
      if |c.reader.got + piece| == c.reader.need {
        FullIgnoresPart(c, d, c.reader.got + piece, io, sha1);
      }
    } else {
      assert got == c.reader.got + piece;
    }
  }

  lemma FullIgnoresPart(c: Conn, d: Conn, got: Text, io: nat -> Io, sha1: Digest)
    requires d == c.(reader := c.reader.(got := d.reader.got)) && (c.reader.header ==> |got| == STREAM_HEADER_LEN)
    ensures Full(d, got, io, sha1) == Full(c, got, io, sha1)
  {
    hide HeadersStep, BodyStep;
    if !c.reader.header {
      assert c.(reader := Reader(true, 0, STREAM_HEADER_LEN, []), frames := c.frames + 1)
          == d.(reader := Reader(true, 0, STREAM_HEADER_LEN, []), frames := d.frames + 1);
    }
  }

  datatype Frame = Frame(id: nat, payload: Text)

  predicate FrameOk(f: Frame) {
    f.id < UINT32 && 0 < |f.payload| <= BUFFER_LEN
  }

  /** A frame on the wire. */
  function FrameBytes(f: Frame): (r: Text)
    requires FrameOk(f)
  {
    ToLe(f.id, 4) + ToLe(|f.payload| - 1, 2) + f.payload
  }

  function Wire(fs: seq<Frame>): (r: Text)
    requires forall f | f in fs :: FrameOk(f)
  {
    if fs == [] then [] else FrameBytes(fs[0]) + Wire(fs[1..])
  }

  /** The streams' view of the same frames. */
  function DispatchAll(c: Conn, fs: seq<Frame>, io: nat -> Io, sha1: Digest): (r: Conn)
    decreases |fs|
  {
    if fs == [] || c.dead then c else DispatchAll(Dispatch(c, fs[0].id, fs[0].payload, io, sha1), fs[1..], io, sha1)
  }

  predicate AtBoundary(c: Conn) {
    c.reader == Reader(true, 0, STREAM_HEADER_LEN, [])
  }

  /** A frame is dispatched whole, whatever it holds. */
  lemma ConsumeFrame(c: Conn, f: Frame, io: nat -> Io, sha1: Digest)
    requires AtBoundary(c) && !c.dead && FrameOk(f)
    ensures Consume(c, FrameBytes(f), io, sha1) == Dispatch(c, f.id, f.payload, io, sha1)
  {
    hide HeadersStep, BodyStep, Consume, Le, ToLe;
    var head := ToLe(f.id, 4) + ToLe(|f.payload| - 1, 2);
    assert head[..4] == ToLe(f.id, 4) && head[4..6] == ToLe(|f.payload| - 1, 2);
    Sizes();
    LeRoundTrip(f.id, 4);
    LeRoundTrip(|f.payload| - 1, 2);
    assert [] + head == head;
    ConsumePiece(c, head, io, sha1);
    var d := c.(reader := Reader(false, f.id, |f.payload|, []));
    assert [] + f.payload == f.payload;
    ConsumePiece(d, f.payload, io, sha1);
    ConsumeConcat(c, head, f.payload, io, sha1);
  }

  lemma Sizes()
    ensures Power256(2) == BUFFER_LEN && Power256(4) == UINT32
  {
    assert Power256(2) == 256 * Power256(1);
    assert Power256(4) == 256 * Power256(3);
    assert Power256(3) == 256 * Power256(2);
  }

  lemma {:induction false} ConsumeFrames(c: Conn, fs: seq<Frame>, io: nat -> Io, sha1: Digest)
    requires AtBoundary(c) && forall f | f in fs :: FrameOk(f)
    ensures Consume(c, Wire(fs), io, sha1) == DispatchAll(c, fs, io, sha1)
    decreases |fs|
  {
    hide Dispatch, FrameBytes, FrameOk;
    if fs != [] && !c.dead {
      ConsumeFrame(c, fs[0], io, sha1);
      ConsumeConcat(c, FrameBytes(fs[0]), Wire(fs[1..]), io, sha1);
      DispatchBoundary(c, fs[0].id, fs[0].payload, io, sha1);
      ConsumeFrames(Dispatch(c, fs[0].id, fs[0].payload, io, sha1), fs[1..], io, sha1);
    }
  }

  lemma DispatchBoundary(c: Conn, id: nat, data: Text, io: nat -> Io, sha1: Digest)
    ensures AtBoundary(Dispatch(c, id, data, io, sha1))
  {
  }

  // ---------------------------------------------------------------- Commands and whole runs

  const INITIAL: Conn := Conn(map[], 0, [], [], Reader(true, 0, STREAM_HEADER_LEN, []), 0, false)

  /** handle_file_download: a stream with the next number, active once its request was sent. */
  function Opened(c: Conn, sent: bool): (r: Conn) {
    c.(streams := c.streams[c.last + 1 := Stream(|c.replies|, sent, Headers, 0, false, 0, 0, [], 0, [], [])], last := c.last + 1)
  }

  /** handle_command: the caller learns the byte replied; 0 means that the request is under way. */
  function Handle(c: Conn, kind: nat, len: nat, sent: bool): (r: Conn) {
    if len > MAX_COMMAND then c.(replies := c.replies + [255], dead := true)
    else if kind == TASK_EXIT then
      if len != 0 then c.(replies := c.replies + [2]) else c.(replies := c.replies + [255], dead := true)
    else if kind == TASK_DOWNLOAD || kind == TASK_DOWNLOAD_IF_CHANGED then
      if len != (if kind == TASK_DOWNLOAD then DOWNLOAD_LEN else DOWNLOAD_IF_CHANGED_LEN) then c.(replies := c.replies + [2])
      else if sent then Opened(c, true).(replies := c.replies + [0])
      else Opened(c, false).(replies := c.replies + [255], dead := true)
    else c.(replies := c.replies + [1])
  }

  /** free_stream: what is left when the thread ends is told that the network failed. */
  function Freed(c: Conn, id: nat): (r: Conn)
    requires id in c.streams
  {
    if c.streams[id].active then Ended(c, id, Result(ERROR_NET, FLAG_RETRY_AS_IS, 0, 0, seq(HEXLEN, _ => 0)))
    else c.(streams := c.streams - {id})
  }

  /** The streams from number `id` on, in the order of the tree. */
  function FreedFrom(c: Conn, id: nat): (r: Conn)
    decreases c.last + 1 - id
  {
    if id > c.last then c
    else if id in c.streams then FreedFrom(Freed(c, id), id + 1)
    else FreedFrom(c, id + 1)
  }

  function Happen(c: Conn, e: Event, io: nat -> Io, sha1: Digest): (r: Conn)
    requires ReaderOk(c.reader)
    ensures ReaderOk(r.reader)
  {
    match e
    case Command(kind, len, sent) => Handle(c, kind, len, sent)
    case Incoming(bytes) => Consume(c, bytes, io, sha1)
  }

  /** The thread: events until one of them ends it. */
  function Run(c: Conn, events: seq<Event>, io: nat -> Io, sha1: Digest): (r: Conn)
    requires ReaderOk(c.reader)
    decreases |events|
  {
    if events == [] || c.dead then c else Run(Happen(c, events[0], io, sha1), events[1..], io, sha1)
  }

  function Finished(events: seq<Event>, io: nat -> Io, sha1: Digest): (r: Conn) {
    FreedFrom(Run(INITIAL, events, io, sha1), 0)
  }

  // ---------------------------------------------------------------- What every run keeps

  function CallsFor(calls: seq<Call>, k: nat): (n: nat) {
    if calls == [] then 0
    else CallsFor(calls[..|calls| - 1], k) + if calls[|calls| - 1].stream.request == k then 1 else 0
  }

  /** The whole file arrived: every byte announced was written, with the announced checksum unless it is empty. */
  predicate Complete(s: Stream, sha1: Digest) {
    s.open && |s.written| == s.size && (s.size > 0 ==> sha1(s.written) == s.sha1hex)
  }

  predicate StreamOk(s: Stream) {
    match s.phase
    case Headers => !s.open && s.refusal == 0 && s.written == []
    case Body => s.open && s.refusal == 0 && s.hashed == s.written && |s.written| + s.remsize == s.size && s.remsize > 0
  }

  const WRAPPING_REFUSAL: nat := UINT32 - 100

  /** Success means a complete file, except for the one refusal whose code wraps around to 0. */
  predicate CallOk(call: Call, sha1: Digest) {
    && (call.result.error == 0 <==> Complete(call.stream, sha1) || call.stream.refusal == WRAPPING_REFUSAL)
    && (call.fileKept <==> call.result.error == 0 && call.stream.open)
    && (call.result.error == 0 ==> call.result.size == call.stream.size && call.result.sha1hex == call.stream.sha1hex)
  }

  predicate Live(c: Conn, k: nat) {
    exists id :: id in c.streams && c.streams[id].request == k
  }

  ghost predicate StreamsOk(c: Conn) {
    forall id | id in c.streams ::
      && id <= c.last && c.streams[id].request < |c.replies|
      && (c.streams[id].active <==> c.replies[c.streams[id].request] == 0)
      && (!c.dead ==> c.streams[id].active)
      && StreamOk(c.streams[id])
  }

  ghost predicate OwnRequests(c: Conn) {
    forall id, id' | id in c.streams && id' in c.streams && c.streams[id].request == c.streams[id'].request :: id == id'
  }

  ghost predicate Once(c: Conn) {
    forall k: nat :: CallsFor(c.calls, k) == if k < |c.replies| && c.replies[k] == 0 && !Live(c, k) then 1 else 0
  }

  ghost predicate Inv(c: Conn, sha1: Digest) {
    StreamsOk(c) && OwnRequests(c) && Once(c) && forall call | call in c.calls :: CallOk(call, sha1)
  }

  /** The stream with number `id` may be replaced by a later state of itself. */
  lemma ReplacedKeeps(c: Conn, id: nat, s: Stream, sha1: Digest)
    requires Inv(c, sha1) && id in c.streams && StreamOk(s)
    requires s.request == c.streams[id].request && s.active == c.streams[id].active
    ensures Inv(c.(streams := c.streams[id := s]), sha1)
  {
    hide CallsFor, Live, StreamOk, CallOk;
    var d := c.(streams := c.streams[id := s]);
    forall k: nat ensures Live(d, k) == Live(c, k) {
      LiveAfterReplace(c, id, s, k);
    }
  }

  lemma LiveAfterReplace(c: Conn, id: nat, s: Stream, k: nat)
    requires id in c.streams && s.request == c.streams[id].request
    ensures Live(c.(streams := c.streams[id := s]), k) == Live(c, k)
  {
    var d := c.(streams := c.streams[id := s]);
    if Live(c, k) {
      var j :| j in c.streams && c.streams[j].request == k;
      assert j in d.streams && d.streams[j].request == k;
    }
    if Live(d, k) {
      var j :| j in d.streams && d.streams[j].request == k;
      assert j in c.streams && c.streams[j].request == k;
    }
  }

  /** Closing a stream takes its request off the live ones, and no other. */
  lemma LiveAfterEnd(c: Conn, id: nat, k: nat)
    requires id in c.streams && OwnRequests(c)
    ensures Live(c.(streams := c.streams - {id}), k) <==> Live(c, k) && k != c.streams[id].request
  {
    var d := c.(streams := c.streams - {id});
    if Live(c, k) && k != c.streams[id].request {
      var j :| j in c.streams && c.streams[j].request == k;
      assert j in d.streams && d.streams[j].request == k;
    }
    if Live(d, k) {
      var j :| j in d.streams && d.streams[j].request == k;
      assert j in c.streams && c.streams[j].request == k;
    }
  }

  lemma CallsForSnoc(calls: seq<Call>, call: Call, k: nat)
    ensures CallsFor(calls + [call], k) == CallsFor(calls, k) + if call.stream.request == k then 1 else 0
  {
    assert (calls + [call])[..|calls|] == calls;
  }

  /** The last state of an active stream is reported once, and the stream is gone. */
  lemma EndedKeeps(c: Conn, id: nat, s: Stream, result: Result, sha1: Digest)
    requires Inv(c, sha1) && id in c.streams && c.streams[id].active && s.request == c.streams[id].request
    requires CallOk(Call(result, s, s.open && result.error == 0), sha1)
    ensures Inv(Ended(c.(streams := c.streams[id := s]), id, result), sha1)
  {
    hide CallsFor, Live, StreamOk, CallOk;
    var d := Ended(c.(streams := c.streams[id := s]), id, result);
    var e := c.(streams := c.streams - {id});
    var call := Call(result, s, s.open && result.error == 0);
    assert d == e.(calls := c.calls + [call]) by {
      assert c.streams[id := s] - {id} == c.streams - {id};
    }
    forall k: nat
      ensures CallsFor(d.calls, k) == if k < |d.replies| && d.replies[k] == 0 && !Live(d, k) then 1 else 0
    {
      CallsForSnoc(c.calls, call, k);
      LiveAfterEnd(c, id, k);
      SameLive(d, e, k);
      RequestIsLive(c, id);
    }
  }

  lemma SameLive(c: Conn, d: Conn, k: nat)
    requires c.streams == d.streams
    ensures Live(c, k) == Live(d, k)
  {
  }

  lemma RequestIsLive(c: Conn, id: nat)
    requires id in c.streams
    ensures Live(c, c.streams[id].request)
  {
  }

  lemma BodyKeeps(c: Conn, id: nat, data: Text, io: Io, sha1: Digest)
    requires Inv(c, sha1) && !c.dead && id in c.streams && c.streams[id].phase.Body?
    ensures Inv(BodyStep(c, id, data, io, sha1), sha1)
  {
    hide Once, OwnRequests, Stored;
    var s := c.streams[id];
    if |data| > s.remsize {
      assert c.streams[id := s] == c.streams;
      EndedKeeps(c, id, s, Result(ERROR_NET, FLAG_RETRY_AS_IS, s.size, s.hash, s.sha1hex), sha1);
      DeadKeeps(SendError(c, id, ERROR_NET, FLAG_RETRY_AS_IS), sha1);
    } else {
      var n := Stored(|data|, io.writes, 0);
      var t := s.(remsize := s.remsize - |data|, hashed := s.hashed + data, written := s.written + data[..n]);
      if n < |data| {
        EndedKeeps(c, id, t, Result(if io.noSpace then ERROR_DISK_FULL else ERROR_IO, 0, t.size, t.hash, t.sha1hex), sha1);
      } else {
        assert data[..n] == data;
        if t.remsize > 0 {
          ReplacedKeeps(c, id, t, sha1);
        } else {
          EndedKeeps(c, id, t, Result(if sha1(t.hashed) == t.sha1hex then 0 else ERROR_CHECKSUM, 0, t.size, t.hash, t.sha1hex), sha1);
        }
      }
    }
  }

  lemma DeadKeeps(c: Conn, sha1: Digest)
    requires Inv(c, sha1)
    ensures Inv(c.(dead := true), sha1)
  {
    hide CallsFor, Live;
    forall k: nat ensures Live(c.(dead := true), k) == Live(c, k) {
      SameLive(c, c.(dead := true), k);
    }
  }

  lemma HeadersKeep(c: Conn, id: nat, data: Text, io: Io, sha1: Digest)
    requires Inv(c, sha1) && !c.dead && id in c.streams && c.streams[id].phase.Headers?
    ensures Inv(HeadersStep(c, id, data, io, sha1), sha1)
  {
    hide Once, OwnRequests, BodyStep, ResponseOf, Le;
    if |data| < RESPONSE_LEN {
      DeadKeeps(c, sha1);
    } else {
      var m := ResponseOf(data);
      ErrorBound(data);
      var s := c.streams[id].(size := m.size, hash := m.hash, sha1hex := m.sha1hex, refusal := m.error);
      var t := s.(open := true, remsize := m.size);
      if m.error != 0 {
        EndedKeeps(c, id, s, Result((m.error + 100) % UINT32, m.errorflags, m.size, m.hash, m.sha1hex), sha1);
      } else if !io.opens {
        EndedKeeps(c, id, s, Result(ERROR_FILE, 0, m.size, m.hash, m.sha1hex), sha1);
      } else if m.size == 0 {
        EndedKeeps(c, id, t, Result(0, 0, m.size, m.hash, m.sha1hex), sha1);
      } else {
        var u := t.(phase := Body, hashed := []);
        ReplacedKeeps(c, id, u, sha1);
        if |data| > RESPONSE_LEN {
          BodyKeeps(c.(streams := c.streams[id := u]), id, data[RESPONSE_LEN..], io, sha1);
        }
      }
    }
  }

  lemma ErrorBound(d: Text)
    requires |d| >= RESPONSE_LEN
    ensures ResponseOf(d).error < UINT32
  {
    LeBound(d[..4]);
    Sizes();
  }

  lemma DispatchKeeps(c: Conn, id: nat, data: Text, io: nat -> Io, sha1: Digest)
    requires Inv(c, sha1) && !c.dead
    ensures Inv(Dispatch(c, id, data, io, sha1), sha1)
  {
    hide BodyStep, HeadersStep, StreamOk;
    var d := c.(reader := Reader(true, 0, STREAM_HEADER_LEN, []), frames := c.frames + 1);
    ReaderKeeps(c, d, sha1);
    if id in c.streams {
      if c.streams[id].phase.Headers? {
        HeadersKeep(d, id, data, io(c.frames), sha1);
      } else {
        BodyKeeps(d, id, data, io(c.frames), sha1);
      }
    }
  }

  /** The invariant does not depend on where the reader stands. */
  lemma ReaderKeeps(c: Conn, d: Conn, sha1: Digest)
    requires Inv(c, sha1) && d == c.(reader := d.reader, frames := d.frames)
    ensures Inv(d, sha1)
  {
    hide CallsFor, Live, StreamOk, CallOk;
    forall k: nat ensures Live(c, k) == Live(d, k) {
      SameLive(c, d, k);
    }
  }

  lemma {:induction false} ConsumeKeeps(c: Conn, bytes: Text, io: nat -> Io, sha1: Digest)
    requires Inv(c, sha1) && ReaderOk(c.reader)
    ensures Inv(Consume(c, bytes, io, sha1), sha1)
    decreases |bytes|
  {
    hide Inv, Dispatch;
    if bytes != [] && !c.dead {
      var got := c.reader.got + [bytes[0]];
      StepOk(c, got, io, sha1);
      if |got| < c.reader.need {
        var d := c.(reader := c.reader.(got := got));
        ReaderKeeps(c, d, sha1);
        ConsumeKeeps(d, bytes[1..], io, sha1);
      } else {
        var d := Full(c, got, io, sha1);
        if c.reader.header {
          ReaderKeeps(c, d, sha1);
        } else {
          DispatchKeeps(c, c.reader.id, got, io, sha1);
        }
        ConsumeKeeps(d, bytes[1..], io, sha1);
      }
    }
  }

  /** A new request gets a number and a callback of its own. */
  lemma OpenedKeeps(c: Conn, sent: bool, reply: nat, sha1: Digest)
    requires Inv(c, sha1) && !c.dead && (reply == 0 <==> sent)
    ensures Inv(Opened(c, sent).(replies := c.replies + [reply], dead := !sent), sha1)
  {
    hide CallsFor, Live, CallOk;
    var d := Opened(c, sent).(replies := c.replies + [reply], dead := !sent);
    forall k: nat ensures Live(d, k) <==> Live(c, k) || k == |c.replies| {
      LiveAfterOpen(c, d, k);
    }
    NoCallsYet(c, sha1);
  }

  lemma LiveAfterOpen(c: Conn, d: Conn, k: nat)
    requires StreamsOk(c) && c.last + 1 in d.streams && d.streams == c.streams[c.last + 1 := d.streams[c.last + 1]]
    requires d.streams[c.last + 1].request == |c.replies|
    ensures Live(d, k) <==> Live(c, k) || k == |c.replies|
  {
    if Live(c, k) {
      var j :| j in c.streams && c.streams[j].request == k;
      assert j in d.streams && d.streams[j].request == k;
    }
    if Live(d, k) && k != |c.replies| {
      var j :| j in d.streams && d.streams[j].request == k;
      assert j in c.streams && c.streams[j].request == k;
    }
  }

  lemma NoCallsYet(c: Conn, sha1: Digest)
    requires Inv(c, sha1)
    ensures CallsFor(c.calls, |c.replies|) == 0
  {
  }

  /** A refused command has no stream and gets no callback. */
  lemma RefusedKeeps(c: Conn, reply: nat, dead: bool, sha1: Digest)
    requires Inv(c, sha1) && !c.dead && reply != 0
    ensures Inv(c.(replies := c.replies + [reply], dead := dead), sha1)
  {
    hide CallsFor, Live, CallOk, StreamOk;
    var d := c.(replies := c.replies + [reply], dead := dead);
    forall k: nat ensures Live(c, k) == Live(d, k) {
      SameLive(c, d, k);
    }
  }

  lemma HandleKeeps(c: Conn, kind: nat, len: nat, sent: bool, sha1: Digest)
    requires Inv(c, sha1) && !c.dead
    ensures Inv(Handle(c, kind, len, sent), sha1)
  {
    hide Inv;
    OpenedKeeps(c, sent, if sent then 0 else 255, sha1);
    RefusedKeeps(c, 255, true, sha1);
    RefusedKeeps(c, 2, false, sha1);
    RefusedKeeps(c, 1, false, sha1);
  }

  lemma {:induction false} RunKeeps(c: Conn, events: seq<Event>, io: nat -> Io, sha1: Digest)
    requires Inv(c, sha1) && ReaderOk(c.reader)
    ensures Inv(Run(c, events, io, sha1), sha1)
    decreases |events|
  {
    hide Inv, Consume, Handle;
    if events != [] && !c.dead {
      match events[0] {
        case Command(kind, len, sent) => HandleKeeps(c, kind, len, sent, sha1);
        case Incoming(bytes) => ConsumeKeeps(c, bytes, io, sha1);
      }
      RunKeeps(Happen(c, events[0], io, sha1), events[1..], io, sha1);
    }
  }

  lemma FreedKeeps(c: Conn, id: nat, sha1: Digest)
    requires Inv(c, sha1) && id in c.streams
    ensures Inv(Freed(c, id), sha1)
  {
    hide CallsFor, Live;
    var s := c.streams[id];
    if s.active {
      assert c.streams[id := s] == c.streams;
      EndedKeeps(c, id, s, Result(ERROR_NET, FLAG_RETRY_AS_IS, 0, 0, seq(HEXLEN, _ => 0)), sha1);
    } else {
      forall k: nat ensures Live(Freed(c, id), k) <==> Live(c, k) && k != s.request {
        LiveAfterEnd(c, id, k);
      }
    }
  }

  lemma {:induction false} FreedFromKeeps(c: Conn, id: nat, sha1: Digest)
    requires Inv(c, sha1) && forall j | j in c.streams :: j >= id
    ensures var d := FreedFrom(c, id); Inv(d, sha1) && d.streams == map[] && d.replies == c.replies
    decreases c.last + 1 - id
  {
    hide Once, OwnRequests, CallOk, StreamOk;
    if id <= c.last {
      if id in c.streams {
        FreedKeeps(c, id, sha1);
        FreedFromKeeps(Freed(c, id), id + 1, sha1);
      } else {
        FreedFromKeeps(c, id + 1, sha1);
      }
    }
  }

  /**
   In every run, once the thread has ended, each command was either answered with an error or led to
   exactly one call of its callback, never both; success was reported exactly for complete files and
   for the one refusal that wraps; and no stream is left.
   */
  lemma ExactlyOnce(events: seq<Event>, io: nat -> Io, sha1: Digest)
    ensures var c := Finished(events, io, sha1);
            && c.streams == map[]
            && (forall k: nat | k < |c.replies| :: CallsFor(c.calls, k) == if c.replies[k] == 0 then 1 else 0)
            && (forall k: nat | k >= |c.replies| :: CallsFor(c.calls, k) == 0)
            && (forall call | call in c.calls :: CallOk(call, sha1))
  {
    assert Inv(INITIAL, sha1);
    RunKeeps(INITIAL, events, io, sha1);
    var c := Run(INITIAL, events, io, sha1);
    FreedFromKeeps(c, 0, sha1);
    var d := FreedFrom(c, 0);
    hide CallsFor;
    forall k: nat ensures !Live(d, k) {
    }
  }

  // ---------------------------------------------------------------- Closed streams

  /** From c to d no stream that was closed, and had a number already, comes back. */
  ghost predicate NoneBack(c: Conn, d: Conn) {
    c.last <= d.last && forall id | id in d.streams && id <= c.last :: id in c.streams
  }

  lemma DispatchNoneBack(c: Conn, id: nat, data: Text, io: nat -> Io, sha1: Digest)
    ensures NoneBack(c, Dispatch(c, id, data, io, sha1))
  {
    hide Stored, ResponseOf;
  }

  lemma {:induction false} ConsumeNoneBack(c: Conn, bytes: Text, io: nat -> Io, sha1: Digest)
    requires ReaderOk(c.reader)
    ensures NoneBack(c, Consume(c, bytes, io, sha1))
    decreases |bytes|
  {
    hide Dispatch;
    if bytes != [] && !c.dead {
      var got := c.reader.got + [bytes[0]];
      StepOk(c, got, io, sha1);
      DispatchNoneBack(c, c.reader.id, got, io, sha1);
      var d := if |got| < c.reader.need then c.(reader := c.reader.(got := got)) else Full(c, got, io, sha1);
      ConsumeNoneBack(d, bytes[1..], io, sha1);
    }
  }

  /** A stream number is used once: after its stream is closed, frames that name it are thrown away. */
  lemma {:induction false} ClosedStaysClosed(c: Conn, events: seq<Event>, io: nat -> Io, sha1: Digest)
    requires ReaderOk(c.reader)
    ensures NoneBack(c, Run(c, events, io, sha1))
    decreases |events|
  {
    hide Consume;
    if events != [] && !c.dead {
      var d := Happen(c, events[0], io, sha1);
      match events[0] {
        case Command(kind, len, sent) => assert NoneBack(c, d);
        case Incoming(bytes) => ConsumeNoneBack(c, bytes, io, sha1);
      }
      ClosedStaysClosed(d, events[1..], io, sha1);
    }
  }

  // ---------------------------------------------------------------- The refusal that wraps

  const WRAPPING_RESPONSE: Text := [156, 255, 255, 255] + seq(RESPONSE_LEN - 4, _ => 0)

  lemma WrappingResponseMeans()
    ensures |WRAPPING_RESPONSE| == RESPONSE_LEN && ResponseOf(WRAPPING_RESPONSE).error == WRAPPING_REFUSAL
  {
    var d: Text := [156, 255, 255, 255];
    assert WRAPPING_RESPONSE[..4] == d;
    assert d[1..] == [255, 255, 255] && d[1..][1..] == [255, 255] && d[1..][1..][1..] == [255] && d[1..][1..][1..][1..] == [];
    assert Le(d) == 156 + 256 * (255 + 256 * (255 + 256 * (255 + 256 * 0)));
  }

  /** A download that the server refuses with code 2^32 - 100 is reported as a success without any file. */
  lemma RefusalReportedAsSuccess(io: nat -> Io, sha1: Digest)
    ensures var events := [Command(TASK_DOWNLOAD, DOWNLOAD_LEN, true), Incoming(FrameBytes(Frame(1, WRAPPING_RESPONSE)))];
            var c := Finished(events, io, sha1);
            |c.calls| == 1 && c.calls[0].result.error == 0 && !Complete(c.calls[0].stream, sha1) && !c.calls[0].fileKept
  {
    hide ResponseOf, FrameBytes, BodyStep, Consume;
    var f := Frame(1, WRAPPING_RESPONSE);
    WrappingResponseMeans();
    var e0, e1 := Command(TASK_DOWNLOAD, DOWNLOAD_LEN, true), Incoming(FrameBytes(f));
    var c1 := Happen(INITIAL, e0, io, sha1);
    var c2 := Happen(c1, e1, io, sha1);
    ConsumeFrame(c1, f, io, sha1);
    assert [e0, e1][1..] == [e1] && [e1][1..] == [];
    assert Run(INITIAL, [e0, e1], io, sha1) == Run(c1, [e1], io, sha1);
    assert Run(c1, [e1], io, sha1) == Run(c2, [], io, sha1) == c2;
    assert c2.streams == map[];
    assert FreedFrom(c2, 0) == FreedFrom(c2, 1) == FreedFrom(c2, 2) == c2;
  }
}
