/**
 Downloads from end to end: the bytes of a header record and of a file on the wire, in frames and reads
 of any size, lead to one successful call with exactly that file; and each kind of failure has its code.
 */
module DownloadSuccess {
  import opened Octets
  import opened Download

  // ---------------------------------------------------------------- The header record on the wire

  datatype Header = Header(
    error: nat, errorflags: nat, size: nat, hash: nat, mtime: nat, oldhash: nat, oldmtime: nat, sha1hex: Text)

  predicate HeaderOk(h: Header) {
    && h.error < Power256(4) && h.errorflags < Power256(4)
    && h.size < Power256(8) && h.hash < Power256(8) && h.mtime < Power256(8)
    && h.oldhash < Power256(8) && h.oldmtime < Power256(8) && |h.sha1hex| == HEXLEN
  }

  function HeaderBytes(h: Header): (r: Text)
    requires HeaderOk(h)
    ensures |r| == RESPONSE_LEN
  {
    ToLe(h.error, 4) + ToLe(h.errorflags, 4) + ToLe(h.size, 8) + ToLe(h.hash, 8)
    + ToLe(h.mtime, 8) + ToLe(h.oldhash, 8) + ToLe(h.oldmtime, 8) + h.sha1hex
  }

  /** What the stream reads of a record, whatever follows it, is what was written field by field. */
  lemma HeaderParses(h: Header, rest: Text)
    requires HeaderOk(h)
    ensures ResponseOf(HeaderBytes(h) + rest) == Response(h.error, h.errorflags, h.size, h.hash, h.sha1hex)
  {
    hide Le, ToLe, Power256;
    LeRoundTrip(h.error, 4);
    LeRoundTrip(h.errorflags, 4);
    LeRoundTrip(h.size, 8);
    LeRoundTrip(h.hash, 8);
    var d := HeaderBytes(h) + rest;
    assert d[..4] == ToLe(h.error, 4) && d[4..8] == ToLe(h.errorflags, 4);
    assert d[8..16] == ToLe(h.size, 8) && d[16..24] == ToLe(h.hash, 8);
    assert d[48..88] == h.sha1hex;
  }

  // ---------------------------------------------------------------- A disk without failures

  ghost predicate GoodDisk(io: nat -> Io) {
    forall n :: io(n).opens && forall k :: io(n).writes(k) > 0
  }

  lemma {:induction false} AllStored(n: nat, writes: nat -> int, k: nat)
    requires forall j :: writes(j) > 0
    ensures Stored(n, writes, k) == n
    decreases n
  {
    if n != 0 && writes(k) < n {
      AllStored(n - writes(k), writes, k + 1);
    }
  }

  // ---------------------------------------------------------------- Frames that carry a file

  /** The payloads of one stream, in order. */
  function Carried(fs: seq<Frame>, id: nat): (r: Text) {
    if fs == [] then []
    else (if fs[0].id == id then fs[0].payload else []) + Carried(fs[1..], id)
  }

  /** The first frame of the stream holds the whole header record, and maybe some of the file. */
  predicate RecordInFirst(fs: seq<Frame>, id: nat) {
    fs != [] && if fs[0].id == id then |fs[0].payload| >= RESPONSE_LEN else RecordInFirst(fs[1..], id)
  }

  predicate NoneEmpty(fs: seq<Frame>) {
    forall f | f in fs :: f.payload != []
  }

  /** The stream has been opened and nothing has come for it yet. */
  ghost predicate Waiting(c: Conn, id: nat, k: nat) {
    !c.dead && c.streams == map[id := Stream(k, true, Headers, 0, false, 0, 0, [], 0, [], [])]
  }

  /** The stream has w bytes of its file. */
  ghost predicate Writing(c: Conn, id: nat, k: nat, h: Header, content: Text, w: nat) {
    && !c.dead && w < |content|
    && c.streams == map[id := Stream(k, true, Body, 0, true, |content|, h.hash, h.sha1hex, |content| - w, content[..w], content[..w])]
  }

  /** The one call that a good download makes: success, with the file's size, hash and checksum, all of it written. */
  ghost predicate Delivered(call: Call, k: nat, h: Header, content: Text) {
    && call.result == Result(0, 0, |content|, h.hash, h.sha1hex)
    && call.stream.request == k && call.stream.written == content && call.fileKept
  }

  /** From c to r one call was made, and no stream is left. */
  ghost predicate Done(c: Conn, r: Conn, k: nat, h: Header, content: Text) {
    && !r.dead && r.streams == map[] && r.last == c.last && r.replies == c.replies
    && |r.calls| == |c.calls| + 1 && r.calls[..|c.calls|] == c.calls && Delivered(r.calls[|c.calls|], k, h, content)
  }

  lemma Skipped(c: Conn, f: Frame, io: nat -> Io, sha1: Digest)
    requires f.id !in c.streams
    ensures Dispatch(c, f.id, f.payload, io, sha1) ==
            c.(reader := Reader(true, 0, STREAM_HEADER_LEN, []), frames := c.frames + 1)
  {
  }

  /** Frames without a stream are thrown away. */
  lemma {:induction false} AllSkipped(c: Conn, fs: seq<Frame>, io: nat -> Io, sha1: Digest)
    requires c.streams == map[]
    ensures var r := DispatchAll(c, fs, io, sha1);
            r.dead == c.dead && r.streams == map[] && r.calls == c.calls && r.last == c.last && r.replies == c.replies
    decreases |fs|
  {
    hide Dispatch;
    if fs != [] && !c.dead {
      Skipped(c, fs[0], io, sha1);
      AllSkipped(Dispatch(c, fs[0].id, fs[0].payload, io, sha1), fs[1..], io, sha1);
    }
  }

  /** One frame of the file: more is to come, or the download is complete. */
  lemma BodyFrame(c: Conn, id: nat, k: nat, h: Header, content: Text, w: nat, data: Text, io: nat -> Io, sha1: Digest)
    requires Writing(c, id, k, h, content, w) && data != [] && data <= content[w..]
    requires GoodDisk(io) && h.sha1hex == sha1(content)
    ensures var r := BodyStep(c, id, data, io(c.frames), sha1);
            && r.frames == c.frames
            && if w + |data| < |content| then
                 Writing(r, id, k, h, content, w + |data|) && r.calls == c.calls && r.last == c.last && r.replies == c.replies
               else Done(c, r, k, h, content)
  {
    AllStored(|data|, io(c.frames).writes, 0);
    assert content[..w] + data == content[..w + |data|];
    assert data[..|data|] == data;
    hide Stored;
    var s := c.streams[id];
    var t := s.(remsize := s.remsize - |data|, hashed := s.hashed + data, written := s.written + data);
    assert BodyStep(c, id, data, io(c.frames), sha1) == Settled(c.(streams := c.streams[id := t]), id, false, io(c.frames), sha1);
    if w + |data| == |content| {
      assert content[..w + |data|] == content;
      assert c.streams[id := t] - {id} == map[];
    }
  }

  /** The frames that carry the rest of the file. */
  lemma {:induction false} BodyRun(c: Conn, fs: seq<Frame>, id: nat, k: nat, h: Header, content: Text, w: nat,
                                   io: nat -> Io, sha1: Digest)
    requires Writing(c, id, k, h, content, w) && NoneEmpty(fs) && Carried(fs, id) == content[w..]
    requires GoodDisk(io) && h.sha1hex == sha1(content)
    ensures Done(c, DispatchAll(c, fs, io, sha1), k, h, content)
    decreases |fs|
  {
    hide GoodDisk, BodyStep, HeadersStep;
    assert fs != [];
    var f, rest := fs[0], fs[1..];
    assert f in fs && forall g | g in rest :: g in fs;
    if f.id != id {
      Skipped(c, f, io, sha1);
      assert [] + Carried(rest, id) == Carried(rest, id);
      BodyRun(Dispatch(c, f.id, f.payload, io, sha1), rest, id, k, h, content, w, io, sha1);
    } else {
      var data := f.payload;
      assert data <= content[w..] && content[w..][|data|..] == Carried(rest, id);
      assert content[w..][|data|..] == content[w + |data|..];
      var d := c.(reader := Reader(true, 0, STREAM_HEADER_LEN, []), frames := c.frames + 1);
      BodyFrame(c, id, k, h, content, w, data, io, sha1);
      BodyIgnoresReader(c, id, data, io(c.frames), sha1, d.reader, d.frames);
      assert Dispatch(c, id, data, io, sha1) == BodyStep(d, id, data, io(c.frames), sha1);
      var e := Dispatch(c, id, data, io, sha1);
      if w + |data| < |content| {
        BodyRun(e, rest, id, k, h, content, w + |data|, io, sha1);
      } else {
        AllSkipped(e, rest, io, sha1);
      }
    }
  }

  /** The frame with the header record: an empty file is complete with it, any other goes on. */
  lemma HeaderFrame(c: Conn, id: nat, k: nat, h: Header, content: Text, first: Text, io: nat -> Io, sha1: Digest)
    requires Waiting(c, id, k) && HeaderOk(h) && h.error == 0 && h.size == |content| && first <= content
    requires GoodDisk(io) && (content != [] ==> h.sha1hex == sha1(content))
    ensures var r := HeadersStep(c, id, HeaderBytes(h) + first, io(c.frames), sha1);
            && r.frames == c.frames
            && if |first| < |content| then
                 Writing(r, id, k, h, content, |first|) && r.calls == c.calls && r.last == c.last && r.replies == c.replies
               else Done(c, r, k, h, content)
  {
    hide BodyStep, ResponseOf, HeaderBytes, HeaderOk;
    HeaderParses(h, first);
    var data := HeaderBytes(h) + first;
    assert data[RESPONSE_LEN..] == first;
    assert io(c.frames).opens;
    var s := Stream(k, true, Headers, 0, true, |content|, h.hash, h.sha1hex, |content|, [], []);
    if content == [] {
      assert c.streams[id := s] - {id} == map[];
    } else {
      var e := c.(streams := c.streams[id := s.(phase := Body)]);
      assert content[..0] == [] && content[0..] == content;
      assert Writing(e, id, k, h, content, 0);
      if first != [] {
        BodyFrame(e, id, k, h, content, 0, first, io, sha1);
      }
    }
  }

  /** All frames from the header record on. */
  lemma {:induction false} HeaderRun(c: Conn, fs: seq<Frame>, id: nat, k: nat, h: Header, content: Text, io: nat -> Io, sha1: Digest)
    requires Waiting(c, id, k) && NoneEmpty(fs) && RecordInFirst(fs, id)
    requires HeaderOk(h) && h.error == 0 && h.size == |content| && Carried(fs, id) == HeaderBytes(h) + content
    requires GoodDisk(io) && (content != [] ==> h.sha1hex == sha1(content))
    ensures Done(c, DispatchAll(c, fs, io, sha1), k, h, content)
    decreases |fs|
  {
    hide GoodDisk, BodyStep, HeadersStep, HeaderBytes, HeaderOk;
    var f, rest := fs[0], fs[1..];
    assert f in fs && forall g | g in rest :: g in fs;
    if f.id != id {
      Skipped(c, f, io, sha1);
      assert [] + Carried(rest, id) == Carried(rest, id);
      HeaderRun(Dispatch(c, f.id, f.payload, io, sha1), rest, id, k, h, content, io, sha1);
    } else {
      var data := f.payload;
      var all := HeaderBytes(h) + content;
      assert all[..|data|] == data && all[|data|..] == Carried(rest, id);
      var first := data[RESPONSE_LEN..];
      assert all[..RESPONSE_LEN] == HeaderBytes(h) == data[..RESPONSE_LEN];
      assert data == HeaderBytes(h) + first && all[RESPONSE_LEN..] == content;
      assert first <= content && content[|first|..] == all[|data|..];
      var d := c.(reader := Reader(true, 0, STREAM_HEADER_LEN, []), frames := c.frames + 1);
      HeaderFrame(c, id, k, h, content, first, io, sha1);
      HeadersIgnoreReader(c, id, data, io(c.frames), sha1, d.reader, d.frames);
      assert Dispatch(c, id, data, io, sha1) == HeadersStep(d, id, data, io(c.frames), sha1);
      var e := Dispatch(c, id, data, io, sha1);
      if |first| < |content| {
        BodyRun(e, rest, id, k, h, content, |first|, io, sha1);
      } else {
        AllSkipped(e, rest, io, sha1);
      }
    }
  }

  // ---------------------------------------------------------------- Whole runs

  function Flat(chunks: seq<Text>): (r: Text) {
    if chunks == [] then [] else chunks[0] + Flat(chunks[1..])
  }

  function Reads(chunks: seq<Text>): (events: seq<Event>)
    ensures |events| == |chunks|
  {
    seq(|chunks|, i requires 0 <= i < |chunks| => Incoming(chunks[i]))
  }

  lemma {:induction false} RunReads(c: Conn, chunks: seq<Text>, io: nat -> Io, sha1: Digest)
    requires ReaderOk(c.reader)
    ensures Run(c, Reads(chunks), io, sha1) == Consume(c, Flat(chunks), io, sha1)
    decreases |chunks|
  {
    hide Full;
    if chunks != [] && !c.dead {
      assert Reads(chunks)[0] == Incoming(chunks[0]) && Reads(chunks)[1..] == Reads(chunks[1..]);
      ConsumeConcat(c, chunks[0], Flat(chunks[1..]), io, sha1);
      RunReads(Consume(c, chunks[0], io, sha1), chunks[1..], io, sha1);
    }
  }

  /**
   A good download: whatever the kind of request, the frames and the reads they come in, there is exactly
   one call, with success, for exactly that content, and the file is kept.
   */
  lemma GoodDownloadSucceeds(kind: nat, chunks: seq<Text>, fs: seq<Frame>, h: Header, content: Text, io: nat -> Io, sha1: Digest)
    requires kind == TASK_DOWNLOAD || kind == TASK_DOWNLOAD_IF_CHANGED
    requires HeaderOk(h) && h.error == 0 && h.size == |content| && (content != [] ==> h.sha1hex == sha1(content))
    requires (forall f | f in fs :: FrameOk(f)) && RecordInFirst(fs, 1) && Carried(fs, 1) == HeaderBytes(h) + content
    requires Flat(chunks) == Wire(fs) && GoodDisk(io)
    ensures var len := if kind == TASK_DOWNLOAD then DOWNLOAD_LEN else DOWNLOAD_IF_CHANGED_LEN;
            var c := Finished([Command(kind, len, true)] + Reads(chunks), io, sha1);
            && c.replies == [0] && |c.calls| == 1 && c.streams == map[]
            && Delivered(c.calls[0], 0, h, content)
  {
    hide HeaderBytes, HeaderOk, GoodDisk, Consume, Dispatch, Wire, FrameBytes;
    var len := if kind == TASK_DOWNLOAD then DOWNLOAD_LEN else DOWNLOAD_IF_CHANGED_LEN;
    var events := [Command(kind, len, true)] + Reads(chunks);
    var c := Handle(INITIAL, kind, len, true);
    assert events[0] == Command(kind, len, true) && events[1..] == Reads(chunks);
    assert Run(INITIAL, events, io, sha1) == Run(c, Reads(chunks), io, sha1);
    RunReads(c, chunks, io, sha1);
    ConsumeFrames(c, fs, io, sha1);
    assert Waiting(c, 1, 0);
    HeaderRun(c, fs, 1, 0, h, content, io, sha1);
    var r := DispatchAll(c, fs, io, sha1);
    assert FreedFrom(r, 0) == FreedFrom(r, 1) == FreedFrom(r, 2) == r;
  }

  // ---------------------------------------------------------------- Failures and their codes

  function LastCall(c: Conn): (call: Call)
    requires c.calls != []
  {
    c.calls[|c.calls| - 1]
  }

  /** One more call was made, for this stream, with this error; the stream is gone and no file is left of it. */
  ghost predicate Failed(c: Conn, r: Conn, id: nat, error: nat, flags: nat) {
    && id in c.streams && id !in r.streams && |r.calls| == |c.calls| + 1
    && LastCall(r).result.error == error && LastCall(r).result.errorflags == flags && !LastCall(r).fileKept
    && LastCall(r).stream.request == c.streams[id].request
  }

  /** Refused by the server, or no local file can be opened. */
  lemma HeaderFailures(c: Conn, id: nat, h: Header, rest: Text, io: Io, sha1: Digest)
    requires id in c.streams && !c.streams[id].open && HeaderOk(h)
    ensures var r := HeadersStep(c, id, HeaderBytes(h) + rest, io, sha1);
            && (h.error != 0 && h.error != WRAPPING_REFUSAL ==>
                  Failed(c, r, id, if h.error < WRAPPING_REFUSAL then h.error + 100 else h.error - WRAPPING_REFUSAL, h.errorflags))
            && (h.error == 0 && !io.opens ==> Failed(c, r, id, 2, 0))
  {
    hide HeaderBytes, BodyStep, ResponseOf;
    HeaderParses(h, rest);
    Sizes();
  }

  /** More bytes than announced, a full or failing disk, or another checksum. */
  lemma BodyFailures(c: Conn, id: nat, data: Text, io: Io, sha1: Digest)
    requires id in c.streams
    ensures var s, r := c.streams[id], BodyStep(c, id, data, io, sha1);
            var n := Stored(|data|, io.writes, 0);
            && (|data| > s.remsize ==> Failed(c, r, id, 1, 2) && r.dead)
            && (|data| <= s.remsize && n < |data| ==> Failed(c, r, id, if io.noSpace then 3 else 4, 0))
            && (|data| == s.remsize && n == |data| && sha1(s.hashed + data) != s.sha1hex ==> Failed(c, r, id, 5, 0))
  {
    hide Stored;
  }

  /** The connection ends first. */
  lemma EndFailure(c: Conn, id: nat)
    requires id in c.streams && c.streams[id].active
    ensures Failed(c, Freed(c, id), id, 1, 2)
  {
  }
}
