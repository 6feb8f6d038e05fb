/**
 The thread of pasyncnet.c that serves the download protocol, field by field: a 64 KiB buffer filled
 by reads of any size, the process_buf switch between frame header and payload, and the handlers of
 commands and streams. Every method is proved to take the step of the state machine in Download.
 */
module DownloadThread {
  import opened Octets
  import opened Download

  class Thread {
    const io: nat -> Io
    const sha1: Digest
    const buffer: array<Octet>

    var streams: map<nat, Stream>
    var laststreamid: nat
    var calls: seq<Call>
    var replies: seq<nat>
    var frames: nat

    // curreadbuff is an offset into the buffer; processHeader says which of the two process_buf is set
    var curreadbuff: nat
    var curreadbuffrem: nat
    var curreadbufflen: nat
    var currentstreamid: nat
    var processHeader: bool

    ghost predicate Valid()
      reads this
    {
      && buffer.Length == BUFFER_LEN
      && 0 < curreadbuffrem && curreadbuff + curreadbuffrem <= BUFFER_LEN
      && curreadbuff + curreadbuffrem == if processHeader then STREAM_HEADER_LEN else curreadbufflen
    }

    /** The state this thread is in; `dead` once a handler has failed. */
    ghost function View(dead: bool): (c: Conn)
      requires curreadbuff <= buffer.Length
      reads this, buffer
    {
      var id := if processHeader then 0 else currentstreamid;
      Conn(streams, laststreamid, calls, replies,
           Reader(processHeader, id, curreadbuff + curreadbuffrem, buffer[..curreadbuff]), frames, dead)
    }

    constructor (io: nat -> Io, sha1: Digest)
      ensures Valid() && View(false) == INITIAL && this.io == io && this.sha1 == sha1 && fresh(buffer)
    {
      this.io, this.sha1 := io, sha1;
      buffer := new Octet[BUFFER_LEN](_ => 0);
      streams, laststreamid, calls, replies, frames := map[], 0, [], [], 0;
      curreadbuff, curreadbuffrem, curreadbufflen, currentstreamid := 0, STREAM_HEADER_LEN, 0, 0;
      processHeader := true;
    }

    /** file_download_send_error with close_stream and file_download_free */
    method FileDownloadSendError(id: nat, error: nat, errorflags: nat)
      requires curreadbuff <= buffer.Length && id in streams
      modifies this`streams, this`calls
      ensures View(false) == SendError(old(View(false)), id, error, errorflags)
      ensures View(true) == SendError(old(View(true)), id, error, errorflags)
    {
      var s := streams[id];
      calls := calls + [Call(Result(error, errorflags, s.size, s.hash, s.sha1hex), s, s.open && error == 0)];
      streams := streams - {id};
    }

    /** The write loop of process_file_download_data. */
    method WriteAll(data: Text, disk: Io) returns (n: nat)
      ensures n == Stored(|data|, disk.writes, 0)
    {
      n := 0;
      var k: nat := 0;
      while n < |data|
        invariant n <= |data| && Stored(|data|, disk.writes, 0) == n + Stored(|data| - n, disk.writes, k)
      {
        var wr := disk.writes(k);
        if wr <= 0 {
          return;
        }
        n := n + if wr > |data| - n then |data| - n else wr;
        k := k + 1;
      }
    }

    method ProcessFileDownloadData(id: nat, data: Text, disk: Io) returns (ret: int)
      requires curreadbuff <= buffer.Length && id in streams
      modifies this`streams, this`calls
      ensures View(ret != 0) == BodyStep(old(View(false)), id, data, disk, sha1)
    {
      hide Stored;
      var s := streams[id];
      if |data| > s.remsize {
        FileDownloadSendError(id, ERROR_NET, FLAG_RETRY_AS_IS);
        return -1;
      }
      s := s.(remsize := s.remsize - |data|, hashed := s.hashed + data);
      var n := WriteAll(data, disk);
      s := s.(written := s.written + data[..n]);
      streams := streams[id := s];
      AfterWrite(id, n < |data|, disk);
      return 0;
    }

    /** A failed write ends the stream, and so does the last byte, checked against the announced checksum. */
    method AfterWrite(id: nat, failed: bool, disk: Io)
      requires curreadbuff <= buffer.Length && id in streams
      modifies this`streams, this`calls
      ensures View(false) == Settled(old(View(false)), id, failed, disk, sha1)
    {
      var s := streams[id];
      if failed {
        FileDownloadSendError(id, if disk.noSpace then ERROR_DISK_FULL else ERROR_IO, 0);
      } else if s.remsize == 0 {
        if sha1(s.hashed) != s.sha1hex {
          FileDownloadSendError(id, ERROR_CHECKSUM, 0);
        } else {
          FileDownloadSendError(id, 0, 0);
        }
      }
    }

    method ProcessFileDownloadHeaders(id: nat, data: Text, disk: Io) returns (ret: int)
      requires curreadbuff <= buffer.Length && id in streams
      modifies this`streams, this`calls
      ensures View(ret != 0) == HeadersStep(old(View(false)), id, data, disk, sha1)
    {
      hide BodyStep, Le;
      if |data| < RESPONSE_LEN {
        return -1;
      }
      var m := ResponseOf(data);
      var s := streams[id].(size := m.size, hash := m.hash, sha1hex := m.sha1hex, refusal := m.error);
      streams := streams[id := s];
      if m.error != 0 {
        FileDownloadSendError(id, (m.error + 100) % UINT32, m.errorflags);
        return 0;
      }
      if !disk.opens {
        FileDownloadSendError(id, ERROR_FILE, 0);
        return 0;
      }
      s := s.(open := true, remsize := s.size);
      streams := streams[id := s];
      ghost var c := old(View(false));
      assert View(false) == c.(streams := c.streams[id := s]);
      if s.remsize == 0 {
        FileDownloadSendError(id, 0, 0);
        return 0;
      }
      s := s.(phase := Body, hashed := []);
      streams := streams[id := s];
      assert View(false) == c.(streams := c.streams[id := s]);
      if |data| > RESPONSE_LEN {
        ret := ProcessFileDownloadData(id, data[RESPONSE_LEN..], disk);
      } else {
        ret := 0;
      }
    }

    /** process_stream_data */
    method ProcessStreamData() returns (ret: int)
      requires !processHeader && 0 < curreadbufflen <= BUFFER_LEN == buffer.Length && curreadbuff == curreadbufflen
      modifies this`streams, this`calls, this`frames, this`curreadbuff, this`curreadbuffrem, this`processHeader
      ensures Valid() && View(ret != 0) == Dispatch(old(View(false)), currentstreamid, buffer[..curreadbufflen], io, sha1)
    {
      hide BodyStep, HeadersStep;
      var disk := io(frames);
      var id, data := currentstreamid, buffer[..curreadbufflen];
      ghost var c := View(false);
      if id !in streams {
        ret := 0;
      } else if streams[id].phase.Headers? {
        ret := ProcessFileDownloadHeaders(id, data, disk);
        HeadersIgnoreReader(c, id, data, disk, sha1, Reader(true, 0, STREAM_HEADER_LEN, []), c.frames + 1);
      } else {
        ret := ProcessFileDownloadData(id, data, disk);
        BodyIgnoresReader(c, id, data, disk, sha1, Reader(true, 0, STREAM_HEADER_LEN, []), c.frames + 1);
      }
      ReadStreamHeaderSetup();
    }

    method ReadStreamHeaderSetup()
      requires buffer.Length == BUFFER_LEN
      modifies this`frames, this`curreadbuff, this`curreadbuffrem, this`processHeader
      ensures Valid() && processHeader && curreadbuff == 0 && frames == old(frames) + 1
    {
      curreadbuff, curreadbuffrem, processHeader := 0, STREAM_HEADER_LEN, true;
      frames := frames + 1;
    }

    /** process_stream_header: the payload of at most 64 KiB goes over the header. */
    method ProcessStreamHeader()
      requires processHeader && buffer.Length == BUFFER_LEN && curreadbuff == STREAM_HEADER_LEN
      modifies this`curreadbuff, this`curreadbuffrem, this`curreadbufflen, this`currentstreamid, this`processHeader
      ensures Valid() && View(false) == Full(old(View(false)), old(buffer[..STREAM_HEADER_LEN]), io, sha1)
    {
      hide Le;
      var got := buffer[..STREAM_HEADER_LEN];
      LengthBound(got);
      assert buffer[..4] == got[..4] && buffer[4..6] == got[4..6];
      currentstreamid := Le(buffer[..4]);
      curreadbuff, curreadbufflen := 0, Le(buffer[4..6]) + 1;
      curreadbuffrem, processHeader := curreadbufflen, false;
    }

    /** One read of handle_decompressed_data: at most what the current item still needs. */
    method TakePiece(piece: Text) returns (ret: int)
      requires Valid() && 0 < |piece| <= curreadbuffrem
      modifies this`streams, this`calls, this`frames, this`curreadbuff, this`curreadbuffrem, this`curreadbufflen, this`currentstreamid, this`processHeader, buffer
      ensures Valid() && View(ret != 0) == Consume(old(View(false)), piece, io, sha1)
    {
      hide Full, Consume;
      ghost var c := View(false);
      ConsumePiece(c, piece, io, sha1);
      CopyIn(piece);
      curreadbuff, curreadbuffrem := curreadbuff + |piece|, curreadbuffrem - |piece|;
      assert buffer[..curreadbuff] == c.reader.got + piece;
      ret := 0;
      if curreadbuffrem == 0 {
        FullIgnoresPart(c, View(false), c.reader.got + piece, io, sha1);
        ret := ProcessBuf();
      }
    }

    /** A call through process_buf. */
    method ProcessBuf() returns (ret: int)
      requires buffer.Length == BUFFER_LEN && 0 < curreadbuff <= BUFFER_LEN
      requires curreadbuff == if processHeader then STREAM_HEADER_LEN else curreadbufflen
      modifies this`streams, this`calls, this`frames, this`curreadbuff, this`curreadbuffrem, this`curreadbufflen, this`currentstreamid, this`processHeader
      ensures Valid() && View(ret != 0) == Full(old(View(false)), old(buffer[..curreadbuff]), io, sha1)
    {
      hide Dispatch;
      if processHeader {
        ProcessStreamHeader();
        ret := 0;
      } else {
        ret := ProcessStreamData();
      }
    }

    method CopyIn(piece: Text)
      requires curreadbuff + |piece| <= buffer.Length
      modifies buffer
      ensures buffer[..curreadbuff + |piece|] == old(buffer[..curreadbuff]) + piece
    {
      var i := 0;
      while i < |piece|
        invariant 0 <= i <= |piece|
        invariant buffer[..curreadbuff + i] == old(buffer[..curreadbuff]) + piece[..i]
      {
        buffer[curreadbuff + i] := piece[i];
        i := i + 1;
      }
    }

    /** handle_decompressed_data on bytes that come in reads of any size: the result does not depend on the sizes. */
    method HandleDecompressedData(data: Text, cuts: nat -> nat) returns (ret: int)
      requires Valid()
      modifies this`streams, this`calls, this`frames, this`curreadbuff, this`curreadbuffrem, this`curreadbufflen, this`currentstreamid, this`processHeader, buffer
      ensures Valid() && View(ret != 0) == Consume(old(View(false)), data, io, sha1)
    {
      hide Full, Dispatch, Consume;
      ret := 0;
      var left, k := data, 0;
      while left != []
        invariant Valid() && 0 <= k
        invariant Consume(View(ret != 0), left, io, sha1) == Consume(old(View(false)), data, io, sha1)
        invariant ret == 0
        decreases |left|
      {
        var rd := cuts(k);
        rd := if rd == 0 then 1 else rd;
        rd := if rd > curreadbuffrem then curreadbuffrem else rd;
        rd := if rd > |left| then |left| else rd;
        assert left == left[..rd] + left[rd..];
        ConsumeConcat(View(false), left[..rd], left[rd..], io, sha1);
        ret := TakePiece(left[..rd]);
        left, k := left[rd..], k + 1;
        if ret != 0 {
          ConsumeDead(View(true), left, io, sha1);
          return;
        }
      }
      ConsumeNothing(View(false), io, sha1);
    }

    /** handle_command */
    method HandleCommand(kind: nat, len: nat, sent: bool) returns (ret: int, reply: nat)
      requires Valid()
      modifies this`streams, this`laststreamid, this`replies
      ensures Valid() && View(ret != 0) == Handle(old(View(false)), kind, len, sent)
      ensures replies == old(replies) + [reply]
    {
      if len > MAX_COMMAND {
        ret := -1;
      } else {
        ret := HandleCommandData(kind, len, sent);
      }
      if ret < 0 {
        ret, reply := -1, 255;
      } else {
        ret, reply := 0, ret;
      }
      replies := replies + [reply];
    }

    /** handle_command_data with the two download handlers, which differ only in what they ask the server. */
    method HandleCommandData(kind: nat, len: nat, sent: bool) returns (ret: int)
      requires Valid() && len <= MAX_COMMAND
      modifies this`streams, this`laststreamid
      ensures -1 <= ret <= 2
      ensures View(ret < 0).(replies := replies + [if ret < 0 then 255 else ret]) == Handle(old(View(false)), kind, len, sent)
    {
      if kind == TASK_EXIT {
        return if len != 0 then 2 else -1;
      }
      if kind != TASK_DOWNLOAD && kind != TASK_DOWNLOAD_IF_CHANGED {
        return 1;
      }
      if len != (if kind == TASK_DOWNLOAD then DOWNLOAD_LEN else DOWNLOAD_IF_CHANGED_LEN) {
        return 2;
      }
      laststreamid := laststreamid + 1;
      streams := streams[laststreamid := Stream(|replies|, false, Headers, 0, false, 0, 0, [], 0, [], [])];
      if !sent {
        return -1;
      }
      streams := streams[laststreamid := streams[laststreamid].(active := true)];
      assert View(false) == Opened(old(View(false)), true);
      return 0;
    }

    /** free_stream for every stream left, in the order of their numbers. */
    method FreeStreams(ghost dead: bool)
      requires Valid()
      modifies this`streams, this`calls
      ensures Valid() && View(dead) == FreedFrom(old(View(dead)), 0)
    {
      hide Freed;
      var id := 0;
      while id <= laststreamid
        invariant Valid() && 0 <= id && laststreamid == old(laststreamid)
        invariant FreedFrom(View(dead), id) == FreedFrom(old(View(dead)), 0)
      {
        if id in streams {
          FreeStream(id, dead);
        }
        id := id + 1;
      }
    }

    method FreeStream(id: nat, ghost dead: bool)
      requires Valid() && id in streams
      modifies this`streams, this`calls
      ensures Valid() && View(dead) == Freed(old(View(dead)), id)
    {
      var s := streams[id];
      if s.active {
        calls := calls + [Call(Result(ERROR_NET, FLAG_RETRY_AS_IS, 0, 0, seq(HEXLEN, _ => 0)), s, false)];
      }
      streams := streams - {id};
    }

    /** psync_async_thread: serves events until a handler fails, then frees what is left. */
    method Serve(events: seq<Event>, cuts: nat -> nat)
      requires Valid() && View(false) == INITIAL
      modifies this, buffer
      ensures Valid() && exists dead :: View(dead) == Finished(events, io, sha1)
      ensures streams == map[]
      ensures forall k: nat | k < |replies| :: CallsFor(calls, k) == if replies[k] == 0 then 1 else 0
      ensures forall call | call in calls :: CallOk(call, sha1)
    {
      hide Handle, Consume, FreedFrom, CallsFor, CallOk;
      var i, ret := 0, 0;
      while i < |events| && ret == 0
        invariant 0 <= i <= |events| && Valid()
        invariant Run(View(ret != 0), events[i..], io, sha1) == Run(INITIAL, events, io, sha1)
      {
        ghost var rest := events[i..];
        assert rest[0] == events[i] && rest[1..] == events[i + 1..];
        match events[i] {
          case Command(kind, len, sent) =>
            var reply;
            ret, reply := HandleCommand(kind, len, sent);
          case Incoming(bytes) =>
            ret := HandleDecompressedData(bytes, cuts);
        }
        i := i + 1;
      }
      FreeStreams(ret != 0);
      ExactlyOnce(events, io, sha1);
    }
  }

  lemma ConsumeDead(c: Conn, bytes: Text, io: nat -> Io, sha1: Digest)
    requires c.dead && ReaderOk(c.reader)
    ensures Consume(c, bytes, io, sha1) == c
  {
  }

  lemma ConsumeNothing(c: Conn, io: nat -> Io, sha1: Digest)
    requires ReaderOk(c.reader)
    ensures Consume(c, [], io, sha1) == c
  {
  }
}
