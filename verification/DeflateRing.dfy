/**
 The buffering of pcompression.c around a compressor: a 4096-byte ring with running offsets, an
 overflow buffer that grows while a flush is finished, and reads that may call the compressor
 straight into the reader's buffer. The compressor itself is any state machine with an honest `step`.
 */
module DeflateRing {
  import opened Bytes

  const BUFFER_SIZE: nat := 4096

  datatype Flush = NoFlush | FlushNow | FlushEnd

  /** Z_OK, Z_BUF_ERROR, Z_STREAM_END, Z_STREAM_ERROR, Z_DATA_ERROR and the other codes of zlib. */
  datatype Code = Ok | BufError | StreamEnd | StreamError | DataError | Other

  /** What one compressor call does: its code, how much input it took, what it put out, its next state. */
  datatype Answer<Z> = Answer(code: Code, taken: nat, out: Bytes, next: Z)

  /** One compressor call: what it was asked to flush, whether it filled the room it got, and whether it ended the stream. */
  datatype Ask = Ask(flush: Flush, filled: bool, ended: bool)

  /** Calls made since `before`: all asked for the same. */
  ghost predicate AskedSince(before: seq<Ask>, after: seq<Ask>, flush: Flush) {
    before <= after && forall i | |before| <= i < |after| :: after[i].flush == flush
  }

  /** Some call made since `before` ended the stream. */
  ghost predicate EndedSince(before: seq<Ask>, after: seq<Ask>) {
    exists i :: |before| <= i < |after| && after[i].ended
  }

  lemma AskedOnce(before: seq<Ask>, mid: seq<Ask>, a: Ask)
    requires AskedSince(before, mid, a.flush)
    ensures AskedSince(before, mid + [a], a.flush)
    ensures EndedSince(before, mid + [a]) <==> EndedSince(before, mid) || a.ended
  {
    var after := mid + [a];
    assert after[|mid|] == a;
    assert forall i | 0 <= i < |mid| :: after[i] == mid[i];
    if EndedSince(before, mid) {
      var i :| |before| <= i < |mid| && mid[i].ended;
      assert after[i].ended;
    }
  }

  lemma AskedMore(before: seq<Ask>, mid: seq<Ask>, after: seq<Ask>, flush: Flush)
    requires AskedSince(before, mid, flush) && AskedSince(mid, after, flush)
    ensures AskedSince(before, after, flush)
    ensures EndedSince(before, after) <==> EndedSince(before, mid) || EndedSince(mid, after)
  {
    assert forall i | 0 <= i < |mid| :: after[i] == mid[i];
    if EndedSince(before, mid) {
      var i :| |before| <= i < |mid| && mid[i].ended;
      assert after[i].ended;
    }
  }

  lemma AskedNothing(before: seq<Ask>, flush: Flush)
    ensures AskedSince(before, before, flush) && !EndedSince(before, before)
  {
  }

  /** The last call left some of its room unused. */
  predicate LeftRoom(asked: seq<Ask>) {
    asked != [] && !asked[|asked| - 1].filled
  }

  const NODATA: int := -1
  const FULL: int := -2
  const ERROR: int := -3
  const EOF: int := 0

  datatype Op = Write(data: Bytes, flush: Flush) | Read(len: nat)

  /** The unread bytes of a ring: positions are taken modulo its size. */
  function Window(b: Bytes, start: nat, end: nat): (r: Bytes)
    requires |b| == BUFFER_SIZE && start <= end
    ensures |r| == end - start
  {
    seq(end - start, i requires 0 <= i < end - start => b[(start + i) % BUFFER_SIZE])
  }

  /** Offsets a ring may have between two calls. */
  predicate Offsets(start: nat, end: nat) {
    start <= end <= start + BUFFER_SIZE && start < BUFFER_SIZE
  }

  /** Where the next bytes go and how many of them fit there without a break. */
  predicate FreeRun(start: nat, end: nat, pos: nat, room: nat) {
    && pos == end % BUFFER_SIZE
    && 0 < room && pos + room <= BUFFER_SIZE && end + room <= start + BUFFER_SIZE
  }

  /** The space handed to the compressor holds no unread byte. */
  lemma FreeRunIsUnread(start: nat, end: nat, pos: nat, room: nat, i: nat)
    requires Offsets(start, end) && FreeRun(start, end, pos, room) && i < end - start
    ensures !(pos <= (start + i) % BUFFER_SIZE < pos + room)
  {
  }

  /** Offsets are less than two turns, so one subtraction takes them into the ring. */
  lemma Wraps(x: nat)
    requires x < 2 * BUFFER_SIZE
    ensures x % BUFFER_SIZE == if x < BUFFER_SIZE then x else x - BUFFER_SIZE
  {
  }

  /** Storing at the free run appends to the window. */
  lemma WindowGrows(b: Bytes, b': Bytes, start: nat, end: nat, pos: nat, room: nat, out: Bytes)
    requires |b| == |b'| == BUFFER_SIZE && Offsets(start, end) && FreeRun(start, end, pos, room) && |out| <= room
    requires b'[..pos] == b[..pos] && b'[pos..pos + |out|] == out && b'[pos + |out|..] == b[pos + |out|..]
    ensures Window(b', start, end + |out|) == Window(b, start, end) + out
  {
    var w, w' := Window(b, start, end), Window(b', start, end + |out|);
    forall i: nat | i < |w| ensures w'[i] == w[i] {
      FreeRunIsUnread(start, end, pos, room, i);
      KeptOutside(b, b', pos, out, (start + i) % BUFFER_SIZE);
    }
    forall i: nat | i < |out| ensures w'[|w| + i] == out[i] {
      Wraps(end);
      Wraps(end + i);
      assert start + (|w| + i) == end + i;
      assert b'[pos..pos + |out|][i] == out[i];
    }
  }

  lemma KeptOutside(b: Bytes, b': Bytes, pos: nat, out: Bytes, p: nat)
    requires |b| == |b'| && pos + |out| <= |b| && p < |b| && !(pos <= p < pos + |out|)
    requires b'[..pos] == b[..pos] && b'[pos + |out|..] == b[pos + |out|..]
    ensures b'[p] == b[p]
  {
    if p < pos {
      assert b'[..pos][p] == b[..pos][p];
    } else {
      assert b'[pos + |out|..][p - pos - |out|] == b[pos + |out|..][p - pos - |out|];
    }
  }

  /** Two copies around the break give the first `len` bytes of the window. */
  lemma WindowHead(b: Bytes, start: nat, end: nat, len: nat)
    requires |b| == BUFFER_SIZE && Offsets(start, end) && len <= end - start
    ensures Window(b, start, end)[..len] ==
            if start + len <= BUFFER_SIZE then b[start..start + len] else b[start..] + b[..len - (BUFFER_SIZE - start)]
    ensures Window(b, start, end)[len..] == Window(b, start + len, end)
  {
    forall i | 0 <= i < end - start - len ensures Window(b, start, end)[len..][i] == Window(b, start + len, end)[i] {
      assert start + (len + i) == start + len + i;
    }
  }

  /** A read that goes around the break asserts something that is true only if it takes everything. */
  lemma WrappedReadAssertion(start: nat, end: nat, len: nat)
    requires Offsets(start, end) && len <= end - start && start + len > BUFFER_SIZE
    ensures len - (BUFFER_SIZE - start) == end % BUFFER_SIZE <==> len == end - start
  {
    Wraps(end);
  }

  /** The assertion fails when 150 of 200 unread bytes are read from place 4000 of the ring. */
  lemma WrappedReadFails()
    ensures Offsets(4000, 4200) && 150 - (BUFFER_SIZE - 4000) != 4200 % BUFFER_SIZE
  {
    WrappedReadAssertion(4000, 4200, 150);
  }

  lemma WindowTurns(b: Bytes, start: nat, end: nat)
    requires |b| == BUFFER_SIZE && BUFFER_SIZE <= start <= end
    ensures Window(b, start - BUFFER_SIZE, end - BUFFER_SIZE) == Window(b, start, end)
  {
    var w, w' := Window(b, start, end), Window(b, start - BUFFER_SIZE, end - BUFFER_SIZE);
    forall i | 0 <= i < end - start ensures w'[i] == w[i] {
      assert (start - BUFFER_SIZE + i) % BUFFER_SIZE == (start + i) % BUFFER_SIZE;
    }
  }

  /** zlib's side of the bargain for one call. */
  predicate Honest<Z>(a: Answer<Z>, input: Bytes, room: nat, flush: Flush, deflating: bool) {
    && a.taken <= |input| && |a.out| <= room
    && (a.code == BufError ==> a.taken == 0 && a.out == [])
    && (deflating ==> a.code in {Ok, BufError, StreamError} || (a.code == StreamEnd && flush == FlushEnd))
  }

  /** `rest` is what is left of the input after the compressor has taken what its history gained. */
  ghost predicate Took(input: Bytes, rest: Bytes, before: Bytes, after: Bytes) {
    |rest| <= |input| && rest == input[|input| - |rest|..] && after == before + input[..|input| - |rest|]
  }

  lemma TookNothing(input: Bytes, before: Bytes)
    ensures Took(input, input, before, before)
  {
  }

  lemma TookSome(input: Bytes, n: nat, before: Bytes)
    requires n <= |input|
    ensures Took(input, input[n..], before, before + input[..n])
  {
  }

  lemma TookMore(input: Bytes, mid: Bytes, rest: Bytes, t0: Bytes, t1: Bytes, t2: Bytes)
    requires Took(input, mid, t0, t1) && Took(mid, rest, t1, t2)
    ensures Took(input, rest, t0, t2)
  {
    assert input[..|input| - |rest|] == input[..|input| - |mid|] + mid[..|mid| - |rest|];
  }

  class Deflate<Z(!new)> {
    // The compressor: its state and its behaviour
    const deflating: bool
    const step: (Z, Bytes, nat, Flush) -> Answer<Z>
    ghost const left: (Z, Bytes) -> nat
    var stream: Z

    const buffer: array<Byte>
    var start: nat
    var end: nat
    var moreData: bool
    var streamEnd: bool
    var flushBuff: array?<Byte>
    var flushOff: nat
    var flushLen: nat

    // History: bytes the compressor took, bytes it put out, bytes readers got, and its calls
    ghost var taken: Bytes
    ghost var emitted: Bytes
    ghost var delivered: Bytes
    ghost var asked: seq<Ask>

    /**
     The compressor is honest, and one input cannot fill runs of 4096 bytes and more for ever. Nothing is
     asked of shorter runs: after each run that a flush fills, deflate may put out its marker again.
     */
    ghost predicate Lawful() {
      forall z, input, room: nat, flush | room > 0 ::
        var a := step(z, input, room, flush);
        && Honest(a, input, room, flush, deflating)
        && (a.code == Ok && |a.out| == room >= BUFFER_SIZE ==> left(a.next, input[a.taken..]) < left(z, input))
    }

    ghost predicate Valid()
      reads this
    {
      && Lawful() && buffer.Length == BUFFER_SIZE && Offsets(start, end)
      && (flushBuff != null ==> flushOff <= flushLen <= flushBuff.Length && flushBuff != buffer)
    }

    /** Unread bytes: the ring, then the overflow buffer. */
    ghost function Pending(): (r: Bytes)
      requires Valid()
      reads this, buffer, flushBuff
    {
      Window(buffer[..], start, end) + Overflow()
    }

    ghost function Overflow(): (r: Bytes)
      requires Valid()
      reads this, flushBuff
    {
      if flushBuff == null then [] else flushBuff[flushOff..flushLen]
    }

    /** First in, first out: nothing lost, nothing repeated, nothing out of order. */
    ghost predicate Intact()
      requires Valid()
      reads this, buffer, flushBuff
    {
      emitted == delivered + Pending()
    }

    constructor (deflating: bool, step: (Z, Bytes, nat, Flush) -> Answer<Z>, ghost left: (Z, Bytes) -> nat, stream: Z)
      requires forall z, input, room: nat, flush | room > 0 ::
        var a := step(z, input, room, flush);
        && Honest(a, input, room, flush, deflating)
        && (a.code == Ok && |a.out| == room >= BUFFER_SIZE ==> left(a.next, input[a.taken..]) < left(z, input))
      ensures Valid() && Intact() && fresh(buffer)
      ensures start == end == 0 && flushBuff == null && !moreData && !streamEnd
      ensures taken == emitted == delivered == [] && asked == []
      ensures this.deflating == deflating && this.step == step && this.left == left && this.stream == stream
    {
      this.deflating, this.step, this.left, this.stream := deflating, step, left, stream;
      buffer := new Byte[BUFFER_SIZE];
      start, end := 0, 0;
      moreData, streamEnd := false, false;
      flushBuff, flushOff, flushLen := null, 0, 0;
      taken, emitted, delivered, asked := [], [], [], [];
    }

    /** psync_deflate_set_out_buff: refuses exactly when the ring is full. */
    method SetOutBuff() returns (full: bool, pos: nat, room: nat)
      requires Valid()
      ensures full <==> end - start == BUFFER_SIZE
      ensures !full ==> FreeRun(start, end, pos, room)
      ensures !full ==> room == BUFFER_SIZE - pos || end + room == start + BUFFER_SIZE
    {
      if end - start == BUFFER_SIZE {
        return true, 0, 0;
      }
      pos := end % BUFFER_SIZE;
      room := if pos < start then start - pos else BUFFER_SIZE - pos;
      full := false;
    }

    /** psync_deflate_call_compressor into the ring. */
    method CompressIntoRing(input: Bytes, flush: Flush, pos: nat, room: nat) returns (code: Code, rest: Bytes)
      requires Valid() && FreeRun(start, end, pos, room)
      modifies this`stream, this`end, this`moreData, this`taken, this`emitted, this`asked, buffer
      ensures Valid()
      ensures var a := step(old(stream), input, room, flush);
              && code == a.code && stream == a.next
              && moreData == (|a.out| == room)
              && Took(input, rest, old(taken), taken) && |rest| == |input| - a.taken
              && emitted == old(emitted) + a.out
              && Window(buffer[..], start, end) == Window(old(buffer[..]), start, old(end)) + a.out
              && Honest(a, input, room, flush, deflating)
      ensures asked == old(asked) + [Ask(flush, moreData, code == StreamEnd)] && (code == BufError ==> !moreData)
    {
      var a := step(stream, input, room, flush);
      Store(buffer, pos, a.out);
      WindowGrows(old(buffer[..]), buffer[..], start, end, pos, room, a.out);
      stream, end := a.next, end + |a.out|;
      moreData := |a.out| == room;
      taken, emitted := taken + input[..a.taken], emitted + a.out;
      asked := asked + [Ask(flush, moreData, a.code == StreamEnd)];
      code, rest := a.code, input[a.taken..];
    }

    /** One deflate call into the overflow buffer that is being built. */
    method FlushStep(buff: array<Byte>, used: nat, rest0: Bytes, flush: Flush, ghost input: Bytes, ghost taken0: Bytes, ghost emitted0: Bytes)
      returns (code: Code, rest: Bytes, used': nat)
      requires Valid() && used < buff.Length && buff != buffer && flushBuff == null
      requires Took(input, rest0, taken0, taken) && emitted == emitted0 + buff[..used]
      modifies this`stream, this`taken, this`emitted, this`asked, buff
      ensures Valid() && used <= used' <= buff.Length
      ensures Took(input, rest, taken0, taken) && emitted == emitted0 + buff[..used']
      ensures code == BufError ==> used' == used
      ensures asked == old(asked) + [Ask(flush, used' == buff.Length, code == StreamEnd)]
      ensures deflating ==> code in {Ok, BufError, StreamError} || (code == StreamEnd && flush == FlushEnd)
      ensures code == Ok && used' == buff.Length && used + BUFFER_SIZE <= buff.Length ==>
                left(stream, rest) < old(left(stream, rest0))
    {
      hide Window, Offsets, Took;
      var a := step(stream, rest0, buff.Length - used, flush);
      Append(buff, used, a.out);
      stream := a.next;
      code, rest, used' := a.code, rest0[a.taken..], used + |a.out|;
      asked := asked + [Ask(flush, used' == buff.Length, code == StreamEnd)];
      TookSome(rest0, a.taken, taken);
      TookMore(input, rest0, rest, taken0, taken, taken + rest0[..a.taken]);
      taken, emitted := taken + rest0[..a.taken], emitted + a.out;
    }

    /**
     psync_deflate_finish_flush_add_buffer: puts out into a buffer that doubles until the compressor
     leaves some of it unused. Only when the compressor fails or ends is the buffer dropped.
     */
    method FinishFlush(input: Bytes, flush: Flush) returns (code: Code, rest: Bytes)
      requires Valid() && deflating && flushBuff == null
      modifies this`stream, this`moreData, this`taken, this`emitted, this`asked, this`flushBuff, this`flushOff, this`flushLen
      ensures Valid() && !moreData && (flushBuff != null ==> fresh(flushBuff))
      ensures code in {Ok, StreamError} || (code == StreamEnd && flush == FlushEnd)
      ensures Took(input, rest, old(taken), taken)
      ensures old(emitted) <= emitted
      ensures code == Ok ==> emitted == old(emitted) + Overflow()
      ensures code != Ok ==> flushBuff == null
      ensures AskedSince(old(asked), asked, flush) && (code == Ok ==> LeftRoom(asked))
      ensures EndedSince(old(asked), asked) <==> code == StreamEnd
    {
      hide Honest, Window, Took, AskedSince, EndedSince, Deflate.Lawful;
      AskedNothing(asked, flush);
      var alloced: nat := 4096;
      var buff := new Byte[alloced];
      var used: nat := 0;
      moreData, flushOff, rest := false, 0, input;
      TookNothing(input, taken);
      while true
        invariant Valid() && flushBuff == null && !moreData && flushOff == 0
        invariant fresh(buff) && alloced == buff.Length && used + BUFFER_SIZE <= alloced
        invariant Took(input, rest, old(taken), taken)
        invariant emitted == old(emitted) + buff[..used]
        invariant AskedSince(old(asked), asked, flush) && !EndedSince(old(asked), asked)
        decreases left(stream, rest)
      {
        ghost var calls := asked;
        code, rest, used := FlushStep(buff, used, rest, flush, input, old(taken), old(emitted));
        AskedOnce(old(asked), calls, Ask(flush, used == alloced, code == StreamEnd));
        if code != Ok {
          if code == BufError {
            code := Ok;
            if used != 0 {
              flushBuff, flushLen := buff, used;
            }
          }
          return;
        }
        if used < alloced {
          flushBuff, flushLen := buff, used;
          return;
        }
        alloced := alloced * 2;
        buff := Realloc(buff, alloced);
      }
    }

    /** The calls of psync_deflate_write that put out into the ring: a second one if the first filled its run. */
    method FillRing(data: Bytes, flush: Flush, pos0: nat, room0: nat) returns (code: Code, rest: Bytes, ghost out: Bytes)
      requires Valid() && FreeRun(start, end, pos0, room0)
      modifies this`stream, this`end, this`moreData, this`taken, this`emitted, this`asked, buffer
      ensures Valid() && Took(data, rest, old(taken), taken)
      ensures emitted == old(emitted) + out
      ensures Window(buffer[..], start, end) == old(Window(buffer[..], start, end)) + out
      ensures AskedSince(old(asked), asked, flush) && asked != [] && moreData == !LeftRoom(asked)
      ensures EndedSince(old(asked), asked) <==> code == StreamEnd
      ensures deflating && flush != FlushEnd && moreData ==> code in {Ok, StreamError}
    {
      hide Window, FreeRun, Took, Offsets, AskedSince, EndedSince, Deflate.Lawful;
      AskedNothing(asked, flush);
      code, rest := CompressIntoRing(data, flush, pos0, room0);
      AskedOnce(old(asked), old(asked), Ask(flush, moreData, code == StreamEnd));
      out := step(old(stream), data, room0, flush).out;
      if code == Ok && moreData {
        var full, pos, room := SetOutBuff();
        if !full {
          ghost var before, took, z, calls := rest, taken, stream, asked;
          code, rest := CompressIntoRing(rest, flush, pos, room);
          AskedOnce(old(asked), calls, Ask(flush, moreData, code == StreamEnd));
          TookMore(data, before, rest, old(taken), took, taken);
          out := out + step(z, before, room, flush).out;
          if code == BufError {
            code := Ok;
          }
        }
      }
    }

    /** psync_deflate_write once there is room in the ring. */
    method Put(data: Bytes, flush: Flush, pos: nat, room: nat) returns (code: Code, rest: Bytes)
      requires Valid() && flushBuff == null && FreeRun(start, end, pos, room)
      modifies this`stream, this`end, this`moreData, this`flushBuff, this`flushOff, this`flushLen, this`taken, this`emitted, this`asked, buffer
      ensures Valid() && (flushBuff != null ==> fresh(flushBuff))
      ensures |rest| <= |data| && taken == old(taken) + data[..|data| - |rest|]
      ensures old(emitted) <= emitted
      ensures old(Intact()) && code != StreamError && flush != FlushEnd ==> Intact()
      ensures AskedSince(old(asked), asked, flush) && (EndedSince(old(asked), asked) <==> code == StreamEnd)
      ensures deflating && flush == FlushNow && code != StreamError ==> LeftRoom(asked)
    {
      hide Window, FreeRun, Took, AskedSince, EndedSince, Deflate.Lawful;
      ghost var ring := Window(buffer[..], start, end);
      ghost var out;
      code, rest, out := FillRing(data, flush, pos, room);
      FifoMore(old(emitted), delivered, ring, out, []);
      if code == Ok && deflating && flush != NoFlush && moreData {
        ghost var before, took, calls := rest, taken, asked;
        code, rest := FinishFlush(rest, flush);
        AskedMore(old(asked), calls, asked, flush);
        TookMore(data, before, rest, old(taken), took, taken);
        FifoMore(old(emitted), delivered, ring, out, Overflow());
      }
      TookMeans(data, rest, old(taken), taken);
    }

    /**
     psync_deflate_write: how much of the data was taken, or that the ring is full, or an error. A write that
     asks for a flush asks the compressor for it in every call, and is done when a call leaves room unused.
     */
    method Write(data: Bytes, flush: Flush) returns (r: int)
      requires Valid()
      modifies this`stream, this`end, this`moreData, this`streamEnd, this`flushBuff, this`flushOff, this`flushLen, this`taken, this`emitted, this`asked, buffer
      ensures Valid() && (flushBuff != null ==> flushBuff == old(flushBuff) || fresh(flushBuff))
      ensures data == [] && flush == NoFlush ==> r == ERROR && unchanged(this) && unchanged(buffer)
      ensures r == FULL <==> (data != [] || flush != NoFlush) && (old(flushBuff) != null || old(end - start) == BUFFER_SIZE)
      ensures r == FULL ==> unchanged(this) && unchanged(buffer)
      ensures r != FULL && r != ERROR ==> 0 <= r <= |data| && taken == old(taken) + data[..r]
      ensures old(emitted) <= emitted
      ensures old(Intact()) && r != ERROR && flush != FlushEnd ==> Intact()
      ensures AskedSince(old(asked), asked, flush)
      ensures streamEnd <==> old(streamEnd) || EndedSince(old(asked), asked)
      ensures deflating && flush == FlushNow && r != ERROR && r != FULL ==> LeftRoom(asked)
    {
      hide Window, FreeRun, AskedSince, EndedSince, Deflate.Lawful;
      AskedNothing(asked, flush);
      if data == [] && flush == NoFlush {
        return ERROR;
      }
      if flushBuff != null {
        return FULL;
      }
      var full, pos, room := SetOutBuff();
      if full {
        return FULL;
      }
      var code, rest := Put(data, flush, pos, room);
      if code == StreamEnd {
        streamEnd := true;
      }
      if code == StreamError || code == DataError {
        return ERROR;
      }
      return |data| - |rest|;
    }

    /** The overflow buffer's branch of psync_deflate_read. */
    method ReadOverflow(len: nat) returns (r: int, data: Bytes)
      requires Valid() && start == end && flushBuff != null
      modifies this`flushBuff, this`flushOff, this`delivered
      ensures Valid() && (flushBuff == null || flushBuff == old(flushBuff))
      ensures r == |data| <= len && delivered == old(delivered) + data
      ensures data + Overflow() == old(Overflow())
      ensures |data| < len ==> Overflow() == [] && flushBuff == null
    {
      var n := if len > flushLen - flushOff then flushLen - flushOff else len;
      data := flushBuff[flushOff..flushOff + n];
      assert data + flushBuff[flushOff + n..flushLen] == flushBuff[flushOff..flushLen];
      flushOff := flushOff + n;
      delivered := delivered + data;
      if flushOff == flushLen {
        flushBuff := null;
      }
      return n, data;
    }

    /** The branch of psync_deflate_read that lets the compressor put out straight to the reader. */
    method ReadDirect(len: nat) returns (r: int, data: Bytes)
      requires Valid() && start == end && flushBuff == null && moreData && len > 0
      modifies this`stream, this`moreData, this`streamEnd, this`emitted, this`asked, this`delivered
      ensures Valid() && r in {NODATA, ERROR, |data|} && |data| <= len
      ensures r == NODATA ==> data == [] && emitted == old(emitted) && delivered == old(delivered)
      ensures r >= 0 ==> r > 0 && emitted == old(emitted) + data && delivered == old(delivered) + data
      ensures r == ERROR ==> data == [] && old(emitted) <= emitted && delivered == old(delivered)
      ensures old(asked) <= asked && (streamEnd <==> old(streamEnd) || EndedSince(old(asked), asked))
    {
      AskedNothing(asked, NoFlush);
      var a := step(stream, [], len, NoFlush);
      AskedOnce(asked, asked, Ask(NoFlush, |a.out| == len, a.code == StreamEnd));
      stream, moreData := a.next, |a.out| == len;
      emitted, asked := emitted + a.out, asked + [Ask(NoFlush, moreData, a.code == StreamEnd)];
      if a.code == BufError {
        return NODATA, [];
      } else if a.code == StreamError || a.code == DataError {
        return ERROR, [];
      }
      if a.code == StreamEnd {
        streamEnd := true;
      }
      if a.out == [] {
        return NODATA, [];
      }
      delivered := delivered + a.out;
      return |a.out|, a.out;
    }

    /** The ring's branch of psync_deflate_read: one copy, or two around the end of the ring. */
    method ReadRing(len: nat) returns (r: int, data: Bytes)
      requires Valid() && start < end
      modifies this`start, this`end, this`delivered
      ensures Valid() && delivered == old(delivered) + data
      ensures r == |data| == if len > old(end - start) then old(end - start) else len
      ensures data + Window(buffer[..], start, end) == old(Window(buffer[..], start, end))
    {
      hide Window, Offsets, Deflate.Lawful;
      var n := if len > end - start then end - start else len;
      data := CopyOut(n);
      ghost var w := Window(buffer[..], start, end);
      assert w == w[..n] + w[n..];
      Advance(n);
      delivered := delivered + data;
      return n, data;
    }

    method CopyOut(n: nat) returns (data: Bytes)
      requires Valid() && n <= end - start
      ensures data == Window(buffer[..], start, end)[..n]
    {
      hide Window, Deflate.Lawful;
      WindowHead(buffer[..], start, end, n);
      if start + n <= BUFFER_SIZE {
        data := buffer[start..start + n];
      } else {
        data := buffer[start..] + buffer[..n - (BUFFER_SIZE - start)];
      }
    }

    /** Both offsets go back to the start when the ring is empty, and by one turn when the read has passed its end. */
    method Advance(n: nat)
      requires Valid() && n <= end - start
      modifies this`start, this`end
      ensures Valid() && Window(buffer[..], start, end) == old(Window(buffer[..], start, end))[n..]
      ensures end - start == old(end - start) - n
    {
      hide Window, Deflate.Lawful;
      WindowHead(buffer[..], start, end, n);
      start := start + n;
      if start == end {
        EmptyWindow(buffer[..], start, 0);
        start, end := 0, 0;
      } else if start >= BUFFER_SIZE {
        WindowTurns(buffer[..], start, end);
        start := start - BUFFER_SIZE;
        end := end - BUFFER_SIZE;
      }
    }

    /**
     psync_deflate_read: what is handed out continues what was handed out before, and nothing is
     pending any more when it reports that there is no data.
     */
    method Read(len: nat) returns (r: int, data: Bytes)
      requires Valid() && (start == end && flushBuff == null && moreData ==> len > 0)
      modifies this`stream, this`start, this`end, this`moreData, this`streamEnd, this`flushBuff, this`flushOff, this`emitted, this`asked, this`delivered
      ensures Valid() && (flushBuff == null || flushBuff == old(flushBuff))
      ensures old(emitted) <= emitted && delivered == old(delivered) + data && |data| <= len
      ensures r == |data| || (data == [] && r in {NODATA, ERROR})
      ensures old(Intact()) && r != ERROR ==> Intact()
      ensures r == NODATA || (r == EOF && len > 0) ==> Pending() == []
      ensures old(start == end && flushBuff == null && !moreData) ==> r == if streamEnd then EOF else NODATA
      ensures old(asked) <= asked && (streamEnd <==> old(streamEnd) || EndedSince(old(asked), asked))
    {
      hide Window, EndedSince, Deflate.Lawful;
      AskedNothing(asked, NoFlush);
      ghost var ring, over := Window(buffer[..], start, end), Overflow();
      if start == end {
        EmptyWindow(buffer[..], start, start);
        if flushBuff != null {
          r, data := ReadOverflow(len);
          assert [] + Overflow() == Overflow();
        } else if moreData {
          r, data := ReadDirect(len);
        } else {
          r, data := if streamEnd then EOF else NODATA, [];
        }
        Fifo(old(emitted), old(delivered), ring, over, data, [], Overflow());
      } else {
        r, data := ReadRing(len);
        Fifo(old(emitted), old(delivered), ring, over, data, Window(buffer[..], start, end), over);
      }
    }
  }

  /** What the results of a run's writes say was taken, in order. */
  function Accepted(ops: seq<Op>, results: seq<int>): (r: Bytes)
    requires |results| <= |ops|
  {
    if results == [] then [] else
      var n := |results| - 1;
      Accepted(ops, results[..n]) +
      if ops[n].Write? && 0 <= results[n] <= |ops[n].data| then ops[n].data[..results[n]] else []
  }

  lemma AcceptedNothing(ops: seq<Op>)
    ensures Accepted(ops, []) == []
  {
  }

  lemma AcceptedMore(ops: seq<Op>, results: seq<int>, r: int)
    requires |results| < |ops|
    ensures Accepted(ops, results + [r]) ==
            Accepted(ops, results) + if ops[|results|].Write? && 0 <= r <= |ops[|results|].data| then ops[|results|].data[..r] else []
  {
    assert (results + [r])[..|results|] == results;
  }

  /**
   Any interleaving of writes and reads: as long as no call reports an error, what was read, the ring
   and the overflow are what the compressor put out, and it was given exactly what the writes report.
   */
  method Run<Z(!new)>(d: Deflate<Z>, ops: seq<Op>) returns (results: seq<int>, got: Bytes)
    requires d.Valid() && d.Intact()
    requires forall i :: 0 <= i < |ops| ==> if ops[i].Write? then ops[i].flush != FlushEnd else ops[i].len > 0
    modifies d, d.buffer
    ensures d.Valid() && |results| <= |ops| && (|results| < |ops| ==> results != [] && results[|results| - 1] == ERROR)
    ensures d.delivered == old(d.delivered) + got
    ensures ERROR !in results ==> d.Intact() && d.emitted == old(d.delivered) + got + d.Pending()
    ensures ERROR !in results ==> d.taken == old(d.taken) + Accepted(ops, results)
  {
    hide Window, Honest, Offsets, Accepted, Deflate.Lawful, Deflate.Pending;
    AcceptedNothing(ops);
    results, got := [], [];
    var i := 0;
    while i < |ops|
      invariant 0 <= i == |results| <= |ops| && ERROR !in results
      invariant d.Valid() && d.Intact() && (d.flushBuff != null ==> d.flushBuff == old(d.flushBuff) || fresh(d.flushBuff))
      invariant d.delivered == old(d.delivered) + got
      invariant d.taken == old(d.taken) + Accepted(ops, results)
    {
      var r, data := 0, [];
      match ops[i] {
        case Write(buf, flush) => r := d.Write(buf, flush);
        case Read(len) => r, data := d.Read(len);
      }
      AcceptedMore(ops, results, r);
      got, results, i := got + data, results + [r], i + 1;
      if r == ERROR {
        return;
      }
    }
  }

  /** New bytes go behind what is pending in the ring, and then into the overflow. */
  lemma FifoMore(emitted: Bytes, delivered: Bytes, ring: Bytes, out: Bytes, over: Bytes)
    ensures emitted == delivered + (ring + []) ==> (emitted + out) + over == delivered + ((ring + out) + over)
  {
    assert ring + [] == ring;
    assert (delivered + ring + out) + over == delivered + ((ring + out) + over);
  }

  /** Moving bytes from the head of what is pending to the end of what is delivered. */
  lemma Fifo(emitted: Bytes, delivered: Bytes, ring: Bytes, over: Bytes, data: Bytes, ring': Bytes, over': Bytes)
    ensures (emitted == delivered + (ring + over)) && ring + over == data + (ring' + over')
            ==> emitted == (delivered + data) + (ring' + over')
  {
    assert delivered + (data + (ring' + over')) == (delivered + data) + (ring' + over');
  }

  lemma TookMeans(input: Bytes, rest: Bytes, before: Bytes, after: Bytes)
    requires Took(input, rest, before, after)
    ensures |rest| <= |input| && after == before + input[..|input| - |rest|]
  {
  }

  lemma EmptyWindow(b: Bytes, at: nat, at': nat)
    requires |b| == BUFFER_SIZE
    ensures Window(b, at, at) == Window(b, at', at') == []
  {
  }

  method Realloc(b: array<Byte>, size: nat) returns (r: array<Byte>)
    requires size >= b.Length
    ensures fresh(r) && r.Length == size && r[..b.Length] == b[..]
  {
    r := new Byte[size];
    Store(r, 0, b[..]);
    assert r[0..b.Length] == r[..b.Length];
  }
}
