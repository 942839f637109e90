/** The framed connection of com/buffconn/buffconn.go. */
module BuffConns {
  import opened Bytes
  import opened Stores
  import opened Messages

  const WRITE_BUFFER_SIZE := 1450
  const READ_BUFFER_SIZE := 2048
  const COMPACT_LIMIT := 1400

  // ---------------------------------------------------------------- writing

  /** The front of a buffer after a write behind `at`. */
  lemma WrittenPrefix(f0: bytes, f1: bytes, at: nat, s: bytes)
    requires at + |s| <= |f0| && f1 == f0[..at] + s + f0[at + |s|..]
    ensures |f1| == |f0| && f1[..at + |s|] == f0[..at] + s
  {
  }

  lemma Associate(a: bytes, b: bytes, c: bytes)
    ensures a + (b + c) == (a + b) + c
  {
  }

  class Writer {
    const writeBuffer: array<byte>
    var writeIndex: nat
    var buffering: bool
    /** The bytes handed to the TCP connection so far. */
    var wire: bytes
    ghost var written: seq<Message>

    /** Sent bytes and buffered bytes together are the frames of all messages, in order. */
    ghost predicate Valid()
      reads this, writeBuffer
    {
      && writeBuffer.Length == WRITE_BUFFER_SIZE
      && writeIndex <= WRITE_BUFFER_SIZE
      && wire + writeBuffer[..writeIndex] == Frames(written)
    }

    constructor ()
      ensures Valid() && fresh(writeBuffer) && written == [] && buffering && wire == []
    {
      writeBuffer := new byte[WRITE_BUFFER_SIZE](_ => 0);
      writeIndex, buffering, wire, written := 0, true, [], [];
    }

    /** The kernel may take any non-empty part of the rest at a time. */
    method TcpWrite(buffer: bytes)
      modifies `wire
      ensures wire == old(wire) + buffer
    {
      var rest := buffer;
      while |rest| > 0
        invariant wire + rest == old(wire) + buffer
        decreases |rest|
      {
        var n :| 1 <= n <= |rest|;
        assert rest == rest[..n] + rest[n..];
        wire := wire + rest[..n];
        rest := rest[n..];
      }
    }

    /** The ticker, and the end of an unbuffered write. */
    method Flush()
      requires Valid()
      modifies `wire, `writeIndex
      ensures Valid() && writeIndex == 0 && wire == Frames(written)
    {
      TcpWrite(writeBuffer[..writeIndex]);
      writeIndex := 0;
    }

    /** Append a message that fits behind the buffered bytes. */
    method Buffer(m: Message) returns (msgSize: nat, tooLong: bool)
      requires Valid()
      modifies writeBuffer, `written, `writeIndex
      ensures Valid() && msgSize == FrameSize(m)
      ensures tooLong <==> old(writeIndex) + msgSize > WRITE_BUFFER_SIZE
      ensures written == if tooLong then old(written) else old(written) + [m]
      ensures writeIndex == old(writeIndex) + if tooLong then 0 else msgSize
    {
      ghost var f0 := writeBuffer[..];
      msgSize, tooLong := Marshal(m, writeBuffer, writeIndex);
      if !tooLong {
        FramesSnoc(written, m);
        WrittenPrefix(f0, writeBuffer[..], writeIndex, Frame(m));
        Associate(wire, f0[..writeIndex], Frame(m));
        writeIndex := writeIndex + msgSize;
        written := written + [m];
      }
    }

    method Write(m: Message)
      requires Valid() && Sendable(m)
      modifies this, writeBuffer
      ensures Valid() && written == old(written) + [m]
      ensures buffering ==
        if m.typ == OP_SET_BUFFERED then true else if m.typ == OP_SET_NO_DELAY then false else old(buffering)
      ensures !buffering ==> writeIndex == 0 && wire == Frames(written)
      ensures buffering && old(writeIndex) + FrameSize(m) <= WRITE_BUFFER_SIZE ==>
        wire == old(wire) && writeIndex == old(writeIndex) + FrameSize(m)
      ensures buffering && FrameSize(m) <= WRITE_BUFFER_SIZE < old(writeIndex) + FrameSize(m) ==>
        wire == Frames(old(written)) && writeIndex == FrameSize(m)
    {
      if m.typ == OP_SET_BUFFERED {
        buffering := true;
      } else if m.typ == OP_SET_NO_DELAY {
        buffering := false;
      }
      var msgSize, tooLong := Buffer(m);
      if tooLong {
        Flush();
        if msgSize > WRITE_BUFFER_SIZE {
          SendBig(m, msgSize);
          return;
        }
        var _, again := Buffer(m);
      }
      if !buffering {
        Flush();
      }
    }

    /** A message in a buffer of its own size. */
    method BigFrame(m: Message, msgSize: nat) returns (f: bytes)
      requires msgSize == FrameSize(m)
      ensures f == Frame(m)
    {
      var bigMsg := new byte[msgSize](_ => 0);
      var _, tooLong := Marshal(m, bigMsg, 0);
      f := bigMsg[..];
    }

    /** A message that no buffer can hold is sent on its own. */
    method SendBig(m: Message, msgSize: nat)
      requires Valid() && writeIndex == 0 && msgSize == FrameSize(m)
      modifies `wire, `written
      ensures Valid() && written == old(written) + [m] && wire == Frames(written)
    {
      assert wire == Frames(written);
      FramesSnoc(written, m);
      var bigMsg := BigFrame(m, msgSize);
      TcpWrite(bigMsg);
      written := written + [m];
    }
  }

  /** The last message that sets the mode is of type 106, no delay. */
  ghost predicate Unbuffered(ms: seq<Message>) {
    exists k :: 0 <= k < |ms| && ms[k].typ == 106 && forall j :: k < j < |ms| ==> ms[j].typ != 105
  }

  lemma ModeStep(ms: seq<Message>, i: nat)
    requires i < |ms|
    ensures Unbuffered(ms[..i + 1]) <==> ms[i].typ == 106 || (Unbuffered(ms[..i]) && ms[i].typ != 105)
  {
    var a, b := ms[..i], ms[..i + 1];
    assert forall j :: 0 <= j < i ==> a[j] == b[j];
    assert b[i] == ms[i];
    if Unbuffered(a) && ms[i].typ != 105 {
      var k :| 0 <= k < |a| && a[k].typ == 106 && forall j :: k < j < |a| ==> a[j].typ != 105;
      assert b[k].typ == 106;
    }
    if Unbuffered(b) && ms[i].typ != 106 {
      var k :| 0 <= k < |b| && b[k].typ == 106 && forall j :: k < j < |b| ==> b[j].typ != 105;
      assert a[k].typ == 106;
    }
  }

  /** Messages of any list go out at once without delay, and wait in the buffer while they fit it. */
  method WriteAll(ms: seq<Message>) returns (w: Writer)
    requires AllSendable(ms)
    ensures w.Valid() && w.written == ms
    ensures Unbuffered(ms) ==> w.wire == Frames(ms)
    ensures |Frames(ms)| <= 1450 && (forall i :: 0 <= i < |ms| ==> ms[i].typ != 106) ==> w.wire == []
  {
    w := new Writer();
    for i := 0 to |ms|
      invariant fresh(w) && fresh(w.writeBuffer) && w.Valid() && w.written == ms[..i]
      invariant w.buffering <==> !Unbuffered(ms[..i])
      invariant Unbuffered(ms[..i]) ==> w.wire == Frames(ms[..i])
      invariant (forall j :: 0 <= j < i ==> ms[j].typ != 106) && |Frames(ms[..i])| <= 1450 ==> w.wire == []
    {
      ModeStep(ms, i);
      FramesSnoc(ms[..i], ms[i]);
      assert ms[..i + 1] == ms[..i] + [ms[i]];
      w.Write(ms[i]);
    }
    assert ms[..|ms|] == ms;
  }

  // ---------------------------------------------------------------- reading

  datatype Outcome =
    | Received(msg: Message)
    | Closed   // the peer closed the connection
    | Stuck    // the read loop spins on an empty slice of the buffer

  datatype HeaderState = HeaderRead | HeaderClosed | HeaderStuck

  /** A slice cut in two. */
  lemma CutSlice(f: bytes, a: nat, b: nat, n: nat)
    requires a + n <= b <= |f|
    ensures f[a..b][..n] == f[a..a + n] && f[a..b][n..] == f[a + n..b]
  {
  }

  class Reader {
    const readBuffer: array<byte>
    var readStart: nat
    var readEnd: nat
    /** The bytes that TCP has yet to deliver before the peer closes. */
    var incoming: bytes

    ghost predicate Valid()
      reads this, readBuffer
    {
      readBuffer.Length == READ_BUFFER_SIZE && readStart <= readEnd <= READ_BUFFER_SIZE
    }

    /** Everything still to be decoded. */
    ghost function Pending(): bytes
      requires Valid()
      reads this, readBuffer
    {
      readBuffer[readStart..readEnd] + incoming
    }

    constructor (stream: bytes)
      ensures Valid() && fresh(readBuffer) && readStart == 0 && Pending() == stream
    {
      readBuffer := new byte[READ_BUFFER_SIZE](_ => 0);
      readStart, readEnd, incoming := 0, 0, stream;
    }

    /** One TCP read into the free end of the buffer: some bytes, or the end of the stream. */
    method Fill() returns (closed: bool)
      requires Valid() && readEnd < READ_BUFFER_SIZE
      modifies `readEnd, `incoming, readBuffer
      ensures Valid() && Pending() == old(Pending())
      ensures closed <==> old(incoming) == []
      ensures closed ==> readEnd == old(readEnd) && incoming == []
      ensures !closed ==> old(readEnd) < readEnd && |incoming| < |old(incoming)|
    {
      if |incoming| == 0 {
        return true;
      }
      var n :| 1 <= n <= |incoming| && n <= READ_BUFFER_SIZE - readEnd;
      ghost var before, all := readBuffer[readStart..readEnd], incoming;
      CopyInto(readBuffer, readEnd, incoming[..n]);
      readEnd, incoming := readEnd + n, incoming[n..];
      assert readBuffer[readStart..readEnd] == before + all[..n];
      assert all == all[..n] + all[n..];
      return false;
    }

    /** Read until the buffer holds `want` bytes of the current message. */
    method FillTo(want: nat) returns (closed: bool)
      requires Valid() && readStart + want <= READ_BUFFER_SIZE
      modifies `readEnd, `incoming, readBuffer
      ensures Valid() && Pending() == old(Pending())
      ensures closed <==> |old(Pending())| < want
      ensures !closed ==> readEnd - readStart >= want
    {
      while readEnd - readStart < want
        invariant Valid() && Pending() == old(Pending())
        decreases |incoming|
      {
        closed := Fill();
        if closed {
          return;
        }
      }
      return false;
    }

    /** A message that does not fit between readStart and the end of the buffer. */
    method ReadBig(messageSize: nat) returns (closed: bool, frame: bytes)
      requires Valid() && messageSize > READ_BUFFER_SIZE - readStart
      modifies `readStart, `readEnd, `incoming
      ensures Valid()
      ensures closed <==> |old(Pending())| < messageSize
      ensures !closed ==> frame == old(Pending())[..messageSize] && Pending() == old(Pending())[messageSize..]
      ensures !closed ==> readStart == 0
    {
      ghost var all := Pending();
      frame := readBuffer[readStart..readEnd];
      while |frame| < messageSize
        invariant frame + incoming == all && |frame| <= messageSize
        invariant readStart == old(readStart) && readEnd == old(readEnd)
        decreases messageSize - |frame|
      {
        if |incoming| == 0 {
          return true, frame;
        }
        var n :| 1 <= n <= |incoming| && n <= messageSize - |frame|;
        assert incoming == incoming[..n] + incoming[n..];
        frame, incoming := frame + incoming[..n], incoming[n..];
      }
      readStart, readEnd := 0, 0;
      assert Pending() == incoming;
      return false, frame;
    }

    /** The bytes read but not yet handed out. */
    ghost function Buffered(): bytes
      requires readStart <= readEnd <= readBuffer.Length
      reads this, readBuffer
    {
      readBuffer[..][readStart..readEnd]
    }

    /** Move the buffered data down when it lies far up. */
    method Compact()
      requires Valid()
      modifies `readStart, `readEnd, readBuffer
      ensures Valid() && readEnd - readStart == old(readEnd - readStart)
      ensures Buffered() == old(Buffered())
      ensures readStart == if old(readStart) > COMPACT_LIMIT then 0 else old(readStart)
    {
      if readStart > COMPACT_LIMIT {
        CopyInto(readBuffer, 0, readBuffer[readStart..readEnd]);
        readEnd := readEnd - readStart;
        readStart := 0;
      }
    }

    /** Hand out a complete message. */
    method TakeSmall(messageSize: nat) returns (frame: bytes)
      requires Valid() && messageSize <= readEnd - readStart
      modifies `readStart, `readEnd, readBuffer
      ensures Valid()
      ensures frame == old(Pending())[..messageSize] && Pending() == old(Pending())[messageSize..]
      ensures readStart == messageSize + if old(readStart) > COMPACT_LIMIT then 0 else old(readStart)
    {
      ghost var data := Buffered();
      Compact();
      CutSlice(readBuffer[..], readStart, readEnd, messageSize);
      var start := readStart;
      readStart := start + messageSize;
      frame := readBuffer[start..readStart];
      assert frame == data[..messageSize];
      assert readBuffer[readStart..readEnd] == data[messageSize..];
    }

    /** Read at least a header, or notice that the buffer has no room for one. */
    method ReadHeader() returns (h: HeaderState)
      requires Valid()
      modifies `readEnd, `incoming, readBuffer
      ensures Valid() && Pending() == old(Pending())
      ensures h.HeaderStuck? ==> Wedged(readStart) && |Pending()| >= READ_BUFFER_SIZE - readStart
      ensures h.HeaderClosed? ==> |Pending()| < MINIMUM_MESSAGE_SIZE && |Pending()| < READ_BUFFER_SIZE - readStart
      ensures h.HeaderRead? ==> !Wedged(readStart) && readEnd - readStart >= MINIMUM_MESSAGE_SIZE
    {
      while readEnd - readStart < MINIMUM_MESSAGE_SIZE
        invariant Valid() && Pending() == old(Pending())
        decreases |incoming|
      {
        if readEnd == READ_BUFFER_SIZE {
          return HeaderStuck;
        }
        var closed := Fill();
        if closed {
          return HeaderClosed;
        }
      }
      return HeaderRead;
    }

    /**
      Read one message of a stream of frames, however TCP cuts the stream. It is the next
      message that was written, unless the buffer position leaves no room for a header.
     */
    method Read(ghost ms: seq<Message>) returns (o: Outcome)
      requires Valid() && AllSendable(ms) && Pending() == Frames(ms)
      modifies this, readBuffer
      ensures Valid()
      ensures o.Stuck? <==> Wedged(old(readStart)) && (ms != [] || old(readStart) == READ_BUFFER_SIZE)
      ensures o.Closed? <==> ms == [] && old(readStart) < READ_BUFFER_SIZE
      ensures o.Received? ==>
        && ms != [] && o.msg == ms[0] && Pending() == Frames(ms[1..])
        && readStart == NextStart(old(readStart), FrameSize(ms[0]))
    {
      if ms != [] {
        FirstFrame(ms, Pending());
      }
      var h := ReadHeader();
      if !h.HeaderRead? {
        return if h.HeaderStuck? then Stuck else Closed;
      }
      var sizeWord := readBuffer[readStart..readStart + 4];
      assert sizeWord == Pending()[..4];
      var messageSize := UnLE32(sizeWord);
      var frame;
      if messageSize > READ_BUFFER_SIZE - readStart {
        var closed;
        closed, frame := ReadBig(messageSize);
      } else {
        var closed := FillTo(messageSize);
        frame := TakeSmall(messageSize);
      }
      return Received(Unmarshal(frame));
    }
  }

  /** From this position on the buffer has no room for a message header. */
  predicate Wedged(start: nat) {
    start + MINIMUM_MESSAGE_SIZE > READ_BUFFER_SIZE
  }

  /** Where the buffer position moves when a message of the given size is read. */
  function NextStart(start: nat, size: nat): nat {
    if size + start > READ_BUFFER_SIZE then 0
    else if start > COMPACT_LIMIT then size
    else start + size
  }

  /** How many messages are delivered before the reader gets stuck; the cuts do not matter. */
  function Deliverable(start: nat, ms: seq<Message>): (n: nat)
    ensures n <= |ms|
    decreases |ms|
  {
    if ms == [] || Wedged(start) then 0
    else 1 + Deliverable(NextStart(start, FrameSize(ms[0])), ms[1..])
  }

  /** Messages of at most 635 bytes are all delivered. */
  lemma {:induction false} SmallMessagesDelivered(start: nat, ms: seq<Message>)
    requires !Wedged(start)
    requires forall i :: 0 <= i < |ms| ==> FrameSize(ms[i]) <= 635
    ensures Deliverable(start, ms) == |ms|
    decreases |ms|
  {
    if ms != [] {
      SmallMessagesDelivered(NextStart(start, FrameSize(ms[0])), ms[1..]);
    }
  }

  /** A first message of 2036 to 2048 bytes is the last one to be delivered. */
  lemma FullBufferMessageIsLast(m: Message, ms: seq<Message>)
    requires 2036 <= FrameSize(m) <= 2048
    ensures Deliverable(0, [m] + ms) == 1
  {
    assert ([m] + ms)[1..] == ms;
    assert Deliverable(NextStart(0, FrameSize(m)), ms) == 0;
  }

  /** The bound of 635 bytes is sharp: after 1400 bytes, 636 more leave no room for a header. */
  lemma SmallBoundIsSharp(a: Message, b: Message, ms: seq<Message>)
    requires FrameSize(a) == 1400 && FrameSize(b) == 636
    ensures Deliverable(0, [a, b] + ms) == 2
  {
    var all := [a, b] + ms;
    assert all[1..] == [b] + ms && ([b] + ms)[1..] == ms;
    assert Deliverable(2036, ms) == 0;
    assert Deliverable(1400, [b] + ms) == 1;
  }

  /** Read until the connection is closed or the reader is stuck. */
  method ReadAll(r: Reader, ghost ms: seq<Message>) returns (got: seq<Message>, last: Outcome)
    requires r.Valid() && AllSendable(ms) && r.Pending() == Frames(ms)
    modifies r, r.readBuffer
    ensures got == ms[..Deliverable(old(r.readStart), ms)]
    ensures !last.Received? && (|got| < |ms| ==> last.Stuck?)
  {
    got := [];
    ghost var n, total := 0, Deliverable(r.readStart, ms);
    while true
      invariant r.Valid() && n <= |ms| && r.Pending() == Frames(ms[n..])
      invariant got == ms[..n] && total == n + Deliverable(r.readStart, ms[n..])
      decreases |ms| - n
    {
      last := r.Read(ms[n..]);
      if !last.Received? {
        return;
      }
      assert ms[n..][1..] == ms[n + 1..];
      got := got + [last.msg];
      n := n + 1;
    }
  }

  /**
    End to end: whatever the ticker flushes between the writes and however TCP cuts the
    bytes, the k-th message read is the k-th message written.
   */
  method Transfer(ms: seq<Message>, ticks: seq<bool>) returns (got: seq<Message>)
    requires AllSendable(ms) && |ticks| == |ms|
    ensures got == ms[..Deliverable(0, ms)]
  {
    var w := new Writer();
    for i := 0 to |ms|
      invariant fresh(w) && fresh(w.writeBuffer) && w.Valid() && w.written == ms[..i]
    {
      w.Write(ms[i]);
      if ticks[i] {
        w.Flush();
      }
    }
    w.Flush();
    assert ms[..|ms|] == ms;
    var r := new Reader(w.wire);
    var last;
    got, last := ReadAll(r, ms);
  }
}
