/**
 * The byte streams of a peer connection. Receiving: messages are assembled from
 * chunks of any size, and come out as if the bytes had arrived one by one.
 * Sending: buffers are queued and written to a socket that may accept any part
 * of them, and the bytes it accepted are always a prefix of what was queued.
 */
module Wire {
  import opened Common

  newtype byte = x: int | 0 <= x < 256

  const HEADER_SIZE: int := 24
  const MAX_PROTOCOL_MESSAGE_LENGTH: int := 8_000_000

  /** The message size in a header: four bytes, the lowest first. */
  function SizeOf(header: seq<byte>): nat
    requires |header| == HEADER_SIZE
  {
    header[16] as int + 0x100 * header[17] as int + 0x1_0000 * header[18] as int + 0x100_0000 * header[19] as int
  }

  // Receiving, one byte at a time.

  datatype Message = Reading(header: seq<byte>) | Body(header: seq<byte>, size: nat, data: seq<byte>)

  predicate Complete(m: Message) {
    m.Body? && |m.data| == m.size
  }

  /** One more byte of a message that is not complete; `None` is a failure. */
  function Take(m: Message, b: byte): Option<Message> {
    match m
    case Reading(header) =>
      var h := header + [b];
      if |h| != HEADER_SIZE then Some(Reading(h))
      else if SizeOf(h) > MAX_SIZE || SizeOf(h) > MAX_PROTOCOL_MESSAGE_LENGTH then None
      else Some(Body(h, SizeOf(h), []))
    case Body(h, size, data) => Some(Body(h, size, data + [b]))
  }

  /** The last message, or a new one if there is none or it is complete. */
  function Started(ms: seq<Message>): (r: seq<Message>)
    ensures r != [] && !Complete(r[|r| - 1])
  {
    if ms == [] || Complete(ms[|ms| - 1]) then ms + [Reading([])] else ms
  }

  function TakeByte(ms: seq<Message>, b: byte): Option<seq<Message>> {
    var s := Started(ms);
    var n := |s| - 1;
    match Take(s[n], b)
    case None => None
    case Some(m) => Some(s[n := m])
  }

  /** What a run of bytes makes of the messages so far. */
  function TakeBytes(ms: seq<Message>, bytes: seq<byte>): Option<seq<Message>>
    decreases |bytes|
  {
    if bytes == [] then Some(ms)
    else
      match TakeByte(ms, bytes[0])
      case None => None
      case Some(r) => TakeBytes(r, bytes[1..])
  }

  /** Chunks do not matter. */
  lemma {:induction false} TakeBytesSplit(ms: seq<Message>, a: seq<byte>, b: seq<byte>)
    ensures TakeBytes(ms, a + b) ==
      match TakeBytes(ms, a)
      case None => None
      case Some(r) => TakeBytes(r, b)
    decreases |a|
  {
    if a == [] {
      assert a + b == b;
    } else {
      assert (a + b)[1..] == a[1..] + b;
      match TakeByte(ms, a[0]) {
        case None =>
        case Some(r) => TakeBytesSplit(r, a[1..], b);
      }
    }
  }

  // Receiving, in chunks.

  /** A message being received: fixed header buffer, payload buffer that grows ahead. */
  datatype Incoming = Incoming(inData: bool, hdr: seq<byte>, hdrPos: nat, size: nat, recv: seq<byte>, dataPos: nat)

  const FRESH: Incoming := Incoming(false, seq(HEADER_SIZE, _ => 0), 0, 0, [], 0)

  predicate Fits(m: Incoming) {
    && |m.hdr| == HEADER_SIZE && m.hdrPos <= HEADER_SIZE
    && (!m.inData ==> m.hdrPos < HEADER_SIZE && m.recv == [] && m.dataPos == 0)
    && (m.inData ==> m.hdrPos == HEADER_SIZE && m.dataPos <= |m.recv| <= m.size && m.size == SizeOf(m.hdr))
  }

  /** What has arrived of a message. */
  function View(m: Incoming): Message
    requires Fits(m)
  {
    if m.inData then Body(m.hdr, m.size, m.recv[..m.dataPos]) else Reading(m.hdr[..m.hdrPos])
  }

  predicate IsComplete(m: Incoming) {
    m.inData && m.size == m.dataPos
  }

  /** A complete message has exactly its payload in the buffer. */
  lemma CompletePayload(m: Incoming)
    requires Fits(m) && IsComplete(m)
    ensures Complete(View(m)) && View(m).data == m.recv
  {
  }

  function Overwritten(s: seq<byte>, at: nat, bytes: seq<byte>): (r: seq<byte>)
    requires at + |bytes| <= |s|
    ensures |r| == |s| && r[..at] == s[..at] && r[at..at + |bytes|] == bytes
  {
    s[..at] + bytes + s[at + |bytes|..]
  }

  /** Absorbs header bytes; a negative count is a failure. */
  method ReadHeader(m: Incoming, bytes: seq<byte>) returns (m': Incoming, handled: int)
    requires Fits(m) && !m.inData && bytes != []
    ensures -1 <= handled <= |bytes|
    ensures handled == -1 ==>
      && m.hdrPos + |bytes| >= HEADER_SIZE
      && SizeOf(m.hdr[..m.hdrPos] + bytes[..HEADER_SIZE - m.hdrPos]) > MAX_SIZE
    ensures handled >= 0 ==>
      && handled == Min(HEADER_SIZE - m.hdrPos, |bytes|) && handled > 0
      && Fits(m') && (m'.inData <==> m.hdrPos + handled == HEADER_SIZE)
      && (m'.inData ==>
            var header := m.hdr[..m.hdrPos] + bytes[..handled];
            View(m') == Body(header, SizeOf(header), []))
      && (m'.inData ==> m'.size <= MAX_SIZE)
      && (!m'.inData ==> View(m') == Reading(m.hdr[..m.hdrPos] + bytes[..handled]))
  {
    var copy := Min(HEADER_SIZE - m.hdrPos, |bytes|);
    var hdr := Overwritten(m.hdr, m.hdrPos, bytes[..copy]);
    assert hdr[..m.hdrPos + copy] == m.hdr[..m.hdrPos] + bytes[..copy];
    m' := m.(hdr := hdr, hdrPos := m.hdrPos + copy);
    handled := copy;
    if m'.hdrPos < HEADER_SIZE {
      return;
    }
    assert hdr[..HEADER_SIZE] == hdr;
    if SizeOf(hdr) > MAX_SIZE {
      return m', -1;
    }
    m' := m'.(inData := true, size := SizeOf(hdr));
  }

  /** Absorbs payload bytes; the buffer is enlarged by up to 256 KiB ahead. */
  method ReadData(m: Incoming, bytes: seq<byte>) returns (m': Incoming, handled: int)
    requires Fits(m) && m.inData && !IsComplete(m) && bytes != []
    ensures handled == Min(m.size - m.dataPos, |bytes|) && 0 < handled <= |bytes|
    ensures Fits(m') && m'.inData && View(m') == Body(m.hdr, m.size, m.recv[..m.dataPos] + bytes[..handled])
  {
    handled := Min(m.size - m.dataPos, |bytes|);
    var recv := m.recv;
    if |recv| < m.dataPos + handled {
      var n := Min(m.size, m.dataPos + handled + 256 * 1024);
      recv := recv + seq(n - |recv|, _ => 0);
    }
    assert recv[..m.dataPos] == m.recv[..m.dataPos];
    recv := Overwritten(recv, m.dataPos, bytes[..handled]);
    assert recv[..m.dataPos + handled] == m.recv[..m.dataPos] + bytes[..handled];
    m' := m.(recv := recv, dataPos := m.dataPos + handled);
  }

  // A chunk that stays within one part of a message acts like its bytes one by one.

  lemma {:induction false} HeaderChunk(ms: seq<Message>, header: seq<byte>, bytes: seq<byte>)
    requires ms != [] && ms[|ms| - 1] == Reading(header) && |header| + |bytes| < HEADER_SIZE
    ensures TakeBytes(ms, bytes) == Some(ms[|ms| - 1 := Reading(header + bytes)])
    decreases |bytes|
  {
    var n := |ms| - 1;
    if bytes == [] {
      assert header + bytes == header && ms[n := Reading(header)] == ms;
    } else {
      var next := ms[n := Reading(header + [bytes[0]])];
      HeaderChunk(next, header + [bytes[0]], bytes[1..]);
      assert header + [bytes[0]] + bytes[1..] == header + bytes;
      assert next[n := Reading(header + bytes)] == ms[n := Reading(header + bytes)];
    }
  }

  lemma HeaderEnd(ms: seq<Message>, header: seq<byte>, bytes: seq<byte>)
    requires ms != [] && ms[|ms| - 1] == Reading(header) && |header| < HEADER_SIZE == |header| + |bytes|
    ensures var size := SizeOf(header + bytes);
      TakeBytes(ms, bytes) ==
        if size > MAX_SIZE || size > MAX_PROTOCOL_MESSAGE_LENGTH then None
        else Some(ms[|ms| - 1 := Body(header + bytes, size, [])])
  {
    var k, n := |bytes| - 1, |ms| - 1;
    assert bytes == bytes[..k] + [bytes[k]];
    HeaderChunk(ms, header, bytes[..k]);
    TakeBytesSplit(ms, bytes[..k], [bytes[k]]);
    assert header + bytes[..k] + [bytes[k]] == header + bytes;
    var m := ms[n := Reading(header + bytes[..k])];
    hide TakeBytes, SizeOf;
    TakeOne(m, bytes[k]);
    LastOfHeader(m, header + bytes[..k], bytes[k]);
    var last := Body(header + bytes, SizeOf(header + bytes), []);
    assert m[n := last] == ms[n := last];
  }

  lemma LastOfHeader(ms: seq<Message>, header: seq<byte>, b: byte)
    requires ms != [] && ms[|ms| - 1] == Reading(header) && |header| + 1 == HEADER_SIZE
    ensures var size := SizeOf(header + [b]);
      TakeByte(ms, b) ==
        if size > MAX_SIZE || size > MAX_PROTOCOL_MESSAGE_LENGTH then None
        else Some(ms[|ms| - 1 := Body(header + [b], size, [])])
  {
    hide SizeOf;
  }

  lemma TakeOne(ms: seq<Message>, b: byte)
    ensures TakeBytes(ms, [b]) == TakeByte(ms, b)
  {
    assert [b][1..] == [];
    match TakeByte(ms, b) {
      case None =>
      case Some(r) => assert TakeBytes(r, []) == Some(r);
    }
  }

  lemma {:induction false} DataChunk(ms: seq<Message>, m: Message, bytes: seq<byte>)
    requires ms != [] && ms[|ms| - 1] == m && m.Body? && |m.data| + |bytes| <= m.size
    ensures TakeBytes(ms, bytes) == Some(ms[|ms| - 1 := m.(data := m.data + bytes)])
    decreases |bytes|
  {
    var n := |ms| - 1;
    if bytes == [] {
      assert m.data + bytes == m.data && ms[n := m] == ms;
    } else {
      var m' := m.(data := m.data + [bytes[0]]);
      DataChunk(ms[n := m'], m', bytes[1..]);
      assert m'.data + bytes[1..] == m.data + bytes;
      assert ms[n := m'][n := m.(data := m.data + bytes)] == ms[n := m.(data := m.data + bytes)];
    }
  }

  ghost predicate AllFit(ms: seq<Incoming>) {
    forall i :: 0 <= i < |ms| ==> Fits(ms[i]) && (ms[i].inData ==> ms[i].size <= MAX_PROTOCOL_MESSAGE_LENGTH)
  }

  ghost function Views(ms: seq<Incoming>): (r: seq<Message>)
    requires AllFit(ms)
    ensures |r| == |ms| && forall i :: 0 <= i < |ms| ==> r[i] == View(ms[i])
  {
    seq(|ms|, i requires 0 <= i < |ms| => View(ms[i]))
  }

  lemma ViewsUpdate(ms: seq<Incoming>, n: nat, m: Incoming)
    requires AllFit(ms) && n < |ms| && Fits(m) && (m.inData ==> m.size <= MAX_PROTOCOL_MESSAGE_LENGTH)
    ensures AllFit(ms[n := m]) && Views(ms[n := m]) == Views(ms)[n := View(m)]
  {
  }

  lemma FreshView()
    ensures Fits(FRESH) && !FRESH.inData && View(FRESH) == Reading([]) && !IsComplete(FRESH)
  {
    assert FRESH.hdr[..0] == [];
  }

  lemma CompleteView(m: Incoming)
    requires Fits(m)
    ensures Complete(View(m)) <==> IsComplete(m)
  {
  }

  /** How many of the messages are complete; only the last may not be. */
  function Finished(ms: seq<Message>): int {
    if ms == [] || Complete(ms[|ms| - 1]) then |ms| else |ms| - 1
  }

  lemma FinishedStarted(ms: seq<Message>)
    ensures Finished(ms) == |Started(ms)| - 1
  {
  }

  class Receiver {
    var msgs: seq<Incoming>

    constructor ()
      ensures msgs == []
    {
      msgs := [];
    }

    /** Makes sure that the last message can take a byte. */
    method Start()
      requires AllFit(msgs)
      modifies this
      ensures AllFit(msgs) && msgs != [] && !IsComplete(msgs[|msgs| - 1])
      ensures Views(msgs) == Started(Views(old(msgs)))
    {
      hide View, IsComplete, Complete, Fits;
      if msgs != [] {
        CompleteView(msgs[|msgs| - 1]);
      }
      FreshView();
      if msgs == [] || IsComplete(msgs[|msgs| - 1]) {
        msgs := msgs + [FRESH];
      }
    }

    /** One round of the loop: absorbs what the current message can take of a chunk. */
    method Absorb(bytes: seq<byte>) returns (handled: int, complete: bool)
      requires AllFit(msgs) && bytes != []
      modifies this
      ensures -1 <= handled <= |bytes| && handled != 0
      ensures handled == -1 ==> exists k :: 0 < k <= |bytes| && TakeBytes(Views(old(msgs)), bytes[..k]) == None
      ensures handled > 0 ==>
        && AllFit(msgs) && TakeBytes(Views(old(msgs)), bytes[..handled]) == Some(Views(msgs))
        && Finished(Views(msgs)) == Finished(Views(old(msgs))) + (if complete then 1 else 0)
    {
      hide TakeBytes, SizeOf, Started;
      Start();
      var n := |msgs| - 1;
      ghost var vs := Views(msgs);
      FinishedStarted(Views(old(msgs)));
      var m := msgs[n];
      var m';
      if !m.inData {
        m', handled := ReadHeader(m, bytes);
        ghost var k := Min(HEADER_SIZE - m.hdrPos, |bytes|);
        StartFirst(Views(old(msgs)), bytes[..k]);
        if m.hdrPos + k == HEADER_SIZE {
          HeaderEnd(vs, m.hdr[..m.hdrPos], bytes[..k]);
        } else {
          HeaderChunk(vs, m.hdr[..m.hdrPos], bytes[..k]);
        }
      } else {
        m', handled := ReadData(m, bytes);
        StartFirst(Views(old(msgs)), bytes[..handled]);
        DataChunk(vs, View(m), bytes[..handled]);
      }
      if handled < 0 {
        return -1, false;
      }
      if m'.inData && m'.size > MAX_PROTOCOL_MESSAGE_LENGTH {
        return -1, false;
      }
      ViewsUpdate(msgs, n, m');
      msgs := msgs[n := m'];
      complete := IsComplete(m');
      CompleteView(m');
    }

    /**
     * Receives a chunk. It fails exactly when the bytes do, and otherwise leaves the messages that
     * the bytes make, however they are cut into chunks.
     */
    method ReceiveMsgBytes(chunk: seq<byte>) returns (ok: bool, complete: bool)
      requires AllFit(msgs)
      modifies this
      ensures ok <==> TakeBytes(Views(old(msgs)), chunk).Some?
      ensures ok ==> AllFit(msgs) && Views(msgs) == TakeBytes(Views(old(msgs)), chunk).value
      ensures ok ==> (complete <==> Finished(Views(msgs)) > Finished(Views(old(msgs))))
    {
      hide TakeBytes, Finished;
      complete := false;
      ghost var start := Views(msgs);
      var pos := 0;
      while pos < |chunk|
        invariant 0 <= pos <= |chunk| && AllFit(msgs)
        invariant TakeBytes(start, chunk) == TakeBytes(Views(msgs), chunk[pos..])
        invariant Finished(start) <= Finished(Views(msgs))
        invariant complete <==> Finished(Views(msgs)) > Finished(start)
      {
        ghost var before := Views(msgs);
        var rest := chunk[pos..];
        var handled, done := Absorb(rest);
        if handled < 0 {
          ghost var k :| 0 < k <= |rest| && TakeBytes(before, rest[..k]) == None;
          assert rest[..k] + rest[k..] == rest;
          TakeBytesSplit(before, rest[..k], rest[k..]);
          return false, complete;
        }
        assert rest[..handled] + rest[handled..] == rest && rest[handled..] == chunk[pos + handled..];
        TakeBytesSplit(before, rest[..handled], rest[handled..]);
        pos := pos + handled;
        if done {
          complete := true;
        }
      }
      NoBytes(Views(msgs));
      ok := true;
    }
  }

  lemma NoBytes(ms: seq<Message>)
    ensures TakeBytes(ms, []) == Some(ms)
  {
  }

  lemma StartFirst(ms: seq<Message>, bytes: seq<byte>)
    requires bytes != []
    ensures TakeBytes(Started(ms), bytes) == TakeBytes(ms, bytes)
  {
    assert Started(Started(ms)) == Started(ms);
  }

  /** The bytes of several buffers one after the other. */
  function Joined(buffers: seq<seq<byte>>): seq<byte> {
    if buffers == [] then [] else Joined(buffers[..|buffers| - 1]) + buffers[|buffers| - 1]
  }

  /** Chunk by chunk or all at once: the same messages, and the same failure or none. */
  method ReceiveAll(chunks: seq<seq<byte>>) returns (ok: bool, receiver: Receiver)
    ensures ok <==> TakeBytes([], Joined(chunks)).Some?
    ensures ok ==> AllFit(receiver.msgs) && Views(receiver.msgs) == TakeBytes([], Joined(chunks)).value
  {
    hide TakeBytes;
    receiver := new Receiver();
    NoBytes([]);
    assert Views(receiver.msgs) == [];
    for i := 0 to |chunks|
      invariant AllFit(receiver.msgs) && TakeBytes([], Joined(chunks[..i])) == Some(Views(receiver.msgs))
      invariant fresh(receiver)
    {
      assert chunks[..i + 1][..i] == chunks[..i];
      TakeBytesSplit([], Joined(chunks[..i]), chunks[i]);
      var complete;
      ok, complete := receiver.ReceiveMsgBytes(chunks[i]);
      if !ok {
        JoinedSplit(chunks, i + 1);
        TakeBytesSplit([], Joined(chunks[..i + 1]), Joined(chunks[i + 1..]));
        return;
      }
    }
    assert chunks[..|chunks|] == chunks;
    ok := true;
  }

  lemma {:induction false} JoinedSplit(buffers: seq<seq<byte>>, i: nat)
    requires i <= |buffers|
    ensures Joined(buffers) == Joined(buffers[..i]) + Joined(buffers[i..])
    decreases |buffers|
  {
    var n := |buffers| - 1;
    if i == |buffers| {
      assert buffers[..i] == buffers && buffers[i..] == [];
    } else {
      JoinedSplit(buffers[..n], i);
      assert buffers[..n][..i] == buffers[..i] && buffers[..n][i..] == buffers[i..][..n - i];
    }
  }

  // Sending.

  /** A queue, how much of its first buffer is taken, its size, and the bytes taken and pushed so far. */
  ghost predicate Flow(queue: seq<seq<byte>>, offset: nat, size: int, taken: seq<byte>, pushed: seq<byte>) {
    && (forall i :: 0 <= i < |queue| ==> queue[i] != [])
    && (if queue == [] then offset == 0 else offset < |queue[0]|)
    && size == |Joined(queue)|
    && offset <= |Joined(queue)|
    && taken + Joined(queue)[offset..] == pushed
  }

  lemma CutFront(first: seq<byte>, rest: seq<byte>, offset: nat, n: nat)
    requires offset + n <= |first|
    ensures (first + rest)[offset..] == first[offset..][..n] + (first + rest)[offset + n..]
    ensures offset + n == |first| ==> (first + rest)[offset + n..] == rest
  {
  }

  /** The socket took part of the first buffer. */
  lemma FlowPart(queue: seq<seq<byte>>, offset: nat, size: int, taken: seq<byte>, pushed: seq<byte>, n: nat)
    requires Flow(queue, offset, size, taken, pushed) && queue != [] && offset + n < |queue[0]|
    ensures Flow(queue, offset + n, size, taken + queue[0][offset..][..n], pushed)
  {
    hide Joined;
    JoinedFirst(queue);
    CutFront(queue[0], Joined(queue[1..]), offset, n);
  }

  /** The socket took the rest of the first buffer. */
  lemma FlowWhole(queue: seq<seq<byte>>, offset: nat, size: int, taken: seq<byte>, pushed: seq<byte>)
    requires Flow(queue, offset, size, taken, pushed) && queue != []
    ensures Flow(queue[1..], 0, size - |queue[0]|, taken + queue[0][offset..], pushed)
  {
    hide Joined;
    JoinedFirst(queue);
    var n := |queue[0]| - offset;
    CutFront(queue[0], Joined(queue[1..]), offset, n);
    assert queue[0][offset..][..n] == queue[0][offset..];
    assert Joined(queue[1..])[0..] == Joined(queue[1..]);
  }

  lemma FlowEmpty(offset: nat, size: int, taken: seq<byte>, pushed: seq<byte>)
    requires Flow([], offset, size, taken, pushed)
    ensures offset == 0 && size == 0 && taken == pushed
  {
  }

  lemma FlowFirst(queue: seq<seq<byte>>, offset: nat, size: int, taken: seq<byte>, pushed: seq<byte>)
    requires Flow(queue, offset, size, taken, pushed) && queue != []
    ensures offset < |queue[0]|
  {
  }

  /** Another buffer is queued. */
  lemma FlowMore(queue: seq<seq<byte>>, offset: nat, size: int, taken: seq<byte>, pushed: seq<byte>, data: seq<byte>)
    requires Flow(queue, offset, size, taken, pushed) && data != []
    ensures Flow(queue + [data], offset, size + |data|, taken, pushed + data)
  {
    assert (queue + [data])[..|queue|] == queue;
    assert Joined(queue + [data])[offset..] == Joined(queue)[offset..] + data;
  }

  /** An answer of the socket: how many bytes it takes, or a negative number and whether that is for good. */
  datatype Answer = Answer(n: int, fatal: bool)

  method Send(data: seq<byte>) returns (a: Answer)
    ensures a.n <= |data|
  {
    var n :| n <= |data|;
    var fatal :| true;
    return Answer(n, fatal);
  }

  /** A header and the payload it announces. */
  datatype Frame = Frame(header: seq<byte>, payload: seq<byte>)

  datatype Call = Push(frame: Frame) | Flush

  /** What the socket is to be asked about. */
  datatype Pipe = Pipe(queue: seq<seq<byte>>, offset: nat, open: bool)

  function Skipped(s: Pipe, i: nat): nat {
    if i == 0 then s.offset else 0
  }

  function Offered(s: Pipe, i: nat): int
    requires i < |s.queue|
  {
    |s.queue[i]| - Skipped(s, i)
  }

  /**
   * What a round of sending does for given answers. The buffers are offered one by one as long as the socket takes
   * them whole; the first that it does not take whole ends the round and stays, and an error for good closes the
   * socket. A closed socket is not asked.
   */
  ghost predicate Sent(s: Pipe, answers: seq<Answer>, t: Pipe) {
    if !s.open then answers == [] && t == s
    else
      && |t.queue| <= |s.queue|
      && var k := |s.queue| - |t.queue|;
      && t.queue == s.queue[k..]
      && k <= |answers| && (forall i :: 0 <= i < k ==> answers[i].n == Offered(s, i))
      && if t.queue == [] then |answers| == k && t.offset == 0 && t.open
         else
           && |answers| == k + 1 && answers[k].n < Offered(s, k)
           && t.offset == Skipped(s, k) + (if answers[k].n > 0 then answers[k].n else 0)
           && (t.open <==> !(answers[k].n < 0 && answers[k].fatal))
  }

  ghost predicate TookWhole(s: Pipe, answers: seq<Answer>) {
    |answers| <= |s.queue| && forall i :: 0 <= i < |answers| ==> answers[i].n == Offered(s, i)
  }

  lemma TookNone(s: Pipe)
    ensures TookWhole(s, []) && Skipped(s, 0) == s.offset && (!s.open ==> Sent(s, [], s))
  {
  }

  lemma OfferedIs(s: Pipe, i: nat)
    requires i < |s.queue|
    ensures Offered(s, i) == |s.queue[i]| - Skipped(s, i) && Skipped(s, i + 1) == 0
  {
  }

  lemma TookNext(s: Pipe, answers: seq<Answer>, a: Answer)
    requires TookWhole(s, answers) && |answers| < |s.queue| && a.n == Offered(s, |answers|)
    ensures TookWhole(s, answers + [a])
  {
  }

  lemma SentAll(s: Pipe, answers: seq<Answer>)
    requires s.open && TookWhole(s, answers) && |answers| == |s.queue|
    ensures Sent(s, answers, Pipe([], 0, true))
  {
  }

  lemma SentPart(s: Pipe, answers: seq<Answer>, a: Answer)
    requires s.open && TookWhole(s, answers) && |answers| < |s.queue| && a.n < Offered(s, |answers|)
    ensures var k := |answers|;
      Sent(s, answers + [a],
           Pipe(s.queue[k..], Skipped(s, k) + (if a.n > 0 then a.n else 0), !(a.n < 0 && a.fatal)))
  {
  }

  /** A message is queued behind what is there, without an empty payload. */
  function Handed(c: Call, s: Pipe): Pipe {
    match c
    case Push(f) => s.(queue := s.queue + [f.header] + (if f.payload == [] then [] else [f.payload]))
    case Flush => s
  }

  /** What one call does: a message is sent at once exactly when nothing was queued. */
  ghost predicate Handled(c: Call, s: Pipe, answers: seq<Answer>, t: Pipe) {
    if c.Push? && s.queue != [] then answers == [] && t == Handed(c, s) else Sent(Handed(c, s), answers, t)
  }

  /** A socket that takes whatever it is offered. */
  ghost predicate Willing(s: Pipe, answers: seq<Answer>) {
    forall i :: 0 <= i < |answers| && i < |s.queue| ==> answers[i].n == Offered(s, i)
  }

  /** Such a socket leaves nothing queued. */
  lemma WillingDrains(c: Call, s: Pipe, answers: seq<Answer>, t: Pipe)
    requires s.queue == [] && s.open && Handled(c, s, answers, t) && Willing(Handed(c, s), answers)
    ensures t.queue == [] && t.open
  {
  }

  class Sender {
    const maxSize: nat
    var queue: seq<seq<byte>>
    var offset: nat
    var size: int
    var paused: bool
    var open: bool

    /** All bytes ever queued, and all bytes that the socket took. */
    ghost var pushed: seq<byte>
    ghost var taken: seq<byte>

    /** Bytes taken and bytes still queued are together what was pushed; exactly a full queue pauses. */
    ghost predicate Valid()
      reads this
    {
      Flow(queue, offset, size, taken, pushed) && (paused <==> size > maxSize)
    }

    ghost function Now(): Pipe
      reads this
    {
      Pipe(queue, offset, open)
    }

    constructor (maxSize: nat)
      ensures Valid() && pushed == [] && taken == [] && Now() == Pipe([], 0, true) && this.maxSize == maxSize
    {
      this.maxSize := maxSize;
      queue, offset, size, paused, open := [], 0, 0, false, true;
      pushed, taken := [], [];
    }

    /** Offers what is left of the first buffer to the socket. */
    method SendBuffer(data: seq<byte>, ghost rest: seq<seq<byte>>) returns (a: Answer)
      requires Flow([data] + rest, offset, size, taken, pushed) && (paused <==> size > maxSize) && open
      modifies this`offset, this`size, this`paused, this`open, this`taken
      ensures a.n <= |data| - old(offset) && (paused <==> size > maxSize)
      ensures old(taken) <= taken && |taken| - |old(taken)| == if a.n > 0 then a.n else 0
      ensures if a.n == |data| - old(offset) then Flow(rest, offset, size, taken, pushed) && offset == 0 && open
              else
                && Flow([data] + rest, offset, size, taken, pushed)
                && offset == old(offset) + (if a.n > 0 then a.n else 0)
                && open == !(a.n < 0 && a.fatal)
    {
      hide Flow;
      ghost var queued := [data] + rest;
      FlowFirst(queued, offset, size, taken, pushed);
      assert |data| > offset;
      a := Send(data[offset..]);
      if a.n > 0 {
        ghost var part := data[offset..][..a.n];
        if offset + a.n == |data| {
          FlowWhole(queued, offset, size, taken, pushed);
          assert part == data[offset..] && queued[1..] == rest;
        } else {
          FlowPart(queued, offset, size, taken, pushed, a.n);
        }
        taken := taken + part;
        offset := offset + a.n;
        if offset == |data| {
          offset := 0;
          size := size - |data|;
          paused := size > maxSize;
        }
      } else {
        open := !(a.n < 0 && a.fatal);
      }
    }

    /** Writes as much of the queue as the socket takes. */
    method SocketSendData() returns (sent: nat, ghost answers: seq<Answer>)
      requires Valid()
      modifies this
      ensures Valid() && pushed == old(pushed)
      ensures old(taken) <= taken && sent == |taken| - |old(taken)|
      ensures Sent(old(Now()), answers, Now())
    {
      hide Flow, Sent, TookWhole, Offered, Skipped;
      var it := 0;
      sent, answers := 0, [];
      ghost var was := Now();
      TookNone(was);
      assert queue[0..] == queue;
      while it < |queue|
        invariant 0 <= it <= |queue| && queue == old(queue) && pushed == old(pushed)
        invariant old(taken) <= taken && sent == |taken| - |old(taken)|
        invariant Flow(queue[it..], offset, size, taken, pushed)
        invariant paused <==> size > maxSize
        invariant open == was.open && (it > 0 ==> open) && offset == Skipped(was, it)
        invariant |answers| == it && TookWhole(was, answers)
        decreases |queue| - it
      {
        if !open {
          break;
        }
        OfferedIs(was, it);
        assert [queue[it]] + queue[it + 1..] == queue[it..];
        var rest := |queue[it]| - offset;
        var answer := SendBuffer(queue[it], queue[it + 1..]);
        if answer.n > 0 {
          sent := sent + answer.n;
        }
        if answer.n != rest {
          // The socket could not take the whole buffer.
          SentPart(was, answers, answer);
          answers := answers + [answer];
          break;
        }
        TookNext(was, answers, answer);
        answers := answers + [answer];
        it := it + 1;
      }
      if it == |queue| {
        assert queue[it..] == [];
        FlowEmpty(offset, size, taken, pushed);
        assert offset == 0;
        assert size == 0;
        if was.open {
          SentAll(was, answers);
        }
      }
      queue := queue[it..];
    }

    /** Queues a header and a payload, and writes at once if the queue was empty. */
    method PushMessage(header: seq<byte>, payload: seq<byte>) returns (ghost answers: seq<Answer>)
      requires Valid() && |header| == HEADER_SIZE
      modifies this
      ensures Valid() && pushed == old(pushed) + header + payload && old(taken) <= taken
      ensures Handled(Push(Frame(header, payload)), old(Now()), answers, Now())
    {
      hide Flow;
      answers := [];
      var optimistic := queue == [];
      assert pushed + header + [] == pushed + header;
      FlowMore(queue, offset, size, taken, pushed, header);
      if payload != [] {
        FlowMore(queue + [header], offset, size + |header|, taken, pushed + header, payload);
      }
      size := size + (|payload| + HEADER_SIZE);
      if size > maxSize {
        paused := true;
      }
      queue := queue + [header];
      if payload != [] {
        queue := queue + [payload];
      }
      pushed := pushed + header + payload;
      assert Now() == Handed(Push(Frame(header, payload)), old(Now()));
      if optimistic {
        var sent;
        sent, answers := SocketSendData();
      }
    }
  }

  lemma {:induction false} JoinedFirst(buffers: seq<seq<byte>>)
    requires buffers != []
    ensures Joined(buffers) == buffers[0] + Joined(buffers[1..])
  {
    JoinedSplit(buffers, 1);
    assert buffers[..1] == [buffers[0]] && Joined([buffers[0]]) == Joined([]) + buffers[0] by {
      assert [buffers[0]][..0] == [];
    }
  }

  // End to end.

  predicate IsFrame(f: Frame) {
    && |f.header| == HEADER_SIZE && SizeOf(f.header) == |f.payload|
    && |f.payload| <= MAX_PROTOCOL_MESSAGE_LENGTH
  }

  function Bytes(fs: seq<Frame>): seq<byte> {
    if fs == [] then [] else Bytes(fs[..|fs| - 1]) + (fs[|fs| - 1].header + fs[|fs| - 1].payload)
  }

  function Received(fs: seq<Frame>): (r: seq<Message>)
    ensures |r| == |fs|
  {
    seq(|fs|, i requires 0 <= i < |fs| => Body(fs[i].header, |fs[i].payload|, fs[i].payload))
  }

  lemma SetLast(ms: seq<Message>, x: Message, y: Message)
    ensures (ms + [x])[|ms| := y] == ms + [y]
  {
  }

  lemma WholeHeader(ms: seq<Message>, bytes: seq<byte>)
    requires ms != [] && ms[|ms| - 1] == Reading([]) && |bytes| == HEADER_SIZE
    requires SizeOf(bytes) <= MAX_PROTOCOL_MESSAGE_LENGTH
    ensures TakeBytes(ms, bytes) == Some(ms[|ms| - 1 := Body(bytes, SizeOf(bytes), [])])
  {
    hide TakeBytes, SizeOf;
    assert [] + bytes == bytes;
    HeaderEnd(ms, [], bytes);
  }

  lemma TakeHeader(ms: seq<Message>, f: Frame)
    requires IsFrame(f) && (ms == [] || Complete(ms[|ms| - 1]))
    ensures TakeBytes(ms, f.header) == Some(ms + [Body(f.header, |f.payload|, [])])
  {
    hide TakeBytes, SizeOf;
    StartFirst(ms, f.header);
    WholeHeader(ms + [Reading([])], f.header);
    SetLast(ms, Reading([]), Body(f.header, |f.payload|, []));
  }

  lemma TakePayload(ms: seq<Message>, f: Frame)
    ensures TakeBytes(ms + [Body(f.header, |f.payload|, [])], f.payload) ==
      Some(ms + [Body(f.header, |f.payload|, f.payload)])
  {
    hide TakeBytes;
    var m := Body(f.header, |f.payload|, []);
    DataChunk(ms + [m], m, f.payload);
    assert [] + f.payload == f.payload;
    SetLast(ms, m, m.(data := f.payload));
  }

  lemma TakeFrame(ms: seq<Message>, f: Frame)
    requires IsFrame(f) && (ms == [] || Complete(ms[|ms| - 1]))
    ensures TakeBytes(ms, f.header + f.payload) == Some(ms + [Body(f.header, |f.payload|, f.payload)])
  {
    hide TakeBytes, IsFrame, Complete;
    TakeHeader(ms, f);
    TakePayload(ms, f);
    TakeBytesSplit(ms, f.header, f.payload);
  }

  /** Every message that is sent comes out of the receiver, and nothing else. */
  lemma {:induction false} FramesReceived(fs: seq<Frame>)
    requires forall i :: 0 <= i < |fs| ==> IsFrame(fs[i])
    ensures TakeBytes([], Bytes(fs)) == Some(Received(fs))
  {
    hide IsFrame, TakeBytes, Received, Bytes;
    if fs == [] {
      NoBytes([]);
      assert Received(fs) == [] && Bytes(fs) == [] by { NoFrames(); }
    } else {
      var n := |fs| - 1;
      var f := fs[n];
      FramesReceived(fs[..n]);
      LastFrame(fs);
      LastBytes(fs);
      TakeBytesSplit([], Bytes(fs[..n]), f.header + f.payload);
      TakeFrame(Received(fs[..n]), f);
    }
  }

  lemma NoFrames()
    ensures Received([]) == [] && Bytes([]) == []
  {
  }

  lemma LastFrame(fs: seq<Frame>)
    requires fs != []
    ensures var n := |fs| - 1;
      Received(fs) == Received(fs[..n]) + [Body(fs[n].header, |fs[n].payload|, fs[n].payload)]
    ensures |fs| > 1 ==> Complete(Received(fs[..|fs| - 1])[|fs| - 2])
  {
  }

  lemma LastBytes(fs: seq<Frame>)
    requires fs != []
    ensures var n := |fs| - 1; Bytes(fs) == Bytes(fs[..n]) + (fs[n].header + fs[n].payload)
  {
  }

  /** Messages that are complete stay as they are. */
  lemma {:induction false} FinishedStay(ms: seq<Message>, bytes: seq<byte>)
    requires TakeBytes(ms, bytes).Some?
    ensures ms[..Finished(ms)] <= TakeBytes(ms, bytes).value
    decreases |bytes|
  {
    if bytes != [] {
      var next := TakeByte(ms, bytes[0]).value;
      FinishedStay(next, bytes[1..]);
      assert |next| >= Finished(ms) && next[..Finished(ms)] == ms[..Finished(ms)];
      assert Finished(next) >= Finished(ms);
    }
  }

  /** Whatever part of the stream has arrived, the complete messages are the first ones sent. */
  lemma PartReceived(fs: seq<Frame>, arrived: seq<byte>)
    requires forall i :: 0 <= i < |fs| ==> IsFrame(fs[i])
    requires arrived <= Bytes(fs)
    ensures TakeBytes([], arrived).Some?
    ensures var ms := TakeBytes([], arrived).value; ms[..Finished(ms)] <= Received(fs)
  {
    FramesReceived(fs);
    var rest := Bytes(fs)[|arrived|..];
    assert Bytes(fs) == arrived + rest;
    TakeBytesSplit([], arrived, rest);
    FinishedStay(TakeBytes([], arrived).value, rest);
  }

  function Frames(calls: seq<Call>): seq<Frame> {
    if calls == [] then []
    else
      var n := |calls| - 1;
      if calls[n].Push? then Frames(calls[..n]) + [calls[n].frame] else Frames(calls[..n])
  }

  lemma BytesAppend(fs: seq<Frame>, f: Frame)
    ensures Bytes(fs + [f]) == Bytes(fs) + f.header + f.payload
  {
    assert (fs + [f])[..|fs|] == fs;
    assert Bytes(fs) + (f.header + f.payload) == Bytes(fs) + f.header + f.payload;
  }

  /** A whole run: each call takes one pipe to the next, given the answers of the socket. */
  ghost predicate AllHandled(calls: seq<Call>, pipes: seq<Pipe>, answers: seq<seq<Answer>>) {
    && |pipes| == |calls| + 1 && |answers| == |calls| && pipes[0] == Pipe([], 0, true)
    && forall i :: 0 <= i < |calls| ==> Handled(calls[i], pipes[i], answers[i], pipes[i + 1])
  }

  ghost predicate AllWilling(calls: seq<Call>, pipes: seq<Pipe>, answers: seq<seq<Answer>>)
    requires AllHandled(calls, pipes, answers)
  {
    forall i :: 0 <= i < |calls| ==> Willing(Handed(calls[i], pipes[i]), answers[i])
  }

  lemma HandledNext(calls: seq<Call>, pipes: seq<Pipe>, answers: seq<seq<Answer>>, c: Call, a: seq<Answer>, t: Pipe)
    requires AllHandled(calls, pipes, answers) && Handled(c, pipes[|calls|], a, t)
    ensures AllHandled(calls + [c], pipes + [t], answers + [a])
  {
    hide Handled;
    var cs, ps, more := calls + [c], pipes + [t], answers + [a];
    forall i | 0 <= i < |cs| ensures Handled(cs[i], ps[i], more[i], ps[i + 1]) {
      if i < |calls| {
        assert cs[i] == calls[i] && ps[i] == pipes[i] && more[i] == answers[i] && ps[i + 1] == pipes[i + 1];
      }
    }
  }

  /** As long as the socket takes whatever it is offered, nothing is queued between two calls. */
  lemma {:induction false} NothingWaits(calls: seq<Call>, pipes: seq<Pipe>, answers: seq<seq<Answer>>, n: nat)
    requires AllHandled(calls, pipes, answers) && AllWilling(calls, pipes, answers) && n <= |calls|
    ensures pipes[n].queue == [] && pipes[n].open
  {
    hide Handled, Willing, Handed;
    if n > 0 {
      NothingWaits(calls, pipes, answers, n - 1);
      assert Handled(calls[n - 1], pipes[n - 1], answers[n - 1], pipes[n]);
      WillingDrains(calls[n - 1], pipes[n - 1], answers[n - 1], pipes[n]);
    }
  }

  /**
   * Every run of a sender, whatever the socket answers: the socket has taken a prefix of the frames pushed, and the
   * rest is queued; all of them if it took whatever it was offered.
   */
  method SendAll(maxSize: nat, calls: seq<Call>)
    returns (sender: Sender, ghost pipes: seq<Pipe>, ghost answers: seq<seq<Answer>>)
    requires forall i :: 0 <= i < |calls| && calls[i].Push? ==> IsFrame(calls[i].frame)
    ensures sender.Valid() && sender.pushed == Bytes(Frames(calls)) && sender.taken <= sender.pushed
    ensures AllHandled(calls, pipes, answers) && pipes[|calls|] == sender.Now()
    ensures AllWilling(calls, pipes, answers) ==> sender.taken == sender.pushed
  {
    hide Flow, SizeOf, Handled, AllHandled, AllWilling, Handed;
    sender := new Sender(maxSize);
    pipes, answers := [Pipe([], 0, true)], [];
    assert AllHandled([], pipes, answers) by {
      NothingHandled();
    }
    for i := 0 to |calls|
      invariant sender.Valid() && sender.pushed == Bytes(Frames(calls[..i])) && fresh(sender)
      invariant AllHandled(calls[..i], pipes, answers) && |pipes| == i + 1 && pipes[i] == sender.Now()
    {
      assert calls[..i + 1][..i] == calls[..i] && calls[..i + 1] == calls[..i] + [calls[i]];
      ghost var a := Perform(sender, calls[i]);
      if calls[i].Push? {
        BytesAppend(Frames(calls[..i]), calls[i].frame);
      }
      HandledNext(calls[..i], pipes, answers, calls[i], a, sender.Now());
      pipes, answers := pipes + [sender.Now()], answers + [a];
    }
    assert calls[..|calls|] == calls;
    TakenIsPrefix(sender.queue, sender.offset, sender.size, sender.taken, sender.pushed);
    if AllWilling(calls, pipes, answers) {
      NothingWaits(calls, pipes, answers, |calls|);
      FlowEmpty(sender.offset, sender.size, sender.taken, sender.pushed);
    }
  }

  lemma NothingHandled()
    ensures AllHandled([], [Pipe([], 0, true)], [])
  {
  }

  /** One call to a sender. */
  method Perform(sender: Sender, c: Call) returns (ghost answers: seq<Answer>)
    requires sender.Valid() && (c.Push? ==> IsFrame(c.frame))
    modifies sender
    ensures sender.Valid() && Handled(c, old(sender.Now()), answers, sender.Now())
    ensures sender.pushed == old(sender.pushed) + (if c.Push? then c.frame.header + c.frame.payload else [])
  {
    hide Flow, SizeOf, Sent;
    match c {
      case Push(f) =>
        answers := sender.PushMessage(f.header, f.payload);
      case Flush =>
        var sent;
        sent, answers := sender.SocketSendData();
    }
  }

  lemma TakenIsPrefix(queue: seq<seq<byte>>, offset: nat, size: int, taken: seq<byte>, pushed: seq<byte>)
    requires Flow(queue, offset, size, taken, pushed)
    ensures taken <= pushed
  {
  }
}
