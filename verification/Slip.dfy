/** SLIP framing between the tun device and the serial line (RFC 1055): escaping, the output queue
    with partial writes, and a reader that is called with whatever has arrived. */
module Slip {

  const END: nat := 192
  const ESC: nat := 219
  const ESC_END: nat := 220
  const ESC_ESC: nat := 221
  const XON: nat := 17
  const ESC_XON: nat := 222
  const XOFF: nat := 19
  const ESC_XOFF: nat := 223
  const NEWLINE: nat := 10

  const BUFFER: nat := 2000

  type Byte = b: int | 0 <= b < 256

  // ---------------------------------------------------------------- sending

  /** What is sent for one byte of a packet; `flow` says that the line uses XON and XOFF. */
  function Escaped(flow: bool, c: Byte): (r: seq<Byte>) {
    if c == END then [ESC, ESC_END]
    else if c == ESC then [ESC, ESC_ESC]
    else if flow && c == XON then [ESC, ESC_XON]
    else if flow && c == XOFF then [ESC, ESC_XOFF]
    else [c]
  }

  function EscapedAll(flow: bool, p: seq<Byte>): (r: seq<Byte>) {
    if p == [] then [] else Escaped(flow, p[0]) + EscapedAll(flow, p[1..])
  }

  /** What write_to_serial queues for a packet. */
  function Frame(flow: bool, p: seq<Byte>): (r: seq<Byte>) { EscapedAll(flow, p) + [END] }

  function Frames(flow: bool, ps: seq<seq<Byte>>): (r: seq<Byte>) {
    if ps == [] then [] else Frame(flow, ps[0]) + Frames(flow, ps[1..])
  }

  /** No frame has a terminator inside, and with flow control none has a raw XON or XOFF. */
  lemma {:induction false} EscapedIsClean(flow: bool, p: seq<Byte>)
    ensures END !in EscapedAll(flow, p)
    ensures flow ==> XON !in EscapedAll(flow, p) && XOFF !in EscapedAll(flow, p)
  {
    if p != [] {
      EscapedIsClean(flow, p[1..]);
    }
  }

  // -------------------------------------------------------------- receiving

  /** Whether all but the first byte can be printed. */
  predicate Sensible(s: seq<Byte>) {
    forall i :: 1 <= i < |s| ==> s[i] == 0 || s[i] == 13 || s[i] == 10 || s[i] == 9 || 32 <= s[i] <= 126
  }

  /** Storing a byte; when lines are echoed (verbosity 2, 3 and from 5 on), a printable line is
      echoed and forgotten. */
  function Stored(echo: bool, packet: seq<Byte>, c: Byte): (r: seq<Byte>)
    ensures |r| <= |packet| + 1
  {
    var r := packet + [c];
    if echo && c == NEWLINE && Sensible(r) then [] else r
  }

  function Unescaped(c: Byte): (r: Byte) {
    if c == ESC_END then END
    else if c == ESC_ESC then ESC
    else if c == ESC_XON then XON
    else if c == ESC_XOFF then XOFF
    else c
  }

  /** The packet being collected, the frames that were finished, and whether an escape character was
      put back because nothing had arrived behind it. */
  datatype Reading = Reading(packet: seq<Byte>, frames: seq<seq<Byte>>, held: bool)

  /** What is at hand for a call: the character put back, and what has arrived. */
  function AtHand(held: bool, arrived: seq<Byte>): (r: seq<Byte>) { (if held then [ESC] else []) + arrived }

  /** serial_to_tun on the bytes at hand. */
  function Read(echo: bool, packet: seq<Byte>, input: seq<Byte>): (r: Reading)
    ensures |r.packet| < BUFFER
    decreases |input|, |packet|
  {
    if |packet| >= BUFFER then Read(echo, [], input)
    else if input == [] then Reading(packet, [], false)
    else if input[0] == END then
      var r := Read(echo, [], input[1..]);
      if packet == [] then r else r.(frames := [packet] + r.frames)
    else if input[0] == ESC then
      if |input| == 1 then Reading(packet, [], true)
      else Read(echo, Stored(echo, packet, Unescaped(input[1])), input[2..])
    else Read(echo, Stored(echo, packet, input[0]), input[1..])
  }

  /** Calls with one chunk after another. */
  function ReadChunks(echo: bool, packet: seq<Byte>, held: bool, chunks: seq<seq<Byte>>): (r: Reading)
    decreases |chunks|
  {
    if chunks == [] then Reading(packet, [], held) else
    var first := Read(echo, packet, AtHand(held, chunks[0]));
    var rest := ReadChunks(echo, first.packet, first.held, chunks[1..]);
    rest.(frames := first.frames + rest.frames)
  }

  function Joined(chunks: seq<seq<Byte>>): (r: seq<Byte>) {
    if chunks == [] then [] else chunks[0] + Joined(chunks[1..])
  }

  // ---------------------------------------------- chunks make no difference

  /** Reading on from where an earlier call stopped is reading everything at once. */
  lemma {:induction false} ReadsOn(echo: bool, packet: seq<Byte>, a: seq<Byte>, b: seq<Byte>)
    ensures var first := Read(echo, packet, a);
            var rest := Read(echo, first.packet, AtHand(first.held, b));
            Read(echo, packet, a + b) == rest.(frames := first.frames + rest.frames)
    decreases |a|, |packet|
  {
    if |packet| >= BUFFER {
      ReadsOn(echo, [], a, b);
    } else if a == [] {
      assert a + b == b && AtHand(false, b) == b;
      var rest := Read(echo, packet, b);
      assert [] + rest.frames == rest.frames;
    } else if a[0] == END {
      ReadsOn(echo, [], a[1..], b);
      assert (a + b)[1..] == a[1..] + b;
      var inner := Read(echo, [], a[1..]);
      var rest := Read(echo, inner.packet, AtHand(inner.held, b));
      assert [packet] + (inner.frames + rest.frames) == ([packet] + inner.frames) + rest.frames;
    } else if a[0] == ESC && |a| == 1 {
      assert a + b == AtHand(true, b);
      var rest := Read(echo, packet, a + b);
      assert [] + rest.frames == rest.frames;
    } else if a[0] == ESC {
      assert (a + b)[2..] == a[2..] + b;
      ReadsOn(echo, Stored(echo, packet, Unescaped(a[1])), a[2..], b);
    } else {
      assert (a + b)[1..] == a[1..] + b;
      ReadsOn(echo, Stored(echo, packet, a[0]), a[1..], b);
    }
  }

  /** However the stream is cut into chunks, the same frames come out. */
  lemma {:induction false} ChunksAreJoined(echo: bool, packet: seq<Byte>, held: bool, chunks: seq<seq<Byte>>)
    requires |packet| < BUFFER
    ensures var r := Read(echo, packet, AtHand(held, Joined(chunks)));
            ReadChunks(echo, packet, held, chunks) == r
    decreases |chunks|
  {
    if chunks == [] {
      assert Read(echo, packet, AtHand(held, [])) == Reading(packet, [], held) by {
        if held {
          assert AtHand(held, []) == [ESC];
        } else {
          assert AtHand(held, []) == [];
        }
      }
    } else {
      var first := Read(echo, packet, AtHand(held, chunks[0]));
      ReadsOn(echo, packet, AtHand(held, chunks[0]), Joined(chunks[1..]));
      assert AtHand(held, chunks[0]) + Joined(chunks[1..]) == AtHand(held, Joined(chunks));
      ChunksAreJoined(echo, first.packet, first.held, chunks[1..]);
    }
  }

  // ------------------------------------------------------------- round trip

  /** What is collected when the bytes of `p` arrive after `packet`. */
  function Collected(echo: bool, packet: seq<Byte>, p: seq<Byte>): (r: seq<Byte>)
    ensures |r| < BUFFER
    decreases |p|
  {
    var start := if |packet| >= BUFFER then [] else packet;
    if p == [] then start else Collected(echo, Stored(echo, start, p[0]), p[1..])
  }

  lemma ReadsByte(echo: bool, flow: bool, packet: seq<Byte>, c: Byte, tail: seq<Byte>)
    requires |packet| < BUFFER
    ensures Read(echo, packet, Escaped(flow, c) + tail) == Read(echo, Stored(echo, packet, c), tail)
  {
    var input := Escaped(flow, c) + tail;
    assert input[|Escaped(flow, c)|..] == tail;
  }

  /** Reading the escaped bytes of a packet collects its bytes. */
  lemma {:induction false} ReadsBody(echo: bool, flow: bool, packet: seq<Byte>, p: seq<Byte>, rest: seq<Byte>)
    ensures Read(echo, packet, EscapedAll(flow, p) + rest) == Read(echo, Collected(echo, packet, p), rest)
    decreases |p|, |packet|
  {
    if |packet| >= BUFFER {
      ReadsBody(echo, flow, [], p, rest);
    } else if p == [] {
      assert [] + rest == rest;
    } else {
      var tail := EscapedAll(flow, p[1..]) + rest;
      assert EscapedAll(flow, p) + rest == Escaped(flow, p[0]) + tail;
      ReadsByte(echo, flow, packet, p[0], tail);
      hide Read, Escaped;
      ReadsBody(echo, flow, Stored(echo, packet, p[0]), p[1..], rest);
    }
  }

  /** A frame delivers what its packet collects to, unless that is nothing. */
  lemma ReadsFrame(echo: bool, flow: bool, p: seq<Byte>, rest: seq<Byte>)
    ensures var c := Collected(echo, [], p);
            var r := Read(echo, [], rest);
            Read(echo, [], Frame(flow, p) + rest) == if c == [] then r else r.(frames := [c] + r.frames)
  {
    assert Frame(flow, p) + rest == EscapedAll(flow, p) + ([END] + rest);
    ReadsBody(echo, flow, [], p, [END] + rest);
    assert ([END] + rest)[1..] == rest;
  }

  /** No line of `p` that ends at `i` or later is echoed. */
  predicate NotEchoedFrom(p: seq<Byte>, i: nat) {
    forall k :: i <= k < |p| && p[k] == NEWLINE ==> !Sensible(p[..k + 1])
  }

  lemma {:induction false} CollectsAll(echo: bool, packet: seq<Byte>, p: seq<Byte>)
    requires |packet| < BUFFER
    ensures |Collected(echo, packet, p)| <= |packet| + |p|
    ensures Collected(echo, packet, p) == packet + p <==>
      |packet| + |p| < BUFFER && (echo ==> NotEchoedFrom(packet + p, |packet|))
    decreases |p|
  {
    if p == [] {
      assert packet + p == packet;
    } else {
      var next := Stored(echo, packet, p[0]);
      StoresByte(echo, packet, p);
      assert Collected(echo, packet, p) == Collected(echo, next, p[1..]);
      hide Collected, Stored, NotEchoedFrom;
      if |next| >= BUFFER {
        CollectsAll(echo, [], p[1..]);
        CollectedFromDropped(echo, next, p[1..]);
      } else {
        CollectsAll(echo, next, p[1..]);
      }
    }
  }

  lemma StoresByte(echo: bool, packet: seq<Byte>, p: seq<Byte>)
    requires |packet| < BUFFER && p != []
    ensures var next := Stored(echo, packet, p[0]);
            var all := packet + p;
            && (next == [] || |next| == |packet| + 1)
            && (next == [] ==> echo && !NotEchoedFrom(all, |packet|))
            && (next != [] ==> next + p[1..] == all)
            && (next != [] && echo ==> (NotEchoedFrom(all, |packet|) <==> NotEchoedFrom(all, |next|)))
  {
    var next := Stored(echo, packet, p[0]);
    var all := packet + p;
    var k := |packet|;
    assert all[..k + 1] == packet + [p[0]] && all[k] == p[0];
  }

  lemma CollectedFromDropped(echo: bool, packet: seq<Byte>, p: seq<Byte>)
    requires |packet| >= BUFFER
    ensures Collected(echo, packet, p) == Collected(echo, [], p)
  {
  }

  /** A packet that can be delivered: it has at least one byte, is shorter than the buffer, and has no
      line that is echoed instead. */
  predicate Deliverable(echo: bool, p: seq<Byte>) {
    1 <= |p| < BUFFER && (echo ==> NotEchoedFrom(p, 0))
  }

  /** A packet framed alone comes out as it went in exactly when it is deliverable. */
  lemma RoundTrip(echo: bool, flow: bool, p: seq<Byte>)
    ensures Read(echo, [], Frame(flow, p)).frames == [p] <==> Deliverable(echo, p)
  {
    ReadsFrame(echo, flow, p, []);
    assert Frame(flow, p) + [] == Frame(flow, p);
    CollectsAll(echo, [], p);
    assert [] + p == p;
    var c := Collected(echo, [], p);
    assert Read(echo, [], Frame(flow, p)).frames == if c == [] then [] else [c];
    if c != p {
      assert [c][0] != [p][0];
    }
  }

  /** A character that a terminal shows, a tab, the end of a line or of a string. */
  predicate Shown(b: Byte) {
    ' ' as int <= b <= '~' as int || b == '\t' as int || b == '\r' as int || b == '\n' as int || b == 0
  }

  /** The line that ends at place `k` is text from its second character on. */
  predicate TextLine(p: seq<Byte>, k: nat) {
    k < |p| && p[k] == '\n' as int && forall i :: 1 <= i <= k ==> Shown(p[i])
  }

  /** The same by lengths and characters: a packet of 1 to 1999 bytes comes out as it went in unless lines are echoed and
      it has text up to the end of some line. */
  lemma TextIsLost(echo: bool, flow: bool, p: seq<Byte>)
    ensures Read(echo, [], Frame(flow, p)).frames == [p] <==>
            1 <= |p| <= 1999 && !(echo && exists k :: TextLine(p, k))
  {
    RoundTrip(echo, flow, p);
    hide Read, Frame;
    forall k | 0 <= k < |p| && p[k] == NEWLINE
      ensures Sensible(p[..k + 1]) <==> TextLine(p, k)
    {
      assert forall i :: 1 <= i <= k ==> p[..k + 1][i] == p[i];
      if !TextLine(p, k) {
        var i :| 1 <= i <= k && !Shown(p[i]);
        assert p[..k + 1][i] == p[i];
      }
    }
    hide Sensible;
  }

  /** What RFC 1055, and the program for flow control, put on the line for one byte. */
  function OnLine(flow: bool, c: Byte): (r: seq<Byte>) {
    match c
    case 0xC0 => [0xDB, 0xDC]
    case 0xDB => [0xDB, 0xDD]
    case 0x11 => if flow then [0xDB, 0xDE] else [0x11]
    case 0x13 => if flow then [0xDB, 0xDF] else [0x13]
    case _ => [c]
  }

  lemma ByteOnLine(flow: bool, c: Byte)
    ensures EscapedAll(flow, [c]) == OnLine(flow, c)
  {
    assert [c][1..] == [] && EscapedAll(flow, [c]) == Escaped(flow, c) + [];
  }

  lemma {:induction false} EscapedTogether(flow: bool, p: seq<Byte>, q: seq<Byte>)
    ensures EscapedAll(flow, p + q) == EscapedAll(flow, p) + EscapedAll(flow, q)
    decreases |p|
  {
    hide Escaped;
    if p == [] {
      assert p + q == q;
    } else {
      assert (p + q)[1..] == p[1..] + q;
      EscapedTogether(flow, p[1..], q);
    }
  }

  /** A frame is what its bytes are on the line, one behind the other, and the end character. */
  lemma FrameOnLine(flow: bool, c: Byte, p: seq<Byte>)
    ensures Frame(flow, []) == [0xC0]
    ensures Frame(flow, [c] + p) == OnLine(flow, c) + Frame(flow, p)
  {
    ByteOnLine(flow, c);
    EscapedTogether(flow, [c], p);
    hide OnLine;
    assert EscapedAll(flow, []) == [];
  }

  /** A two-byte packet is lost to the echo, which is what a verbosity of 2, 3 or 5 turns on. */
  lemma EchoLosesPacket(flow: bool)
    ensures Read(true, [], Frame(flow, [96, NEWLINE])).frames == []
    ensures Read(false, [], Frame(flow, [96, NEWLINE])).frames == [[96, NEWLINE]]
  {
    var p: seq<Byte> := [96, NEWLINE];
    RoundTrip(false, flow, p);
    ReadsFrame(true, flow, p, []);
    assert Frame(flow, p) + [] == Frame(flow, p);
    assert p[1..] == [NEWLINE] && [96] + [NEWLINE] == p;
    assert Stored(true, [], 96) == [96] && Sensible(p);
    assert Collected(true, [96], p[1..]) == [];
  }

  lemma {:induction false} ReadsFrames(echo: bool, flow: bool, ps: seq<seq<Byte>>)
    requires forall i :: 0 <= i < |ps| ==> Deliverable(echo, ps[i])
    ensures Read(echo, [], Frames(flow, ps)) == Reading([], ps, false)
  {
    if ps != [] {
      ReadsFrame(echo, flow, ps[0], Frames(flow, ps[1..]));
      CollectsAll(echo, [], ps[0]);
      assert [] + ps[0] == ps[0];
      assert Deliverable(echo, ps[0]);
      hide Read, Frame, Collected, NotEchoedFrom;
      ReadsFrames(echo, flow, ps[1..]);
      assert [ps[0]] + ps[1..] == ps;
    }
  }

  // ------------------------------------------------------------ output queue

  datatype Option<+T> = None | Some(value: T)

  /** slip_buf with slip_begin and slip_end. */
  datatype Queue = Queue(buf: seq<Byte>, begin: nat, end: nat)

  predicate QueueShaped(q: Queue) {
    |q.buf| == BUFFER && q.begin <= q.end <= BUFFER && (q.begin == q.end ==> q.end == 0)
  }

  function Pending(q: Queue): (r: seq<Byte>)
    requires QueueShaped(q)
  {
    q.buf[q.begin..q.end]
  }

  /** slip_send: the program ends when the buffer is used up, even if its front was written. */
  function SlipSend(q: Queue, c: Byte): (r: Option<Queue>)
    requires QueueShaped(q)
    ensures r.Some? ==> QueueShaped(r.value)
  {
    if q.end >= BUFFER then None else Some(Queue(q.buf[q.end := c], q.begin, q.end + 1))
  }

  function SendAll(q: Queue, bytes: seq<Byte>): (r: Option<Queue>)
    requires QueueShaped(q)
    ensures r.Some? ==> QueueShaped(r.value)
    decreases |bytes|
  {
    if bytes == [] then Some(q) else
    var next := SlipSend(q, bytes[0]);
    if next.None? then None else SendAll(next.value, bytes[1..])
  }

  /** slip_flushbuf on a line that takes `room` bytes; none at all is the case of EAGAIN. */
  function Flush(q: Queue, room: nat): (r: (Queue, seq<Byte>))
    requires QueueShaped(q)
    ensures QueueShaped(r.0)
  {
    if q.end == 0 then (q, []) else
    var n := if room < q.end - q.begin then room else q.end - q.begin;
    var begin := q.begin + n;
    (if begin == q.end then Queue(q.buf, 0, 0) else q.(begin := begin), q.buf[q.begin..begin])
  }

  datatype Event = Packet(p: seq<Byte>) | Flushed(room: nat)

  function PacketsOf(events: seq<Event>): (r: seq<seq<Byte>>) {
    if events == [] then []
    else (if events[0].Packet? then [events[0].p] else []) + PacketsOf(events[1..])
  }

  /** The queue after some events and what they wrote, unless the program ended. */
  function Run(flow: bool, q: Queue, events: seq<Event>): (r: Option<(Queue, seq<Byte>)>)
    requires QueueShaped(q)
    ensures r.Some? ==> QueueShaped(r.value.0)
    decreases |events|
  {
    if events == [] then Some((q, [])) else
    match events[0]
    case Packet(p) =>
      var next := SendAll(q, Frame(flow, p));
      if next.None? then None else Run(flow, next.value, events[1..])
    case Flushed(room) =>
      var (next, out) := Flush(q, room);
      var rest := Run(flow, next, events[1..]);
      if rest.None? then None else Some((rest.value.0, out + rest.value.1))
  }

  /** Bytes are queued behind the pending ones, exactly when there is room behind the last. */
  lemma {:induction false} SendAllQueues(q: Queue, bytes: seq<Byte>)
    requires QueueShaped(q)
    ensures SendAll(q, bytes).Some? <==> q.end + |bytes| <= BUFFER
    ensures SendAll(q, bytes).Some? ==> Pending(SendAll(q, bytes).value) == Pending(q) + bytes
    decreases |bytes|
  {
    if bytes == [] {
      assert Pending(q) + [] == Pending(q);
    } else if q.end < BUFFER {
      var next := SlipSend(q, bytes[0]).value;
      SendAllQueues(next, bytes[1..]);
      assert Pending(next) == Pending(q) + [bytes[0]];
      assert Pending(q) + [bytes[0]] + bytes[1..] == Pending(q) + bytes;
    }
  }

  lemma FlushWritesFront(q: Queue, room: nat)
    requires QueueShaped(q)
    ensures var (next, out) := Flush(q, room);
            Pending(q) == out + Pending(next)
  {
  }

  lemma InFront(out: seq<Byte>, a: seq<Byte>, b: seq<Byte>, c: seq<Byte>, d: seq<Byte>)
    requires a + b == c + d
    ensures (out + a) + b == (out + c) + d
  {
    assert (out + a) + b == out + (a + b) && (out + c) + d == out + (c + d);
  }

  /** Whatever the partial writes were, what is written and what is pending are the frames of the
      packets in their order. */
  lemma {:induction false} RunWritesFrames(flow: bool, q: Queue, events: seq<Event>)
    requires QueueShaped(q)
    ensures var r := Run(flow, q, events);
            r.Some? ==> r.value.1 + Pending(r.value.0) == Pending(q) + Frames(flow, PacketsOf(events))
    decreases |events|
  {
    if events == [] {
      assert Pending(q) + [] == Pending(q) == [] + Pending(q);
    } else if Run(flow, q, events).Some? {
      if events[0].Packet? {
        QueuesPacket(flow, q, events);
        hide Run, Frames, PacketsOf, Pending, SendAll, Frame;
        RunWritesFrames(flow, SendAll(q, Frame(flow, events[0].p)).value, events[1..]);
      } else {
        FlushesQueue(flow, q, events);
        hide Run, Frames, PacketsOf, Pending, Flush;
        var (next, out) := Flush(q, events[0].room);
        RunWritesFrames(flow, next, events[1..]);
        var rest := Run(flow, next, events[1..]).value;
        InFront(out, rest.1, Pending(rest.0), Pending(next), Frames(flow, PacketsOf(events[1..])));
      }
    }
  }

  lemma {:induction false} QueuesPacket(flow: bool, q: Queue, events: seq<Event>)
    requires QueueShaped(q) && events != [] && events[0].Packet? && Run(flow, q, events).Some?
    ensures var next := SendAll(q, Frame(flow, events[0].p));
            next.Some? && Run(flow, q, events) == Run(flow, next.value, events[1..]) &&
            Pending(q) + Frames(flow, PacketsOf(events)) ==
            Pending(next.value) + Frames(flow, PacketsOf(events[1..]))
  {
    var frame := Frame(flow, events[0].p);
    SendAllQueues(q, frame);
    hide SendAll, Frame;
    var later := PacketsOf(events[1..]);
    assert PacketsOf(events) == [events[0].p] + later;
    assert PacketsOf(events)[1..] == later;
    assert Pending(q) + frame + Frames(flow, later) == Pending(q) + (frame + Frames(flow, later));
  }

  lemma FlushesQueue(flow: bool, q: Queue, events: seq<Event>)
    requires QueueShaped(q) && events != [] && events[0].Flushed? && Run(flow, q, events).Some?
    ensures var (next, out) := Flush(q, events[0].room);
            && PacketsOf(events) == PacketsOf(events[1..])
            && Pending(q) == out + Pending(next)
            && Run(flow, next, events[1..]).Some?
            && var rest := Run(flow, next, events[1..]).value;
               Run(flow, q, events).value == (rest.0, out + rest.1)
  {
    FlushWritesFront(q, events[0].room);
    hide Flush, Pending;
    assert PacketsOf(events) == [] + PacketsOf(events[1..]);
  }

  // -------------------------------------------------------------- end to end

  /** From an empty queue, over any partial writes and any chunks of what was written so far, the
      frames that come out are the first of the packets that went in; when nothing is pending and
      all has arrived, they are all of them. */
  lemma StreamRoundTrip(echo: bool, flow: bool, buf: seq<Byte>, events: seq<Event>,
                                           chunks: seq<seq<Byte>>, later: seq<Byte>)
    requires |buf| == BUFFER
    requires forall i :: 0 <= i < |PacketsOf(events)| ==> Deliverable(echo, PacketsOf(events)[i])
    requires var r := Run(flow, Queue(buf, 0, 0), events);
             r.Some? && r.value.1 == Joined(chunks) + later
    ensures var r := Run(flow, Queue(buf, 0, 0), events).value;
            var reading := ReadChunks(echo, [], false, chunks);
            && reading.frames <= PacketsOf(events)
            && (later == [] && Pending(r.0) == [] ==> reading == Reading([], PacketsOf(events), false))
  {
    hide Run, Read, ReadChunks, Frames, Joined, PacketsOf, Deliverable;
    var q := Queue(buf, 0, 0);
    var r := Run(flow, q, events).value;
    var ps := PacketsOf(events);
    RunWritesFrames(flow, q, events);
    assert Pending(q) + Frames(flow, ps) == Frames(flow, ps);
    ReadsFrames(echo, flow, ps);
    ChunksAreJoined(echo, [], false, chunks);
    assert AtHand(false, Joined(chunks)) == Joined(chunks);
    var unread := later + Pending(r.0);
    assert Joined(chunks) + unread == r.1 + Pending(r.0);
    ReadsOn(echo, [], Joined(chunks), unread);
    if unread == [] {
      assert Joined(chunks) + unread == Joined(chunks);
    }
  }

  /** With flow control, no XON or XOFF is ever written for a packet. */
  lemma {:induction false} FramesAreClean(ps: seq<seq<Byte>>)
    ensures XON !in Frames(true, ps) && XOFF !in Frames(true, ps)
  {
    if ps != [] {
      EscapedIsClean(true, ps[0]);
      FramesAreClean(ps[1..]);
    }
  }

  lemma StreamIsClean(buf: seq<Byte>, events: seq<Event>)
    requires |buf| == BUFFER && Run(true, Queue(buf, 0, 0), events).Some?
    ensures var out := Run(true, Queue(buf, 0, 0), events).value.1;
            XON !in out && XOFF !in out
  {
    var q := Queue(buf, 0, 0);
    RunWritesFrames(true, q, events);
    FramesAreClean(PacketsOf(events));
    var r := Run(true, q, events).value;
    assert Pending(q) + Frames(true, PacketsOf(events)) == Frames(true, PacketsOf(events));
    assert forall i :: 0 <= i < |r.1| ==> r.1[i] == (r.1 + Pending(r.0))[i];
  }
}
