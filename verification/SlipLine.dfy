/** The serial line of tunslip6 as it works in place: the output buffer with its two indices, and
    the packet buffer that serial_to_tun fills byte by byte. */
module SlipLine {
  import opened Slip

  /** slip_buf, slip_begin and slip_end. */
  class Output {
    const buf: array<Byte>
    var begin: nat
    var end: nat

    ghost predicate Valid()
      reads this, buf
    {
      QueueShaped(View())
    }

    function View(): Queue
      reads this, buf
    {
      Queue(buf[..], begin, end)
    }

    constructor ()
      ensures Valid() && fresh(buf) && begin == end == 0
    {
      buf := new Byte[BUFFER](_ => 0);
      begin, end := 0, 0;
    }

    /** False when the buffer is used up, which ends the program. */
    method Send(c: Byte) returns (ok: bool)
      requires Valid()
      modifies this, buf
      ensures Valid()
      ensures SlipSend(old(View()), c) == if ok then Some(View()) else None
      ensures !ok ==> View() == old(View())
    {
      if end >= BUFFER {
        return false;
      }
      buf[end] := c;
      assert buf[..] == old(buf[..])[old(end) := c];
      end := end + 1;
      return true;
    }

    method FlushBuf(room: nat) returns (out: seq<Byte>)
      requires Valid()
      modifies this
      ensures Valid() && (View(), out) == Flush(old(View()), room)
    {
      if end == 0 {
        return [];
      }
      var n := if room < end - begin then room else end - begin;
      out := buf[begin..begin + n];
      begin := begin + n;
      if begin == end {
        begin, end := 0, 0;
      }
    }

    /** The escapes of one byte, in order. */
    method SendEscaped(flow: bool, c: Byte) returns (ok: bool)
      requires Valid()
      modifies this, buf
      ensures Valid()
      ensures SendAll(old(View()), Escaped(flow, c)) == if ok then Some(View()) else None
    {
      ghost var before := View();
      if c == END || c == ESC || (flow && (c == XON || c == XOFF)) {
        ok := Send(ESC);
        if !ok {
          return;
        }
        ghost var middle := View();
        var d := if c == END then ESC_END else if c == ESC then ESC_ESC else if c == XON then ESC_XON else ESC_XOFF;
        ok := Send(d);
        assert Escaped(flow, c) == [ESC, d] && [ESC, d][1..] == [d];
        SendsOne(middle, d);
      } else {
        ok := Send(c);
        SendsOne(before, c);
      }
    }

    /** write_to_serial: false when the program ended on the way. */
    method WriteToSerial(flow: bool, p: seq<Byte>) returns (ok: bool)
      requires Valid()
      modifies this, buf
      ensures Valid()
      ensures SendAll(old(View()), Frame(flow, p)) == if ok then Some(View()) else None
    {
      ghost var before := View();
      var i := 0;
      while i < |p|
        invariant 0 <= i <= |p| && Valid()
        invariant SendAll(before, Frame(flow, p)) == SendAll(View(), EscapedAll(flow, p[i..]) + [END])
      {
        ghost var middle := View();
        ghost var rest := EscapedAll(flow, p[i + 1..]) + [END];
        assert p[i..][0] == p[i] && p[i..][1..] == p[i + 1..];
        assert EscapedAll(flow, p[i..]) + [END] == Escaped(flow, p[i]) + rest;
        SendsBoth(middle, Escaped(flow, p[i]), rest);
        ok := SendEscaped(flow, p[i]);
        if !ok {
          return;
        }
        i := i + 1;
      }
      assert EscapedAll(flow, p[i..]) + [END] == [END];
      SendsOne(View(), END);
      ok := Send(END);
    }
  }

  lemma SendsOne(q: Queue, c: Byte)
    requires QueueShaped(q)
    ensures SendAll(q, [c]) == SlipSend(q, c)
  {
    assert [c][1..] == [];
  }

  lemma {:induction false} SendsBoth(q: Queue, a: seq<Byte>, b: seq<Byte>)
    requires QueueShaped(q)
    ensures SendAll(q, a + b) == if SendAll(q, a).None? then None else SendAll(SendAll(q, a).value, b)
    decreases |a|
  {
    if a == [] {
      assert a + b == b;
    } else {
      assert (a + b)[1..] == a[1..] + b;
      var next := SlipSend(q, a[0]);
      if next.Some? {
        SendsBoth(next.value, a[1..], b);
      }
    }
  }

  lemma ReadDropsLong(echo: bool, packet: seq<Byte>, input: seq<Byte>)
    ensures Read(echo, packet, input) == Read(echo, if |packet| >= BUFFER then [] else packet, input)
  {
  }

  /** One step of the reader at a place of its input. */
  lemma ReadAt(echo: bool, packet: seq<Byte>, input: seq<Byte>, i: nat)
    requires |packet| < BUFFER && i <= |input|
    ensures var r := Read(echo, packet, input[i..]);
            if i == |input| then r == Reading(packet, [], false)
            else if input[i] == END then
              var rest := Read(echo, [], input[i + 1..]);
              r == if packet == [] then rest else rest.(frames := [packet] + rest.frames)
            else if input[i] != ESC then r == Read(echo, Stored(echo, packet, input[i]), input[i + 1..])
            else if i + 1 == |input| then r == Reading(packet, [], true)
            else r == Read(echo, Stored(echo, packet, Unescaped(input[i + 1])), input[i + 2..])
  {
    hide Stored, Unescaped;
    var s := input[i..];
    if i < |input| {
      assert s[0] == input[i] && s[1..] == input[i + 1..];
      if i + 1 < |input| {
        assert s[1] == input[i + 1] && s[2..] == input[i + 2..];
      }
    }
  }

  lemma Prepended(a: seq<seq<Byte>>, p: seq<Byte>, b: seq<seq<Byte>>)
    ensures a + ([p] + b) == (a + [p]) + b
  {
  }

  /** inbuf and inbufptr, and what is put back on the stream. */
  class Input {
    const inbuf: array<Byte>
    var inbufptr: nat
    var held: bool

    ghost predicate Valid()
      reads this, inbuf
    {
      inbuf.Length == BUFFER && inbufptr < BUFFER
    }

    constructor ()
      ensures Valid() && fresh(inbuf) && inbufptr == 0 && !held
    {
      inbuf := new Byte[BUFFER](_ => 0);
      inbufptr, held := 0, false;
    }

    method IsSensible() returns (r: bool)
      requires inbuf.Length == BUFFER && inbufptr <= BUFFER
      ensures r == Sensible(inbuf[..inbufptr])
    {
      var i := 1;
      while i < inbufptr
        invariant 1 <= i
        invariant forall k :: 1 <= k < i && k < inbufptr ==>
          inbuf[k] == 0 || inbuf[k] == 13 || inbuf[k] == 10 || inbuf[k] == 9 || 32 <= inbuf[k] <= 126
      {
        var c := inbuf[i];
        if c == 0 || c == 13 || c == 10 || c == 9 {
        } else if c < 32 || 126 < c {
          assert inbuf[..inbufptr][i] == c;
          return false;
        }
        i := i + 1;
      }
      return true;
    }

    method Store(echo: bool, c: Byte)
      requires Valid()
      modifies this`inbufptr, inbuf
      ensures inbuf.Length == BUFFER && inbufptr <= BUFFER
      ensures inbuf[..inbufptr] == Stored(echo, old(inbuf[..inbufptr]), c)
    {
      inbuf[inbufptr] := c;
      inbufptr := inbufptr + 1;
      assert inbuf[..inbufptr] == old(inbuf[..inbufptr]) + [c];
      if echo && c == NEWLINE {
        var sensible := IsSensible();
        if sensible {
          inbufptr := 0;
        }
      }
    }

    /** serial_to_tun with what has arrived: the frames that were finished. A byte is never stored
        beyond the buffer, since the length is checked before each read. */
    method SerialToTun(echo: bool, arrived: seq<Byte>) returns (frames: seq<seq<Byte>>)
      requires Valid()
      modifies this, inbuf
      ensures Valid()
      ensures Reading(inbuf[..inbufptr], frames, held) ==
        Read(echo, old(inbuf[..inbufptr]), AtHand(old(held), arrived))
    {
      hide Stored, Unescaped, Read;
      var input := (if held then [ESC] else []) + arrived;
      ghost var all := Read(echo, inbuf[..inbufptr], input);
      frames, held := [], false;
      var i := 0;
      while true
        invariant 0 <= i <= |input| && inbuf.Length == BUFFER && inbufptr <= BUFFER && !held
        invariant var rest := Read(echo, inbuf[..inbufptr], input[i..]);
                  all == rest.(frames := frames + rest.frames)
        decreases |input| - i
      {
        ReadDropsLong(echo, inbuf[..inbufptr], input[i..]);
        if inbufptr >= BUFFER {
          inbufptr := 0;
        }
        ReadAt(echo, inbuf[..inbufptr], input, i);
        if i == |input| {
          return;
        }
        if input[i] == END {
          if inbufptr > 0 {
            Prepended(frames, inbuf[..inbufptr], Read(echo, [], input[i + 1..]).frames);
            frames := frames + [inbuf[..inbufptr]];
            inbufptr := 0;
          }
          i := i + 1;
        } else if input[i] == ESC {
          if i + 1 == |input| {
            held := true;
            return;
          }
          Store(echo, Unescaped(input[i + 1]));
          i := i + 2;
        } else {
          Store(echo, input[i]);
          i := i + 1;
        }
      }
    }
  }
}
