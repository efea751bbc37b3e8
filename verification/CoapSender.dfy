/** Serializing a CoAP message into a buffer, option by option, as it works in place. */
module CoapSender {
  import opened CoapOptions
  import opened CoapMessage

  /** coap_log_2. */
  method FloorLog2(value: nat) returns (r: nat)
    ensures r == Log2(value)
    ensures value > 0 ==> Power(r) <= value < 2 * Power(r)
  {
    if value > 0 {
      LogBound(value);
    }
    var v: nat := value / 2;
    r := 1;
    while v != 0
      invariant r >= 1
      invariant Log2(value) == r - 1 + (if v == 0 then 0 else 1 + Log2(v))
    {
      v := v / 2;
      r := r + 1;
    }
    r := r - 1;
  }

  /** coap_parse_int_option. */
  method ParseInt(bytes: seq<Byte>) returns (v: nat)
    ensures v == IntOf(bytes)
  {
    v := 0;
    var i := 0;
    while i < |bytes|
      invariant 0 <= i <= |bytes| && v == IntOf(bytes[..i])
    {
      assert bytes[..i + 1][..i] == bytes[..i];
      v := (v * 256 + bytes[i]) % 0x1_0000_0000;
      i := i + 1;
    }
    assert bytes[..i] == bytes;
  }

  /** The buffer, and whether something was written behind its end. */
  datatype Memory = Memory(bytes: seq<Byte>, overrun: bool)

  /** After `bytes` were written at `at`: those that are in the buffer are there, and any other one is an
      overrun. */
  ghost predicate Written(before: Memory, after: Memory, at: nat, bytes: seq<Byte>) {
    && |after.bytes| == |before.bytes|
    && (forall i :: 0 <= i < |after.bytes| ==>
          after.bytes[i] == if at <= i < at + |bytes| then bytes[i - at] else before.bytes[i])
    && (after.overrun <==> before.overrun || (bytes != [] && at + |bytes| > |before.bytes|))
  }

  lemma WrittenOn(a: Memory, b: Memory, c: Memory, at: nat, x: seq<Byte>, y: seq<Byte>)
    requires Written(a, b, at, x) && Written(b, c, at + |x|, y)
    ensures Written(a, c, at, x + y)
  {
  }

  /** What a call of coap_serialize_message comes to: a length, which is zero for an error, or bytes
      written behind the end of the buffer. */
  datatype Serialization = Length(n: nat) | Overrun

  /** The first bytes, the token and the options. */
  function HeaderOf(p: Packet, beyond: nat -> Byte): (r: seq<Byte>)
    requires Serializable(p)
  {
    OptionsAscend(p.fields, beyond, 0, 0);
    FirstBytes(p.kind, |p.token|, p.code, p.mid) + p.token + Encoded(0, OptionsFrom(p.fields, beyond, 0))
  }

  /** How much of a buffer a packet takes: the options are written before the length of the header is
      compared. */
  function Needed(p: Packet, beyond: nat -> Byte): (n: nat)
    requires Serializable(p)
  {
    if p.code == 0 then 4 else
    var header := |HeaderOf(p, beyond)|;
    if header > MAX_HEADER_SIZE then header else header + |Marked(p.payload)|
  }

  class Sender {
    const buffer: array<Byte>
    var overrun: bool

    constructor (buffer: array<Byte>)
      ensures this.buffer == buffer && !overrun
    {
      this.buffer := buffer;
      overrun := false;
    }

    ghost function Contents(): Memory
      reads this, buffer
    {
      Memory(buffer[..], overrun)
    }

    method PutByte(at: nat, b: Byte)
      modifies this`overrun, buffer
      ensures Written(old(Contents()), Contents(), at, [b])
    {
      if at < buffer.Length {
        buffer[at] := b;
      } else {
        overrun := true;
      }
    }

    /** The bytes behind a nibble. */
    method PutExtension(at: nat, value: nat) returns (next: nat)
      modifies this`overrun, buffer
      ensures next == at + |Extension(value)| && Written(old(Contents()), Contents(), at, Extension(value))
    {
      ghost var before := Contents();
      next := at;
      if value > 268 {
        PutByte(at, Low((value - 269) / 256));
        ghost var middle := Contents();
        PutByte(at + 1, Low(value - 269));
        WrittenOn(before, middle, Contents(), at, [Low((value - 269) / 256)], [Low(value - 269)]);
        assert [Low((value - 269) / 256)] + [Low(value - 269)] == Extension(value);
        next := at + 2;
      } else if value > 12 {
        PutByte(at, Low(value - 13));
        next := at + 1;
      } else {
        NothingWritten(before, at);
      }
    }

    /** coap_set_option_header. */
    method PutHeader(at: nat, delta: nat, length: nat) returns (next: nat)
      modifies this`overrun, buffer
      ensures next == at + |Header(delta, length)| && Written(old(Contents()), Contents(), at, Header(delta, length))
    {
      hide Extension;
      ghost var before := Contents();
      var first: Byte := Nibble(delta) * 16 + Nibble(length);
      PutByte(at, first);
      ghost var one := Contents();
      next := PutExtension(at + 1, delta);
      WrittenOn(before, one, Contents(), at, [first], Extension(delta));
      ghost var two := Contents();
      next := PutExtension(next, length);
      WrittenOn(before, two, Contents(), at, [first] + Extension(delta), Extension(length));
    }

    /** A value behind its header. */
    method PutOption(at: nat, delta: nat, value: seq<Byte>) returns (next: nat)
      modifies this`overrun, buffer
      ensures next == at + |Header(delta, |value|)| + |value|
      ensures Written(old(Contents()), Contents(), at, Header(delta, |value|) + value)
    {
      hide Header;
      ghost var before := Contents();
      next := PutHeader(at, delta, |value|);
      ghost var middle := Contents();
      CopyBytes(next, value);
      WrittenOn(before, middle, Contents(), at, Header(delta, |value|), value);
      next := next + |value|;
    }

    method CopyBytes(at: nat, bytes: seq<Byte>)
      modifies this`overrun, buffer
      ensures Written(old(Contents()), Contents(), at, bytes)
    {
      ghost var before := Contents();
      var i := 0;
      while i < |bytes|
        invariant 0 <= i <= |bytes| && Written(before, Contents(), at, bytes[..i])
      {
        ghost var middle := Contents();
        PutByte(at + i, bytes[i]);
        WrittenOn(before, middle, Contents(), at, bytes[..i], [bytes[i]]);
        assert bytes[..i] + [bytes[i]] == bytes[..i + 1];
        i := i + 1;
      }
      assert bytes[..i] == bytes;
    }

    /** coap_serialize_array_option with a separator: the byte behind each separator is passed over,
        and the byte behind the terminator may be looked at. */
    method PutParts(at: nat, number: nat, current: nat, s: seq<Byte>, beyond: Byte, sep: Byte) returns (next: nat)
      requires current <= number && Ascending(current, Tagged(number, Parts(s, beyond, sep)))
      modifies this`overrun, buffer
      ensures next == at + |Encoded(current, Tagged(number, Parts(s, beyond, sep)))|
      ensures Written(old(Contents()), Contents(), at, Encoded(current, Tagged(number, Parts(s, beyond, sep))))
    {
      hide Header, Tagged, Encoded, Ascending, Written;
      ghost var before := Contents();
      ghost var all := Encoded(current, Tagged(number, Parts(s, beyond, sep)));
      ghost var done: seq<Byte> := [];
      NothingWritten(before, at);
      next := at;
      var last: nat, start: nat, j: nat := current, 0, 0;
      while j <= |s| + 1
        invariant 0 <= start <= j && last <= number && next == at + |done|
        invariant Written(before, Contents(), at, done)
        invariant Ascending(last, Tagged(number, PartsFrom(s, beyond, sep, start, j)))
        invariant all == done + Encoded(last, Tagged(number, PartsFrom(s, beyond, sep, start, j)))
        decreases |s| + 3 - j
      {
        if At(s, beyond, j) == sep || j == |s| {
          var part := (s + [0])[start..j];
          ghost var later := PartsFrom(s, beyond, sep, j + 1, j + 2);
          PartFirst(number, last, part, later);
          assert PartsFrom(s, beyond, sep, start, j) == [part] + later;
          ghost var middle := Contents();
          next := PutOption(next, number - last, part);
          WrittenOn(before, middle, Contents(), at, done, Header(number - last, |part|) + part);
          done := done + (Header(number - last, |part|) + part);
          last := number;
          start := j + 1;
          j := j + 2;
        } else {
          j := j + 1;
        }
      }
      NoParts(number, last);
      assert done + [] == done;
    }

    /** One of the serialization macros. */
    method PutField(at: nat, number: nat, current: nat, value: Value, beyond: Byte) returns (next: nat)
      requires Settable(number, value) && current <= number
      requires Ascending(current, Tagged(number, ValueParts(number, value, beyond)))
      modifies this`overrun, buffer
      ensures next == at + |Encoded(current, Tagged(number, ValueParts(number, value, beyond)))|
      ensures Written(old(Contents()), Contents(), at, Encoded(current, Tagged(number, ValueParts(number, value, beyond))))
    {
      hide Header, Encoded, Ascending, Written, Tagged;
      var k := KindOf(number);
      if k.SplitKind? {
        next := PutParts(at, number, current, value.s, beyond, k.sep);
      } else {
        var bytes: seq<Byte>;
        if k.OpaqueKind? {
          bytes := value.bytes;
        } else if k.TextKind? {
          bytes := value.s;
        } else if k.FlagKind? {
          bytes := [];
        } else if k.NumberKind? {
          bytes := IntBytes(value.v);
        } else {
          bytes := IntBytes(BlockValue(value.b));
        }
        assert ValueParts(number, value, beyond) == [bytes] + [];
        hide ValueParts, Settable, KindOf;
        PartFirst(number, current, bytes, []);
        NoParts(number, number);
        assert Header(number - current, |bytes|) + bytes + [] == Header(number - current, |bytes|) + bytes;
        next := PutOption(at, number - current, bytes);
      }
    }

    /** coap_serialize_message. */
    method SerializeMessage(p: Packet, beyond: nat -> Byte) returns (r: Serialization)
      requires Serializable(p)
      modifies this`overrun, buffer
      ensures r.Overrun? <==> Needed(p, beyond) > buffer.Length
      ensures r.Length? ==> r.n == |Serialized(p, beyond)| <= buffer.Length && buffer[..r.n] == Serialized(p, beyond)
    {
      OptionsAscend(p.fields, beyond, 0, 0);
      hide Written, Encoded, Ascending, OptionsFrom, AllSettable, FirstBytes, Marked, Serialized;
      overrun := false;
      ghost var before := Contents();
      SerializedAs(p, beyond);
      var n := PutHead(p);
      if p.code == 0 {
        WrittenPrefix(before, Contents(), FirstBytes(p.kind, |p.token|, p.code, p.mid));
        return if overrun then Overrun else Length(n);
      }
      n := PutOptionsBehind(p, beyond, n, before);
      ghost var header := HeaderOf(p, beyond);
      if n > MAX_HEADER_SIZE {
        WrittenPrefix(before, Contents(), header);
        return if overrun then Overrun else Length(0);
      }
      n := PutPayloadBehind(p.payload, n, header, before);
      WrittenPrefix(before, Contents(), header + Marked(p.payload));
      return if overrun then Overrun else Length(n);
    }

    /** The options behind the first bytes and the token, which are in place. */
    method PutOptionsBehind(p: Packet, beyond: nat -> Byte, at: nat, ghost before: Memory) returns (n: nat)
      requires Serializable(p) && Ascending(0, OptionsFrom(p.fields, beyond, 0))
      requires at == 4 + |p.token|
      requires Written(before, Contents(), 0, FirstBytes(p.kind, |p.token|, p.code, p.mid) + p.token)
      modifies this`overrun, buffer
      ensures n == |HeaderOf(p, beyond)| && Written(before, Contents(), 0, HeaderOf(p, beyond))
    {
      hide Written, Encoded, Ascending, OptionsFrom, FirstBytes;
      ghost var middle := Contents();
      n := PutOptions(at, p.fields, beyond);
      WrittenOn(before, middle, Contents(), 0, FirstBytes(p.kind, |p.token|, p.code, p.mid) + p.token,
                Encoded(0, OptionsFrom(p.fields, beyond, 0)));
    }

    /** The payload, if there is any, behind a header that is in place. */
    method PutPayloadBehind(payload: seq<Byte>, at: nat, ghost header: seq<Byte>, ghost before: Memory) returns (n: nat)
      requires at == |header| && Written(before, Contents(), 0, header)
      modifies this`overrun, buffer
      ensures n == |header + Marked(payload)| && Written(before, Contents(), 0, header + Marked(payload))
    {
      hide Written, Marked;
      ghost var middle := Contents();
      PutPayload(at, payload);
      WrittenOn(before, middle, Contents(), 0, header, Marked(payload));
      MarkedLength(payload);
      n := at + (if |payload| > 0 then 1 else 0) + |payload|;
    }

    /** The four first bytes and, for a message with a code, the token. */
    method PutHead(p: Packet) returns (n: nat)
      requires p.kind < 4 && p.code < 256 && p.mid < 0x1_0000
      modifies this`overrun, buffer
      ensures var first := FirstBytes(p.kind, |p.token|, p.code, p.mid);
              var head := if p.code == 0 then first else first + p.token;
              n == |head| && Written(old(Contents()), Contents(), 0, head)
    {
      hide Written;
      ghost var before := Contents();
      var first := FirstBytes(p.kind, |p.token|, p.code, p.mid);
      CopyBytes(0, first);
      if p.code == 0 {
        return 4;
      }
      ghost var middle := Contents();
      CopyBytes(4, p.token);
      WrittenOn(before, middle, Contents(), 0, first, p.token);
      return 4 + |p.token|;
    }

    /** The payload behind its marker, if there is any. */
    method PutPayload(at: nat, payload: seq<Byte>)
      modifies this`overrun, buffer
      ensures Written(old(Contents()), Contents(), at, Marked(payload))
    {
      if |payload| > 0 {
        ghost var before := Contents();
        PutByte(at, 255);
        ghost var middle := Contents();
        CopyBytes(at + 1, payload);
        WrittenOn(before, middle, Contents(), at, [255], payload);
      } else {
        NothingWritten(Contents(), at);
        assert Marked(payload) == [];
      }
    }

    /** The options of a packet, in the order of their numbers. */
    method PutOptions(at: nat, fields: Fields, beyond: nat -> Byte) returns (next: nat)
      requires AllSettable(fields) && Ascending(0, OptionsFrom(fields, beyond, 0))
      modifies this`overrun, buffer
      ensures next == at + |Encoded(0, OptionsFrom(fields, beyond, 0))|
      ensures Written(old(Contents()), Contents(), at, Encoded(0, OptionsFrom(fields, beyond, 0)))
    {
      hide Written, Encoded, Ascending, Tagged, ValueParts, Settable, OrderAt, OptionsFrom;
      ghost var before := Contents();
      ghost var all := Encoded(0, OptionsFrom(fields, beyond, 0));
      ghost var done: seq<Byte> := [];
      NothingWritten(before, at);
      next := at;
      var current: nat := 0;
      for k := 0 to KNOWN
        invariant next == at + |done| && Written(before, Contents(), at, done)
        invariant Ascending(current, OptionsFrom(fields, beyond, k))
        invariant all == done + Encoded(current, OptionsFrom(fields, beyond, k))
      {
        var n := OrderAt(k);
        OptionsStep(fields, beyond, k, current);
        if n in fields {
          ghost var own := Encoded(current, Tagged(n, ValueParts(n, fields[n], beyond(n))));
          ghost var later := Encoded(n, OptionsFrom(fields, beyond, k + 1));
          ghost var middle := Contents();
          next := PutField(next, n, current, fields[n], beyond(n));
          WrittenOn(before, middle, Contents(), at, done, own);
          assert done + (own + later) == done + own + later;
          done := done + own;
          current := n;
        }
      }
      NothingEncoded(fields, beyond, current);
      assert done + [] == done;
    }
  }

  lemma NothingEncoded(fields: Fields, beyond: nat -> Byte, current: nat)
    requires AllSettable(fields)
    ensures Ascending(current, OptionsFrom(fields, beyond, KNOWN))
    ensures Encoded(current, OptionsFrom(fields, beyond, KNOWN)) == []
  {
  }

  /** The options from one place of the order on: those of its field, and the later ones. */
  lemma OptionsStep(fields: Fields, beyond: nat -> Byte, k: nat, current: nat)
    requires AllSettable(fields) && k < KNOWN && Ascending(current, OptionsFrom(fields, beyond, k))
    ensures var n := OrderAt(k);
            var rest := OptionsFrom(fields, beyond, k + 1);
            if n in fields then
              var own := Tagged(n, ValueParts(n, fields[n], beyond(n)));
              && current <= n && Ascending(current, own) && Ascending(n, rest)
              && Encoded(current, OptionsFrom(fields, beyond, k)) == Encoded(current, own) + Encoded(n, rest)
            else
              OptionsFrom(fields, beyond, k) == rest
  {
    hide Encoded, Ascending, Tagged, ValueParts, Settable, OrderAt;
    var n := OrderAt(k);
    var rest := OptionsFrom(fields, beyond, k + 1);
    if n in fields {
      assert OptionsFrom(fields, beyond, k) == Tagged(n, ValueParts(n, fields[n], beyond(n))) + rest;
      EncodedSplits(n, current, fields[n], beyond(n), rest);
    } else {
      assert [] + rest == rest;
    }
  }

  lemma WrittenPrefix(before: Memory, after: Memory, bytes: seq<Byte>)
    requires Written(before, after, 0, bytes) && !before.overrun
    ensures after.overrun <==> |bytes| > |after.bytes|
    ensures !after.overrun ==> after.bytes[..|bytes|] == bytes
  {
  }

  lemma SerializedAs(p: Packet, beyond: nat -> Byte)
    requires Serializable(p) && Ascending(0, OptionsFrom(p.fields, beyond, 0))
    ensures p.code == 0 ==>
      Serialized(p, beyond) == FirstBytes(p.kind, |p.token|, p.code, p.mid) && Needed(p, beyond) == 4
    ensures p.code > 0 ==>
      var header := HeaderOf(p, beyond);
      if |header| > MAX_HEADER_SIZE then Serialized(p, beyond) == [] && Needed(p, beyond) == |header|
      else Serialized(p, beyond) == header + Marked(p.payload) && Needed(p, beyond) == |header + Marked(p.payload)|
  {
    hide OptionsFrom, Encoded, FirstBytes, Ascending, AllSettable;
    var header := HeaderOf(p, beyond);
    assert header + (if p.payload == [] then [] else [255]) + p.payload == header + Marked(p.payload);
  }

  lemma MarkedLength(payload: seq<Byte>)
    ensures |Marked(payload)| == (if |payload| > 0 then 1 else 0) + |payload|
  {
  }

  lemma {:induction false} TaggedThen(number: nat, current: nat, parts: seq<seq<Byte>>, rest: seq<RawOption>)
    requires parts != [] && Ascending(current, Tagged(number, parts) + rest)
    ensures current <= number && Ascending(current, Tagged(number, parts)) && Ascending(number, rest)
    ensures Encoded(current, Tagged(number, parts) + rest) == Encoded(current, Tagged(number, parts)) + Encoded(number, rest)
    decreases |parts|
  {
    hide Header;
    var first, later := RawOption(number, parts[0]), Tagged(number, parts[1..]);
    assert Tagged(number, parts) == [first] + later;
    assert Tagged(number, parts) + rest == [first] + (later + rest);
    assert ([first] + later)[1..] == later && ([first] + (later + rest))[1..] == later + rest;
    if |parts| == 1 {
      assert later == [] && later + rest == rest;
    } else {
      TaggedThen(number, number, parts[1..], rest);
    }
    var one := Header(number - current, |parts[0]|) + parts[0];
    assert Encoded(current, [first] + (later + rest)) == one + Encoded(number, later + rest);
    assert Encoded(current, [first] + later) == one + Encoded(number, later);
  }

  lemma EncodedSplits(number: nat, current: nat, value: Value, beyond: Byte, rest: seq<RawOption>)
    requires Settable(number, value)
    requires Ascending(current, Tagged(number, ValueParts(number, value, beyond)) + rest)
    ensures var own := Tagged(number, ValueParts(number, value, beyond));
            && current <= number && Ascending(current, own) && Ascending(number, rest)
            && Encoded(current, own + rest) == Encoded(current, own) + Encoded(number, rest)
  {
    var k := KindOf(number);
    if k.SplitKind? {
      PartsNotEmpty(value.s, beyond, k.sep, 0, 0);
    }
    assert ValueParts(number, value, beyond) != [];
    hide ValueParts, Settable, KindOf, Tagged, Encoded, Ascending;
    TaggedThen(number, current, ValueParts(number, value, beyond), rest);
  }

  lemma NothingWritten(before: Memory, at: nat)
    ensures Written(before, before, at, [])
  {
  }

  lemma NoParts(number: nat, current: nat)
    ensures Ascending(current, Tagged(number, [])) && Encoded(current, Tagged(number, [])) == []
  {
  }

  lemma PartFirst(number: nat, current: nat, part: seq<Byte>, later: seq<seq<Byte>>)
    requires Ascending(current, Tagged(number, [part] + later)) && current <= number
    ensures Ascending(number, Tagged(number, later))
    ensures Encoded(current, Tagged(number, [part] + later)) ==
      Header(number - current, |part|) + part + Encoded(number, Tagged(number, later))
  {
    var first := RawOption(number, part);
    assert ([part] + later)[1..] == later;
    assert Tagged(number, [part] + later) == [first] + Tagged(number, later);
    hide Tagged, Header;
    assert ([first] + Tagged(number, later))[1..] == Tagged(number, later);
  }

  // ---------------------------------------------------- the transaction's buffer

  /** The size of the buffer of a transaction. */
  const PACKET_SIZE: nat := MAX_HEADER_SIZE + MAX_CHUNK_SIZE + 1

  /** Serialization stays in the buffer of a transaction exactly when the header does, whether it is then
      accepted or found too long; the setter has cut the payload to a chunk. */
  lemma StaysInTransaction(p: Packet, beyond: nat -> Byte)
    requires Serializable(p) && p.code > 0 && |p.payload| <= MAX_CHUNK_SIZE
    ensures Needed(p, beyond) <= PACKET_SIZE <==> |HeaderOf(p, beyond)| <= PACKET_SIZE
    ensures Needed(p, beyond) <= PACKET_SIZE && |HeaderOf(p, beyond)| > MAX_HEADER_SIZE ==> Serialized(p, beyond) == []
  {
    OptionsAscend(p.fields, beyond, 0, 0);
    SerializedAs(p, beyond);
    MarkedLength(p.payload);
    hide HeaderOf, Serialized;
  }

  /** The parts of a string take at least its length, with their headers. */
  lemma {:induction false} PartsNeed(number: nat, current: nat, s: seq<Byte>, beyond: Byte, sep: Byte, start: nat, j: nat)
    requires start <= j && (j <= |s| || |s| <= start)
    requires current <= number && Ascending(current, Tagged(number, PartsFrom(s, beyond, sep, start, j)))
    ensures |Encoded(current, Tagged(number, PartsFrom(s, beyond, sep, start, j)))| >= |s| - start
    decreases |s| + 3 - j
  {
    hide Header, Tagged, Encoded, Ascending;
    if j > |s| + 1 {
    } else if At(s, beyond, j) == sep || j == |s| {
      var part := (s + [0])[start..j];
      var later := PartsFrom(s, beyond, sep, j + 1, j + 2);
      assert PartsFrom(s, beyond, sep, start, j) == [part] + later;
      PartFirst(number, current, part, later);
      HeaderIsNoMarker(number - current, |part|);
      PartsNeed(number, number, s, beyond, sep, j + 1, j + 2);
    } else {
      PartsNeed(number, current, s, beyond, sep, start, j + 1);
    }
  }

  lemma FieldNeeds(number: nat, current: nat, value: Value, beyond: Byte)
    requires Settable(number, value) && value.Text? && current <= number
    requires Ascending(current, Tagged(number, ValueParts(number, value, beyond)))
    ensures |Encoded(current, Tagged(number, ValueParts(number, value, beyond)))| >= |value.s|
  {
    var k := KindOf(number);
    if k.SplitKind? {
      hide Encoded, Ascending, Tagged;
      PartsNeed(number, current, value.s, beyond, k.sep, 0, 0);
    } else {
      assert ValueParts(number, value, beyond) == [value.s] + [];
      hide ValueParts, Settable, KindOf, Header;
      PartFirst(number, current, value.s, []);
    }
  }

  lemma {:induction false} OptionsNeed(fields: Fields, beyond: nat -> Byte, k: nat, current: nat, i: nat)
    requires AllSettable(fields) && k <= i < KNOWN && Ascending(current, OptionsFrom(fields, beyond, k))
    requires OrderAt(i) in fields && fields[OrderAt(i)].Text?
    ensures |Encoded(current, OptionsFrom(fields, beyond, k))| >= |fields[OrderAt(i)].s|
    decreases i - k
  {
    hide Encoded, Ascending, Tagged, ValueParts, Settable, OrderAt, OptionsFrom;
    var n := OrderAt(k);
    OptionsStep(fields, beyond, k, current);
    if k == i {
      FieldNeeds(n, current, fields[n], beyond(n));
    } else {
      OptionsNeed(fields, beyond, k + 1, if n in fields then n else current, i);
    }
  }

  /** Any string, path or query that is as long as the buffer runs over it before its length is
      compared, as a path of 150 bytes does. */
  lemma LongStringOverruns(p: Packet, beyond: nat -> Byte, number: nat)
    requires Serializable(p) && p.code > 0 && number in p.fields && p.fields[number].Text?
    requires 4 + |p.token| + |p.fields[number].s| > PACKET_SIZE
    ensures Needed(p, beyond) > PACKET_SIZE
  {
    assert Settable(number, p.fields[number]);
    var i := OrderHas(number);
    OptionsAscend(p.fields, beyond, 0, 0);
    hide Encoded, Ascending, OptionsFrom, OrderAt, KindOf, Settable;
    OptionsNeed(p.fields, beyond, 0, 0, i);
  }

  /** A request for a path of 150 bytes. */
  function LongPath(): Packet {
    Packet(0, 1, 0, [], map[11 := Text(seq(150, _ => 97))], [])
  }

  lemma LongPathOverruns(beyond: nat -> Byte)
    ensures Serializable(LongPath()) && Needed(LongPath(), beyond) > PACKET_SIZE
  {
    LongStringOverruns(LongPath(), beyond, 11);
  }
}
