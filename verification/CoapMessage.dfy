/** CoAP messages: serializing a packet, parsing one, and when the two are inverse (section 3 of
    RFC 7252). The option fields of a packet are held by option number. */
module CoapMessage {
  import opened CoapOptions

  const TOKEN_LEN: nat := 8
  const ETAG_LEN: nat := 8
  const MAX_HEADER_SIZE: nat := 62
  const MAX_CHUNK_SIZE: nat := 64

  const BAD_REQUEST: nat := 128
  const BAD_OPTION: nat := 130
  const PROXYING_NOT_SUPPORTED: nat := 165

  const SLASH: Byte := 47
  const AMPERSAND: Byte := 38

  /** How an option is written and read. */
  datatype Kind = OpaqueKind | NumberKind(width: nat) | FlagKind | TextKind | SplitKind(sep: Byte) | BlockKind
                | ProxyKind | OtherKind

  function KindOf(number: nat): (k: Kind) {
    if number == 1 || number == 4 then OpaqueKind
    else if number == 3 then TextKind
    else if number == 5 then FlagKind
    else if number == 7 || number == 12 || number == 17 then NumberKind(0x1_0000)
    else if number == 6 || number == 14 || number == 28 || number == 60 then NumberKind(0x1_0000_0000)
    else if number == 8 || number == 11 then SplitKind(SLASH)
    else if number == 15 || number == 20 then SplitKind(AMPERSAND)
    else if number == 23 || number == 27 then BlockKind
    else if number == 35 || number == 39 then ProxyKind
    else OtherKind
  }

  /** A field of a packet; `Ignored` is an elective option that is noted and not kept. */
  datatype Value = Octets(bytes: seq<Byte>) | Number(v: nat) | Flag | Text(s: seq<Byte>) | Chunk(b: Block) | Ignored

  type Fields = map<nat, Value>

  datatype Packet = Packet(kind: nat, code: nat, mid: nat, token: seq<Byte>, fields: Fields, payload: seq<Byte>)

  const KNOWN: nat := 19

  /** The options in the order in which they are written. */
  function OrderAt(k: nat): (number: nat)
    requires k < KNOWN
  {
    [1, 3, 4, 5, 6, 7, 8, 11, 12, 14, 15, 17, 20, 23, 27, 28, 35, 39, 60][k]
  }

  lemma OrderAscends(k: nat)
    requires k + 1 < KNOWN
    ensures OrderAt(k) < OrderAt(k + 1)
  {
  }

  /** The order has every option that is known, and no other. */
  lemma OrderHas(number: nat) returns (k: nat)
    requires !KindOf(number).OtherKind?
    ensures k < KNOWN && OrderAt(k) == number
  {
    k := if number == 1 then 0 else if number == 3 then 1 else if number == 4 then 2 else if number == 5 then 3
         else if number == 6 then 4 else if number == 7 then 5 else if number == 8 then 6 else if number == 11 then 7
         else if number == 12 then 8 else if number == 14 then 9 else if number == 15 then 10
         else if number == 17 then 11 else if number == 20 then 12 else if number == 23 then 13
         else if number == 27 then 14 else if number == 28 then 15 else if number == 35 then 16
         else if number == 39 then 17 else 18;
  }

  // ------------------------------------------------------------- serializing

  /** A field that a setter can have set for the option. */
  predicate Settable(number: nat, value: Value) {
    var k := KindOf(number);
    || (k.OpaqueKind? && value.Octets? && |value.bytes| <= ETAG_LEN)
    || (k.NumberKind? && value.Number? && value.v < k.width)
    || (k.FlagKind? && value.Flag?)
    || ((k.TextKind? || k.SplitKind?) && value.Text?)
    || (k.BlockKind? && value.Chunk? && BlockSet(value.b))
  }

  /** The option values that stand for a field. */
  function ValueParts(number: nat, value: Value, beyond: Byte): (parts: seq<seq<Byte>>)
    requires Settable(number, value)
  {
    var k := KindOf(number);
    if k.OpaqueKind? then [value.bytes]
    else if k.NumberKind? then (assert k.width <= 0x1_0000_0000; [IntBytes(value.v)])
    else if k.FlagKind? then [[]]
    else if k.TextKind? then [value.s]
    else if k.SplitKind? then Parts(value.s, beyond, k.sep)
    else [IntBytes(BlockValue(value.b))]
  }

  datatype RawOption = RawOption(number: nat, value: seq<Byte>)

  function Tagged(number: nat, parts: seq<seq<Byte>>): (r: seq<RawOption>)
    ensures |r| == |parts|
  {
    if parts == [] then [] else [RawOption(number, parts[0])] + Tagged(number, parts[1..])
  }

  predicate AllSettable(fields: Fields) {
    forall n :: n in fields ==> Settable(n, fields[n])
  }

  /** The options of a packet from place `k` of the order on; `beyond` are the bytes that happen to
      lie behind the strings. */
  function OptionsFrom(fields: Fields, beyond: nat -> Byte, k: nat): (r: seq<RawOption>)
    requires AllSettable(fields)
    decreases KNOWN - k
  {
    if k >= KNOWN then [] else
    (if OrderAt(k) in fields then Tagged(OrderAt(k), ValueParts(OrderAt(k), fields[OrderAt(k)], beyond(OrderAt(k)))) else [])
    + OptionsFrom(fields, beyond, k + 1)
  }

  function Encoded(current: nat, options: seq<RawOption>): (r: seq<Byte>)
    requires Ascending(current, options)
    decreases |options|
  {
    if options == [] then [] else
    var o := options[0];
    Header(o.number - current, |o.value|) + o.value + Encoded(o.number, options[1..])
  }

  predicate Ascending(current: nat, options: seq<RawOption>)
    decreases |options|
  {
    options == [] || (current <= options[0].number && Ascending(options[0].number, options[1..]))
  }

  function FirstBytes(kind: nat, tokenLen: nat, code: nat, mid: nat): (r: seq<Byte>)
    requires kind < 4 && code < 256 && mid < 0x1_0000
    ensures |r| == 4
  {
    [64 + 16 * kind + tokenLen % 16, code, mid / 256, mid % 256]
  }

  predicate Serializable(p: Packet) {
    p.kind < 4 && p.code < 256 && p.mid < 0x1_0000 && |p.token| <= TOKEN_LEN && AllSettable(p.fields)
  }

  /** coap_serialize_message; nothing when the header is too long. */
  function Serialized(p: Packet, beyond: nat -> Byte): (r: seq<Byte>)
    requires Serializable(p)
  {
    var first := FirstBytes(p.kind, |p.token|, p.code, p.mid);
    if p.code == 0 then first else
    OptionsAscend(p.fields, beyond, 0, 0);
    var header := first + p.token + Encoded(0, OptionsFrom(p.fields, beyond, 0));
    if |header| > MAX_HEADER_SIZE then []
    else header + (if p.payload == [] then [] else [255]) + p.payload
  }

  lemma {:induction false} TaggedAscend(number: nat, parts: seq<seq<Byte>>, rest: seq<RawOption>)
    requires Ascending(number, rest)
    ensures Ascending(number, Tagged(number, parts) + rest)
  {
    if parts == [] {
      assert Tagged(number, parts) + rest == rest;
    } else {
      var first := RawOption(number, parts[0]);
      var later := Tagged(number, parts[1..]) + rest;
      TaggedAscend(number, parts[1..], rest);
      assert Tagged(number, parts) + rest == [first] + later;
      hide Tagged;
      assert ([first] + later)[1..] == later;
    }
  }

  lemma AscendingFromLower(low: nat, high: nat, options: seq<RawOption>)
    requires low <= high && Ascending(high, options)
    ensures Ascending(low, options)
  {
  }

  lemma {:induction false} OptionsAscend(fields: Fields, beyond: nat -> Byte, k: nat, current: nat)
    requires AllSettable(fields)
    requires k < KNOWN ==> current <= OrderAt(k)
    ensures Ascending(current, OptionsFrom(fields, beyond, k))
    decreases KNOWN - k
  {
    if k < KNOWN {
      var n := OrderAt(k);
      if k + 1 < KNOWN {
        OrderAscends(k);
      }
      hide OrderAt, Settable, ValueParts, Ascending, Tagged;
      OptionsAscend(fields, beyond, k + 1, n);
      var rest := OptionsFrom(fields, beyond, k + 1);
      if n in fields {
        TaggedAscend(n, ValueParts(n, fields[n], beyond(n)), rest);
      } else {
        assert [] + rest == rest;
      }
      AscendingFromLower(current, n, OptionsFrom(fields, beyond, k));
    }
  }

  // ----------------------------------------------------------------- parsing

  /** What parsing comes to: a packet, a rejection, or a read or write outside its buffers. */
  datatype Outcome = Parsed(p: Packet) | Rejected(status: nat) | Fault

  /** Fields with one more option noted, a refusal, or a bit set outside the bitmap of options. */
  datatype Noting = Kept(fields: Fields) | Refused(status: nat) | Astray

  /** The options that have a bit in the bitmap are those with smaller numbers. */
  const BITMAP_BITS: nat := 64

  /** SET_OPTION, which is done for any number, and one pass of the option switch. */
  function Noted(fields: Fields, number: nat, value: seq<Byte>): (r: Noting) {
    var k := KindOf(number);
    if number >= BITMAP_BITS then Astray
    else if k.NumberKind? then Kept(fields[number := Number(IntOf(value) % Max(k.width, 1))])
    else if k.OpaqueKind? then Kept(fields[number := Octets(value[..Min(ETAG_LEN, |value|)])])
    else if k.FlagKind? then Kept(fields[number := Flag])
    else if k.ProxyKind? then Refused(PROXYING_NOT_SUPPORTED)
    else if k.TextKind? then Kept(fields[number := Text(value)])
    else if k.SplitKind? then
      var acc := if number in fields && fields[number].Text? then fields[number].s else [];
      Kept(fields[number := Text(Merged(acc, value, k.sep))])
    else if k.BlockKind? then Kept(fields[number := Chunk(BlockOf(IntOf(value)))])
    else if number % 2 == 1 then Refused(BAD_OPTION)
    else Kept(fields[number := Ignored])
  }

  function Min(a: nat, b: nat): (r: nat) { if a < b then a else b }
  function Max(a: nat, b: nat): (r: nat) { if a < b then b else a }

  /** What the option loop comes to; `Cut` when it leaves the data or the packet. */
  datatype Options = Options(fields: Fields, payload: seq<Byte>) | Bad(status: nat) | Cut

  /** The end of the loop at an option that is not kept. */
  function Stopped(r: Noting): (o: Options)
    requires !r.Kept?
  {
    if r.Refused? then Bad(r.status) else Cut
  }

  /** The option loop of coap_parse_message. */
  function ParseOptions(rest: seq<Byte>, number: nat, fields: Fields): (r: Options)
    decreases |rest|
  {
    if rest == [] then Options(fields, [])
    else if rest[0] / 16 == 15 then Options(fields, rest[1..][..Min(|rest| - 1, MAX_CHUNK_SIZE)])
    else
      var delta := ReadExtended(rest[0] / 16, rest[1..]);
      if delta.None? then Cut else
      var length := ReadExtended(rest[0] % 16, delta.value.1);
      if length.None? || length.value.0 > |length.value.1| then Cut else
      var (n, tail) := (length.value.0, length.value.1);
      var read := Noted(fields, number + delta.value.0, tail[..n]);
      if !read.Kept? then Stopped(read)
      else ParseOptions(tail[n..], number + delta.value.0, read.fields)
  }

  /** coap_parse_message. */
  function Parse(data: seq<Byte>): (r: Outcome) {
    if |data| < 4 then Fault else
    var tokenLen := Min(TOKEN_LEN, data[0] % 16);
    if data[0] / 64 != 1 then Rejected(BAD_REQUEST)
    else if |data| < 4 + tokenLen then Fault
    else
      var options := ParseOptions(data[4 + tokenLen..], 0, map[]);
      if options.Cut? then Fault
      else if options.Bad? then Rejected(options.status)
      else Parsed(Packet((data[0] / 16) % 4, data[1], Both(data[2], data[3]), data[4..4 + tokenLen],
                         options.fields, options.payload))
  }

  // -------------------------------------------------------------- round trip

  /** Noting one option after another. */
  function NoteAll(fields: Fields, options: seq<RawOption>): (r: Noting)
    decreases |options|
  {
    if options == [] then Kept(fields) else
    var read := Noted(fields, options[0].number, options[0].value);
    if !read.Kept? then read else NoteAll(read.fields, options[1..])
  }

  predicate Encodable(current: nat, options: seq<RawOption>)
    decreases |options|
  {
    options == [] ||
    (current <= options[0].number <= current + 65804 && |options[0].value| <= 65804
     && Encodable(options[0].number, options[1..]))
  }

  /** One encoded option is read back as its number and value. */
  lemma ParsesOption(o: RawOption, current: nat, rest: seq<Byte>, fields: Fields)
    requires current <= o.number <= current + 65804 && |o.value| <= 65804
    ensures ParseOptions(Header(o.number - current, |o.value|) + o.value + rest, current, fields) ==
      var read := Noted(fields, o.number, o.value);
      if !read.Kept? then Stopped(read) else ParseOptions(rest, o.number, read.fields)
  {
    hide Extension, ReadExtended, Noted, Nibble, Header, ParseOptions;
    var delta, n := o.number - current, |o.value|;
    var tail := o.value + rest;
    var input := Header(delta, n) + o.value + rest;
    var middle := Extension(n) + tail;
    HeaderSplits(delta, n, o.value, rest);
    ExtensionReads(delta, middle);
    ExtensionReads(n, tail);
    assert tail[..n] == o.value && tail[n..] == rest;
    ParsesHeader(input, current, fields, delta, middle, n, tail);
  }

  lemma ParsesHeader(input: seq<Byte>, number: nat, fields: Fields, delta: nat, middle: seq<Byte>,
                                        n: nat, tail: seq<Byte>)
    requires input != [] && input[0] / 16 != 15
    requires ReadExtended(input[0] / 16, input[1..]) == Some((delta, middle))
    requires ReadExtended(input[0] % 16, middle) == Some((n, tail)) && n <= |tail|
    ensures |tail[n..]| < |input|
    ensures ParseOptions(input, number, fields) ==
      var read := Noted(fields, number + delta, tail[..n]);
      if !read.Kept? then Stopped(read) else ParseOptions(tail[n..], number + delta, read.fields)
  {
    hide Noted;
  }

  lemma HeaderSplits(delta: nat, n: nat, value: seq<Byte>, rest: seq<Byte>)
    ensures var input := Header(delta, n) + value + rest;
            && input != [] && input[0] / 16 == Nibble(delta) && input[0] % 16 == Nibble(n)
            && input[1..] == Extension(delta) + (Extension(n) + (value + rest))
  {
    var d, l := Nibble(delta), Nibble(n);
    SixteenTimes(d, l);
    hide Nibble, Extension;
    var input := Header(delta, n) + value + rest;
    assert input == [d * 16 + l] + (Extension(delta) + (Extension(n) + (value + rest)));
  }

  lemma SixteenTimes(d: nat, l: nat)
    requires l < 16
    ensures (d * 16 + l) / 16 == d && (d * 16 + l) % 16 == l
  {
  }

  function LastNumber(current: nat, options: seq<RawOption>): (n: nat)
    decreases |options|
  {
    if options == [] then current else LastNumber(options[0].number, options[1..])
  }

  lemma EncodedFirst(options: seq<RawOption>, current: nat, rest: seq<Byte>)
    requires options != [] && Ascending(current, options)
    ensures var o := options[0];
            Ascending(o.number, options[1..]) && o.number >= current &&
            Encoded(current, options) + rest ==
            Header(o.number - current, |o.value|) + o.value + (Encoded(o.number, options[1..]) + rest)
  {
    hide Header;
    var o := options[0];
    var later := Encoded(o.number, options[1..]);
    assert Encoded(current, options) == Header(o.number - current, |o.value|) + o.value + later;
  }

  /** Any list of options in ascending order is read back as it was written, whatever follows. */
  lemma {:induction false} ParsesOptions(options: seq<RawOption>, current: nat, rest: seq<Byte>, fields: Fields)
    requires Encodable(current, options) && Ascending(current, options)
    ensures ParseOptions(Encoded(current, options) + rest, current, fields) ==
      var read := NoteAll(fields, options);
      if !read.Kept? then Stopped(read) else ParseOptions(rest, LastNumber(current, options), read.fields)
    decreases |options|
  {
    hide ParseOptions, Noted, Header, Encoded, Ascending;
    if options == [] {
      EncodedNone(current, rest);
    } else {
      var o := options[0];
      EncodedFirst(options, current, rest);
      ParsesOption(o, current, Encoded(o.number, options[1..]) + rest, fields);
      NotedFirst(fields, options);
      assert Encodable(o.number, options[1..]) && LastNumber(current, options) == LastNumber(o.number, options[1..]);
      hide NoteAll, Encodable, LastNumber;
      var read := Noted(fields, o.number, o.value);
      if read.Kept? {
        ParsesOptions(options[1..], o.number, rest, read.fields);
      }
    }
  }

  lemma EncodedNone(current: nat, rest: seq<Byte>)
    ensures Encoded(current, []) + rest == rest
  {
    assert [] + rest == rest;
  }

  lemma NotedFirst(fields: Fields, options: seq<RawOption>)
    requires options != []
    ensures NoteAll(fields, options) ==
      var read := Noted(fields, options[0].number, options[0].value);
      if !read.Kept? then read else NoteAll(read.fields, options[1..])
  {
    hide Noted;
  }

  // ------------------------------------------------- what a field comes to

  /** A field as it is after its option values were noted. */
  function Reread(number: nat, value: Value, beyond: Byte): (r: Value)
    requires Settable(number, value)
  {
    var k := KindOf(number);
    if k.SplitKind? then Text(MergeAll([], Parts(value.s, beyond, k.sep), k.sep))
    else if k.BlockKind? then Chunk(BlockOf(BlockValue(value.b)))
    else value
  }

  /** A field that survives: a string cut at separators must be mergeable, a block size a power of
      two. */
  predicate Survives(number: nat, value: Value)
    requires Settable(number, value)
  {
    var k := KindOf(number);
    && (k.SplitKind? ==> Mergeable(value.s, k.sep))
    && (k.BlockKind? ==> value.b.size == 16 * Power(Log2(value.b.size / 16)))
  }

  lemma RereadIsSame(number: nat, value: Value, beyond: Byte)
    requires Settable(number, value)
    ensures Reread(number, value, beyond) == value <==> Survives(number, value)
  {
    var k := KindOf(number);
    if k.SplitKind? {
      StringRoundTrip(value.s, beyond, k.sep);
    } else if k.BlockKind? {
      BlockRoundTrip(value.b);
    }
  }

  /** Noting the segments of a string merges them. */
  lemma {:induction false} NotesParts(fields: Fields, number: nat, parts: seq<seq<Byte>>, acc: seq<Byte>)
    requires KindOf(number).SplitKind?
    requires parts != []
    requires acc == if number in fields && fields[number].Text? then fields[number].s else []
    ensures NoteAll(fields, Tagged(number, parts)) ==
      Kept(fields[number := Text(MergeAll(acc, parts, KindOf(number).sep))])
    decreases |parts|
  {
    var sep := KindOf(number).sep;
    var next := Merged(acc, parts[0], sep);
    var noted := fields[number := Text(next)];
    var tail := Tagged(number, parts[1..]);
    assert Noted(fields, number, parts[0]) == Kept(noted);
    assert Tagged(number, parts) == [RawOption(number, parts[0])] + tail;
    assert ([RawOption(number, parts[0])] + tail)[1..] == tail;
    hide KindOf, Merged;
    assert NoteAll(fields, Tagged(number, parts)) == NoteAll(noted, tail);
    if |parts| > 1 {
      NotesParts(noted, number, parts[1..], next);
      assert noted[number := Text(MergeAll(next, parts[1..], sep))] == fields[number := Text(MergeAll(next, parts[1..], sep))];
    } else {
      assert parts[1..] == [] && tail == [];
    }
  }

  lemma {:induction false} PartsNotEmpty(s: seq<Byte>, beyond: Byte, sep: Byte, start: nat, j: nat)
    requires start <= j <= |s|
    ensures PartsFrom(s, beyond, sep, start, j) != []
    decreases |s| - j
  {
    if j < |s| && s[j] != sep {
      PartsNotEmpty(s, beyond, sep, start, j + 1);
    }
  }

  lemma NotesOne(fields: Fields, number: nat, value: seq<Byte>)
    ensures NoteAll(fields, Tagged(number, [value])) == Noted(fields, number, value)
  {
    hide Noted;
    var o := RawOption(number, value);
    assert [value][1..] == [];
    assert Tagged(number, [value]) == [o] + [] == [o];
    assert [o][1..] == [];
    var read := Noted(fields, number, value);
    if read.Kept? {
      assert NoteAll(read.fields, []) == read;
    }
  }

  /** Noting the option values of a field gives the field back as reread. */
  lemma NotesField(fields: Fields, number: nat, value: Value, beyond: Byte)
    requires Settable(number, value) && number !in fields
    ensures NoteAll(fields, Tagged(number, ValueParts(number, value, beyond))) ==
      Kept(fields[number := Reread(number, value, beyond)])
  {
    var k := KindOf(number);
    if k.SplitKind? {
      PartsNotEmpty(value.s, beyond, k.sep, 0, 0);
      hide NoteAll, Tagged, PartsFrom, MergeAll;
      NotesParts(fields, number, Parts(value.s, beyond, k.sep), []);
    } else {
      var parts := ValueParts(number, value, beyond);
      assert |parts| == 1;
      NotesOne(fields, number, parts[0]);
      NotesSingle(fields, number, value, beyond);
      hide NoteAll, Tagged, Noted, ValueParts, Reread, KindOf;
      assert parts == [parts[0]];
    }
  }

  lemma NotesSingle(fields: Fields, number: nat, value: Value, beyond: Byte)
    requires Settable(number, value) && !KindOf(number).SplitKind?
    ensures |ValueParts(number, value, beyond)| == 1
    ensures Noted(fields, number, ValueParts(number, value, beyond)[0]) ==
      Kept(fields[number := Reread(number, value, beyond)])
  {
    KindWidth(number);
    hide KindOf, IntBytes, IntOf, BlockValue, BlockOf;
    var k := KindOf(number);
    if k.NumberKind? {
      NotesNumber(fields, number, value.v);
    } else if k.BlockKind? {
      NotesBlock(fields, number, value.b);
    } else if k.OpaqueKind? {
      assert value.bytes[..|value.bytes|] == value.bytes;
    }
  }

  lemma NotesNumber(fields: Fields, number: nat, v: nat)
    requires KindOf(number).NumberKind? && v < KindOf(number).width <= 0x1_0000_0000
    ensures Noted(fields, number, IntBytes(v)) == Kept(fields[number := Number(v)])
  {
    KindWidth(number);
    IntRoundTrip(v);
    hide KindOf, IntBytes, IntOf;
    var width := KindOf(number).width;
    assert v % width == v by {
      if width == 0x1_0000 {
        assert v % 0x1_0000 == v;
      } else {
        assert v % 0x1_0000_0000 == v;
      }
    }
  }

  lemma NotesBlock(fields: Fields, number: nat, b: Block)
    requires KindOf(number).BlockKind?
    ensures Noted(fields, number, IntBytes(BlockValue(b))) == Kept(fields[number := Chunk(BlockOf(BlockValue(b)))])
  {
    KindWidth(number);
    hide KindOf, IntBytes, IntOf, BlockValue, BlockOf;
    IntRoundTrip(BlockValue(b));
  }

  lemma KindWidth(number: nat)
    ensures !KindOf(number).OtherKind? ==> number < BITMAP_BITS
    ensures KindOf(number).NumberKind? ==> KindOf(number).width == 0x1_0000 || KindOf(number).width == 0x1_0000_0000
  {
  }

  /** The fields that come out of the options from place `k` of the order on. */
  function RereadFrom(fields: Fields, beyond: nat -> Byte, k: nat, acc: Fields): (r: Fields)
    requires AllSettable(fields)
    decreases KNOWN - k
  {
    if k >= KNOWN then acc else
    var n := OrderAt(k);
    RereadFrom(fields, beyond, k + 1, if n in fields then acc[n := Reread(n, fields[n], beyond(n))] else acc)
  }

  lemma {:induction false} NotesTogether(fields: Fields, a: seq<RawOption>, b: seq<RawOption>)
    ensures NoteAll(fields, a + b) ==
      var read := NoteAll(fields, a);
      if !read.Kept? then read else NoteAll(read.fields, b)
    decreases |a|
  {
    if a == [] {
      assert a + b == b;
    } else {
      assert (a + b)[1..] == a[1..] + b;
      var read := Noted(fields, a[0].number, a[0].value);
      hide Noted;
      if read.Kept? {
        NotesTogether(read.fields, a[1..], b);
      }
    }
  }

  lemma {:induction false} NotesAll(fields: Fields, beyond: nat -> Byte, k: nat, acc: Fields)
    requires AllSettable(fields)
    requires k < KNOWN ==> forall n :: n in acc ==> n < OrderAt(k)
    ensures NoteAll(acc, OptionsFrom(fields, beyond, k)) == Kept(RereadFrom(fields, beyond, k, acc))
    decreases KNOWN - k
  {
    if k < KNOWN {
      var n := OrderAt(k);
      if k + 1 < KNOWN {
        OrderAscends(k);
      }
      var rest := OptionsFrom(fields, beyond, k + 1);
      hide OrderAt, Settable, ValueParts, Reread, NoteAll, Tagged;
      if n in fields {
        var next := acc[n := Reread(n, fields[n], beyond(n))];
        NotesField(acc, n, fields[n], beyond(n));
        NotesTogether(acc, Tagged(n, ValueParts(n, fields[n], beyond(n))), rest);
        NotesAll(fields, beyond, k + 1, next);
      } else {
        assert [] + rest == rest;
        NotesAll(fields, beyond, k + 1, acc);
      }
    }
  }

  lemma {:induction false} RereadKeeps(fields: Fields, beyond: nat -> Byte, k: nat, acc: Fields, n: nat)
    requires AllSettable(fields)
    requires forall j :: k <= j < KNOWN ==> OrderAt(j) != n
    ensures var r := RereadFrom(fields, beyond, k, acc);
            (n in r <==> n in acc) && (n in acc ==> r[n] == acc[n])
    decreases KNOWN - k
  {
    if k < KNOWN {
      assert OrderAt(k) != n;
      hide OrderAt, Settable, Reread;
      var m := OrderAt(k);
      RereadKeeps(fields, beyond, k + 1, if m in fields then acc[m := Reread(m, fields[m], beyond(m))] else acc, n);
    }
  }

  lemma {:induction false} LaterIsGreater(k: nat, j: nat)
    requires k < j < KNOWN
    ensures OrderAt(k) < OrderAt(j)
    decreases j
  {
    hide OrderAt;
    OrderAscends(j - 1);
    if k < j - 1 {
      LaterIsGreater(k, j - 1);
    }
  }

  lemma {:induction false} RereadAt(fields: Fields, beyond: nat -> Byte, k: nat, acc: Fields, i: nat)
    requires AllSettable(fields) && k <= i < KNOWN && OrderAt(i) in fields
    ensures var n := OrderAt(i);
            var r := RereadFrom(fields, beyond, k, acc);
            n in r && r[n] == Reread(n, fields[n], beyond(n))
    decreases i - k
  {
    hide OrderAt, Settable, Reread;
    var m := OrderAt(k);
    var next := if m in fields then acc[m := Reread(m, fields[m], beyond(m))] else acc;
    if k == i {
      forall j | k + 1 <= j < KNOWN ensures OrderAt(j) != m {
        LaterIsGreater(k, j);
      }
      RereadKeeps(fields, beyond, k + 1, next, m);
    } else {
      RereadAt(fields, beyond, k + 1, next, i);
    }
  }

  lemma {:induction false} RereadHas(fields: Fields, beyond: nat -> Byte, k: nat, acc: Fields)
    requires AllSettable(fields)
    ensures forall n :: n in RereadFrom(fields, beyond, k, acc) ==> n in acc || n in fields
    decreases KNOWN - k
  {
    if k < KNOWN {
      var m := OrderAt(k);
      hide OrderAt, Settable, Reread;
      RereadHas(fields, beyond, k + 1, if m in fields then acc[m := Reread(m, fields[m], beyond(m))] else acc);
    }
  }

  /** The fields come out as they went in exactly when every one of them survives. */
  lemma FieldsSurvive(fields: Fields, beyond: nat -> Byte)
    requires AllSettable(fields)
    ensures RereadFrom(fields, beyond, 0, map[]) == fields <==> forall n :: n in fields ==> Survives(n, fields[n])
  {
    var r := RereadFrom(fields, beyond, 0, map[]);
    RereadHas(fields, beyond, 0, map[]);
    forall n | n in fields ensures n in r && r[n] == Reread(n, fields[n], beyond(n)) {
      assert Settable(n, fields[n]);
      var i := OrderHas(n);
      hide OrderAt, KindOf, Settable, Reread, RereadFrom;
      RereadAt(fields, beyond, 0, map[], i);
    }
    hide RereadFrom, Reread, Survives, KindOf;
    forall n | n in fields ensures r[n] == fields[n] <==> Survives(n, fields[n]) {
      assert Settable(n, fields[n]);
      RereadIsSame(n, fields[n], beyond(n));
    }
    assert r.Keys == fields.Keys;
  }

  predicate SmallNumbers(options: seq<RawOption>)
    decreases |options|
  {
    options == [] || (options[0].number <= 65804 && SmallNumbers(options[1..]))
  }

  lemma {:induction false} TaggedSmall(number: nat, parts: seq<seq<Byte>>, rest: seq<RawOption>)
    requires number <= 65804 && SmallNumbers(rest)
    ensures SmallNumbers(Tagged(number, parts) + rest)
  {
    if parts == [] {
      assert Tagged(number, parts) + rest == rest;
    } else {
      TaggedSmall(number, parts[1..], rest);
      var first := RawOption(number, parts[0]);
      var later := Tagged(number, parts[1..]) + rest;
      assert Tagged(number, parts) + rest == [first] + later;
      hide Tagged;
      assert ([first] + later)[1..] == later;
    }
  }

  lemma {:induction false} OptionsSmall(fields: Fields, beyond: nat -> Byte, k: nat)
    requires AllSettable(fields)
    ensures SmallNumbers(OptionsFrom(fields, beyond, k))
    decreases KNOWN - k
  {
    if k < KNOWN {
      var n := OrderAt(k);
      assert n <= 60;
      hide OrderAt, Settable, ValueParts, SmallNumbers, Tagged;
      OptionsSmall(fields, beyond, k + 1);
      var rest := OptionsFrom(fields, beyond, k + 1);
      if n in fields {
        TaggedSmall(n, ValueParts(n, fields[n], beyond(n)), rest);
      } else {
        assert [] + rest == rest;
      }
    }
  }

  /** Options whose encoding is short enough can be encoded. */
  lemma {:induction false} ShortIsEncodable(current: nat, options: seq<RawOption>)
    requires Ascending(current, options) && SmallNumbers(options) && |Encoded(current, options)| <= 65804
    ensures Encodable(current, options)
    decreases |options|
  {
    if options != [] {
      EncodedFirst(options, current, []);
      hide Header;
      ShortIsEncodable(options[0].number, options[1..]);
    }
  }

  function Marked(payload: seq<Byte>): (r: seq<Byte>) { (if payload == [] then [] else [255]) + payload }

  lemma ParsesPayload(payload: seq<Byte>, number: nat, fields: Fields)
    ensures ParseOptions(Marked(payload), number, fields) ==
      Options(fields, payload[..Min(|payload|, MAX_CHUNK_SIZE)])
  {
    if payload == [] {
      assert Marked(payload) == [];
    } else {
      assert Marked(payload)[1..] == payload;
    }
  }

  /** The options and payload of a serialized packet, parsed. */
  lemma ParsesBody(p: Packet, beyond: nat -> Byte)
    requires Serializable(p) && Ascending(0, OptionsFrom(p.fields, beyond, 0))
    requires |Encoded(0, OptionsFrom(p.fields, beyond, 0))| <= MAX_HEADER_SIZE
    ensures ParseOptions(Encoded(0, OptionsFrom(p.fields, beyond, 0)) + Marked(p.payload), 0, map[]) ==
      Options(RereadFrom(p.fields, beyond, 0, map[]), p.payload[..Min(|p.payload|, MAX_CHUNK_SIZE)])
  {
    hide OptionsFrom, Encoded, ParseOptions, RereadFrom, Marked, NoteAll, Encodable, Ascending, SmallNumbers;
    var options := OptionsFrom(p.fields, beyond, 0);
    OptionsSmall(p.fields, beyond, 0);
    ShortIsEncodable(0, options);
    ParsesOptions(options, 0, Marked(p.payload), map[]);
    NotesAll(p.fields, beyond, 0, map[]);
    ParsesPayload(p.payload, LastNumber(0, options), RereadFrom(p.fields, beyond, 0, map[]));
  }

  lemma FirstBytesRead(kind: nat, tokenLen: nat, code: nat, mid: nat)
    requires kind < 4 && code < 256 && mid < 0x1_0000 && tokenLen <= TOKEN_LEN
    ensures var f := FirstBytes(kind, tokenLen, code, mid);
            && f[0] / 64 == 1 && (f[0] / 16) % 4 == kind && Min(TOKEN_LEN, f[0] % 16) == tokenLen
            && f[1] == code && Both(f[2], f[3]) == mid
  {
    var b := 64 + 16 * kind + tokenLen;
    assert b / 16 == 4 + kind && b % 16 == tokenLen;
  }

  lemma ParsesHead(kind: nat, code: nat, mid: nat, token: seq<Byte>, body: seq<Byte>)
    requires kind < 4 && code < 256 && mid < 0x1_0000 && |token| <= TOKEN_LEN
    ensures Parse(FirstBytes(kind, |token|, code, mid) + token + body) ==
      var options := ParseOptions(body, 0, map[]);
      if options.Cut? then Fault
      else if options.Bad? then Rejected(options.status)
      else Parsed(Packet(kind, code, mid, token, options.fields, options.payload))
  {
    hide ParseOptions, FirstBytes, Min, Both;
    var first := FirstBytes(kind, |token|, code, mid);
    FirstBytesRead(kind, |token|, code, mid);
    var data := first + token + body;
    assert data[0] == first[0] && data[1] == first[1] && data[2] == first[2] && data[3] == first[3];
    assert data[4..4 + |token|] == token && data[4 + |token|..] == body;
  }

  /** A packet with a code that is serialized is parsed to itself exactly when its strings can be cut
      and merged, its block sizes are powers of two and its payload fits a chunk. */
  lemma MessageRoundTrip(p: Packet, beyond: nat -> Byte)
    requires Serializable(p) && p.code > 0 && Serialized(p, beyond) != []
    ensures Parse(Serialized(p, beyond)) == Parsed(p) <==>
      (forall n :: n in p.fields ==> Survives(n, p.fields[n])) && |p.payload| <= MAX_CHUNK_SIZE
  {
    hide OptionsFrom, Encoded, ParseOptions, RereadFrom, Marked, Serialized, FirstBytes, Ascending, Parse, Survives;
    OptionsAscend(p.fields, beyond, 0, 0);
    SerializedIs(p, beyond);
    ParsesHead(p.kind, p.code, p.mid, p.token, Encoded(0, OptionsFrom(p.fields, beyond, 0)) + Marked(p.payload));
    ParsesBody(p, beyond);
    FieldsSurvive(p.fields, beyond);
    var kept := p.payload[..Min(|p.payload|, MAX_CHUNK_SIZE)];
    assert kept == p.payload <==> |p.payload| <= MAX_CHUNK_SIZE;
  }

  lemma SerializedIs(p: Packet, beyond: nat -> Byte)
    requires Serializable(p) && p.code > 0 && Serialized(p, beyond) != []
    requires Ascending(0, OptionsFrom(p.fields, beyond, 0))
    ensures var body := Encoded(0, OptionsFrom(p.fields, beyond, 0));
            && |body| <= MAX_HEADER_SIZE
            && Serialized(p, beyond) ==
               FirstBytes(p.kind, |p.token|, p.code, p.mid) + p.token + (body + Marked(p.payload))
  {
    hide OptionsFrom, Encoded, FirstBytes, Ascending, AllSettable;
    var head := FirstBytes(p.kind, |p.token|, p.code, p.mid) + p.token;
    var body := Encoded(0, OptionsFrom(p.fields, beyond, 0));
    assert head + body + (if p.payload == [] then [] else [255]) + p.payload == head + (body + Marked(p.payload));
  }

  /** A message without a code is parsed to itself exactly when it has no token, options or payload,
      none of which is written. */
  lemma EmptyMessageRoundTrip(p: Packet, beyond: nat -> Byte)
    requires Serializable(p) && p.code == 0
    ensures Parse(Serialized(p, beyond)) == Parsed(p) <==> p.token == [] && p.fields == map[] && p.payload == []
  {
    var first := FirstBytes(p.kind, |p.token|, p.code, p.mid);
    FirstBytesRead(p.kind, |p.token|, p.code, p.mid);
    if p.token == [] {
      assert first + [] + [] == first;
      ParsesHead(p.kind, p.code, p.mid, [], []);
      assert ParseOptions([], 0, map[]) == Options(map[], []);
    }
  }

  /** Options are encoded behind the ones before them. */
  lemma {:induction false} EncodedTogether(current: nat, a: seq<RawOption>, b: seq<RawOption>)
    requires Ascending(current, a + b)
    ensures Ascending(current, a) && Ascending(LastNumber(current, a), b)
    ensures Encoded(current, a + b) == Encoded(current, a) + Encoded(LastNumber(current, a), b)
    decreases |a|
  {
    if a == [] {
      assert a + b == b;
      EncodedNone(current, Encoded(current, b));
    } else {
      hide Encoded, Ascending, LastNumber, Header;
      var o, rest := a[0], a[1..];
      assert (a + b)[0] == o && (a + b)[1..] == rest + b;
      EncodedCons(current, a + b);
      EncodedCons(current, a);
      EncodedTogether(o.number, rest, b);
      Associates(Header(o.number - current, |o.value|) + o.value, Encoded(o.number, rest),
                 Encoded(LastNumber(current, a), b));
    }
  }

  lemma Associates(a: seq<Byte>, b: seq<Byte>, c: seq<Byte>)
    ensures a + (b + c) == a + b + c
  {
  }

  lemma EncodedCons(current: nat, options: seq<RawOption>)
    requires options != []
    ensures Ascending(current, options) <==> current <= options[0].number && Ascending(options[0].number, options[1..])
    ensures LastNumber(current, options) == LastNumber(options[0].number, options[1..])
    ensures Ascending(current, options) ==>
      var o := options[0];
      Encoded(current, options) == Header(o.number - current, |o.value|) + o.value + Encoded(o.number, options[1..])
  {
    hide Header;
  }

  /** No byte at which the parser looks for the payload marker in front of an option, wherever it is
      in the list, can be taken for one. */
  lemma MarkerIsUnique(current: nat, options: seq<RawOption>, i: nat)
    requires i < |options| && Ascending(current, options)
    ensures Ascending(current, options[..i])
    ensures var at := |Encoded(current, options[..i])|;
            at < |Encoded(current, options)| && Encoded(current, options)[at] / 16 != 15
  {
    var later := options[i..];
    assert options == options[..i] + later;
    EncodedTogether(current, options[..i], later);
    var last := LastNumber(current, options[..i]);
    assert later[0] == options[i];
    HeaderIsNoMarker(later[0].number - last, |later[0].value|);
    EncodedFirst(later, last, []);
    hide Header, Encoded;
    assert Encoded(last, later) + [] == Encoded(last, later);
  }

  /** An option at which the parser stops with an error whatever its value is. */
  predicate Refusing(number: nat) {
    KindOf(number).ProxyKind? || (KindOf(number).OtherKind? && number % 2 == 1)
  }

  /** The parser sets a bit outside the bitmap of a packet exactly when the options have a number that
      the bitmap has no bit for, and none before it is refused. */
  lemma {:induction false} StraysExactly(fields: Fields, options: seq<RawOption>)
    ensures NoteAll(fields, options).Astray? <==>
      exists i :: 0 <= i < |options| && options[i].number >= BITMAP_BITS
                  && forall j :: 0 <= j < i ==> !Refusing(options[j].number)
    decreases |options|
  {
    if options != [] {
      var o := options[0];
      var read := Noted(fields, o.number, o.value);
      assert read.Astray? <==> o.number >= BITMAP_BITS;
      assert read.Refused? <==> o.number < BITMAP_BITS && Refusing(o.number);
      NotedFirst(fields, options);
      hide Noted, KindOf, Refusing;
      if read.Kept? {
        StraysExactly(read.fields, options[1..]);
        StraysLater(options);
      }
    }
  }

  lemma StraysLater(options: seq<RawOption>)
    requires options != [] && options[0].number < BITMAP_BITS && !Refusing(options[0].number)
    ensures (exists i :: 0 <= i < |options| && options[i].number >= BITMAP_BITS
                         && forall j :: 0 <= j < i ==> !Refusing(options[j].number))
            <==> (exists i :: 0 <= i < |options| - 1 && options[1..][i].number >= BITMAP_BITS
                              && forall j :: 0 <= j < i ==> !Refusing(options[1..][j].number))
  {
    hide Refusing;
    var rest := options[1..];
    if i :| 0 <= i < |options| && options[i].number >= BITMAP_BITS
            && forall j :: 0 <= j < i ==> !Refusing(options[j].number) {
      assert rest[i - 1].number >= BITMAP_BITS;
      assert forall j :: 0 <= j < i - 1 ==> rest[j] == options[j + 1];
    }
    if i :| 0 <= i < |options| - 1 && rest[i].number >= BITMAP_BITS
            && forall j :: 0 <= j < i ==> !Refusing(rest[j].number) {
      assert options[i + 1].number >= BITMAP_BITS;
      forall j | 0 <= j < i + 1 ensures !Refusing(options[j].number) {
        if j > 0 {
          assert rest[j - 1] == options[j];
        }
      }
    }
  }
}
