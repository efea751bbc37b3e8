/** What each option is on the wire, by its number and with the separators as characters (section 5.10 of
    RFC 7252): the option values that a packet is sent as, and the fields that received option values
    come to. */
module CoapWire {
  import opened CoapOptions
  import opened CoapMessage

  /** Location-Path and Uri-Path. */
  predicate IsPath(number: nat) { number == 8 || number == 11 }

  /** Uri-Query and Location-Query. */
  predicate IsQuery(number: nat) { number == 15 || number == 20 }

  /** The character between the pieces of a path or a query. */
  function Between(number: nat): (c: Byte) { if IsPath(number) then '/' as int else '&' as int }

  function Joined(pieces: seq<seq<Byte>>, c: Byte): (s: seq<Byte>) {
    if pieces == [] then [] else if |pieces| == 1 then pieces[0] else pieces[0] + [c] + Joined(pieces[1..], c)
  }

  /** The values of the options with a number, in order. */
  function ValuesOf(options: seq<RawOption>, number: nat): (values: seq<seq<Byte>>) {
    if options == [] then []
    else (if options[0].number == number then [options[0].value] else []) + ValuesOf(options[1..], number)
  }

  // ------------------------------------------------------- pieces of a string

  predicate Without(pieces: seq<seq<Byte>>, c: Byte) {
    forall i :: 0 <= i < |pieces| ==> c !in pieces[i]
  }

  /** Two separators next to each other, from place `j` on. */
  predicate DoubledFrom(s: seq<Byte>, c: Byte, j: nat) {
    exists i :: j <= i < |s| - 1 && s[i] == c && s[i + 1] == c
  }

  lemma WithoutFirst(piece: seq<Byte>, later: seq<seq<Byte>>, c: Byte)
    ensures Without([piece] + later, c) <==> c !in piece && Without(later, c)
  {
    var all := [piece] + later;
    assert all[0] == piece;
    if Without(all, c) {
      forall i | 0 <= i < |later| ensures c !in later[i] {
        assert later[i] == all[i + 1];
      }
    }
  }

  lemma DoubledStep(s: seq<Byte>, c: Byte, j: nat)
    ensures DoubledFrom(s, c, j) <==> (j + 1 < |s| && s[j] == c && s[j + 1] == c) || DoubledFrom(s, c, j + 1)
  {
  }

  /** From a place on, no piece has a separator unless two of them are next to each other: the byte behind
      one is passed over. */
  lemma {:induction false} PiecesFrom(s: seq<Byte>, beyond: Byte, c: Byte, start: nat, j: nat)
    requires c != 0 && start <= j <= |s| && c !in s[start..j][if start < j then 1 else 0..]
    ensures Without(PartsFrom(s, beyond, c, start, j), c) <==> !(start < j && s[start] == c) && !DoubledFrom(s, c, j)
    decreases |s| - j
  {
    hide PartsFrom, Without, DoubledFrom;
    DoubledStep(s, c, j);
    if j == |s| {
      EndPiece(s, beyond, c, start, j);
      EndPieces(s, beyond, c);
      NotDoubled(s, c, j);
    } else if s[j] == c {
      EndPiece(s, beyond, c, start, j);
      DoubledStep(s, c, j + 1);
      if j + 1 == |s| {
        EndPieces(s, beyond, c);
        NotDoubled(s, c, j + 1);
      } else {
        PiecesFrom(s, beyond, c, j + 1, j + 2);
      }
    } else {
      PassedOver(s, beyond, c, start, j);
      PiecesFrom(s, beyond, c, start, j + 1);
    }
  }

  lemma NotDoubled(s: seq<Byte>, c: Byte, j: nat)
    requires j + 1 >= |s|
    ensures !DoubledFrom(s, c, j)
  {
  }

  lemma EndPiece(s: seq<Byte>, beyond: Byte, c: Byte, start: nat, j: nat)
    requires start <= j <= |s| && (j < |s| ==> s[j] == c) && c !in s[start..j][if start < j then 1 else 0..]
    ensures Without(PartsFrom(s, beyond, c, start, j), c) <==>
            !(start < j && s[start] == c) && Without(PartsFrom(s, beyond, c, j + 1, j + 2), c)
  {
    var piece := (s + [0])[start..j];
    assert piece == s[start..j];
    var later := PartsFrom(s, beyond, c, j + 1, j + 2);
    assert PartsFrom(s, beyond, c, start, j) == [piece] + later;
    WithoutFirst(piece, later, c);
    if start < j {
      assert piece == [s[start]] + piece[1..];
    }
    hide PartsFrom;
  }

  /** Behind the end there is a terminator at most. */
  lemma EndPieces(s: seq<Byte>, beyond: Byte, c: Byte)
    requires c != 0
    ensures Without(PartsFrom(s, beyond, c, |s|, |s| + 1), c) && Without(PartsFrom(s, beyond, c, |s| + 1, |s| + 2), c)
  {
    assert (s + [0])[|s|..|s| + 1] == [0];
    assert PartsFrom(s, beyond, c, |s| + 2, |s| + 3) == PartsFrom(s, beyond, c, |s| + 1, |s| + 2) == [];
    assert PartsFrom(s, beyond, c, |s|, |s| + 2) == [];
    assert PartsFrom(s, beyond, c, |s|, |s| + 1) == if beyond == c then [[0]] else [];
  }

  lemma {:induction false} MergeIsJoin(acc: seq<Byte>, pieces: seq<seq<Byte>>, c: Byte)
    requires acc != []
    ensures MergeAll(acc, pieces, c) == if pieces == [] then acc else acc + [c] + Joined(pieces, c)
    decreases |pieces|
  {
    if pieces != [] {
      var next := acc + [c] + pieces[0];
      MergeIsJoin(next, pieces[1..], c);
      assert Merged(acc, pieces[0], c) == next;
      assert MergeAll(acc, pieces, c) == MergeAll(next, pieces[1..], c);
      if |pieces| == 1 {
        assert pieces[1..] == [] && Joined(pieces, c) == pieces[0];
      } else {
        var later := Joined(pieces[1..], c);
        assert next + [c] + later == acc + [c] + (pieces[0] + [c] + later);
      }
    }
  }

  /** The pieces without the empty ones in front. */
  function Solid(pieces: seq<seq<Byte>>): (r: seq<seq<Byte>>) {
    if pieces != [] && pieces[0] == [] then Solid(pieces[1..]) else pieces
  }

  /** Merging is joining, once the empty pieces in front are left out. */
  lemma {:induction false} MergeIsJoinOfSolid(pieces: seq<seq<Byte>>, c: Byte)
    ensures MergeAll([], pieces, c) == Joined(Solid(pieces), c)
    decreases |pieces|
  {
    if pieces != [] {
      assert MergeAll([], pieces, c) == MergeAll(pieces[0], pieces[1..], c);
      if pieces[0] == [] {
        MergeIsJoinOfSolid(pieces[1..], c);
      } else {
        MergeIsJoin(pieces[0], pieces[1..], c);
        if |pieces| == 1 {
          assert pieces[1..] == [];
        }
      }
    }
  }

  lemma {:induction false} FirstPiece(s: seq<Byte>, beyond: Byte, c: Byte, j: nat)
    requires j <= |s| && c !in s[..j] && (s == [] || s[0] != c)
    ensures PartsFrom(s, beyond, c, 0, j) != [] && (PartsFrom(s, beyond, c, 0, j)[0] == [] ==> s == [])
    ensures s == [] ==> PartsFrom(s, beyond, c, 0, j) == [[]]
    decreases |s| - j
  {
    if j < |s| && s[j] != c {
      PassedOver(s, beyond, c, 0, j);
      FirstPiece(s, beyond, c, j + 1);
    } else {
      assert PartsFrom(s, beyond, c, 0, j)[0] == (s + [0])[0..j];
    }
  }

  /** The pieces of a string that survives: joined they are the string, and none has a separator exactly when no
      two separators are next to each other. */
  lemma StringIsCut(s: seq<Byte>, beyond: Byte, c: Byte)
    requires c != 0 && Mergeable(s, c)
    ensures Joined(Parts(s, beyond, c), c) == s
    ensures Without(Parts(s, beyond, c), c) <==> !DoubledFrom(s, c, 0)
  {
    PiecesFrom(s, beyond, c, 0, 0);
    StringRoundTrip(s, beyond, c);
    MergeIsJoinOfSolid(Parts(s, beyond, c), c);
    FirstPiece(s, beyond, c, 0);
    hide PartsFrom, MergeAll, Mergeable;
  }

  // ----------------------------------------------------------------- sending

  /** The size exponent of a block. */
  function Exponent(size: nat): (e: nat) {
    if size < 32 then 0 else if size < 64 then 1 else if size < 128 then 2 else if size < 256 then 3
    else if size < 512 then 4 else if size < 1024 then 5 else if size < 2048 then 6 else 7
  }

  /** One option value, which is the shortest text of an integer in bytes. */
  predicate IsInt(values: seq<seq<Byte>>, v: nat) {
    && |values| == 1 && |values[0]| <= 4 && IntOf(values[0]) == v && (values[0] != [] ==> values[0][0] != 0)
  }

  /** What a field is sent as, option by option. */
  predicate SentAs(number: nat, value: Value, values: seq<seq<Byte>>) {
    if number == 1 || number == 4 then value.Octets? && values == [value.bytes]
    else if number == 3 then value.Text? && values == [value.s]
    else if number == 5 then value.Flag? && values == [[]]
    else if IsPath(number) || IsQuery(number) then
      value.Text? &&
      (Mergeable(value.s, Between(number)) ==>
         && Joined(values, Between(number)) == value.s
         && (Without(values, Between(number)) <==> !DoubledFrom(value.s, Between(number), 0)))
    else if number == 23 || number == 27 then
      value.Chunk? && IsInt(values, 16 * value.b.num + (if value.b.more then 8 else 0) + Exponent(value.b.size))
    else if number in {6, 7, 12, 14, 17, 28, 60} then value.Number? && IsInt(values, value.v)
    else false
  }

  lemma ExponentIsLog(size: nat)
    requires 16 <= size <= 2048
    ensures Log2(size / 16) == Exponent(size)
  {
    var v := size / 16;
    assert Log2(1) == 0;
    assert v < 2 ==> Log2(v) == 0;
    assert v < 4 ==> Log2(v / 2) == 0 || v < 2;
    Log2Halves(v);
    Log2Halves(v / 2);
    Log2Halves(v / 4);
    Log2Halves(v / 8);
    Log2Halves(v / 16);
    Log2Halves(v / 32);
    Log2Halves(v / 64);
    hide Log2;
  }

  lemma Log2Halves(v: nat)
    ensures Log2(v) == if v < 2 then 0 else 1 + Log2(v / 2)
    ensures v / 2 / 2 == v / 4 && v / 4 / 2 == v / 8 && v / 8 / 2 == v / 16 && v / 16 / 2 == v / 32
            && v / 32 / 2 == v / 64
  {
  }

  lemma FieldIsSent(number: nat, value: Value, beyond: Byte)
    requires Settable(number, value)
    ensures SentAs(number, value, ValueParts(number, value, beyond))
  {
    hide SentAs, Settable, ValueParts;
    if IsPath(number) || IsQuery(number) {
      StringIsSent(number, value, beyond);
    } else if value.Number? {
      NumberIsSent(number, value, beyond);
    } else if value.Chunk? {
      ChunkIsSent(number, value, beyond);
    } else {
      OtherIsSent(number, value, beyond);
    }
  }

  lemma StringIsSent(number: nat, value: Value, beyond: Byte)
    requires Settable(number, value) && (IsPath(number) || IsQuery(number))
    ensures SentAs(number, value, ValueParts(number, value, beyond))
  {
    var c := Between(number);
    assert KindOf(number) == SplitKind(c);
    hide Mergeable, PartsFrom, KindOf, Joined, Without, DoubledFrom;
    if Mergeable(value.s, c) {
      StringIsCut(value.s, beyond, c);
    }
  }

  lemma NumberIsSent(number: nat, value: Value, beyond: Byte)
    requires Settable(number, value) && value.Number? && !IsPath(number) && !IsQuery(number)
    ensures SentAs(number, value, ValueParts(number, value, beyond))
  {
    hide IntBytes, IsInt, Parts, BlockValue;
    IntIsShort(value.v);
  }

  lemma ChunkIsSent(number: nat, value: Value, beyond: Byte)
    requires Settable(number, value) && value.Chunk? && !IsPath(number) && !IsQuery(number)
    ensures SentAs(number, value, ValueParts(number, value, beyond))
  {
    hide IntBytes, IsInt, Parts, BlockValue, Exponent;
    BlockIsShort(value.b);
  }

  lemma OtherIsSent(number: nat, value: Value, beyond: Byte)
    requires Settable(number, value) && !value.Number? && !value.Chunk? && !IsPath(number) && !IsQuery(number)
    ensures SentAs(number, value, ValueParts(number, value, beyond))
  {
    hide IntBytes, IsInt, Parts, BlockValue;
  }

  lemma IntIsShort(v: nat)
    requires v < 0x1_0000_0000
    ensures IsInt([IntBytes(v)], v)
  {
    IntRoundTrip(v);
    assert v == 0 ==> IntBytes(v) == [];
    hide IntBytes, IntOf;
  }

  lemma BlockIsShort(b: Block)
    requires BlockSet(b)
    ensures IsInt([IntBytes(BlockValue(b))], 16 * b.num + (if b.more then 8 else 0) + Exponent(b.size))
  {
    var e := ValueOfBlock(b);
    ExponentIsLog(b.size);
    hide Log2, BlockValue, Exponent;
    IntIsShort(BlockValue(b));
  }

  lemma {:induction false} ValuesJoin(a: seq<RawOption>, b: seq<RawOption>, number: nat)
    ensures ValuesOf(a + b, number) == ValuesOf(a, number) + ValuesOf(b, number)
    decreases |a|
  {
    if a == [] {
      assert a + b == b;
    } else {
      assert (a + b)[1..] == a[1..] + b;
      ValuesJoin(a[1..], b, number);
    }
  }

  lemma {:induction false} ValuesTagged(n: nat, parts: seq<seq<Byte>>, number: nat)
    ensures ValuesOf(Tagged(n, parts), number) == if n == number then parts else []
    decreases |parts|
  {
    if parts != [] {
      var tail := Tagged(n, parts[1..]);
      assert Tagged(n, parts) == [RawOption(n, parts[0])] + tail && ([RawOption(n, parts[0])] + tail)[1..] == tail;
      ValuesTagged(n, parts[1..], number);
    }
  }

  /** The options of a packet have the values of a field under its number, and no others under it. */
  lemma {:induction false} ValuesSent(fields: Fields, beyond: nat -> Byte, k: nat, i: nat)
    requires AllSettable(fields) && k <= KNOWN && i < KNOWN
    ensures var number := OrderAt(i);
            ValuesOf(OptionsFrom(fields, beyond, k), number) ==
            if k <= i && number in fields then ValueParts(number, fields[number], beyond(number)) else []
    decreases KNOWN - k
  {
    if k < KNOWN {
      var n, number := OrderAt(k), OrderAt(i);
      OrderIsStrict(k, i);
      OptionsAt(fields, beyond, k);
      ValuesSent(fields, beyond, k + 1, i);
      ValuesHere(fields, beyond, k, number);
      hide OrderAt, Settable, ValueParts, Tagged, OptionsFrom, ValuesOf, AllSettable;
      ValuesJoin(Here(fields, beyond, k), OptionsFrom(fields, beyond, k + 1), number);
    }
  }

  /** The options at one place of the order. */
  function Here(fields: Fields, beyond: nat -> Byte, k: nat): (r: seq<RawOption>)
    requires AllSettable(fields) && k < KNOWN
  {
    var n := OrderAt(k);
    if n in fields then Tagged(n, ValueParts(n, fields[n], beyond(n))) else []
  }

  lemma OptionsAt(fields: Fields, beyond: nat -> Byte, k: nat)
    requires AllSettable(fields) && k < KNOWN
    ensures OptionsFrom(fields, beyond, k) == Here(fields, beyond, k) + OptionsFrom(fields, beyond, k + 1)
  {
    hide Settable, OrderAt, ValueParts, Tagged;
  }

  lemma ValuesHere(fields: Fields, beyond: nat -> Byte, k: nat, number: nat)
    requires AllSettable(fields) && k < KNOWN
    ensures ValuesOf(Here(fields, beyond, k), number) ==
      if OrderAt(k) == number && number in fields then ValueParts(number, fields[number], beyond(number)) else []
  {
    var n := OrderAt(k);
    hide Settable, OrderAt, ValueParts, Tagged, ValuesOf;
    if n in fields {
      ValuesTagged(n, ValueParts(n, fields[n], beyond(n)), number);
    } else {
      NoValues(number);
    }
  }

  lemma NoValues(number: nat)
    ensures ValuesOf([], number) == []
  {
  }

  lemma {:induction false} OrderIsStrict(k: nat, i: nat)
    requires k < KNOWN && i < KNOWN
    ensures OrderAt(k) == OrderAt(i) ==> k == i
    decreases if k < i then i - k else k - i
  {
    if k < i {
      OrderBelow(k, i);
    } else if i < k {
      OrderBelow(i, k);
    }
  }

  lemma {:induction false} OrderBelow(k: nat, i: nat)
    requires k < i < KNOWN
    ensures OrderAt(k) < OrderAt(i)
    decreases i - k
  {
    OrderAscends(k);
    hide OrderAt;
    if k + 1 < i {
      OrderBelow(k + 1, i);
    }
  }

  /** A serialized packet is its first bytes, its token, options in ascending order, and the payload behind its
      marker; and each field is sent as its number demands: the pieces of a path or query, joined by '/'
      or '&', are the string, and have no separator unless two of them are next to each other. */
  lemma FieldsOnTheWire(p: Packet, beyond: nat -> Byte) returns (options: seq<RawOption>)
    requires Serializable(p) && p.code > 0 && Serialized(p, beyond) != []
    ensures Ascending(0, options)
    ensures Serialized(p, beyond) ==
            FirstBytes(p.kind, |p.token|, p.code, p.mid) + p.token + (Encoded(0, options) + Marked(p.payload))
    ensures forall n :: n in p.fields ==> SentAs(n, p.fields[n], ValuesOf(options, n))
    ensures forall o :: o in options ==> o.number in p.fields
  {
    options := OptionsFrom(p.fields, beyond, 0);
    OptionsAscend(p.fields, beyond, 0, 0);
    hide SentAs, Encoded, Ascending, Serialized, FirstBytes, Marked, KindOf, OptionsFrom, ValuesOf, Settable;
    SerializedIs(p, beyond);
    OptionsAreFields(p.fields, beyond, 0);
    forall n | n in p.fields
      ensures SentAs(n, p.fields[n], ValuesOf(options, n))
    {
      SendsField(p.fields, beyond, n);
    }
  }

  lemma SendsField(fields: Fields, beyond: nat -> Byte, n: nat)
    requires AllSettable(fields) && n in fields
    ensures SentAs(n, fields[n], ValuesOf(OptionsFrom(fields, beyond, 0), n))
  {
    assert Settable(n, fields[n]);
    assert !KindOf(n).OtherKind?;
    var i := OrderHas(n);
    hide SentAs, KindOf, OptionsFrom, ValueParts, OrderAt, ValuesOf, Settable;
    ValuesSent(fields, beyond, 0, i);
    FieldIsSent(n, fields[n], beyond(n));
  }

  lemma {:induction false} TaggedNumbers(n: nat, parts: seq<seq<Byte>>)
    ensures forall o :: o in Tagged(n, parts) ==> o.number == n
    decreases |parts|
  {
    if parts != [] {
      TaggedNumbers(n, parts[1..]);
    }
  }

  lemma {:induction false} OptionsAreFields(fields: Fields, beyond: nat -> Byte, k: nat)
    requires AllSettable(fields)
    ensures forall o :: o in OptionsFrom(fields, beyond, k) ==> o.number in fields
    decreases KNOWN - k
  {
    hide Settable, Tagged, ValueParts;
    if k < KNOWN {
      var n := OrderAt(k);
      hide OrderAt;
      OptionsAreFields(fields, beyond, k + 1);
      if n in fields {
        TaggedNumbers(n, ValueParts(n, fields[n], beyond(n)));
      }
    }
  }

  // --------------------------------------------------------------- receiving

  /** The field that the option values received under a number come to. */
  function Received(number: nat, values: seq<seq<Byte>>): (v: Value)
    requires values != []
  {
    var last := values[|values| - 1];
    if IsPath(number) || IsQuery(number) then Text(Joined(Solid(values), Between(number)))
    else if number == 3 then Text(last)
    else if number == 1 || number == 4 then Octets(if |last| > 8 then last[..8] else last)
    else if number == 5 then Flag
    else if number in {7, 12, 17} then Number(IntOf(last) % 65536)
    else if number in {6, 14, 28, 60} then Number(IntOf(last))
    else if number == 23 || number == 27 then
      var v := IntOf(last);
      Chunk(Block(v / 16, v % 16 >= 8, [16, 32, 64, 128, 256, 512, 1024, 2048][v % 8]))
    else Ignored
  }

  /** The options that a packet is accepted with. */
  predicate Acceptable(number: nat) {
    number < 64 && number != 35 && number != 39 && (number % 2 == 0 || number in {1, 3, 5, 7, 11, 15, 17, 23, 27})
  }

  /** How one option is refused: Proxy-Uri and Proxy-Scheme with 5.05, any other critical option with
      4.02; and a number beyond the bitmap is not. */
  lemma OneOption(fields: Fields, o: RawOption)
    ensures var r := Noted(fields, o.number, o.value);
            && (r.Kept? <==> Acceptable(o.number))
            && (r.Astray? <==> o.number >= 64)
            && (r.Refused? ==> r.status == if o.number == 35 || o.number == 39 then 5 * 32 + 5 else 4 * 32 + 2)
            && (r.Kept? ==> o.number in r.fields && r.fields == fields[o.number := r.fields[o.number]])
  {
  }

  lemma NotedValue(fields: Fields, o: RawOption)
    requires Acceptable(o.number)
    ensures Noted(fields, o.number, o.value).Kept?
    ensures var v := Noted(fields, o.number, o.value).fields[o.number];
            if IsPath(o.number) || IsQuery(o.number) then
              v == Text(Merged(Before(fields, o.number), o.value, Between(o.number)))
            else v == Received(o.number, [o.value])
  {
    BlockIsRead(IntOf(o.value));
    hide BlockOf, Merged, IntOf;
  }

  lemma BlockIsRead(v: nat)
    ensures BlockOf(v) == Block(v / 16, v % 16 >= 8, [16, 32, 64, 128, 256, 512, 1024, 2048][v % 8])
  {
    assert Power(0) == 1 && Power(1) == 2 && Power(2) == 4 && Power(3) == 8 && Power(4) == 16 && Power(5) == 32
           && Power(6) == 64 && Power(7) == 128;
    hide Power;
  }

  /** What a path or query is so far. */
  function Before(fields: Fields, number: nat): (s: seq<Byte>) {
    if number in fields && fields[number].Text? then fields[number].s else []
  }

  predicate AllAcceptable(options: seq<RawOption>) {
    forall i :: 0 <= i < |options| ==> Acceptable(options[i].number)
  }

  /** What the options come to for the field of one number, behind the fields that were there. */
  predicate ComesTo(before: Fields, after: Fields, number: nat, values: seq<seq<Byte>>) {
    if values == [] then (number in after <==> number in before) && (number in before ==> after[number] == before[number])
    else
      && number in after
      && after[number] ==
         if IsPath(number) || IsQuery(number) then Text(MergeAll(Before(before, number), values, Between(number)))
         else Received(number, values)
  }

  lemma {:induction false} OptionsComeTo(fields: Fields, options: seq<RawOption>, number: nat)
    requires AllAcceptable(options)
    ensures NoteAll(fields, options).Kept?
    ensures ComesTo(fields, NoteAll(fields, options).fields, number, ValuesOf(options, number))
    decreases |options|
  {
    if options != [] {
      var o := options[0];
      OneOption(fields, o);
      NotedValue(fields, o);
      NotedFirst(fields, options);
      hide Noted, KindOf, Received, Merged, Joined, Solid;
      var next := Noted(fields, o.number, o.value).fields;
      OptionsComeTo(next, options[1..], number);
      hide NoteAll;
      ComesToStep(fields, o, next, NoteAll(next, options[1..]).fields, number, ValuesOf(options[1..], number));
      assert [] + ValuesOf(options[1..], number) == ValuesOf(options[1..], number);
    }
  }

  lemma ComesToStep(fields: Fields, o: RawOption, next: Fields, after: Fields, number: nat, later: seq<seq<Byte>>)
    requires o.number in next && next == fields[o.number := next[o.number]]
    requires if IsPath(o.number) || IsQuery(o.number)
             then next[o.number] == Text(Merged(Before(fields, o.number), o.value, Between(o.number)))
             else next[o.number] == Received(o.number, [o.value])
    requires ComesTo(next, after, number, later)
    ensures ComesTo(fields, after, number, (if o.number == number then [o.value] else []) + later)
  {
    if o.number != number {
      assert [] + later == later;
    } else {
      FirstValue(o.value, later, number);
      var values := [o.value] + later;
      assert values[1..] == later;
      hide Received, Merged;
      if IsPath(number) || IsQuery(number) {
        var c := Between(number);
        var next' := Merged(Before(fields, number), o.value, c);
        assert MergeAll(Before(fields, number), values, c) == MergeAll(next', later, c);
      } else if later == [] {
        assert values == [o.value];
      }
    }
  }

  /** Only the last value counts for options other than paths and queries. */
  lemma FirstValue(value: seq<Byte>, later: seq<seq<Byte>>, number: nat)
    ensures !IsPath(number) && !IsQuery(number) && later != [] ==>
      Received(number, [value] + later) == Received(number, later)
  {
  }

  /** Whatever acceptable options are received, each field is what its number makes of the values received under
      it: the pieces of a path or query are joined by '/' or '&', an empty piece in front being left out. */
  lemma ReceivedFields(kind: nat, code: nat, mid: nat, token: seq<Byte>, options: seq<RawOption>, payload: seq<Byte>)
    requires kind < 4 && code < 256 && mid < 0x1_0000 && |token| <= TOKEN_LEN
    requires Ascending(0, options) && Encodable(0, options) && AllAcceptable(options)
    ensures var r := Parse(FirstBytes(kind, |token|, code, mid) + token + (Encoded(0, options) + Marked(payload)));
            && r.Parsed? && r.p.kind == kind && r.p.code == code && r.p.mid == mid && r.p.token == token
            && r.p.payload == (if |payload| > 64 then payload[..64] else payload)
            && forall n: nat :: (n in r.p.fields <==> ValuesOf(options, n) != [])
                                && (n in r.p.fields ==> r.p.fields[n] == Received(n, ValuesOf(options, n)))
  {
    hide Encoded, FirstBytes, Marked, Parse, ParseOptions, NoteAll, Ascending, Encodable, AllAcceptable, ValuesOf, Received;
    ParsesHead(kind, code, mid, token, Encoded(0, options) + Marked(payload));
    ParsesOptions(options, 0, Marked(payload), map[]);
    OptionsComeTo(map[], options, 0);
    var fields := NoteAll(map[], options).fields;
    ParsesPayload(payload, LastNumber(0, options), fields);
    forall n: nat
      ensures (n in fields <==> ValuesOf(options, n) != [])
              && (n in fields ==> fields[n] == Received(n, ValuesOf(options, n)))
    {
      OptionsComeTo(map[], options, n);
      FieldReceived(fields, n, ValuesOf(options, n));
    }
  }

  lemma FieldReceived(fields: Fields, n: nat, values: seq<seq<Byte>>)
    requires ComesTo(map[], fields, n, values)
    ensures n in fields <==> values != []
    ensures n in fields ==> fields[n] == Received(n, values)
  {
    if values != [] && (IsPath(n) || IsQuery(n)) {
      MergeIsJoinOfSolid(values, Between(n));
      hide MergeAll, Joined, Solid;
    }
  }

  /** Options that are not all acceptable are rejected by the first that is not: with 5.05, with 4.02, or
      by a bit outside the bitmap. */
  lemma {:induction false} RejectedByFirst(fields: Fields, options: seq<RawOption>, i: nat)
    requires i < |options| && !Acceptable(options[i].number) && AllAcceptable(options[..i])
    ensures var r := NoteAll(fields, options);
            var n := options[i].number;
            if n >= 64 then r.Astray? else r == Refused(if n == 35 || n == 39 then 5 * 32 + 5 else 4 * 32 + 2)
    decreases |options|
  {
    OneOption(fields, options[0]);
    NotedFirst(fields, options);
    if i > 0 {
      assert options[..i][0] == options[0];
      assert options[1..][..i - 1] == options[..i][1..];
      RejectedByFirst(Noted(fields, options[0].number, options[0].value).fields, options[1..], i - 1);
    }
  }

  /** A doubled separator is kept inside a piece: the path `a//b` is sent as `a` and `/b`. */
  lemma DoubledSeparatorStays(beyond: Byte)
    ensures var a, b, slash := 'a' as int, 'b' as int, '/' as int;
            Parts([a, slash, slash, b], beyond, slash) == [[a], [slash, b]]
  {
    var s := ['a' as int, '/' as int, '/' as int, 'b' as int];
    var c := '/' as int;
    assert PartsFrom(s, beyond, c, 5, 6) == [];
    assert PartsFrom(s, beyond, c, 2, 4) == [(s + [0])[2..4]];
    assert PartsFrom(s, beyond, c, 2, 3) == PartsFrom(s, beyond, c, 2, 4);
    assert PartsFrom(s, beyond, c, 0, 1) == [(s + [0])[0..1]] + PartsFrom(s, beyond, c, 2, 3);
    assert PartsFrom(s, beyond, c, 0, 0) == PartsFrom(s, beyond, c, 0, 1);
    assert (s + [0])[2..4] == ['/' as int, 'b' as int] && (s + [0])[0..1] == ['a' as int];
  }
}
