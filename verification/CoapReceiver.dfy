/** Parsing a CoAP message in the buffer it was received in: repeated options are merged on the
    spot, over the headers of the options they came from, and the fields are slices of the buffer. */
module CoapReceiver {
  import opened CoapOptions
  import opened CoapMessage

  datatype Slice = Slice(start: nat, len: nat)

  datatype Status = NoError | Error(code: nat) | Outside

  /** A string field is where its slice says, any other as it was noted. */
  ghost predicate SliceHolds(d: seq<Byte>, s: Slice, v: Value) {
    s.start + s.len <= |d| && v == Text(d[s.start..s.start + s.len])
  }

  ghost predicate HoldsIn(d: seq<Byte>, slices: map<nat, Slice>, others: Fields, fields: Fields) {
    && slices.Keys !! others.Keys && fields.Keys == slices.Keys + others.Keys
    && (forall n :: n in others ==> fields[n] == others[n])
    && (forall n :: n in slices ==> SliceHolds(d, slices[n], fields[n]))
  }

  /** Strings of lower options end before `base`, where the options numbered `number` began, and a
      string of these begins behind it; all end before `pos`. */
  ghost predicate Ordered(slices: map<nat, Slice>, number: nat, base: nat, pos: nat) {
    && base <= pos
    && (forall n :: n in slices ==> n <= number && slices[n].start + slices[n].len <= pos)
    && (forall n :: n in slices && n < number ==> slices[n].start + slices[n].len <= base)
    && (number in slices ==> slices[number].start >= base)
  }

  /** The buffer after `n` bytes at `at` were moved behind a separator at `end`. */
  function Moved(d: seq<Byte>, end: nat, at: nat, n: nat, sep: Byte): (r: seq<Byte>)
    requires end < at && at + n <= |d|
    ensures |r| == |d|
  {
    d[..end] + [sep] + d[at..at + n] + d[end + 1 + n..]
  }

  lemma MovedIs(d: seq<Byte>, r: seq<Byte>, end: nat, at: nat, n: nat, sep: Byte)
    requires end < at && at + n <= |d| == |r| && r[end] == sep
    requires forall k :: 0 <= k < end ==> r[k] == d[k]
    requires forall k :: end < k <= end + n ==> r[k] == d[at + (k - end - 1)]
    requires forall k :: end + 1 + n <= k < |d| ==> r[k] == d[k]
    ensures r == Moved(d, end, at, n, sep)
  {
    var m := Moved(d, end, at, n, sep);
    forall i | 0 <= i < |d| ensures r[i] == m[i] {
      if end < i <= end + n {
        assert m[i] == d[at..at + n][i - end - 1];
      }
    }
  }

  lemma Slices(d: seq<Byte>, at: nat, n: nat, end: nat)
    requires at + n <= end <= |d|
    ensures d[at..end][..n] == d[at..at + n] && d[at..end][n..] == d[at + n..end]
  {
  }

  lemma PrefixSlices(d: seq<Byte>, a: nat, b: nat, end: nat)
    requires a <= b <= end <= |d|
    ensures d[..end][a..b] == d[a..b] && d[..end][b..] == d[b..end]
  {
  }

  lemma SameTail(d: seq<Byte>, e: seq<Byte>, at: nat, end: nat)
    requires at <= end <= |d| == |e| && d[at..] == e[at..]
    ensures d[at..end] == e[at..end]
  {
    assert d[at..end] == d[at..][..end - at] && e[at..end] == e[at..][..end - at];
  }

  lemma MovedSlice(d: seq<Byte>, s: Slice, at: nat, n: nat, sep: Byte)
    requires s.start + s.len < at && at + n <= |d|
    ensures Moved(d, s.start + s.len, at, n, sep)[s.start..s.start + s.len + 1 + n] ==
      d[s.start..s.start + s.len] + [sep] + d[at..at + n]
  {
  }

  lemma MovedElsewhere(d: seq<Byte>, end: nat, at: nat, n: nat, sep: Byte, low: nat, high: nat)
    requires end < at && at + n <= |d| && low <= high <= |d| && (high <= end || low >= at + n)
    ensures Moved(d, end, at, n, sep)[low..high] == d[low..high]
  {
  }

  lemma MovedOthers(d: seq<Byte>, slices: map<nat, Slice>, fields: Fields,
                                       number: nat, base: nat, pos: nat, at: nat, n: nat, sep: Byte, m: nat)
    requires Ordered(slices, number, base, pos) && pos < at && at + n <= |d| && number in slices
    requires m in slices && m in fields && m != number && SliceHolds(d, slices[m], fields[m])
    ensures SliceHolds(Moved(d, slices[number].start + slices[number].len, at, n, sep), slices[m], fields[m])
  {
    var end := slices[number].start + slices[number].len;
    assert slices[m].start + slices[m].len <= base <= end;
    hide Moved, Ordered;
    MovedElsewhere(d, end, at, n, sep, slices[m].start, slices[m].start + slices[m].len);
  }

  /** Moving a value behind the string of its option merges it, and leaves every other string and
      all that is behind the value as it was. */
  lemma MovedHolds(d: seq<Byte>, slices: map<nat, Slice>, others: Fields, fields: Fields,
                                      number: nat, base: nat, pos: nat, at: nat, n: nat, sep: Byte)
    requires HoldsIn(d, slices, others, fields) && Ordered(slices, number, base, pos) && pos < at && at + n <= |d|
    requires number in slices && slices[number].len > 0
    ensures var s := slices[number];
            var slices' := slices[number := Slice(s.start, s.len + 1 + n)];
            s.start + s.len < at &&
            var r := Moved(d, s.start + s.len, at, n, sep);
            && number in fields && fields[number].Text?
            && HoldsIn(r, slices', others, fields[number := Text(Merged(fields[number].s, d[at..at + n], sep))])
            && Ordered(slices', number, base, at + n)
            && r[at + n..] == d[at + n..]
  {
    hide HoldsIn, Ordered, SliceHolds, Moved, Merged;
    SliceFacts(d, slices, others, fields, number, base, pos, number);
    var s := slices[number];
    var end := s.start + s.len;
    var r := Moved(d, end, at, n, sep);
    var v := Text(Merged(fields[number].s, d[at..at + n], sep));
    OwnMoved(d, s, fields[number], at, n, sep);
    forall m | m in slices && m != number ensures m in fields && SliceHolds(r, slices[m], fields[m]) {
      SliceFacts(d, slices, others, fields, number, base, pos, m);
      MovedOthers(d, slices, fields, number, base, pos, at, n, sep, m);
    }
    HoldsWith(d, r, slices, others, fields, number, Slice(s.start, s.len + 1 + n), v);
    OrderedWith(slices, number, base, pos, Slice(s.start, s.len + 1 + n), at + n);
    MovedElsewhere(d, end, at, n, sep, at + n, |d|);
    assert r[at + n..|d|] == r[at + n..] && d[at + n..|d|] == d[at + n..];
  }

  lemma SliceFacts(d: seq<Byte>, slices: map<nat, Slice>, others: Fields, fields: Fields,
                                      number: nat, base: nat, pos: nat, m: nat)
    requires HoldsIn(d, slices, others, fields) && Ordered(slices, number, base, pos) && m in slices
    ensures m in fields && m !in others && SliceHolds(d, slices[m], fields[m]) && fields[m].Text?
    ensures slices[m].start + slices[m].len <= pos
  {
  }

  lemma OwnMoved(d: seq<Byte>, s: Slice, v: Value, at: nat, n: nat, sep: Byte)
    requires SliceHolds(d, s, v) && s.len > 0 && s.start + s.len < at && at + n <= |d|
    ensures v.Text?
    ensures SliceHolds(Moved(d, s.start + s.len, at, n, sep), Slice(s.start, s.len + 1 + n),
                       Text(Merged(v.s, d[at..at + n], sep)))
  {
    MovedSlice(d, s, at, n, sep);
    hide Moved;
  }

  lemma OrderedWith(slices: map<nat, Slice>, number: nat, base: nat, pos: nat, s: Slice, end: nat)
    requires Ordered(slices, number, base, pos) && pos <= end && number in slices
    requires s.start == slices[number].start && s.start + s.len <= end
    ensures Ordered(slices[number := s], number, base, end)
  {
  }

  lemma HoldsWith(d: seq<Byte>, r: seq<Byte>, slices: map<nat, Slice>, others: Fields, fields: Fields,
                                     number: nat, s: Slice, v: Value)
    requires HoldsIn(d, slices, others, fields) && number !in others
    requires forall m :: m in slices && m != number ==> m in fields && SliceHolds(r, slices[m], fields[m])
    requires SliceHolds(r, s, v)
    ensures HoldsIn(r, slices[number := s], others, fields[number := v])
  {
    hide SliceHolds;
  }

  /** A first value, or one behind empty ones, becomes the string where it is. */
  lemma FirstHolds(d: seq<Byte>, slices: map<nat, Slice>, others: Fields, fields: Fields,
                                      number: nat, base: nat, pos: nat, at: nat, n: nat, sep: Byte)
    requires HoldsIn(d, slices, others, fields) && Ordered(slices, number, base, pos) && pos <= at && at + n <= |d|
    requires number !in others && (number in slices ==> slices[number].len == 0)
    ensures var slices' := slices[number := Slice(at, n)];
            var acc := if number in fields && fields[number].Text? then fields[number].s else [];
            && HoldsIn(d, slices', others, fields[number := Text(Merged(acc, d[at..at + n], sep))])
            && Ordered(slices', number, base, at + n)
  {
    if number in slices {
      assert SliceHolds(d, slices[number], fields[number]);
    }
  }

  /** A new option that is no string changes nothing else. */
  lemma OtherHolds(d: seq<Byte>, slices: map<nat, Slice>, others: Fields, fields: Fields, number: nat, v: Value)
    requires HoldsIn(d, slices, others, fields) && number !in slices
    ensures HoldsIn(d, slices, others[number := v], fields[number := v])
  {
  }

  /** A higher option begins where the strings so far have ended. */
  lemma OrderedOnward(slices: map<nat, Slice>, number: nat, base: nat, pos: nat, delta: nat)
    requires Ordered(slices, number, base, pos)
    ensures Ordered(slices, number + delta, if delta == 0 then base else pos, pos)
  {
  }

  class Receiver {
    const data: array<Byte>
    var kind: nat
    var code: nat
    var mid: nat
    var token: seq<Byte>
    var slices: map<nat, Slice>
    var others: Fields
    var payload: Slice

    constructor (data: array<Byte>)
      ensures this.data == data
    {
      this.data := data;
      kind, code, mid, token := 0, 0, 0, [];
      slices, others, payload := map[], map[], Slice(0, 0);
    }

    /** The header of an option: an extended nibble and where it ends, or nothing when cut off. */
    method Extended(nibble: nat, pos: nat, end: nat) returns (r: Option<(nat, nat)>)
      requires pos <= end <= data.Length
      ensures var spec := ReadExtended(nibble, data[pos..end]);
              if spec.None? then r.None?
              else r.Some? && r.value.0 == spec.value.0 && pos <= r.value.1 <= end && data[r.value.1..end] == spec.value.1
    {
      if nibble == 13 {
        if end - pos < 1 {
          return None;
        }
        Slices(data[..], pos, 1, end);
        return Some((Both(0, data[pos]) + 13, pos + 1));
      } else if nibble == 14 {
        if end - pos < 2 {
          return None;
        }
        Slices(data[..], pos, 2, end);
        return Some((269 + Both(data[pos], data[pos + 1]), pos + 2));
      }
      return Some((nibble, pos));
    }

    /** coap_merge_multi_option: the first value is left where it is, another is moved behind the
        separator. Nothing from the end of the value on is touched. */
    method Merge(number: nat, at: nat, n: nat, sep: Byte, ghost base: nat, ghost pos: nat, ghost fields: Fields)
      requires HoldsIn(data[..], slices, others, fields) && Ordered(slices, number, base, pos)
      requires pos < at && at + n <= data.Length && number !in others
      modifies this`slices, data
      ensures slices.Keys == old(slices.Keys) + {number}
      ensures data[at + n..] == old(data[at + n..])
      ensures var acc := if number in fields && fields[number].Text? then fields[number].s else [];
              HoldsIn(data[..], slices, others, fields[number := Text(Merged(acc, old(data[at..at + n]), sep))])
      ensures Ordered(slices, number, base, at + n)
    {
      hide HoldsIn, Ordered, Moved;
      ghost var d := data[..];
      assert d[at..at + n] == data[at..at + n] && d[at + n..] == data[at + n..];
      if number in slices && slices[number].len > 0 {
        MovedHolds(d, slices, others, fields, number, base, pos, at, n, sep);
        var s := slices[number];
        MoveBehind(s.start + s.len, at, n, sep);
        assert data[..][at + n..] == data[at + n..];
        slices := slices[number := Slice(s.start, s.len + 1 + n)];
      } else {
        FirstHolds(d, slices, others, fields, number, base, pos, at, n, sep);
        slices := slices[number := Slice(at, n)];
      }
    }

    /** The separator, and the move of the value behind it. */
    method MoveBehind(end: nat, at: nat, n: nat, sep: Byte)
      requires end < at && at + n <= data.Length
      modifies data
      ensures data[..] == Moved(old(data[..]), end, at, n, sep)
    {
      ghost var d := data[..];
      data[end] := sep;
      forall k | 0 <= k < n {
        data[end + 1 + k] := data[at + k];
      }
      MovedIs(d, data[..], end, at, n, sep);
    }

    /** The option switch, for a value of `n` bytes at `at`: what it makes of the fields so far. */
    method Note(number: nat, at: nat, n: nat, ghost base: nat, ghost pos: nat, ghost fields: Fields) returns (status: Status)
      requires HoldsIn(data[..], slices, others, fields) && Ordered(slices, number, base, pos) && ByKind(slices, others)
      requires pos < at && at + n <= data.Length
      modifies this`slices, this`others, data
      ensures data[at + n..] == old(data[at + n..])
      ensures var noting := Noted(fields, number, old(data[at..at + n]));
              if noting.Refused? then status == Error(noting.status)
              else if noting.Astray? then status == Outside
              else status == NoError && HoldsIn(data[..], slices, others, noting.fields)
                   && Ordered(slices, number, base, at + n) && ByKind(slices, others)
    {
      hide HoldsIn, Ordered, KindOf, Merged;
      if number >= BITMAP_BITS {
        return Outside;
      }
      ghost var d := data[..];
      var value := data[at..at + n];
      assert value == d[at..at + n];
      OrderedLater(slices, number, base, pos, at + n);
      var k := KindOf(number);
      if k.TextKind? {
        PlainText(d, slices, others, fields, number, base, pos, at, n);
        slices := slices[number := Slice(at, n)];
        return NoError;
      } else if k.SplitKind? {
        Merge(number, at, n, k.sep, base, pos, fields);
        return NoError;
      } else if k.ProxyKind? {
        return Error(PROXYING_NOT_SUPPORTED);
      } else if k.OtherKind? && number % 2 == 1 {
        return Error(BAD_OPTION);
      }
      var v := if k.NumberKind? then Number(IntOf(value) % Max(k.width, 1))
               else if k.OpaqueKind? then Octets(value[..Min(ETAG_LEN, n)])
               else if k.FlagKind? then Flag
               else if k.BlockKind? then Chunk(BlockOf(IntOf(value)))
               else Ignored;
      OtherHolds(d, slices, others, fields, number, v);
      others := others[number := v];
      return NoError;
    }

    /** What is held of a parsed packet; the token was copied, the rest is in the buffer. */
    ghost predicate HoldsPacket(p: Packet)
      reads this, data
    {
      && kind == p.kind && code == p.code && mid == p.mid && token == p.token
      && HoldsIn(data[..], slices, others, p.fields)
      && payload.start + payload.len <= data.Length
      && data[payload.start..payload.start + payload.len] == p.payload
    }

    /** One option of the loop, from its header at `pos` on: where the next one begins and the number
        so far, or why there is none. */
    method ParseOne(pos: nat, number: nat, dataLen: nat, ghost base: nat, ghost fields: Fields)
      returns (next: Option<(nat, nat)>, status: Status, ghost base': nat, ghost fields': Fields)
      requires pos < dataLen < data.Length && data[pos] / 16 != 15
      requires HoldsIn(data[..], slices, others, fields) && Ordered(slices, number, base, pos) && ByKind(slices, others)
      modifies this`slices, this`others, data
      ensures var spec := ParseOptions(old(data[pos..dataLen]), number, fields);
              if next.None? then
                !spec.Options? && status == if spec.Bad? then Error(spec.status) else Outside
              else
                && pos < next.value.0 <= dataLen
                && HoldsIn(data[..], slices, others, fields') && Ordered(slices, next.value.1, base', next.value.0)
                && ByKind(slices, others)
                && spec == ParseOptions(data[next.value.0..dataLen], next.value.1, fields')
    {
      hide ParseOptions, ReadExtended, Noted, HoldsIn, Ordered, ByKind;
      next, base', fields' := None, base, fields;
      ghost var rest := data[pos..dataLen];
      Slices(data[..], pos, 1, dataLen);
      assert rest[0] == data[pos];
      ParseNext(rest, number, fields);
      var delta := Extended(data[pos] / 16, pos + 1, dataLen);
      if delta.None? {
        status := Outside;
        return;
      }
      var length := Extended(data[pos] % 16, delta.value.1, dataLen);
      if length.None? || length.value.0 > dataLen - length.value.1 {
        status := Outside;
        return;
      }
      var (n, at) := length.value;
      ghost var d := data[..];
      ghost var tail := data[at..dataLen];
      Slices(d, at, n, dataLen);
      OrderedOnward(slices, number, base, pos, delta.value.0);
      base' := if delta.value.0 == 0 then base else pos;
      ghost var noting := Noted(fields, number + delta.value.0, data[at..at + n]);
      status := Note(number + delta.value.0, at, n, base', pos, fields);
      if status == NoError {
        SameTail(d, data[..], at + n, dataLen);
        assert data[at + n..dataLen] == tail[n..];
        fields' := noting.fields;
        next := Some((at + n, number + delta.value.0));
      }
    }

    /** The option loop of coap_parse_message from `first` on. */
    method ParseRest(first: nat, dataLen: nat) returns (status: Status)
      requires first <= dataLen < data.Length && slices == map[] && others == map[]
      modifies this`slices, this`others, this`payload, data
      ensures var options := ParseOptions(old(data[first..dataLen]), 0, map[]);
              && (options.Cut? ==> status == Outside)
              && (options.Bad? ==> status == Error(options.status))
              && (options.Options? ==>
                    && status == NoError && HoldsIn(data[..], slices, others, options.fields)
                    && payload.start + payload.len <= data.Length
                    && data[payload.start..payload.start + payload.len] == options.payload)
    {
      hide ParseOptions, HoldsIn, Ordered, ByKind;
      ghost var all := ParseOptions(data[first..dataLen], 0, map[]);
      ghost var fields: Fields := map[];
      ghost var base := first;
      NothingHeld(data[..], first);
      var pos, number := first, 0;
      payload := Slice(0, 0);
      while pos < dataLen
        invariant first <= pos <= dataLen && payload == Slice(0, 0)
        invariant HoldsIn(data[..], slices, others, fields) && Ordered(slices, number, base, pos) && ByKind(slices, others)
        invariant all == ParseOptions(data[pos..dataLen], number, fields)
      {
        if data[pos] / 16 == 15 {
          FindPayload(pos, number, dataLen, base, fields);
          return NoError;
        }
        var next;
        next, status, base, fields := ParseOne(pos, number, dataLen, base, fields);
        if next.None? {
          return;
        }
        pos, number := next.value.0, next.value.1;
      }
      assert data[pos..dataLen] == [];
      ParseNext([], number, fields);
      status := NoError;
      assert data[0..0] == [];
    }

    /** The payload behind its marker, cut to a chunk and terminated. */
    method FindPayload(pos: nat, number: nat, dataLen: nat, ghost base: nat, ghost fields: Fields)
      requires pos < dataLen < data.Length && data[pos] / 16 == 15
      requires HoldsIn(data[..], slices, others, fields) && Ordered(slices, number, base, pos)
      modifies this`payload, data
      ensures HoldsIn(data[..], slices, others, fields) && payload.start + payload.len <= data.Length
      ensures ParseOptions(old(data[pos..dataLen]), number, fields) ==
        Options(fields, data[payload.start..payload.start + payload.len])
    {
      hide ParseOptions, HoldsIn, Ordered;
      ghost var rest := data[pos..dataLen];
      Slices(data[..], pos, 1, dataLen);
      assert rest[0] == data[pos];
      ParseNext(rest, number, fields);
      var n := Min(dataLen - pos - 1, MAX_CHUNK_SIZE);
      payload := Slice(pos + 1, n);
      Slices(data[..], pos + 1, n, dataLen);
      ghost var d := data[..];
      BehindStrings(d, slices, others, fields, number, base, pos, pos + 1 + n);
      data[pos + 1 + n] := 0;
      assert data[..] == d[pos + 1 + n := 0];
    }

    /** coap_parse_message, which comes to what parsing a copy of the data comes to: although options
        are merged over the data, the fields hold what was received. Reading beyond the data or
        setting a bit outside the bitmap, which the original does, ends the model. */
    method ParseMessage(dataLen: nat) returns (status: Status)
      requires dataLen < data.Length
      modifies this, data
      ensures var outcome := Parse(old(data[..dataLen]));
              && (outcome.Fault? ==> status == Outside)
              && (outcome.Rejected? ==> status == Error(outcome.status))
              && (outcome.Parsed? ==> status == NoError && HoldsPacket(outcome.p))
    {
      hide ParseOptions, HoldsIn;
      slices, others, payload := map[], map[], Slice(0, 0);
      if dataLen < 4 {
        return Outside;
      }
      ghost var d := data[..dataLen];
      assert d[0] == data[0] && d[1] == data[1] && d[2] == data[2] && d[3] == data[3];
      kind := (data[0] / 16) % 4;
      var tokenLen := Min(TOKEN_LEN, data[0] % 16);
      code := data[1];
      mid := Both(data[2], data[3]);
      if data[0] / 64 != 1 {
        return Error(BAD_REQUEST);
      }
      if dataLen < 4 + tokenLen {
        return Outside;
      }
      token := data[4..4 + tokenLen];
      PrefixSlices(data[..], 4, 4 + tokenLen, dataLen);
      status := ParseRest(4 + tokenLen, dataLen);
    }
  }

  lemma NothingHeld(d: seq<Byte>, pos: nat)
    ensures HoldsIn(d, map[], map[], map[]) && Ordered(map[], 0, pos, pos) && ByKind(map[], map[])
  {
  }

  /** A byte behind all strings can be written. */
  lemma BehindStrings(d: seq<Byte>, slices: map<nat, Slice>, others: Fields, fields: Fields,
                                         number: nat, base: nat, pos: nat, at: nat)
    requires HoldsIn(d, slices, others, fields) && Ordered(slices, number, base, pos) && pos <= at < |d|
    ensures HoldsIn(d[at := 0], slices, others, fields)
  {
    forall n | n in slices ensures SliceHolds(d[at := 0], slices[n], fields[n]) {
      assert SliceHolds(d, slices[n], fields[n]);
      var s := slices[n];
      assert d[at := 0][s.start..s.start + s.len] == d[s.start..s.start + s.len];
    }
  }

  lemma ParseNext(rest: seq<Byte>, number: nat, fields: Fields)
    ensures rest == [] ==> ParseOptions(rest, number, fields) == Options(fields, [])
    ensures rest != [] && rest[0] / 16 == 15 ==>
      ParseOptions(rest, number, fields) == Options(fields, rest[1..][..Min(|rest| - 1, MAX_CHUNK_SIZE)])
    ensures rest != [] && rest[0] / 16 != 15 ==>
      var delta := ReadExtended(rest[0] / 16, rest[1..]);
      if delta.None? then ParseOptions(rest, number, fields) == Cut else
      var length := ReadExtended(rest[0] % 16, delta.value.1);
      if length.None? || length.value.0 > |length.value.1| then ParseOptions(rest, number, fields) == Cut else
      var (n, tail) := (length.value.0, length.value.1);
      var read := Noted(fields, number + delta.value.0, tail[..n]);
      if !read.Kept? then ParseOptions(rest, number, fields) == Stopped(read)
      else ParseOptions(rest, number, fields) == ParseOptions(tail[n..], number + delta.value.0, read.fields)
  {
    hide Noted;
  }

  predicate IsString(number: nat) { KindOf(number).TextKind? || KindOf(number).SplitKind? }

  /** Strings are slices, and nothing else is. */
  predicate ByKind(slices: map<nat, Slice>, others: Fields) {
    (forall n :: n in slices ==> IsString(n)) && (forall n :: n in others ==> !IsString(n))
  }

  lemma OrderedLater(slices: map<nat, Slice>, number: nat, base: nat, pos: nat, end: nat)
    requires Ordered(slices, number, base, pos) && pos <= end
    ensures Ordered(slices, number, base, end)
  {
  }

  /** A string that is not cut replaces the one before. */
  lemma PlainText(d: seq<Byte>, slices: map<nat, Slice>, others: Fields, fields: Fields,
                                     number: nat, base: nat, pos: nat, at: nat, n: nat)
    requires HoldsIn(d, slices, others, fields) && Ordered(slices, number, base, pos) && pos <= at && at + n <= |d|
    requires number !in others
    ensures HoldsIn(d, slices[number := Slice(at, n)], others, fields[number := Text(d[at..at + n])])
    ensures Ordered(slices[number := Slice(at, n)], number, base, at + n)
  {
  }
}
