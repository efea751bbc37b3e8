/** The parts of a CoAP option: its header, integers, strings cut at separators, and block values
    (sections 3.1 and 3.2 of RFC 7252, section 2.2 of RFC 7959). */
module CoapOptions {

  type Byte = b: int | 0 <= b < 256

  datatype Option<+T> = None | Some(value: T)

  // ----------------------------------------------------------------- header

  /** coap_option_nibble. */
  function Nibble(value: nat): (r: nat)
    ensures r <= 14
  {
    if value < 13 then value else if value <= 268 then 13 else 14
  }

  function Low(value: nat): (b: Byte) { value % 256 }

  /** The bytes that extend a nibble. */
  function Extension(value: nat): (r: seq<Byte>) {
    if value > 268 then [Low((value - 269) / 256), Low(value - 269)]
    else if value > 12 then [Low(value - 13)]
    else []
  }

  /** coap_set_option_header. */
  function Header(delta: nat, length: nat): (r: seq<Byte>) {
    [Nibble(delta) * 16 + Nibble(length)] + Extension(delta) + Extension(length)
  }

  /** No option header can be taken for a payload marker. */
  lemma HeaderIsNoMarker(delta: nat, length: nat)
    ensures |Header(delta, length)| > 0 && Header(delta, length)[0] / 16 != 15
  {
  }

  /** What a nibble with its extension stands for, and what follows; nothing when it is cut off. */
  function ReadExtended(nibble: nat, rest: seq<Byte>): (r: Option<(nat, seq<Byte>)>) {
    if nibble == 13 then
      if |rest| < 1 then None else Some((Both(0, rest[0]) + 13, rest[1..]))
    else if nibble == 14 then
      if |rest| < 2 then None else Some((269 + Both(rest[0], rest[1]), rest[2..]))
    else Some((nibble, rest))
  }

  function Both(high: int, low: int): (w: int) { 256 * high + low }

  lemma ExtensionReads(value: nat, rest: seq<Byte>)
    requires value <= 65804
    ensures ReadExtended(Nibble(value), Extension(value) + rest) == Some((value, rest))
  {
    var bytes := Extension(value) + rest;
    ExtensionValue(value);
    hide Low, Both;
    if value > 268 {
      assert bytes == [Low((value - 269) / 256), Low(value - 269)] + rest && bytes[2..] == rest;
    } else if value > 12 {
      assert bytes == [Low(value - 13)] + rest && bytes[1..] == rest;
    } else {
      assert bytes == rest;
    }
  }

  lemma ExtensionValue(value: nat)
    requires value <= 65804
    ensures 12 < value <= 268 ==> Both(0, Low(value - 13)) == value - 13
    ensures value > 268 ==> Both(Low((value - 269) / 256), Low(value - 269)) == value - 269
  {
  }

  // --------------------------------------------------------------- integers

  /** coap_parse_int_option: big-endian in 32 bits. */
  function IntOf(bytes: seq<Byte>): (v: nat)
    ensures v < 0x1_0000_0000
    decreases |bytes|
  {
    if bytes == [] then 0
    else (IntOf(bytes[..|bytes| - 1]) * 256 + bytes[|bytes| - 1]) % 0x1_0000_0000
  }

  /** What coap_serialize_int_option writes: the bytes from the highest that is not zero on. */
  function IntBytes(v: nat): (r: seq<Byte>)
    requires v < 0x1_0000_0000
    ensures |r| <= 4
  {
    (if v >= 0x100_0000 then [v / 0x100_0000] else []) + (if v >= 0x1_0000 then [Low(v / 0x1_0000)] else []) +
    (if v >= 0x100 then [Low(v / 0x100)] else []) + (if v >= 1 then [Low(v)] else [])
  }

  lemma IntAppend(bytes: seq<Byte>, b: Byte)
    ensures IntOf(bytes + [b]) == (IntOf(bytes) * 256 + b) % 0x1_0000_0000
  {
    assert (bytes + [b])[..|bytes|] == bytes;
  }

  lemma Quotients(v: nat)
    ensures v / 0x100 / 0x100 == v / 0x1_0000 && v / 0x100 / 0x1_0000 == v / 0x100_0000
    ensures v < 0x1_0000_0000 ==> v / 0x100 < 0x100_0000
    ensures v / 0x100 >= 1 <==> v >= 0x100
    ensures v / 0x100 >= 0x100 <==> v >= 0x1_0000
    ensures v / 0x100 >= 0x1_0000 <==> v >= 0x100_0000
    ensures v >= 0x100_0000 && v < 0x1_0000_0000 ==> Low(v / 0x100_0000) == v / 0x100_0000
  {
  }

  /** The last byte of an integer, behind those of its quotient. */
  lemma IntBytesStep(v: nat)
    requires 0 < v < 0x1_0000_0000
    ensures v / 0x100 < 0x1_0000_0000 && IntBytes(v) == IntBytes(v / 0x100) + [Low(v)]
  {
    Quotients(v);
    hide Low;
  }

  /** An integer survives, and its first byte is not zero. */
  lemma {:induction false} IntRoundTrip(v: nat)
    requires v < 0x1_0000_0000
    ensures IntOf(IntBytes(v)) == v
    ensures v > 0 ==> |IntBytes(v)| > 0 && IntBytes(v)[0] != 0
    decreases v
  {
    if v > 0 {
      IntBytesStep(v);
      hide IntBytes, IntOf;
      IntRoundTrip(v / 0x100);
      IntAppend(IntBytes(v / 0x100), Low(v));
      if v < 0x100 {
        NoBytes();
      }
    }
  }

  lemma NoBytes()
    ensures IntBytes(0) == []
  {
  }

  // ------------------------------------------------------------------ blocks

  /** coap_log_2. */
  function Log2(value: nat): (r: nat) {
    if value / 2 == 0 then 0 else 1 + Log2(value / 2)
  }

  /** A block number, whether more follow, and the block size. */
  datatype Block = Block(num: nat, more: bool, size: nat)

  /** The value that COAP_SERIALIZE_BLOCK_OPTION writes. */
  function BlockValue(b: Block): (v: nat)
    ensures v < 0x1_0000_0000
  {
    var nibble := Log2(b.size / 16) % 16;
    (b.num * 16 + (if b.more && nibble < 8 then nibble + 8 else nibble)) % 0x1_0000_0000
  }

  function Power(k: nat): (p: nat)
    ensures p >= 1
  {
    if k == 0 then 1 else 2 * Power(k - 1)
  }

  /** The block of a parsed value. */
  function BlockOf(v: nat): (b: Block) {
    Block(v / 16, (v / 8) % 2 == 1, 16 * Power(v % 8))
  }

  /** What the setters of a block option let through. */
  predicate BlockSet(b: Block) { 16 <= b.size <= 2048 && b.num <= 0xFFFFF }

  lemma LogOfSize(size: nat)
    requires 16 <= size <= 2048
    ensures Log2(size / 16) <= 7
  {
    var e := Log2(size / 16);
    LogBound(size / 16);
    assert Power(4) == 16 && Power(8) == 256;
    hide Log2, Power;
    if e >= 8 {
      PowerGrows(8, e);
    }
  }

  lemma {:induction false} PowerGrows(a: nat, b: nat)
    requires a <= b
    ensures Power(a) <= Power(b)
    decreases b
  {
    if a < b {
      PowerGrows(a, b - 1);
    }
  }

  lemma {:induction false} LogBound(value: nat)
    requires value >= 1
    ensures Power(Log2(value)) <= value < 2 * Power(Log2(value))
  {
    if value >= 2 {
      LogBound(value / 2);
    }
  }

  lemma BlockDigits(num: nat, more: bool, e: nat)
    requires e < 8
    ensures var v := num * 16 + (if more then e + 8 else e);
            v / 16 == num && v % 8 == e && ((v / 8) % 2 == 1 <==> more)
  {
    var v := num * 16 + (if more then e + 8 else e);
    assert v / 8 == 2 * num + (if more then 1 else 0);
  }

  /** A block survives exactly when its size is a power of two. */
  lemma BlockRoundTrip(b: Block)
    requires BlockSet(b)
    ensures BlockOf(BlockValue(b)) == b <==> b.size == 16 * Power(Log2(b.size / 16))
    ensures BlockOf(BlockValue(b)).num == b.num && BlockOf(BlockValue(b)).more == b.more
  {
    hide Log2, Power, BlockValue;
    var e := ValueOfBlock(b);
    BlockDigits(b.num, b.more, e);
  }

  lemma ValueOfBlock(b: Block) returns (e: nat)
    requires BlockSet(b)
    ensures e == Log2(b.size / 16) < 8
    ensures BlockValue(b) == b.num * 16 + (if b.more then e + 8 else e)
  {
    LogOfSize(b.size);
    hide Log2;
    e := Log2(b.size / 16);
  }

  // ------------------------------------------------- strings with separators

  /** A byte of a terminated string, or the byte `beyond` its terminator. */
  function At(s: seq<Byte>, beyond: Byte, j: nat): (b: Byte)
    requires j <= |s| + 1
  {
    if j < |s| then s[j] else if j == |s| then 0 else beyond
  }

  /** The segments that coap_serialize_array_option makes, from place `j` on, when the segment began
      at `start`. The byte behind a separator is passed over. */
  function PartsFrom(s: seq<Byte>, beyond: Byte, sep: Byte, start: nat, j: nat): (parts: seq<seq<Byte>>)
    requires start <= j
    decreases |s| + 2 - j
  {
    if j > |s| + 1 then []
    else if At(s, beyond, j) == sep || j == |s| then
      [(s + [0])[start..j]] + PartsFrom(s, beyond, sep, j + 1, j + 2)
    else PartsFrom(s, beyond, sep, start, j + 1)
  }

  function Parts(s: seq<Byte>, beyond: Byte, sep: Byte): (parts: seq<seq<Byte>>) {
    PartsFrom(s, beyond, sep, 0, 0)
  }

  /** coap_merge_multi_option: a first part, or another behind a separator. */
  function Merged(acc: seq<Byte>, part: seq<Byte>, sep: Byte): (r: seq<Byte>) {
    if acc != [] then acc + [sep] + part else part
  }

  function MergeAll(acc: seq<Byte>, parts: seq<seq<Byte>>, sep: Byte): (r: seq<Byte>)
    decreases |parts|
  {
    if parts == [] then acc else MergeAll(Merged(acc, parts[0], sep), parts[1..], sep)
  }

  /** Whether the separators at the end of the string are an odd number. */
  predicate OddTail(s: seq<Byte>, sep: Byte) {
    s != [] && s[|s| - 1] == sep && !OddTail(s[..|s| - 1], sep)
  }

  /** A string that survives being cut and merged: it begins with no separator, and ends with none or
      an even number of them. */
  predicate Mergeable(s: seq<Byte>, sep: Byte) {
    s == [] || (s[0] != sep && !OddTail(s, sep))
  }

  /** Whether the scan from place `j` on stops at a separator in the last place. */
  predicate StopsLast(s: seq<Byte>, sep: Byte, j: nat)
    decreases |s| - j
  {
    j < |s| && if s[j] == sep then j == |s| - 1 || StopsLast(s, sep, j + 2) else StopsLast(s, sep, j + 1)
  }

  /** What the parts from a place on merge to, behind what came before the place. */
  lemma {:induction false} PartsMerge(s: seq<Byte>, beyond: Byte, sep: Byte, acc: seq<Byte>, base: nat, start: nat, j: nat)
    requires sep != 0 && start <= j <= |s| && base <= start
    requires start == base ==> acc == [] && (j == base < |s| ==> s[j] != sep)
    requires start > base ==> acc != [] && acc == s[base..start - 1] && s[start - 1] == sep
    ensures var r := MergeAll(acc, PartsFrom(s, beyond, sep, start, j), sep);
            r == if !StopsLast(s, sep, j) then s[base..]
                 else if beyond == sep then s[base..|s| - 1] + [sep, 0]
                 else s[base..|s| - 1]
    decreases |s| - j
  {
    hide PartsFrom, MergeAll, Merged;
    StopsLastHere(s, sep, j);
    hide StopsLast;
    if j == |s| {
      LastPart(s, beyond, sep, acc, base, start);
    } else if s[j] == sep {
      CutAt(s, beyond, sep, acc, base, start, j);
      if j == |s| - 1 {
        PartsBeyond(s, beyond, sep, s[base..j]);
      } else {
        PartsMerge(s, beyond, sep, s[base..j], base, j + 1, j + 2);
      }
    } else {
      PassedOver(s, beyond, sep, start, j);
      PartsMerge(s, beyond, sep, acc, base, start, j + 1);
    }
  }

  lemma PassedOver(s: seq<Byte>, beyond: Byte, sep: Byte, start: nat, j: nat)
    requires start <= j < |s| && s[j] != sep
    ensures PartsFrom(s, beyond, sep, start, j) == PartsFrom(s, beyond, sep, start, j + 1)
  {
  }

  lemma StopsLastHere(s: seq<Byte>, sep: Byte, j: nat)
    ensures StopsLast(s, sep, j) <==>
      j < |s| && if s[j] == sep then j == |s| - 1 || StopsLast(s, sep, j + 2) else StopsLast(s, sep, j + 1)
  {
  }

  lemma LastPart(s: seq<Byte>, beyond: Byte, sep: Byte, acc: seq<Byte>, base: nat, start: nat)
    requires base <= start <= |s|
    requires start == base ==> acc == []
    requires start > base ==> acc != [] && acc == s[base..start - 1] && s[start - 1] == sep
    ensures MergeAll(acc, PartsFrom(s, beyond, sep, start, |s|), sep) == s[base..]
  {
    var part := (s + [0])[start..|s|];
    assert part == s[start..];
    assert PartsFrom(s, beyond, sep, start, |s|) == [part] + PartsFrom(s, beyond, sep, |s| + 1, |s| + 2) == [part];
    assert MergeAll(acc, [part], sep) == MergeAll(Merged(acc, part, sep), [], sep);
    assert Merged(acc, part, sep) == s[base..];
  }

  lemma CutAt(s: seq<Byte>, beyond: Byte, sep: Byte, acc: seq<Byte>, base: nat, start: nat, j: nat)
    requires base <= start <= j < |s| && s[j] == sep
    requires start == base ==> acc == []
    requires start > base ==> acc != [] && acc == s[base..start - 1] && s[start - 1] == sep
    ensures MergeAll(acc, PartsFrom(s, beyond, sep, start, j), sep) ==
            MergeAll(s[base..j], PartsFrom(s, beyond, sep, j + 1, j + 2), sep)
  {
    var part := (s + [0])[start..j];
    assert part == s[start..j];
    var rest := PartsFrom(s, beyond, sep, j + 1, j + 2);
    assert PartsFrom(s, beyond, sep, start, j) == [part] + rest;
    assert ([part] + rest)[1..] == rest;
    assert Merged(acc, part, sep) == s[base..j];
  }

  lemma PartsBeyond(s: seq<Byte>, beyond: Byte, sep: Byte, acc: seq<Byte>)
    requires sep != 0 && acc != []
    ensures MergeAll(acc, PartsFrom(s, beyond, sep, |s|, |s| + 1), sep) ==
      if beyond == sep then acc + [sep, 0] else acc
  {
    var whole := s + [0];
    assert whole[|s|..|s| + 1] == [0];
    assert PartsFrom(s, beyond, sep, |s| + 2, |s| + 3) == [];
    if beyond == sep {
      assert PartsFrom(s, beyond, sep, |s|, |s| + 1) == [[0]];
      assert MergeAll(acc, [[0]], sep) == MergeAll(Merged(acc, [0], sep), [], sep);
      assert acc + [sep] + [0] == acc + [sep, 0];
    } else {
      assert PartsFrom(s, beyond, sep, |s|, |s| + 2) == [];
    }
  }

  lemma {:induction false} StopsLastStep(s: seq<Byte>, sep: Byte, j: nat)
    requires j < |s|
    ensures StopsLast(s, sep, j) <==> s[|s| - 1] == sep && !StopsLast(s[..|s| - 1], sep, j)
    decreases |s| - j
  {
    if j < |s| - 1 {
      if s[j] != sep {
        StopsLastStep(s, sep, j + 1);
      } else if j + 2 < |s| {
        StopsLastStep(s, sep, j + 2);
      }
    }
  }

  lemma {:induction false} StopsLastIsOdd(s: seq<Byte>, sep: Byte)
    ensures StopsLast(s, sep, 0) <==> OddTail(s, sep)
    decreases |s|
  {
    if s != [] {
      StopsLastStep(s, sep, 0);
      StopsLastIsOdd(s[..|s| - 1], sep);
    }
  }

  /** Behind a leading separator, the first segment is empty and nothing puts the separator back. */
  lemma LeadingSeparator(s: seq<Byte>, beyond: Byte, sep: Byte)
    requires sep != 0 && s != [] && s[0] == sep
    ensures MergeAll([], Parts(s, beyond, sep), sep) != s
  {
    var rest := PartsFrom(s, beyond, sep, 1, 2);
    assert (s + [0])[0..0] == [];
    assert Parts(s, beyond, sep) == [[]] + rest;
    assert ([[]] + rest)[1..] == rest && Merged([], [], sep) == [];
    assert MergeAll([], [[]] + rest, sep) == MergeAll([], rest, sep);
    if |s| == 1 {
      assert PartsFrom(s, beyond, sep, 3, 4) == [];
      assert rest == if beyond == sep then [[0]] else [] by {
        assert (s + [0])[1..2] == [0];
        assert PartsFrom(s, beyond, sep, 1, 3) == [];
      }
      assert MergeAll([], [[0]], sep) == MergeAll([0], [], sep) == [0];
    } else {
      StopsLastStep(s, sep, 2 - 1);
      PartsMerge(s, beyond, sep, [], 1, 1, 2);
      var r := MergeAll([], rest, sep);
      if r == s {
        hide MergeAll, PartsFrom;
        assert r == s[1..|s| - 1] + [sep, 0];
        LastStop(s, sep, 2);
      }
    }
  }

  lemma {:induction false} LastStop(s: seq<Byte>, sep: Byte, j: nat)
    requires StopsLast(s, sep, j)
    ensures s[|s| - 1] == sep
    decreases |s| - j
  {
    if s[j] != sep {
      LastStop(s, sep, j + 1);
    } else if j < |s| - 1 {
      LastStop(s, sep, j + 2);
    }
  }

  /** A string that is cut at its separators and merged again comes out as it was exactly when it
      begins with no separator and ends with none or an even number of them, whatever lies in memory
      behind it. */
  lemma StringRoundTrip(s: seq<Byte>, beyond: Byte, sep: Byte)
    requires sep != 0
    ensures MergeAll([], Parts(s, beyond, sep), sep) == s <==> Mergeable(s, sep)
  {
    if s != [] && s[0] == sep {
      LeadingSeparator(s, beyond, sep);
    } else {
      PartsMerge(s, beyond, sep, [], 0, 0, 0);
      StopsLastIsOdd(s, sep);
      assert s[0..] == s;
      hide MergeAll, PartsFrom;
      var r := MergeAll([], Parts(s, beyond, sep), sep);
      if StopsLast(s, sep, 0) {
        assert |r| != |s|;
      }
    }
  }
}
