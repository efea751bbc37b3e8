/** The Internet checksum of the tun-to-serial bridge (RFC 1071, section 2), and its incremental
    update when the bridge gives a packet an identification (RFC 1624, section 3). The host is
    little-endian. */
module TunChecksum {
  import Slip

  const ICMP: nat := 1
  const TCP: nat := 6
  const UDP: nat := 17

  type Byte = Slip.Byte
  type Word = w: int | 0 <= w < 65536

  /** The memory from the first byte of a packet on, as far as a check can read. */
  predicate Readable(m: seq<Byte>) { |m| >= 66000 }

  // ------------------------------------------------------------- operations

  /** The word with the given bytes. */
  function Both(high: int, low: int): (w: int) {
    256 * high + low
  }

  /** Adds with end-around carry. */
  function AddWord(sum: Word, t: Word): (r: Word) {
    var s := (sum + t) % 65536;
    if s < t then s + 1 else s
  }

  /** ip4sum: the sum of `n` bytes from `at` on, continued from `sum`. */
  function Ip4Sum(sum: Word, m: seq<Byte>, at: nat, n: nat): (r: Word)
    requires at + n <= |m|
    decreases n
  {
    if n == 0 then sum
    else if n == 1 then AddWord(sum, Both(m[at], 0))
    else Ip4Sum(AddWord(sum, Both(m[at], m[at + 1])), m, at + 2, n - 2)
  }

  predicate SumAccepted(sum: Word) { sum == 65535 || sum == 0 }

  function HeaderLength(m: seq<Byte>): (n: nat)
    requires Readable(m)
    ensures n <= 60
  {
    4 * (m[0] % 16)
  }

  /** The length of what follows the header, as a 16-bit word. */
  function TransportLength(m: seq<Byte>, len: Word): (n: Word)
    requires Readable(m)
  {
    (len - HeaderLength(m)) % 65536
  }

  /** check_ip: 0, or the negative code of the first check that fails. */
  function CheckIp(m: seq<Byte>, len: Word): (code: int)
    requires Readable(m)
  {
    if m[0] / 16 != 4 then -1
    else if Both(m[2], m[3]) > len then -2
    else if Both(m[2], m[3]) < len then -3
    else if !SumAccepted(Ip4Sum(0, m, 0, HeaderLength(m))) then -4
    else CheckTransport(m, len)
  }

  function CheckTransport(m: seq<Byte>, len: Word): (code: int)
    requires Readable(m)
    ensures code == 0 || code == -5 || code == -6 || code == -7
  {
    var hl, tl := HeaderLength(m), TransportLength(m, len);
    if m[9] == TCP || m[9] == UDP then
      if SumAccepted(Ip4Sum(Ip4Sum((m[9] + tl) % 65536, m, 12, 8), m, hl, tl)) then 0
      else if m[9] == TCP then -5
      else if m[26] != 0 || m[27] != 0 then -6
      else 0
    else if m[9] == ICMP && !SumAccepted(Ip4Sum(0, m, hl, tl)) then -7
    else 0
  }

  /** Whether write_to_serial numbers the packet. */
  predicate NeedsId(m: seq<Byte>)
    requires Readable(m)
  {
    m[4] == 0 && m[5] == 0 && (m[7] / 64) % 2 == 1
  }

  /** The header with the identification `nid` and the checksum to which its complement is added. */
  function WithId(m: seq<Byte>, nid: Word): (r: seq<Byte>)
    requires Readable(m)
    ensures |r| == |m|
  {
    var sum := AddWord(Both(m[11], m[10]), 65535 - nid);
    m[4 := nid % 256][5 := nid / 256][10 := sum % 256][11 := sum / 256]
  }

  // --------------------------------------------------------- sums and words

  /** The plain sum of the big-endian words of a range, the odd byte last. */
  function WordSum(m: seq<Byte>, at: nat, n: nat): (r: nat)
    requires at + n <= |m|
    decreases n
  {
    if n == 0 then 0
    else if n == 1 then Both(m[at], 0)
    else Both(m[at], m[at + 1]) + WordSum(m, at + 2, n - 2)
  }

  lemma CarryAround(sum: Word, t: Word)
    ensures AddWord(sum, t) == sum + t - (if AddWord(sum, t) == sum + t then 0 else 65535)
    ensures AddWord(sum, t) == 0 <==> sum == 0 && t == 0
  {
  }

  /** How often the sum of a range carries around. */
  function Carries(sum: Word, m: seq<Byte>, at: nat, n: nat): (k: nat)
    requires at + n <= |m|
    decreases n
  {
    if n == 0 then 0 else
    var t := if n == 1 then Both(m[at], 0) else Both(m[at], m[at + 1]);
    (if AddWord(sum, t) == sum + t then 0 else 1) +
    if n == 1 then 0 else Carries(AddWord(sum, t), m, at + 2, n - 2)
  }

  lemma WordNotNegative(high: Byte, low: Byte)
    ensures 0 <= Both(high, low) < 65536
  {
  }

  /** ip4sum is the sum of the words modulo 2^16 - 1, and is zero only when all of it is. */
  lemma {:induction false} SumOfWords(sum: Word, m: seq<Byte>, at: nat, n: nat)
    requires at + n <= |m|
    ensures Ip4Sum(sum, m, at, n) == sum + WordSum(m, at, n) - 65535 * Carries(sum, m, at, n)
    ensures Ip4Sum(sum, m, at, n) == 0 <==> sum + WordSum(m, at, n) == 0
    decreases n
  {
    if n >= 1 {
      var t := if n == 1 then Both(m[at], 0) else Both(m[at], m[at + 1]);
      CarryAround(sum, t);
      WordNotNegative(m[at], if n == 1 then 0 else m[at + 1]);
      hide AddWord, Both;
      if n >= 2 {
        SumOfWords(AddWord(sum, t), m, at + 2, n - 2);
      }
    }
  }

  /** One of the zeros of one's-complement arithmetic. */
  predicate Zero(x: int) { x % 65535 == 0 }

  lemma Multiple(r: int, total: int, k: int)
    requires r == total - 65535 * k && 0 <= r < 65536
    ensures (r == 0 || r == 65535) <==> Zero(total)
  {
  }

  /** A range is accepted exactly when its words and what they are added to sum to a multiple. */
  lemma AcceptedSum(sum: Word, m: seq<Byte>, at: nat, n: nat)
    requires at + n <= |m|
    ensures SumAccepted(Ip4Sum(sum, m, at, n)) <==> Zero(sum + WordSum(m, at, n))
  {
    hide Zero, WordSum, Ip4Sum, Carries;
    SumOfWords(sum, m, at, n);
    Multiple(Ip4Sum(sum, m, at, n), sum + WordSum(m, at, n), Carries(sum, m, at, n));
  }

  lemma {:induction false} SplitSum(m: seq<Byte>, at: nat, k: nat, n: nat)
    requires at + n <= |m| && k <= n && k % 2 == 0
    ensures WordSum(m, at, n) == WordSum(m, at, k) + WordSum(m, at + k, n - k)
    decreases k
  {
    if k > 0 {
      SplitSum(m, at + 2, k - 2, n - 2);
    }
  }

  lemma {:induction false} SameSum(m: seq<Byte>, m': seq<Byte>, at: nat, n: nat)
    requires at + n <= |m| == |m'|
    requires forall i :: at <= i < at + n ==> m[i] == m'[i]
    ensures WordSum(m, at, n) == WordSum(m', at, n)
    ensures forall sum :: Ip4Sum(sum, m, at, n) == Ip4Sum(sum, m', at, n)
    decreases n
  {
    if n >= 2 {
      SameSum(m, m', at + 2, n - 2);
    }
  }

  // ------------------------------------------------------ incremental update

  /** The word with its bytes exchanged. */
  function Swapped(w: int): (r: int) { Both(w % 256, w / 256) }

  lemma SwappedIs(w: int)
    ensures Swapped(w) == 256 * w - 65535 * (w / 256)
  {
  }

  /** What the identification adds to a sum, the new checksum takes away. */
  lemma ComplementCancels(sum: Word, nid: Word) returns (k: int)
    ensures Swapped(nid) + Swapped(AddWord(sum, 65535 - nid)) - Swapped(sum) == 65535 * k
  {
    var next := AddWord(sum, 65535 - nid);
    var carry := if next == sum + (65535 - nid) then 0 else 1;
    CarryAround(sum, 65535 - nid);
    hide AddWord, Swapped;
    SwappedIs(nid);
    SwappedIs(next);
    SwappedIs(sum);
    assert next == sum + (65535 - nid) - 65535 * carry;
    k := 256 - 256 * carry - nid / 256 - next / 256 + sum / 256;
  }

  /** The words that the update changes. */
  lemma UpdatedWords(m: seq<Byte>, nid: Word) returns (k: int)
    requires Readable(m) && m[4] == 0 && m[5] == 0
    ensures var r := WithId(m, nid);
            && Both(r[4], r[5]) == Swapped(nid)
            && Both(r[10], r[11]) + Swapped(nid) == Both(m[10], m[11]) + 65535 * k
            && (forall i :: 0 <= i < |m| && i != 4 && i != 5 && i != 10 && i != 11 ==> r[i] == m[i])
  {
    var sum := Both(m[11], m[10]);
    var next := AddWord(sum, 65535 - nid);
    k := ComplementCancels(sum, nid);
    SwappedWord(sum, m[10], m[11]);
    hide AddWord, Swapped;
    var r := WithId(m, nid);
    assert r[4] == nid % 256 && r[5] == nid / 256 && r[10] == next % 256 && r[11] == next / 256;
    hide WithId;
    SwappedBytes(nid);
    SwappedBytes(next);
  }

  lemma SwappedWord(w: int, first: Byte, second: Byte)
    requires w == Both(second, first)
    ensures Swapped(w) == Both(first, second)
  {
  }

  lemma SwappedBytes(w: int)
    ensures Swapped(w) == Both(w % 256, w / 256)
  {
  }

  /** `r` is `m` with the two words changed, where the checksum takes away, modulo 2^16 - 1, what
      the identification adds. */
  predicate Updated(m: seq<Byte>, r: seq<Byte>, delta: int, k: int) {
    && Readable(m) && |r| == |m|
    && Both(m[4], m[5]) == 0 && Both(r[4], r[5]) == delta
    && Both(r[10], r[11]) + delta == Both(m[10], m[11]) + 65535 * k
    && (forall i :: 0 <= i < |m| && i != 4 && i != 5 && i != 10 && i != 11 ==> r[i] == m[i])
  }

  lemma UpdatesHeader(m: seq<Byte>, nid: Word) returns (k: int)
    requires Readable(m) && m[4] == 0 && m[5] == 0
    ensures Updated(m, WithId(m, nid), Swapped(nid), k)
  {
    hide WithId, Both, Swapped;
    k := UpdatedWords(m, nid);
    ZeroWord(m[4], m[5]);
  }

  /** A range with both words, with the identification alone, and with the checksum alone. */
  lemma RangeOfBoth(m: seq<Byte>, r: seq<Byte>, delta: int, k: int, at: nat, n: nat)
    requires Updated(m, r, delta, k) && at + n <= |m| && at % 2 == 0 && at <= 4 && at + n >= 12
    ensures WordSum(r, at, n) == WordSum(m, at, n) + 65535 * k
  {
    hide WordSum, Both;
    SplitAtId(m, at, n);
    SplitAtId(r, at, n);
    SameSum(m, r, at, 4 - at);
    RangeOfChecksum(m, r, delta, k, 6, at + n - 6);
  }

  lemma RangeOfId(m: seq<Byte>, r: seq<Byte>, delta: int, k: int)
    requires Updated(m, r, delta, k)
    ensures WordSum(r, 0, 8) == WordSum(m, 0, 8) + delta
  {
    hide WordSum, Both;
    SplitAtId(m, 0, 8);
    SplitAtId(r, 0, 8);
    SameSum(m, r, 0, 4);
    SameSum(m, r, 6, 2);
  }

  lemma RangeOfChecksum(m: seq<Byte>, r: seq<Byte>, delta: int, k: int, at: nat, n: nat)
    requires Updated(m, r, delta, k) && at + n <= |m| && at % 2 == 0 && 6 <= at <= 10 && at + n >= 12
    ensures WordSum(r, at, n) + delta == WordSum(m, at, n) + 65535 * k
  {
    hide WordSum, Both;
    SplitAtSum(m, at, n);
    SplitAtSum(r, at, n);
    SameSum(m, r, at, 10 - at);
    SameSum(m, r, 12, at + n - 12);
  }

  lemma ZeroWord(high: int, low: int)
    requires high == 0 && low == 0
    ensures Both(high, low) == 0
  {
  }

  lemma SplitAtId(m: seq<Byte>, at: nat, n: nat)
    requires at <= 4 && at % 2 == 0 && 6 <= at + n <= |m|
    ensures WordSum(m, at, n) == WordSum(m, at, 4 - at) + Both(m[4], m[5]) + WordSum(m, 6, at + n - 6)
  {
    SplitSum(m, at, 4 - at, n);
  }

  lemma SplitAtSum(m: seq<Byte>, at: nat, n: nat)
    requires at <= 10 && at % 2 == 0 && 12 <= at + n <= |m|
    ensures WordSum(m, at, n) == WordSum(m, at, 10 - at) + Both(m[10], m[11]) + WordSum(m, 12, at + n - 12)
  {
    SplitSum(m, at, 10 - at, n);
  }

  // ------------------------------------------------------------ acceptance

  lemma SameRemainder(a: int, b: int, k: int)
    requires a == b + 65535 * k
    ensures Zero(a) <==> Zero(b)
  {
  }

  /** The bytes of a swapped word make a multiple exactly when the word is one of the two zeros. */
  lemma SwappedMultiple(w: Word)
    ensures Zero(Swapped(w)) <==> w == 0 || w == 65535
    ensures w == 0 || w == 65535 ==> Swapped(w) == w
    ensures 0 <= Swapped(w) <= 65535
  {
    var high, low := w % 256, w / 256;
    ZeroInRange(256 * high + low);
  }

  lemma ZeroInRange(v: int)
    requires 0 <= v <= 65535
    ensures Zero(v) <==> v == 0 || v == 65535
  {
  }

  lemma SumOfMultiple(a: int, b: int)
    requires Zero(a)
    ensures Zero(a + b) <==> Zero(b)
  {
  }

  lemma SameBefore(m: seq<Byte>, r: seq<Byte>, delta: int, k: int, at: nat, n: nat)
    requires Updated(m, r, delta, k) && at + n <= |m| && (at + n <= 4 || at >= 12)
    ensures WordSum(r, at, n) == WordSum(m, at, n)
    ensures forall sum :: Ip4Sum(sum, m, at, n) == Ip4Sum(sum, r, at, n)
  {
    SameSum(m, r, at, n);
  }

  /** The header checksum after the update: unless the header is two words long, which has the
      identification in the sum but not the checksum, it is as good as before. */
  lemma HeaderAfter(m: seq<Byte>, r: seq<Byte>, nid: Word, k: int, q: nat)
    requires Updated(m, r, Swapped(nid), k) && q <= 15 && |r| == |m| >= 66000
    requires SumAccepted(Ip4Sum(0, m, 0, 4 * q))
    ensures SumAccepted(Ip4Sum(0, r, 0, 4 * q)) <==> q != 2 || nid == 0 || nid == 65535
  {
    var delta := Swapped(nid);
    hide WordSum, Ip4Sum, Updated, Swapped, Zero, SumAccepted;
    AcceptedSum(0, m, 0, 4 * q);
    AcceptedSum(0, r, 0, 4 * q);
    if q <= 1 {
      SameBefore(m, r, delta, k, 0, 4 * q);
    } else if q == 2 {
      RangeOfId(m, r, delta, k);
      SwappedMultiple(nid);
      SumOfMultiple(WordSum(m, 0, 8), delta);
    } else {
      RangeOfBoth(m, r, delta, k, 0, 4 * q);
      SameRemainder(WordSum(r, 0, 4 * q), WordSum(m, 0, 4 * q), k);
    }
  }

  /** What follows the header is as good as before, unless the header is two words long. */
  lemma TransportAfter(m: seq<Byte>, r: seq<Byte>, nid: Word, k: int, q: nat, n: nat, sum: Word)
    requires Updated(m, r, Swapped(nid), k) && q <= 15 && 4 * q + n <= |m| == |r| && (q <= 3 ==> 12 <= 4 * q + n)
    requires q != 2 || nid == 0 || nid == 65535
    ensures SumAccepted(Ip4Sum(sum, r, 4 * q, n)) <==> SumAccepted(Ip4Sum(sum, m, 4 * q, n))
  {
    var delta := Swapped(nid);
    hide WordSum, Ip4Sum, Updated, Swapped, Zero, SumAccepted;
    AcceptedSum(sum, m, 4 * q, n);
    AcceptedSum(sum, r, 4 * q, n);
    if q <= 1 {
      RangeOfBoth(m, r, delta, k, 4 * q, n);
      SameRemainder(sum + WordSum(r, 4 * q, n), sum + WordSum(m, 4 * q, n), k);
    } else if q == 2 {
      RangeOfChecksum(m, r, delta, k, 8, n);
      SwappedMultiple(nid);
      SameRemainder(sum + WordSum(r, 8, n), sum + WordSum(m, 8, n), k - if nid == 0 then 0 else 1);
    } else {
      SameBefore(m, r, delta, k, 4 * q, n);
    }
  }

  lemma Lengths(m: seq<Byte>, len: Word)
    requires Readable(m)
    ensures HeaderLength(m) == 4 * (m[0] % 16) && 0 <= m[0] % 16 <= 15
    ensures HeaderLength(m) + TransportLength(m, len) <= |m|
    ensures len >= 12 && m[0] % 16 <= 3 ==> 12 <= HeaderLength(m) + TransportLength(m, len)
  {
  }

  lemma UnchangedFields(m: seq<Byte>, r: seq<Byte>, delta: int, k: int, len: Word)
    requires Updated(m, r, delta, k)
    ensures Readable(m) && |r| == |m| && r[0] == m[0] && r[2] == m[2] && r[3] == m[3]
    ensures r[9] == m[9] && r[26] == m[26] && r[27] == m[27]
    ensures HeaderLength(r) == HeaderLength(m) && TransportLength(r, len) == TransportLength(m, len)
  {
    UnchangedBytes(m, r, delta, k);
    hide Updated, Both;
    assert HeaderLength(r) == HeaderLength(m);
    hide HeaderLength;
  }

  lemma UnchangedBytes(m: seq<Byte>, r: seq<Byte>, delta: int, k: int)
    requires Updated(m, r, delta, k)
    ensures Readable(m) && |r| == |m| && r[0] == m[0] && r[2] == m[2] && r[3] == m[3]
    ensures r[9] == m[9] && r[26] == m[26] && r[27] == m[27]
  {
    hide Both;
  }

  /** The code of the transport checks, from the protocol, the two bytes of the UDP checksum and the two sums. */
  function TransportCode(p: Byte, high: Byte, low: Byte, withPseudo: bool, alone: bool): (code: int) {
    if p == TCP || p == UDP then
      if withPseudo then 0 else if p == TCP then -5 else if high != 0 || low != 0 then -6 else 0
    else if p == ICMP && !alone then -7
    else 0
  }

  lemma TransportCodeIs(m: seq<Byte>, len: Word, hl: nat, tl: Word, sum: Word)
    requires Readable(m) && hl == HeaderLength(m) && tl == TransportLength(m, len) && hl + tl <= |m|
    requires sum == Ip4Sum((m[9] + tl) % 65536, m, 12, 8)
    ensures CheckTransport(m, len) ==
      TransportCode(m[9], m[26], m[27], SumAccepted(Ip4Sum(sum, m, hl, tl)), SumAccepted(Ip4Sum(0, m, hl, tl)))
  {
    hide Ip4Sum, SumAccepted, HeaderLength, TransportLength;
  }

  lemma TransportCodeAfter(m: seq<Byte>, r: seq<Byte>, nid: Word, k: int, len: Word)
    requires Readable(m) && Updated(m, r, Swapped(nid), k) && |r| == |m|
    requires 12 <= HeaderLength(m) + TransportLength(m, len) || m[0] % 16 > 3
    requires m[0] % 16 != 2 || nid == 0 || nid == 65535
    ensures CheckTransport(r, len) == CheckTransport(m, len)
  {
    UnchangedFields(m, r, Swapped(nid), k, len);
    Lengths(m, len);
    var q, n := m[0] % 16, TransportLength(m, len);
    hide Updated, WordSum, Ip4Sum, Swapped, SumAccepted, TransportLength, TransportCode, CheckTransport;
    assert HeaderLength(m) == 4 * q;
    SameBefore(m, r, Swapped(nid), k, 12, 8);
    var start: Word := (m[9] + n) % 65536;
    var sum := Ip4Sum(start, m, 12, 8);
    TransportCodeIs(m, len, 4 * q, n, sum);
    TransportCodeIs(r, len, 4 * q, n, sum);
    TransportAfter(m, r, nid, k, q, n, 0);
    TransportAfter(m, r, nid, k, q, n, sum);
  }

  // A packet of less than twelve bytes whose header length field is at most 2 has a part of the rewritten
  // bytes in what follows the header.

  /** What follows the header ends in front of the end of the checksum. */
  predicate EndsEarly(m: seq<Byte>, len: Word)
    requires Readable(m)
  {
    len < 12 && 4 * (m[0] % 16) <= len
  }

  /** What the rewrite adds to the sum of the bytes from `at` up to `end`, which lies in front of the end
      of the checksum. */
  function Shift(m: seq<Byte>, nid: Word, at: nat, end: nat): (d: int)
    requires Readable(m)
  {
    (if at > 4 || end < 5 then 0 else if end == 5 then 256 * (nid % 256) else Swapped(nid)) +
    (if at > 10 || end != 11 then 0 else 256 * (AddWord(Both(m[11], m[10]), 65535 - nid) % 256 - m[10]))
  }

  lemma {:induction false} ShortRange(m: seq<Byte>, nid: Word, at: nat, n: nat)
    requires Readable(m) && m[4] == 0 && m[5] == 0 && at % 2 == 0 && at + n < 12
    ensures WordSum(WithId(m, nid), at, n) == WordSum(m, at, n) + Shift(m, nid, at, at + n)
    decreases n
  {
    RewrittenBytes(m, nid);
    hide WithId, Swapped, AddWord;
    if n >= 2 {
      ShortRange(m, nid, at + 2, n - 2);
    }
  }

  lemma RewrittenBytes(m: seq<Byte>, nid: Word)
    requires Readable(m)
    ensures var r := WithId(m, nid);
            && r[4] == nid % 256 && Both(r[4], r[5]) == Swapped(nid)
            && r[10] == AddWord(Both(m[11], m[10]), 65535 - nid) % 256
            && (forall i :: 0 <= i < |m| && i != 4 && i != 5 && i != 10 && i != 11 ==> r[i] == m[i])
  {
  }

  /** The transport checksum of a packet is looked at. */
  predicate Verified(m: seq<Byte>)
    requires Readable(m)
  {
    m[9] == TCP || m[9] == ICMP || (m[9] == UDP && (m[26] != 0 || m[27] != 0))
  }

  lemma ShortAfter(m: seq<Byte>, nid: Word, at: nat, n: nat, sum: Word)
    requires Readable(m) && m[4] == 0 && m[5] == 0 && at % 2 == 0 && at + n < 12
    requires SumAccepted(Ip4Sum(sum, m, at, n))
    ensures SumAccepted(Ip4Sum(sum, WithId(m, nid), at, n)) <==> Zero(Shift(m, nid, at, at + n))
  {
    hide WordSum, Ip4Sum, Shift, WithId, SumAccepted, Zero;
    AcceptedSum(sum, m, at, n);
    AcceptedSum(sum, WithId(m, nid), at, n);
    ShortRange(m, nid, at, n);
    SumOfMultiple(sum + WordSum(m, at, n), Shift(m, nid, at, at + n));
  }

  /** What the rewrite adds to the sum of what follows the header. */
  function ShiftBehind(m: seq<Byte>, nid: Word, len: Word): (d: int)
    requires Readable(m)
  {
    Shift(m, nid, 4 * (m[0] % 16), len)
  }

  /** The two sums that check_ip makes of what follows the header, with the pseudo header and without. */
  predicate BothAccepted(m: seq<Byte>, len: Word, pseudo: bool)
    requires Readable(m)
  {
    Lengths(m, len);
    var hl, tl := HeaderLength(m), TransportLength(m, len);
    SumAccepted(Ip4Sum(if pseudo then Ip4Sum((m[9] + tl) % 65536, m, 12, 8) else 0, m, hl, tl))
  }

  lemma TransportMeans(m: seq<Byte>, len: Word)
    requires Readable(m)
    ensures CheckTransport(m, len) == 0 <==> (Verified(m) ==> BothAccepted(m, len, m[9] != ICMP))
  {
    hide Ip4Sum, SumAccepted, HeaderLength, TransportLength;
  }

  lemma ShortBoth(m: seq<Byte>, r: seq<Byte>, nid: Word, len: Word, k: int, pseudo: bool)
    requires Readable(m) && m[4] == 0 && m[5] == 0 && EndsEarly(m, len)
    requires r == WithId(m, nid) && Updated(m, r, Swapped(nid), k) && BothAccepted(m, len, pseudo)
    ensures BothAccepted(r, len, pseudo) <==> Zero(ShiftBehind(m, nid, len))
  {
    hide WordSum, Ip4Sum, Swapped, SumAccepted, HeaderLength, TransportLength, WithId, Shift, Zero, Updated, Both, EndsEarly;
    UnchangedFields(m, r, Swapped(nid), k, len);
    EarlyLengths(m, len);
    SameBefore(m, r, Swapped(nid), k, 12, 8);
    var hl, tl := HeaderLength(m), TransportLength(m, len);
    var sum := if pseudo then Ip4Sum((m[9] + tl) % 65536, m, 12, 8) else 0;
    assert BothAccepted(r, len, pseudo) <==> SumAccepted(Ip4Sum(sum, r, hl, tl));
    hide BothAccepted;
    ShortAfter(m, nid, hl, tl, sum);
  }

  lemma EarlyLengths(m: seq<Byte>, len: Word)
    requires Readable(m) && EndsEarly(m, len)
    ensures HeaderLength(m) == 4 * (m[0] % 16) && HeaderLength(m) % 2 == 0
    ensures HeaderLength(m) + TransportLength(m, len) == len < 12
  {
  }

  lemma ShortTransport(m: seq<Byte>, r: seq<Byte>, nid: Word, len: Word, k: int)
    requires Readable(m) && m[4] == 0 && m[5] == 0 && EndsEarly(m, len)
    requires r == WithId(m, nid) && Updated(m, r, Swapped(nid), k) && CheckTransport(m, len) == 0
    ensures CheckTransport(r, len) == 0 <==> (Verified(m) ==> Zero(ShiftBehind(m, nid, len)))
  {
    hide BothAccepted, Swapped, WithId, ShiftBehind, Zero, CheckTransport, Updated;
    UnchangedFields(m, r, Swapped(nid), k, len);
    TransportMeans(m, len);
    TransportMeans(r, len);
    if Verified(m) {
      ShortBoth(m, r, nid, len, k, m[9] != ICMP);
    }
  }

  predicate RightVersionAndLength(m: seq<Byte>, len: Word)
    requires Readable(m)
  {
    m[0] / 16 == 4 && Both(m[2], m[3]) == len
  }

  lemma AcceptedMeans(m: seq<Byte>, len: Word)
    requires Readable(m)
    ensures CheckIp(m, len) == 0 <==>
      && RightVersionAndLength(m, len)
      && SumAccepted(Ip4Sum(0, m, 0, HeaderLength(m)))
      && CheckTransport(m, len) == 0
  {
  }

  /** Two bytes as a number, the higher or the lower one first. */
  function HighFirst(a: int, b: int): int { 256 * a + b }
  function LowFirst(a: int, b: int): int { a + 256 * b }

  /** The protocol, the length, the addresses and the segment of a packet sum to a multiple of 2^16 - 1. */
  predicate SegmentSums(m: seq<Byte>, hl: nat, tl: nat)
    requires Readable(m) && hl + tl <= |m|
  {
    Zero((m[9] + tl) % 65536 + WordSum(m, 12, 8) + WordSum(m, hl, tl))
  }

  /** What check_ip demands, by plain sums of big-endian words: version 4 and the right length; a header that sums to a
      multiple of 2^16 - 1; the same of a TCP or UDP segment with its pseudo-header, unless the checksum of
      UDP is switched off, and of an ICMP message. The code is that of the first demand that is not met. */
  lemma CheckMeans(m: seq<Byte>, len: Word)
    requires Readable(m)
    ensures var hl: nat := 4 * (m[0] % 16);
            var tl: nat := (len - hl) % 65536;
            CheckIp(m, len) ==
              if !(64 <= m[0] < 80) then -1
              else if HighFirst(m[2], m[3]) > len then -2
              else if HighFirst(m[2], m[3]) < len then -3
              else if !Zero(WordSum(m, 0, hl)) then -4
              else if m[9] == 6 && !SegmentSums(m, hl, tl) then -5
              else if m[9] == 17 && !SegmentSums(m, hl, tl) && !(m[26] == 0 && m[27] == 0) then -6
              else if m[9] == 1 && !Zero(WordSum(m, hl, tl)) then -7
              else 0
  {
    Lengths(m, len);
    var hl: nat := 4 * (m[0] % 16);
    AcceptedSum(0, m, 0, hl);
    TransportCheckMeans(m, len);
    hide Ip4Sum, WordSum, SumAccepted, Zero, SegmentSums, CheckTransport, TransportLength;
  }

  lemma TransportCheckMeans(m: seq<Byte>, len: Word)
    requires Readable(m)
    ensures var hl: nat := 4 * (m[0] % 16);
            var tl: nat := (len - hl) % 65536;
            CheckTransport(m, len) ==
              if m[9] == 6 && !SegmentSums(m, hl, tl) then -5
              else if m[9] == 17 && !SegmentSums(m, hl, tl) && !(m[26] == 0 && m[27] == 0) then -6
              else if m[9] == 1 && !Zero(WordSum(m, hl, tl)) then -7
              else 0
  {
    Lengths(m, len);
    var hl: nat := 4 * (m[0] % 16);
    var tl: nat := (len - hl) % 65536;
    assert HeaderLength(m) == hl && TransportLength(m, len) == tl;
    AcceptedSum(0, m, hl, tl);
    SegmentMeans(m, hl, tl);
    hide Ip4Sum, WordSum, SumAccepted, Zero, HeaderLength, TransportLength, SegmentSums;
  }

  lemma SegmentMeans(m: seq<Byte>, hl: nat, tl: Word)
    requires Readable(m) && hl + tl <= |m|
    ensures SumAccepted(Ip4Sum(Ip4Sum((m[9] + tl) % 65536, m, 12, 8), m, hl, tl)) <==> SegmentSums(m, hl, tl)
  {
    SegmentSum((m[9] + tl) % 65536, m, hl, tl);
    hide Ip4Sum, WordSum, SumAccepted, Zero;
  }

  lemma SegmentSum(start: Word, m: seq<Byte>, at: nat, n: nat)
    requires Readable(m) && at + n <= |m|
    ensures SumAccepted(Ip4Sum(Ip4Sum(start, m, 12, 8), m, at, n)) <==>
            Zero(start + WordSum(m, 12, 8) + WordSum(m, at, n))
  {
    SumOfWords(start, m, 12, 8);
    AcceptedSum(Ip4Sum(start, m, 12, 8), m, at, n);
    hide Ip4Sum, WordSum, Carries, SumAccepted, Zero;
    SameRemainder(start + WordSum(m, 12, 8) + WordSum(m, at, n), Ip4Sum(start, m, 12, 8) + WordSum(m, at, n),
                  Carries(start, m, 12, 8));
  }

  /** When a packet is given an identification: its identification is zero, and bit 14 of its fragment word is set
      when that is read as little-endian, as it is on the host. */
  lemma NumberedWhen(m: seq<Byte>)
    requires Readable(m)
    ensures NeedsId(m) <==> LowFirst(m[4], m[5]) == 0 && (LowFirst(m[6], m[7]) / 0x4000) % 2 == 1
  {
    assert LowFirst(m[6], m[7]) / 0x4000 == m[7] / 64;
  }

  /** Whether a numbered packet passes the check again: its header length field is not 2, where the identification
      is summed as header and the checksum is not, or the identification is one of the two zeros; and when it
      is so short that the checksum is not all in it, what the rewrite adds to a transport checksum that is
      looked at is a zero as well. */
  predicate StaysAccepted(m: seq<Byte>, len: Word, nid: Word)
    requires Readable(m)
  {
    && (m[0] % 16 != 2 || nid == 0 || nid == 65535)
    && (EndsEarly(m, len) && Verified(m) ==> Zero(ShiftBehind(m, nid, len)))
  }

  /** For a packet of any length that check_ip accepts: it is still accepted once it has an identification and an
      updated checksum exactly under that condition. */
  lemma NumberedPacketAccepted(m: seq<Byte>, len: Word, nid: Word)
    requires Readable(m) && m[4] == 0 && m[5] == 0 && CheckIp(m, len) == 0
    ensures CheckIp(WithId(m, nid), len) == 0 <==> StaysAccepted(m, len, nid)
  {
    hide Updated, WordSum, Ip4Sum, Swapped, SumAccepted, HeaderLength, TransportLength, WithId, ShiftBehind, Verified, Zero;
    hide CheckTransport, CheckIp, Both;
    var r := WithId(m, nid);
    var k := UpdatesHeader(m, nid);
    UnchangedFields(m, r, Swapped(nid), k, len);
    Lengths(m, len);
    AcceptedMeans(m, len);
    AcceptedMeans(r, len);
    HeaderAfter(m, r, nid, k, m[0] % 16);
    if m[0] % 16 != 2 || nid == 0 || nid == 65535 {
      if EndsEarly(m, len) {
        ShortTransport(m, r, nid, len, k);
      } else {
        LateEnd(m, len);
        TransportCodeAfter(m, r, nid, k, len);
      }
    }
  }

  lemma LateEnd(m: seq<Byte>, len: Word)
    requires Readable(m) && !EndsEarly(m, len)
    ensures 12 <= HeaderLength(m) + TransportLength(m, len) || m[0] % 16 > 3
  {
  }

  /** A packet with a full header is always accepted again. */
  lemma FullHeaderAccepted(m: seq<Byte>, len: Word, nid: Word)
    requires Readable(m) && m[4] == 0 && m[5] == 0 && CheckIp(m, len) == 0 && HeaderLength(m) >= 20
    ensures CheckIp(WithId(m, nid), len) == 0
  {
    NumberedPacketAccepted(m, len, nid);
    assert m[0] % 16 >= 5;
    hide CheckIp, WithId, Verified, ShiftBehind;
  }

  // ------------------------------------------------- checksums of a relay

  /** The two bytes at `at` replaced by a big-endian word. */
  function WithWord(m: seq<Byte>, at: nat, w: Word): (r: seq<Byte>)
    requires at + 1 < |m|
    ensures |r| == |m|
  {
    m[at := w / 256][at + 1 := w % 256]
  }

  /** The checksums that relay_dhcp_to_client fills into a packet of 20 + `n` bytes in which they
      are zero: that of the header, then that of the datagram. */
  function WithHeaderSum(m: seq<Byte>): (r: seq<Byte>)
    requires Readable(m)
    ensures |r| == |m|
  {
    WithWord(m, 10, 65535 - Ip4Sum(0, m, 0, 20))
  }

  function DatagramSum(m: seq<Byte>, n: Word): (sum: Word)
    requires Readable(m)
  {
    Ip4Sum(Ip4Sum((17 + n) % 65536, m, 12, 8), m, 20, n)
  }

  function WithDatagramSum(m: seq<Byte>, n: Word): (r: seq<Byte>)
    requires Readable(m)
    ensures |r| == |m|
  {
    var sum := DatagramSum(m, n);
    WithWord(m, 26, if sum != 65535 then 65535 - sum else 65535)
  }

  lemma WordReplaced(m: seq<Byte>, at: nat, w: Word)
    requires at + 1 < |m|
    ensures var r := WithWord(m, at, w);
            && Both(r[at], r[at + 1]) == w
            && (forall i :: 0 <= i < |m| && i != at && i != at + 1 ==> r[i] == m[i])
  {
  }

  lemma ReplacedSum(m: seq<Byte>, place: nat, w: Word, at: nat, n: nat)
    requires at <= place && (place - at) % 2 == 0 && place + 2 <= at + n <= |m|
    requires Both(m[place], m[place + 1]) == 0
    ensures WordSum(WithWord(m, place, w), at, n) == WordSum(m, at, n) + w
  {
    hide WithWord, WordSum, Both;
    var r := WithWord(m, place, w);
    WordReplaced(m, place, w);
    var end := at + n;
    SumAround(m, place, at, end);
    SumAround(r, place, at, end);
    SameSum(m, r, at, place - at);
    SameSum(m, r, place + 2, end - place - 2);
  }

  lemma SumAround(m: seq<Byte>, place: nat, at: nat, end: nat)
    requires at <= place && (place - at) % 2 == 0 && place + 2 <= end <= |m|
    ensures WordSum(m, at, end - at) ==
      WordSum(m, at, place - at) + Both(m[place], m[place + 1]) + WordSum(m, place + 2, end - place - 2)
  {
    hide WordSum, Both;
    SplitSum(m, at, place - at, end - at);
    WordFirst(m, place, end - place);
  }

  lemma WordFirst(m: seq<Byte>, at: nat, n: nat)
    requires n >= 2 && at + n <= |m|
    ensures WordSum(m, at, n) == Both(m[at], m[at + 1]) + WordSum(m, at + 2, n - 2)
  {
  }

  /** A range with a zero word is accepted once the word is the complement of its sum, or all ones
      when the sum is. */
  lemma FilledSum(base: Word, m: seq<Byte>, at: nat, n: nat, place: nat, w: Word)
    requires at <= place && (place - at) % 2 == 0 && place + 2 <= at + n <= |m|
    requires Both(m[place], m[place + 1]) == 0
    requires var sum := Ip4Sum(base, m, at, n); w == 65535 - sum || (sum == 65535 && w == 65535)
    ensures SumAccepted(Ip4Sum(base, WithWord(m, place, w), at, n))
  {
    hide WithWord, Ip4Sum, WordSum, Both, Carries, Zero, SumAccepted;
    var r := WithWord(m, place, w);
    var k := Carries(base, m, at, n);
    ReplacedSum(m, place, w, at, n);
    SumOfWords(base, m, at, n);
    AcceptedSum(base, r, at, n);
    Multiple(65535, base + WordSum(r, at, n), if w == 65535 - Ip4Sum(base, m, at, n) then k else k + 1);
  }

  lemma DatagramSumFits(m: seq<Byte>, n: Word, w: Word)
    requires Readable(m) && n >= 8 && Both(m[26], m[27]) == 0
    requires w == if DatagramSum(m, n) != 65535 then 65535 - DatagramSum(m, n) else 65535
    ensures SumAccepted(DatagramSum(WithWord(m, 26, w), n))
  {
    hide WithWord, Ip4Sum, Both, SumAccepted;
    var r := WithWord(m, 26, w);
    var first := Ip4Sum((17 + n) % 65536, m, 12, 8);
    WordReplaced(m, 26, w);
    SameSum(m, r, 12, 8);
    FilledSum(first, m, 20, n, 26, w);
  }

  /** The last checks of check_ip on a UDP packet with a header of five words. */
  lemma PlainDatagram(m: seq<Byte>, n: Word)
    requires Readable(m) && m[0] == 69 && m[9] == UDP && Both(m[2], m[3]) == 20 + n < 65536
    requires SumAccepted(Ip4Sum(0, m, 0, 20)) && SumAccepted(DatagramSum(m, n))
    ensures CheckIp(m, 20 + n) == 0
  {
    hide Ip4Sum, SumAccepted, Both;
    assert HeaderLength(m) == 20 && TransportLength(m, 20 + n) == n;
  }

  /** A DHCP reply with both checksums filled in is accepted by the check before it is sent. */
  lemma RelayedPacketAccepted(m: seq<Byte>, n: Word)
    requires Readable(m) && 8 <= n && m[0] == 69 && m[9] == UDP && Both(m[2], m[3]) == 20 + n < 65536
    requires m[10] == 0 && m[11] == 0 && m[26] == 0 && m[27] == 0
    ensures CheckIp(WithDatagramSum(WithHeaderSum(m), n), 20 + n) == 0
  {
    hide CheckIp, WithWord, Ip4Sum, WordSum, SumAccepted, DatagramSum, Both;
    var w := 65535 - Ip4Sum(0, m, 0, 20);
    var h := WithHeaderSum(m);
    assert h == WithWord(m, 10, w);
    WordReplaced(m, 10, w);
    ZeroWord(m[10], m[11]);
    ZeroWord(h[26], h[27]);
    FilledSum(0, m, 0, 20, 10, w);
    var v := if DatagramSum(h, n) != 65535 then 65535 - DatagramSum(h, n) else 65535;
    var r := WithDatagramSum(h, n);
    assert r == WithWord(h, 26, v);
    WordReplaced(h, 26, v);
    DatagramSumFits(h, n, v);
    SameSum(h, r, 0, 20);
    PlainDatagram(r, n);
  }
}
