/** The tun-to-serial direction of tunslip as it works in place: the packet buffer is checked,
    rewritten, checked again and escaped into the output buffer. */
module TunBridge {
  import opened TunChecksum
  import Slip
  import SlipLine

  /** What write_to_serial did with a packet; the program ends when the output buffer is used up. */
  datatype Outcome = Dropped(code: int) | Sent | Ended

  class Bridge {
    const memory: array<Byte>
    const line: SlipLine.Output
    var ipId: Word

    ghost predicate Valid()
      reads this, memory, line, line.buf
    {
      memory.Length >= 66000 && memory != line.buf && line.Valid()
    }

    constructor ()
      ensures Valid() && ipId == 0 && line.begin == line.end == 0
      ensures fresh(memory) && fresh(line) && fresh(line.buf)
    {
      var output := new SlipLine.Output();
      line := output;
      memory := new Slip.Byte[66000](_ => 0);
      ipId := 0;
    }

    /** ip4sum. */
    method SumOf(sum: Word, at: nat, n: nat) returns (r: Word)
      requires at + n <= memory.Length
      ensures r == Ip4Sum(sum, memory[..], at, n)
    {
      r := sum;
      var p, end := at, at + n;
      while p < end - 1
        invariant at <= p <= end
        invariant Ip4Sum(sum, memory[..], at, n) == Ip4Sum(r, memory[..], p, end - p)
      {
        r := AddWord(r, Both(memory[p], memory[p + 1]));
        p := p + 2;
      }
      if p < end {
        r := AddWord(r, Both(memory[p], 0));
      }
    }

    /** check_ip. */
    method Check(len: Word) returns (code: int)
      requires memory.Length >= 66000
      ensures code == CheckIp(memory[..], len)
    {
      ghost var m := memory[..];
      assert m[0] == memory[0] && m[2] == memory[2] && m[3] == memory[3] && m[9] == memory[9]
             && m[26] == memory[26] && m[27] == memory[27];
      Lengths(m, len);
      hide Ip4Sum, Both;
      if memory[0] / 16 != 4 {
        return -1;
      }
      if Both(memory[2], memory[3]) > len {
        return -2;
      }
      if Both(memory[2], memory[3]) < len {
        return -3;
      }
      var hl := 4 * (memory[0] % 16);
      var sum := SumOf(0, 0, hl);
      if sum != 65535 && sum != 0 {
        return -4;
      }
      code := CheckRest(len, hl);
    }

    /** The transport checksum of check_ip. */
    method CheckRest(len: Word, hl: nat) returns (code: int)
      requires memory.Length >= 66000 && hl == HeaderLength(memory[..])
      ensures code == CheckTransport(memory[..], len)
    {
      ghost var m := memory[..];
      assert m[9] == memory[9] && m[26] == memory[26] && m[27] == memory[27];
      Lengths(m, len);
      hide Ip4Sum;
      var tl: Word := (len - hl) % 65536;
      assert tl == TransportLength(m, len);
      hide TransportLength, HeaderLength;
      var p := memory[9];
      if p == TCP || p == UDP {
        var sum := SumOf((p + tl) % 65536, 12, 8);
        sum := SumOf(sum, hl, tl);
        if sum != 65535 && sum != 0 {
          if p == TCP {
            return -5;
          } else if memory[26] != 0 || memory[27] != 0 {
            return -6;
          }
        }
      } else if p == ICMP {
        var sum := SumOf(0, hl, tl);
        if sum != 65535 && sum != 0 {
          return -7;
        }
      }
      return 0;
    }

    /** Gives the packet the next identification and updates its checksum. */
    method NumberPacket()
      requires memory.Length >= 66000
      modifies this`ipId, memory
      ensures ipId == (old(ipId) + 1) % 65536
      ensures memory[..] == WithId(old(memory[..]), Swapped(old(ipId)))
    {
      SwappedMultiple(ipId);
      var nid: Word := Swapped(ipId);
      ipId := (ipId + 1) % 65536;
      var sum: Word := AddWord(Both(memory[11], memory[10]), 65535 - nid);
      memory[4], memory[5] := nid % 256, nid / 256;
      memory[10], memory[11] := sum % 256, sum / 256;
      assert memory[..] == WithId(old(memory[..]), nid);
    }

    /** write_to_serial: a packet is dropped when it fails the check; one without identification that
        may not be fragmented is numbered, and dropped again exactly when it does not stay accepted;
        any other packet is sent as it then is. */
    method WriteToSerial(len: Word) returns (outcome: Outcome)
      requires Valid()
      modifies this`ipId, memory, line, line.buf
      ensures Valid()
      ensures var m, code := old(memory[..]), CheckIp(old(memory[..]), len);
              var nid := Swapped(old(ipId));
              && (code != 0 ==> outcome == Dropped(code) && memory[..] == m && ipId == old(ipId))
              && (code == 0 && !NeedsId(m) ==> !outcome.Dropped? && memory[..] == m && ipId == old(ipId))
              && (code == 0 && NeedsId(m) ==>
                    && memory[..] == WithId(m, nid) && ipId == (old(ipId) + 1) % 65536
                    && (outcome.Dropped? <==> !StaysAccepted(m, len, nid)))
      ensures outcome.Dropped? ==> line.View() == old(line.View())
      ensures !outcome.Dropped? ==>
        Slip.SendAll(old(line.View()), Slip.Frame(false, memory[..len])) ==
        if outcome.Sent? then Slip.Some(line.View()) else Slip.None
    {
      hide CheckIp, WithId, Swapped, StaysAccepted;
      ghost var m := memory[..];
      CodesAreNegative(m, len);
      var code := Check(len);
      if code < 0 {
        return Dropped(code);
      }
      assert m[4] == memory[4] && m[5] == memory[5] && m[7] == memory[7];
      if memory[4] == 0 && memory[5] == 0 && (memory[7] / 64) % 2 == 1 {
        SwappedMultiple(ipId);
        NumberedPacketAccepted(m, len, Swapped(ipId));
        NumberPacket();
        CodesAreNegative(memory[..], len);
        code := Check(len);
        if code < 0 {
          return Dropped(code);
        }
      }
      var ok := line.WriteToSerial(false, memory[..len]);
      return if ok then Sent else Ended;
    }
  }

  lemma CodesAreNegative(m: seq<Byte>, len: Word)
    requires Readable(m)
    ensures CheckIp(m, len) <= 0
  {
  }
}
