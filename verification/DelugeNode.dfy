/** One Deluge node as the C code has it: a current object whose page table, page file and page
    buffer the handlers update in place. Every method is tied to the function of Deluge that
    specifies it. */
module DelugeNode {
  import opened MachineWords
  import D = Deluge

  class CurrentObject {
    var version: nat
    var updateVersion: nat
    const pages: array<D.Page>
    const file: array<seq<D.Payload>>
    const buffer: array<D.Payload>
    var rx: nat
    var tx: D.Option<nat>
    var txSet: set<nat>
    var requests: nat
    var mode: D.Mode
    var timers: D.Timers
    var broadcastProfile: bool
    var receivedSummaries: nat
    var inconsistent: bool
    var oldSummary: bool
    var interval: nat

    ghost function State(): D.Node
      reads this, pages, file, buffer
    {
      D.Node(version, updateVersion, pages[..], file[..], buffer[..], rx, tx, txSet, requests, mode, timers,
             broadcastProfile, receivedSummaries, inconsistent, oldSummary, interval)
    }

    ghost predicate Valid()
      reads this, pages, file, buffer
    {
      D.NodeInvariant(State(), pages.Length)
    }

    /** init_object: the node has the whole object in `version`. */
    constructor (version: nat, image: seq<seq<D.Payload>>)
      requires forall p :: 0 <= p < |image| ==> |image[p]| == D.N_PKT
      ensures Valid() && fresh(pages) && fresh(file) && fresh(buffer)
      ensures exists b :: |b| == D.N_PKT && State() == D.InitObject(version, image, b)
    {
      this.version, updateVersion := version, version;
      pages := new D.Page[|image|](_ => D.Page(D.ALL_PACKETS, true, version));
      file := new seq<D.Payload>[|image|](i requires 0 <= i < |image| => image[i]);
      buffer := new D.Payload[D.N_PKT](_ => []);
      rx, tx, txSet, requests, mode := 0, D.Some(0), {}, 0, D.Maintain;
      timers := D.Timers(false, false, false, false);
      broadcastProfile, receivedSummaries, inconsistent, oldSummary, interval := false, 0, false, false, D.T_LOW;
      new;
      assert file[..] == image;
      D.ObjectStartsInvariant(version, image, buffer[..]);
      assert State() == D.InitObject(version, image, buffer[..]);
    }

    method HighestAvailablePage() returns (i: nat)
      ensures i == D.Highest(State())
    {
      i := 0;
      while i < pages.Length
        invariant i <= pages.Length
        invariant D.Highest(State()) == D.HighestFrom(pages[..], i)
      {
        if !pages[i].complete {
          break;
        }
        i := i + 1;
      }
    }

    /** Leaving a state stops its timers. */
    method Transition(state: D.Mode)
      modifies this`mode, this`timers
      ensures mode == state && timers == D.Stop(old(timers), old(mode), state)
    {
      if state != mode {
        match mode {
          case Maintain => timers := timers.(summary := false, profile := false);
          case Receive => timers := timers.(rx := false);
          case Transmit => timers := timers.(tx := false);
        }
        mode := state;
      }
    }

    /** The request timer runs in the state of reception. */
    method BeginReceive()
      modifies this`mode, this`timers
      ensures State() == D.BeginReceive(old(State()))
    {
      hide D.Stop;
      Transition(D.Receive);
      timers := timers.(rx := true);
    }

    method NoteSummary(m: D.Message, highest: nat)
      requires m.Summary? && highest == D.Highest(State())
      modifies this`inconsistent, this`receivedSummaries, this`oldSummary, this`broadcastProfile
      ensures State() == D.NoteSummary(old(State()), m)
    {
      hide D.Highest;
      if m.version != version || m.highest != highest {
        inconsistent := true;
      } else {
        receivedSummaries := receivedSummaries + 1;
      }
      if m.version < version {
        oldSummary, broadcastProfile := true, true;
      }
    }

    method HandleSummary(m: D.Message, suppressed: bool)
      requires m.Summary? && Valid()
      modifies this`inconsistent, this`receivedSummaries, this`oldSummary, this`broadcastProfile, this`mode, this`timers
      ensures State() == D.HandleSummary(old(State()), m, suppressed) && Valid()
    {
      D.SummaryKeepsInvariant(State(), m, suppressed, pages.Length);
      hide D.NodeInvariant, D.BeginReceive, D.NoteSummary, D.Highest;
      var highest := HighestAvailablePage();
      NoteSummary(m, highest);
      if m.version == updateVersion && m.highest > highest {
        if m.highest <= pages.Length && !suppressed {
          BeginReceive();
        }
      }
    }

    method ServeRequest(m: D.Message)
      requires m.Request?
      modifies this`tx, this`txSet, this`mode, this`timers
      ensures State() == D.ServeRequest(old(State()), m)
    {
      hide D.Stop;
      if tx == D.Some(m.page) {
        txSet := txSet + m.bits;
      } else {
        tx, txSet := D.PageToSend(m.page), m.bits;
      }
      Transition(D.Transmit);
      timers := timers.(tx := true);
    }

    method HandleRequest(m: D.Message)
      requires m.Request? && Valid()
      modifies this`inconsistent, this`tx, this`txSet, this`mode, this`timers
      ensures State() == D.HandleRequest(old(State()), m) && Valid()
    {
      D.RequestKeepsInvariant(State(), m, pages.Length);
      hide D.NodeInvariant, D.ServeRequest, D.Highest;
      if m.page >= pages.Length {
        return;
      }
      if m.version != version {
        inconsistent := true;
      }
      var highest := HighestAvailablePage();
      if m.version == version && m.page <= highest {
        ServeRequest(m);
      }
    }

    method HandlePacket(m: D.Message)
      requires m.Packet? && Valid() && D.Plausible(m, pages.Length)
      modifies this, pages, file, buffer
      ensures State() == D.HandlePacket(old(State()), m) && Valid()
    {
      ghost var before := State();
      D.PacketKeepsInvariant(before, m, pages.Length);
      assert buffer.Length == D.N_PKT && file.Length == pages.Length;
      hide D.NodeInvariant;
      if m.page != rx {
        return;
      }
      if m.version != version {
        inconsistent := true;
      }
      if m.version == pages[m.page].version && !pages[m.page].complete {
        StorePacket(m);
      }
    }

    method StorePacket(m: D.Message)
      requires m.Packet? && m.number < buffer.Length && rx < pages.Length == file.Length
      modifies this`version, this`rx, this`mode, this`timers, pages, file, buffer
      ensures State() == D.StorePacket(old(State()), m)
    {
      ghost var before := State();
      buffer[m.number] := m.payload;
      assert buffer[..] == before.buffer[m.number := m.payload];
      if !m.intact {
        return;
      }
      var packets := pages[rx].packets + {m.number};
      ghost var i := rx;
      pages[rx] := pages[rx].(packets := packets);
      assert pages[..] == before.pages[i := before.pages[i].(packets := packets)];
      if packets == D.ALL_PACKETS {
        CompletePage(m.version);
        assert pages[..] == before.pages[i := D.Page(D.ALL_PACKETS, true, m.version)];
      }
    }

    /** The last packet of a page: it is written to the file, and the next page is due. */
    method CompletePage(v: nat)
      requires rx < pages.Length == file.Length
      modifies this`version, this`rx, this`mode, this`timers, pages, file
      ensures State() == D.FinishPage(old(State()), v)
    {
      file[rx] := buffer[..];
      pages[rx] := D.Page(D.ALL_PACKETS, true, v);
      assert file[..] == old(file[..])[rx := buffer[..]];
      assert pages[..] == old(pages[..])[rx := D.Page(D.ALL_PACKETS, true, v)];
      rx := rx + 1;
      if rx - 1 == pages.Length - 1 {
        version := updateVersion;
      } else {
        timers := timers.(rx := true);
      }
      Transition(D.Maintain);
    }

    method HandleProfile(m: D.Message)
      requires m.Profile? && Valid() && |m.versions| == pages.Length
      modifies this`txSet, this`rx, this`updateVersion, this`mode, this`timers, pages
      ensures State() == D.HandleProfile(old(State()), m) && Valid()
    {
      ghost var before := State();
      D.ProfileKeepsInvariant(before, m, pages.Length);
      hide D.NodeInvariant, D.Stop;
      if m.version <= updateVersion {
        return;
      }
      txSet := {};
      OutdatePages(m.versions);
      assert pages[..] == seq(|before.pages|, i requires 0 <= i < |before.pages| => D.Outdate(before.pages[i], m.versions[i]));
      rx := HighestAvailablePage();
      updateVersion := m.version;
      ghost var renewed := before.(txSet := {}, pages := pages[..], rx := rx, updateVersion := m.version);
      assert D.HandleProfile(before, m) == D.BeginReceive(renewed);
      hide D.HandleProfile, D.BeginReceive;
      assert State() == renewed;
      BeginReceive();
    }

    /** The loop over the version vector of a profile. */
    method OutdatePages(versions: seq<nat>)
      requires |versions| == pages.Length
      modifies pages
      ensures forall k :: 0 <= k < pages.Length ==> pages[k] == D.Outdate(old(pages[k]), versions[k])
    {
      for i := 0 to pages.Length
        invariant forall k :: 0 <= k < i ==> pages[k] == D.Outdate(old(pages[k]), versions[k])
        invariant forall k :: i <= k < pages.Length ==> pages[k] == old(pages[k])
      {
        if versions[i] > pages[i].version {
          pages[i] := D.Page({}, false, versions[i]);
        }
      }
    }

    /** send_request, when the request timer has expired while a real page is being received. */
    method SendRequest() returns (request: D.Message)
      requires Valid() && rx < pages.Length
      modifies this`requests, this`mode, this`timers
      ensures request == D.RequestOf(old(State()))
      ensures State() == D.SendRequest(old(State())) && Valid()
    {
      D.RequestTimerKeeps(State(), pages.Length);
      hide D.NodeInvariant, D.Stop, D.Highest;
      request := D.Request(pages[rx].version, rx, D.REQUEST_BITS - pages[rx].packets);
      timers := timers.(rx := false);
      requests := requests + 1;
      if requests == D.CONST_LAMBDA {
        requests := 0;
        Transition(D.Maintain);
      } else {
        timers := timers.(rx := true);
      }
    }

    /** send_page: the packets whose bits are set, in order of their number. */
    method SendPage(page: nat) returns (packets: seq<D.Message>)
      requires tx == D.Some(page) && page < pages.Length == file.Length && |file[page]| == D.N_PKT
      modifies this`txSet
      ensures txSet == {}
      ensures (set m | m in packets) == D.PacketsOf(old(State()))
      ensures forall i, j :: 0 <= i < j < |packets| ==> packets[i].Packet? && packets[j].Packet? && packets[i].number < packets[j].number
    {
      packets := [];
      for number := 0 to D.N_PKT
        invariant txSet == old(txSet)
        invariant forall m :: m in packets ==>
                    && m.Packet? && m.number < number && m.number in txSet
                    && m == D.Packet(pages[page].version, page, m.number, file[page][m.number], true)
        invariant forall k :: 0 <= k < number && k in txSet ==> D.Packet(pages[page].version, page, k, file[page][k], true) in packets
        invariant forall i, j :: 0 <= i < j < |packets| ==> packets[i].number < packets[j].number
      {
        if number in txSet {
          packets := packets + [D.Packet(pages[page].version, page, number, file[page][number], true)];
        }
      }
      txSet := {};
    }

    method TxCallback() returns (packets: seq<D.Message>)
      requires Valid()
      modifies this`tx, this`txSet, this`mode, this`timers
      ensures (set m | m in packets) == D.PacketsOf(old(State()))
      ensures State() == D.TxCallback(old(State())) && Valid()
    {
      ghost var before := State();
      D.TransmitTimerKeeps(before, pages.Length);
      D.TxFits(before, pages.Length);
      hide D.NodeInvariant, D.Stop, D.PacketsOf;
      packets := [];
      timers := timers.(tx := false);
      if tx.Some? && txSet != {} {
        packets := SendPage(tx.value);
        tx := D.None;
        Transition(D.Maintain);
      }
    }

    method SendProfile() returns (profile: D.Option<D.Message>)
      requires Valid()
      modifies this`broadcastProfile, this`timers
      ensures profile == if D.ProfileDue(old(State())) then D.Some(D.ProfileOf(old(State()))) else D.None
      ensures State() == D.ProfileCallback(old(State())) && Valid()
    {
      ghost var before := State();
      D.OtherTimersKeep(before, pages.Length);
      profile := D.None;
      timers := timers.(profile := false);
      if broadcastProfile && receivedSummaries < D.CONST_K {
        broadcastProfile := false;
        var versions: seq<nat> := [];
        for i := 0 to pages.Length
          invariant |versions| == i && forall k :: 0 <= k < i ==> versions[k] == pages[k].version
        {
          versions := versions + [pages[i].version];
        }
        profile := D.Some(D.Profile(version, versions));
        assert profile.value == D.ProfileOf(before);
      }
    }

    /** advertise_summary, when the summary timer has expired. */
    method AdvertiseSummary() returns (summary: D.Option<D.Message>)
      requires Valid()
      modifies this`timers
      ensures summary == if old(receivedSummaries) >= D.CONST_K then D.None
                         else D.Some(D.Summary(old(updateVersion), D.Highest(old(State()))))
      ensures State() == D.SummaryCallback(old(State())) && Valid()
    {
      D.OtherTimersKeep(State(), pages.Length);
      hide D.NodeInvariant, D.Stop, D.Highest;
      timers := timers.(summary := false);
      if receivedSummaries >= D.CONST_K {
        return D.None;
      }
      var highest := HighestAvailablePage();
      summary := D.Some(D.Summary(updateVersion, highest));
    }

    /** One pass of the loop of the process. */
    method NewRound()
      requires Valid()
      modifies this`interval, this`inconsistent, this`receivedSummaries, this`oldSummary, this`timers
      ensures State() == D.NewRound(old(State())) && Valid()
    {
      D.OtherTimersKeep(State(), pages.Length);
      hide D.NodeInvariant, D.Stop, D.Highest;
      if inconsistent {
        interval, inconsistent := D.T_LOW, false;
      } else {
        interval := if 2 * interval >= D.T_HIGH then D.T_HIGH else 2 * interval;
      }
      receivedSummaries, oldSummary := 0, false;
      timers := timers.(summary := true, profile := true);
    }
  }
}
